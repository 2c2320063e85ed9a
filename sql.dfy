/**
 * The parts of MySQL's semantics the plugin's queries depend on: the `LIKE`
 * operator with WordPress's `esc_like` escaping, and `ORDER BY` over columns
 * that hold numbers, text or NULL.
 */
module Sql {
  import opened Php

  // ---------------------------------------------------------------- LIKE

  /**
   * `t LIKE p` with `\` as the escape character: `%` matches any run of
   * characters, `_` exactly one, `\c` the character `c` itself. The index
   * table's collation is case-insensitive, so characters are compared after
   * ASCII case folding.
   */
  function Like(p: string, t: string): bool
    decreases |p|, |t|
  {
    if p == [] then t == []
    else if p[0] == '\\' && |p| >= 2 then t != [] && ToLowerChar(t[0]) == ToLowerChar(p[1]) && Like(p[2..], t[1..])
    else if p[0] == '%' then Like(p[1..], t) || (t != [] && Like(p, t[1..]))
    else if p[0] == '_' then t != [] && Like(p[1..], t[1..])
    else t != [] && ToLowerChar(t[0]) == ToLowerChar(p[0]) && Like(p[1..], t[1..])
  }

  const LIKE_SPECIAL: set<char> := {'%', '_', '\\'}

  /** `$wpdb->esc_like($s)`: a backslash before every `%`, `_` and `\`. */
  function EscLike(s: string): (r: string)
    ensures |r| >= |s|
  {
    if s == [] then [] else EscChar(s[0]) + EscLike(s[1..])
  }

  /** The pattern the site search binds: `'%' . esc_like($needle) . '%'`. */
  function SearchPattern(needle: string): string
  {
    "%" + EscLike(needle) + "%"
  }

  function EscChar(c: char): string
  {
    if c in LIKE_SPECIAL then ['\\', c] else [c]
  }

  lemma EscCharHead(c: char, q: string, t: string)
    ensures Like(EscChar(c) + q, t) <==> t != [] && ToLowerChar(t[0]) == ToLowerChar(c) && Like(q, t[1..])
  {
    var p := EscChar(c) + q;
    if c in LIKE_SPECIAL {
      assert p[0] == '\\' && p[1] == c && p[2..] == q;
    } else {
      assert p[0] == c && p[1..] == q;
    }
  }

  /** An escaped needle matches exactly itself, character for character up to case. */
  lemma {:induction false} LikeEscPrefix(s: string, r: string, t: string)
    ensures Like(EscLike(s) + r, t) <==> (|s| <= |t| && ToLower(t[..|s|]) == ToLower(s) && Like(r, t[|s|..]))
    decreases |s|
  {
    if s == [] {
      assert EscLike(s) + r == r;
      assert t[..0] == [] && t[0..] == t;
    } else {
      var q := EscLike(s[1..]) + r;
      assert EscLike(s) + r == EscChar(s[0]) + q;
      EscCharHead(s[0], q, t);
      if t != [] {
        LikeEscPrefix(s[1..], r, t[1..]);
        PrefixStep(s, t);
      }
    }
  }

  lemma PrefixStep(s: string, t: string)
    requires s != [] && t != []
    ensures (|s| <= |t| && ToLower(t[..|s|]) == ToLower(s)) <==>
      (ToLowerChar(t[0]) == ToLowerChar(s[0]) && |s[1..]| <= |t[1..]| && ToLower(t[1..][..|s[1..]|]) == ToLower(s[1..]))
    ensures |s| <= |t| ==> t[1..][|s[1..]|..] == t[|s|..]
  {
    if |s| <= |t| {
      var u := t[..|s|];
      assert u[1..] == t[1..][..|s| - 1];
      assert ToLower(u) == [ToLowerChar(u[0])] + ToLower(u[1..]);
      assert ToLower(s) == [ToLowerChar(s[0])] + ToLower(s[1..]);
    }
  }

  /** A leading `%` lets the rest of the pattern match any suffix. */
  lemma {:induction false} LikeLeadingPercent(q: string, t: string)
    ensures Like(['%'] + q, t) <==> exists i :: 0 <= i <= |t| && Like(q, t[i..])
    decreases |t|
  {
    var p := ['%'] + q;
    assert p[0] == '%' && p[1..] == q;
    assert Like(p, t) == (Like(q, t) || (t != [] && Like(p, t[1..])));
    if t == [] {
      if Like(q, t) { assert Like(q, t[0..]); }
      if exists i :: 0 <= i <= |t| && Like(q, t[i..]) {
        var i :| 0 <= i <= |t| && Like(q, t[i..]);
        assert t[i..] == t;
      }
    } else {
      LikeLeadingPercent(q, t[1..]);
      if Like(p, t) {
        if Like(q, t) {
          assert t[0..] == t;
        } else {
          var j :| 0 <= j <= |t[1..]| && Like(q, t[1..][j..]);
          assert t[1..][j..] == t[j + 1..];
        }
      }
      if exists i :: 0 <= i <= |t| && Like(q, t[i..]) {
        var i :| 0 <= i <= |t| && Like(q, t[i..]);
        if i == 0 {
          assert t[0..] == t;
        } else {
          assert t[1..][i - 1..] == t[i..];
        }
      }
    }
  }

  lemma {:induction false} LikePercentAll(t: string)
    ensures Like("%", t)
    decreases |t|
  {
    if t != [] {
      LikePercentAll(t[1..]);
    }
    assert "%"[1..] == [];
  }

  /**
   * The search clause `col LIKE '%' . esc_like($needle) . '%'` holds exactly
   * when the needle is a substring of the column, ignoring case; the empty
   * needle matches every value.
   */
  lemma LikeSearchIsSubstring(needle: string, t: string)
    ensures Like(SearchPattern(needle), t) <==> IsSubstring(ToLower(needle), ToLower(t))
  {
    if Like(SearchPattern(needle), t) {
      LikeSearchFinds(needle, t);
    }
    if IsSubstring(ToLower(needle), ToLower(t)) {
      SubstringMatchesSearch(needle, t);
    }
  }

  lemma LikeSearchFinds(needle: string, t: string)
    requires Like(SearchPattern(needle), t)
    ensures IsSubstring(ToLower(needle), ToLower(t))
  {
    var q := EscLike(needle) + "%";
    assert SearchPattern(needle) == ['%'] + q;
    LikeLeadingPercent(q, t);
    var i :| 0 <= i <= |t| && Like(q, t[i..]);
    LikeEscPrefix(needle, "%", t[i..]);
    FoldedOccurrence(needle, t, i);
  }

  lemma SubstringMatchesSearch(needle: string, t: string)
    requires IsSubstring(ToLower(needle), ToLower(t))
    ensures Like(SearchPattern(needle), t)
  {
    var q := EscLike(needle) + "%";
    assert SearchPattern(needle) == ['%'] + q;
    var i :| 0 <= i <= |t| && OccursAt(ToLower(needle), ToLower(t), i);
    var u := t[i..];
    FoldedOccurrence(needle, t, i);
    LikePercentAll(u[|needle|..]);
    LikeEscPrefix(needle, "%", u);
    LikeLeadingPercent(q, t);
  }

  /** The needle occurs at `i`, ignoring case, exactly when the text from `i` starts with it. */
  lemma FoldedOccurrence(needle: string, t: string, i: nat)
    requires i <= |t|
    ensures OccursAt(ToLower(needle), ToLower(t), i) <==>
      |needle| <= |t[i..]| && ToLower(t[i..][..|needle|]) == ToLower(needle)
  {
    if i + |needle| <= |t| {
      assert t[i..][..|needle|] == t[i..i + |needle|];
      ToLowerSlice(t, i, i + |needle|);
    }
  }

  /** Folding case commutes with slicing. */
  lemma ToLowerSlice(t: string, i: nat, j: nat)
    requires i <= j <= |t|
    ensures ToLower(t)[i..j] == ToLower(t[i..j])
  {
  }

  // ---------------------------------------------------------------- ORDER BY

  /** A column value as ORDER BY sees it. */
  datatype SortKey = Null | Num(n: int) | Text(s: string)

  /** Binary string order: by character code, a prefix first. */
  predicate LexLe(a: string, b: string)
  {
    a == [] || (b != [] && (a[0] < b[0] || (a[0] == b[0] && LexLe(a[1..], b[1..]))))
  }

  lemma {:induction false} LexLeTotal(a: string, b: string)
    ensures LexLe(a, b) || LexLe(b, a)
  {
    if a != [] && b != [] && a[0] == b[0] {
      LexLeTotal(a[1..], b[1..]);
    }
  }

  lemma {:induction false} LexLeTrans(a: string, b: string, c: string)
    requires LexLe(a, b) && LexLe(b, c)
    ensures LexLe(a, c)
  {
    if a != [] && b != [] && c != [] && a[0] == b[0] && b[0] == c[0] {
      LexLeTrans(a[1..], b[1..], c[1..]);
    }
  }

  /** Ascending order of keys; NULL sorts first, as in MySQL. */
  predicate KeyLe(a: SortKey, b: SortKey)
  {
    match (a, b)
    case (Null, _) => true
    case (Num(x), Num(y)) => x <= y
    case (Num(_), Text(_)) => true
    case (Text(x), Text(y)) => LexLe(x, y)
    case _ => false
  }

  lemma KeyLeTotal(a: SortKey, b: SortKey)
    ensures KeyLe(a, b) || KeyLe(b, a)
  {
    if a.Text? && b.Text? {
      LexLeTotal(a.s, b.s);
    }
  }

  lemma KeyLeTrans(a: SortKey, b: SortKey, c: SortKey)
    requires KeyLe(a, b) && KeyLe(b, c)
    ensures KeyLe(a, c)
  {
    if a.Text? && b.Text? && c.Text? {
      LexLeTrans(a.s, b.s, c.s);
    }
  }

  /** `a` may precede `b` under `ORDER BY … ASC` (or `DESC` when `desc`). */
  predicate InOrder(a: SortKey, b: SortKey, desc: bool)
  {
    if desc then KeyLe(b, a) else KeyLe(a, b)
  }

  ghost predicate SortedBy<T>(s: seq<T>, key: T -> SortKey, desc: bool)
  {
    forall i, j :: 0 <= i < j < |s| ==> InOrder(key(s[i]), key(s[j]), desc)
  }

  function Insert<T>(x: T, s: seq<T>, key: T -> SortKey, desc: bool): (r: seq<T>)
    ensures multiset(r) == multiset(s) + multiset{x}
    ensures |r| == |s| + 1
  {
    if s == [] || InOrder(key(x), key(s[0]), desc) then [x] + s
    else
      assert s == [s[0]] + s[1..];
      [s[0]] + Insert(x, s[1..], key, desc)
  }

  /** The rows in key order; rows with equal keys keep their table order. */
  function SortBy<T>(s: seq<T>, key: T -> SortKey, desc: bool): (r: seq<T>)
    ensures multiset(r) == multiset(s)
    ensures |r| == |s|
  {
    if s == [] then []
    else
      assert s == [s[0]] + s[1..];
      Insert(s[0], SortBy(s[1..], key, desc), key, desc)
  }

  lemma InOrderTotal(a: SortKey, b: SortKey, desc: bool)
    ensures InOrder(a, b, desc) || InOrder(b, a, desc)
  {
    KeyLeTotal(a, b);
  }

  lemma InOrderTrans(a: SortKey, b: SortKey, c: SortKey, desc: bool)
    requires InOrder(a, b, desc) && InOrder(b, c, desc)
    ensures InOrder(a, c, desc)
  {
    if desc { KeyLeTrans(c, b, a); } else { KeyLeTrans(a, b, c); }
  }

  lemma {:induction false} InsertSorted<T>(x: T, s: seq<T>, key: T -> SortKey, desc: bool)
    requires SortedBy(s, key, desc)
    ensures SortedBy(Insert(x, s, key, desc), key, desc)
  {
    var r := Insert(x, s, key, desc);
    if s == [] || InOrder(key(x), key(s[0]), desc) {
      forall i, j | 0 <= i < j < |r| ensures InOrder(key(r[i]), key(r[j]), desc) {
        if i == 0 && j > 1 {
          InOrderTrans(key(x), key(s[0]), key(s[j - 1]), desc);
        }
      }
    } else {
      InOrderTotal(key(x), key(s[0]), desc);
      var t := Insert(x, s[1..], key, desc);
      InsertSorted(x, s[1..], key, desc);
      assert r == [s[0]] + t;
      assert forall k :: 0 <= k < |s[1..]| ==> s[1..][k] == s[k + 1];
      InsertBounded(x, s[1..], key, desc, key(s[0]));
      forall i, j | 0 <= i < j < |r| ensures InOrder(key(r[i]), key(r[j]), desc) {
        if i > 0 {
          assert r[i] == t[i - 1] && r[j] == t[j - 1];
        }
      }
    }
  }

  /** A key that precedes `x` and every row of `s` precedes every row of `Insert(x, s)`. */
  lemma {:induction false} InsertBounded<T>(x: T, s: seq<T>, key: T -> SortKey, desc: bool, lo: SortKey)
    requires InOrder(lo, key(x), desc)
    requires forall k :: 0 <= k < |s| ==> InOrder(lo, key(s[k]), desc)
    ensures forall j :: 0 <= j < |Insert(x, s, key, desc)| ==> InOrder(lo, key(Insert(x, s, key, desc)[j]), desc)
  {
    var r := Insert(x, s, key, desc);
    if s == [] || InOrder(key(x), key(s[0]), desc) {
      assert forall j :: 0 < j < |r| ==> r[j] == s[j - 1];
    } else {
      assert forall k :: 0 <= k < |s[1..]| ==> s[1..][k] == s[k + 1];
      InsertBounded(x, s[1..], key, desc, lo);
      var t := Insert(x, s[1..], key, desc);
      assert r == [s[0]] + t;
      assert forall j :: 0 < j < |r| ==> r[j] == t[j - 1];
    }
  }

  lemma {:induction false} SortBySorted<T>(s: seq<T>, key: T -> SortKey, desc: bool)
    ensures SortedBy(SortBy(s, key, desc), key, desc)
  {
    if s != [] {
      SortBySorted(s[1..], key, desc);
      InsertSorted(s[0], SortBy(s[1..], key, desc), key, desc);
    }
  }
}
