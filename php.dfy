/**
 * The few PHP (and browser) runtime conversions the plugin leans on when it
 * normalises request parameters and settings: `trim`, `explode`/`implode`,
 * `intval`/`absint`, `filter_var` with FILTER_VALIDATE_INT and
 * FILTER_VALIDATE_BOOLEAN, and integer-to-string conversion.
 */
module Php {

  datatype Option<+T> = None | Some(value: T)

  /** Characters PHP's `trim` removes by default. */
  const TRIM_CHARS: set<char> := {' ', '\t', '\n', '\r', '\0', '\U{B}'}

  /** Characters `intval` skips before the number. */
  const INTVAL_SPACE: set<char> := {' ', '\t', '\n', '\r', '\U{B}', '\U{C}'}

  predicate IsDigit(c: char) { '0' <= c <= '9' }

  function DigitValue(c: char): nat
    requires IsDigit(c)
  {
    (c as int - '0' as int) as nat
  }

  function DigitChar(d: nat): (c: char)
    requires d < 10
    ensures IsDigit(c) && DigitValue(c) == d
  {
    ('0' as int + d) as char
  }

  // ---------------------------------------------------------------- trim

  /** Index of the first character `trim` keeps. */
  function TrimLo(s: string): (i: nat)
    ensures i <= |s|
    ensures forall k :: 0 <= k < i ==> s[k] in TRIM_CHARS
    ensures i < |s| ==> s[i] !in TRIM_CHARS
  {
    if s == [] || s[0] !in TRIM_CHARS then 0 else 1 + TrimLo(s[1..])
  }

  /** One past the last character `trim` keeps. */
  function TrimHi(s: string): (j: nat)
    ensures j <= |s|
    ensures forall k :: j <= k < |s| ==> s[k] in TRIM_CHARS
    ensures 0 < j ==> s[j - 1] !in TRIM_CHARS
  {
    if s == [] || s[|s| - 1] !in TRIM_CHARS then |s| else TrimHi(s[..|s| - 1])
  }

  lemma TrimBounds(s: string)
    requires TrimLo(s) < |s|
    ensures TrimLo(s) < TrimHi(s)
  {
    var i := TrimLo(s);
    assert s[i] !in TRIM_CHARS;
  }

  /** PHP `trim($s)`: strips the default characters from both ends. */
  function Trim(s: string): (r: string)
    ensures r == [] || (r[0] !in TRIM_CHARS && r[|r| - 1] !in TRIM_CHARS)
    ensures |r| <= |s|
    ensures forall c :: c in r ==> c in s
    ensures exists i, j ::
              (0 <= i <= j <= |s| && r == s[i..j]
               && (forall k :: 0 <= k < i ==> s[k] in TRIM_CHARS)
               && (forall k :: j <= k < |s| ==> s[k] in TRIM_CHARS))
  {
    if TrimLo(s) == |s| then
      assert s[|s|..|s|] == [];
      []
    else
      TrimBounds(s);
      s[TrimLo(s)..TrimHi(s)]
  }

  lemma {:induction false} TrimKeepsInner(s: string)
    requires s == [] || (s[0] !in TRIM_CHARS && s[|s| - 1] !in TRIM_CHARS)
    ensures Trim(s) == s
  {
    assert TrimLo(s) == 0;
    assert TrimHi(s) == |s|;
  }

  // ---------------------------------------------------------------- explode / implode

  /** PHP `explode($sep, $s)` for a one-character separator; never empty. */
  function Explode(sep: char, s: string): (parts: seq<string>)
    ensures |parts| >= 1
    ensures forall k :: 0 <= k < |parts| ==> sep !in parts[k]
  {
    if s == [] then [[]]
    else
      var rest := Explode(sep, s[1..]);
      if s[0] == sep then [[]] + rest
      else [[s[0]] + rest[0]] + rest[1..]
  }

  /** PHP `implode($sep, $parts)`. */
  function Implode(sep: char, parts: seq<string>): string
  {
    if parts == [] then []
    else if |parts| == 1 then parts[0]
    else parts[0] + [sep] + Implode(sep, parts[1..])
  }

  lemma {:induction false} ImplodeExplode(sep: char, s: string)
    ensures Implode(sep, Explode(sep, s)) == s
  {
    if s != [] {
      ImplodeExplode(sep, s[1..]);
      var rest := Explode(sep, s[1..]);
      if s[0] == sep {
        assert Explode(sep, s) == [[]] + rest;
        assert s == [sep] + s[1..];
      } else {
        if |rest| == 1 {
          assert Implode(sep, Explode(sep, s)) == [s[0]] + rest[0];
        } else {
          assert ([[s[0]] + rest[0]] + rest[1..])[1..] == rest[1..];
          assert Implode(sep, rest) == rest[0] + [sep] + Implode(sep, rest[1..]);
        }
        assert s == [s[0]] + s[1..];
      }
    }
  }

  lemma {:induction false} ExplodeImplode(sep: char, parts: seq<string>)
    requires |parts| >= 1
    requires forall k :: 0 <= k < |parts| ==> sep !in parts[k]
    ensures Explode(sep, Implode(sep, parts)) == parts
  {
    if |parts| == 1 {
      ExplodeNoSep(sep, parts[0]);
    } else {
      ExplodeImplode(sep, parts[1..]);
      ExplodeAppend(sep, parts[0], Implode(sep, parts[1..]));
    }
  }

  lemma {:induction false} ExplodeNoSep(sep: char, s: string)
    requires sep !in s
    ensures Explode(sep, s) == [s]
  {
    if s != [] {
      ExplodeNoSep(sep, s[1..]);
      assert s == [s[0]] + s[1..];
    }
  }

  /** Exploding `a + sep + b` with `sep` not in `a` splits off `a` first. */
  lemma {:induction false} ExplodeAppend(sep: char, a: string, b: string)
    requires sep !in a
    ensures Explode(sep, a + [sep] + b) == [a] + Explode(sep, b)
  {
    if a == [] {
      assert a + [sep] + b == [sep] + b;
      assert ([sep] + b)[1..] == b;
    } else {
      ExplodeAppend(sep, a[1..], b);
      assert (a + [sep] + b)[1..] == a[1..] + [sep] + b;
      assert a == [a[0]] + a[1..];
    }
  }

  // ---------------------------------------------------------------- integers

  /** Value of a run of decimal digits, most significant first. */
  function DigitsToNat(ds: string): nat
    requires forall k :: 0 <= k < |ds| ==> IsDigit(ds[k])
  {
    if ds == [] then 0 else 10 * DigitsToNat(ds[..|ds| - 1]) + DigitValue(ds[|ds| - 1])
  }

  /** The longest prefix of `s` made of decimal digits. */
  function LeadingDigits(s: string): (ds: string)
    ensures |ds| <= |s| && ds == s[..|ds|]
    ensures forall k :: 0 <= k < |ds| ==> IsDigit(ds[k])
    ensures |ds| < |s| ==> !IsDigit(s[|ds|])
  {
    if s == [] || !IsDigit(s[0]) then [] else [s[0]] + LeadingDigits(s[1..])
  }

  function SkipIntvalSpace(s: string): (t: string)
    ensures |t| <= |s| && t == s[|s| - |t|..]
    ensures t == [] || t[0] !in INTVAL_SPACE
  {
    if s == [] || s[0] !in INTVAL_SPACE then s else SkipIntvalSpace(s[1..])
  }

  /** `10` to the power `k`. */
  function Pow10(k: nat): (p: nat)
    ensures p >= 1
  {
    if k == 0 then 1 else 10 * Pow10(k - 1)
  }

  /**
   * The exponent a float numeric string may end with: `e` or `E`, an optional
   * sign and at least one digit. Anything else is no exponent, read as 0.
   */
  function Exponent(s: string): int
  {
    if |s| >= 2 && (s[0] == 'e' || s[0] == 'E') then
      var signed := s[1] == '-' || s[1] == '+';
      var ds := LeadingDigits(s[if signed then 2 else 1..]);
      if ds == [] then 0
      else if s[1] == '-' then -(DigitsToNat(ds) as int)
      else DigitsToNat(ds)
    else 0
  }

  lemma DigitsConcat(a: string, b: string)
    requires forall k :: 0 <= k < |a| ==> IsDigit(a[k])
    requires forall k :: 0 <= k < |b| ==> IsDigit(b[k])
    ensures forall k :: 0 <= k < |a + b| ==> IsDigit((a + b)[k])
  {
  }

  /** The digits after a leading `.`, if there is one. */
  function FractionDigits(r: string): (fp: string)
    ensures forall k :: 0 <= k < |fp| ==> IsDigit(fp[k])
    ensures fp != [] ==> r != [] && r[0] == '.' && 1 + |fp| <= |r|
  {
    if r != [] && r[0] == '.' then LeadingDigits(r[1..]) else []
  }

  /** What follows the fraction: the text after the point and its digits. */
  function AfterFraction(r: string): string
  {
    if r != [] && r[0] == '.' then r[1 + |FractionDigits(r)|..] else r
  }

  /** `n` times `10^k`. */
  function ScaleUp(n: nat, k: nat): nat
  {
    if k == 0 then n else 10 * ScaleUp(n, k - 1)
  }

  /** `n` divided by `10^k`, truncated toward zero. */
  function ScaleDown(n: nat, k: nat): nat
  {
    if k == 0 then n else ScaleDown(n / 10, k - 1)
  }

  /** `n` times `10^scale`, truncated toward zero for a negative scale. */
  function Scaled(n: nat, scale: int): nat
  {
    if scale >= 0 then ScaleUp(n, scale) else ScaleDown(n, -scale)
  }

  /**
   * The magnitude `intval` reads from unsigned text: the leading digits, an
   * optional `.` with more digits and an optional exponent, the value
   * truncated toward zero. Without a digit before or after the point the
   * text is not numeric and reads as 0.
   */
  function Magnitude(u: string): nat
  {
    var ip := LeadingDigits(u);
    MagnitudeAfter(ip, u[|ip|..])
  }

  /** The magnitude once the integer digits `ip` are read and `r1` follows them. */
  function MagnitudeAfter(ip: string, r1: string): nat
    requires forall k :: 0 <= k < |ip| ==> IsDigit(ip[k])
  {
    var fp := FractionDigits(r1);
    if ip == [] && fp == [] then 0
    else
      DigitsConcat(ip, fp);
      Scaled(DigitsToNat(ip + fp), Exponent(AfterFraction(r1)) - |fp|)
  }

  /**
   * PHP `intval($s)` on a string (PHP 7.1 and later): leading white space,
   * an optional sign, then the integer or float numeric prefix, truncated
   * toward zero; whatever follows the prefix is ignored.
   */
  function IntVal(s: string): int
  {
    var t := SkipIntvalSpace(s);
    if t != [] && t[0] == '-' then -(Magnitude(t[1..]) as int)
    else if t != [] && t[0] == '+' then Magnitude(t[1..])
    else Magnitude(t)
  }

  function Abs(x: int): nat { if x < 0 then -x else x }

  /** WordPress `absint($s)`: the absolute value of `intval($s)`. */
  function AbsInt(s: string): nat { Abs(IntVal(s)) }

  /** Decimal notation of `n` without leading zeros. */
  function NatToString(n: nat): (s: string)
    ensures |s| >= 1
    ensures forall k :: 0 <= k < |s| ==> IsDigit(s[k])
    ensures s[0] != '0' || n == 0
  {
    if n < 10 then [DigitChar(n)] else NatToString(n / 10) + [DigitChar(n % 10)]
  }

  /** Decimal notation of an integer, with `-` for negatives (PHP `(string)`). */
  function IntToString(x: int): string
  {
    if x < 0 then "-" + NatToString(-x) else NatToString(x)
  }

  lemma {:induction false} DigitsOfNatToString(n: nat)
    ensures DigitsToNat(NatToString(n)) == n
  {
    var s := NatToString(n);
    if n >= 10 {
      DigitsOfNatToString(n / 10);
      assert s[..|s| - 1] == NatToString(n / 10);
    }
  }

  lemma {:induction false} LeadingDigitsAll(s: string)
    requires forall k :: 0 <= k < |s| ==> IsDigit(s[k])
    ensures LeadingDigits(s) == s
  {
    if s != [] {
      LeadingDigitsAll(s[1..]);
      assert s == [s[0]] + s[1..];
    }
  }

  /** Text that starts with a digit has no sign and no leading space to skip. */
  lemma IntValUnsigned(s: string)
    requires s != [] && IsDigit(s[0])
    ensures IntVal(s) == Magnitude(s)
  {
    NotSpace(s);
  }

  /** The magnitude of digits `ip` followed by text `rest` that does not start with a digit. */
  lemma MagnitudeSplit(ip: string, rest: string)
    requires ip != []
    requires forall k :: 0 <= k < |ip| ==> IsDigit(ip[k])
    requires rest == [] || !IsDigit(rest[0])
    ensures Magnitude(ip + rest) ==
      Scaled(DigitsToNat(ip + FractionDigits(rest)), Exponent(AfterFraction(rest)) - |FractionDigits(rest)|)
  {
    LeadingDigitsStop(ip, rest);
    assert (ip + rest)[|ip|..] == rest;
    assert Magnitude(ip + rest) == MagnitudeAfter(ip, rest);
  }

  /** A plain run of digits reads as its decimal value. */
  lemma MagnitudeOfDigits(ds: string)
    requires forall k :: 0 <= k < |ds| ==> IsDigit(ds[k])
    ensures Magnitude(ds) == DigitsToNat(ds)
  {
    if ds != [] {
      assert ds + [] == ds;
      MagnitudeSplit(ds, []);
    }
  }

  /** `intval` reads back what integer-to-string conversion wrote. */
  lemma IntValOfNatToString(n: nat)
    ensures IntVal(NatToString(n)) == n
    ensures AbsInt(NatToString(n)) == n
  {
    var s := NatToString(n);
    IntValUnsigned(s);
    MagnitudeOfDigits(s);
    DigitsOfNatToString(n);
  }

  /** The leading digits stop at the first character that is not a digit. */
  lemma {:induction false} LeadingDigitsStop(ds: string, rest: string)
    requires forall k :: 0 <= k < |ds| ==> IsDigit(ds[k])
    requires rest == [] || !IsDigit(rest[0])
    ensures LeadingDigits(ds + rest) == ds
  {
    if ds == [] {
      assert ds + rest == rest;
    } else {
      LeadingDigitsStop(ds[1..], rest);
      assert (ds + rest)[1..] == ds[1..] + rest;
      assert ds == [ds[0]] + ds[1..];
    }
  }

  /** A number in exponent notation reads as the number times that power of ten. */
  lemma IntValOfExponent(n: nat, e: nat)
    ensures IntVal(NatToString(n) + "e" + NatToString(e)) == n * Pow10(e)
  {
    IntValOfExponentScaled(n, e);
    ScaleUpIsProduct(n, e);
  }

  lemma IntValOfExponentScaled(n: nat, e: nat)
    ensures IntVal(NatToString(n) + "e" + NatToString(e)) == ScaleUp(n, e)
  {
    var m := NatToString(n);
    var x := NatToString(e);
    assert m + "e" + x == m + ("e" + x);
    IntValExponentDigits(m, x);
    DigitsOfNatToString(n);
    DigitsOfNatToString(e);
  }

  /** Digits, `e` and more digits read as the first number scaled up by the second. */
  lemma IntValExponentDigits(m: string, x: string)
    requires m != [] && x != []
    requires forall k :: 0 <= k < |m| ==> IsDigit(m[k])
    requires forall k :: 0 <= k < |x| ==> IsDigit(x[k])
    ensures IntVal(m + ("e" + x)) == ScaleUp(DigitsToNat(m), DigitsToNat(x))
  {
    var r := "e" + x;
    assert (m + r)[0] == m[0];
    IntValUnsigned(m + r);
    MagnitudeSplit(m, r);
    ExponentOfDigits(x);
    assert m + FractionDigits(r) == m;
    assert Exponent(AfterFraction(r)) - |FractionDigits(r)| == DigitsToNat(x);
  }

  /** `e` and digits, with nothing after them, read as the exponent those digits spell. */
  lemma ExponentOfDigits(x: string)
    requires x != []
    requires forall k :: 0 <= k < |x| ==> IsDigit(x[k])
    ensures FractionDigits("e" + x) == [] && AfterFraction("e" + x) == "e" + x
    ensures Exponent("e" + x) == DigitsToNat(x)
  {
    assert ("e" + x)[1..] == x;
    LeadingDigitsAll(x);
  }

  lemma {:induction false} ScaleUpIsProduct(n: nat, k: nat)
    ensures ScaleUp(n, k) == n * Pow10(k)
  {
    if k > 0 {
      ScaleUpIsProduct(n, k - 1);
      assert n * Pow10(k) == n * (10 * Pow10(k - 1));
    }
  }

  /** A fraction is cut off: `intval` truncates toward zero. */
  lemma IntValDropsFraction(n: nat, f: nat)
    ensures IntVal(NatToString(n) + "." + NatToString(f)) == n
  {
    var m := NatToString(n);
    var x := NatToString(f);
    assert m + "." + x == m + ("." + x);
    IntValFractionDigits(m, x);
    DigitsOfNatToString(n);
  }

  /** Digits, `.` and more digits read as the digits before the point. */
  lemma IntValFractionDigits(m: string, x: string)
    requires m != []
    requires forall k :: 0 <= k < |m| ==> IsDigit(m[k])
    requires forall k :: 0 <= k < |x| ==> IsDigit(x[k])
    ensures IntVal(m + ("." + x)) == DigitsToNat(m)
  {
    var r := "." + x;
    assert (m + r)[0] == m[0];
    IntValUnsigned(m + r);
    MagnitudeSplit(m, r);
    FractionOfDigits(x);
    assert Exponent(AfterFraction(r)) - |FractionDigits(r)| == -|x|;
    DropDigits(m, x);
  }

  /** `.` and digits, with nothing after them, are a fraction and no exponent. */
  lemma FractionOfDigits(x: string)
    requires forall k :: 0 <= k < |x| ==> IsDigit(x[k])
    ensures FractionDigits("." + x) == x && AfterFraction("." + x) == []
  {
    assert ("." + x)[1..] == x;
    LeadingDigitsAll(x);
  }

  /** Dividing by `10^|b|` drops the digits `b` written after `a`. */
  lemma {:induction false} DropDigits(a: string, b: string)
    requires forall k :: 0 <= k < |a| ==> IsDigit(a[k])
    requires forall k :: 0 <= k < |b| ==> IsDigit(b[k])
    ensures ScaleDown(DigitsToNat(a + b), |b|) == DigitsToNat(a)
    decreases |b|
  {
    if b == [] {
      assert a + b == a;
    } else {
      var b0 := b[1..];
      var a1 := a + [b[0]];
      assert a + b == a1 + b0;
      DropDigits(a1, b0);
      assert a1[..|a1| - 1] == a;
      ScaleDownLast(a1, b0);
    }
  }

  /** Moving one digit from the dropped part to the kept part takes one more division by 10. */
  lemma ScaleDownLast(a1: string, b0: string)
    requires |a1| >= 1
    requires forall k :: 0 <= k < |a1| ==> IsDigit(a1[k])
    requires forall k :: 0 <= k < |b0| ==> IsDigit(b0[k])
    requires ScaleDown(DigitsToNat(a1 + b0), |b0|) == DigitsToNat(a1)
    ensures ScaleDown(DigitsToNat(a1 + b0), |b0| + 1) == DigitsToNat(a1[..|a1| - 1])
  {
    ScaleDownOuter(DigitsToNat(a1 + b0), |b0|);
  }

  /** Dividing by 10 once more can happen last instead of first. */
  lemma {:induction false} ScaleDownOuter(n: nat, k: nat)
    ensures ScaleDown(n, k + 1) == ScaleDown(n, k) / 10
  {
    if k > 0 {
      ScaleDownOuter(n / 10, k - 1);
    }
  }

  // ---------------------------------------------------------------- filter_var

  /** Characters `filter_var` trims before validating. */
  const FILTER_SPACE: set<char> := {' ', '\t', '\n', '\r', '\U{B}'}

  function FilterTrimLo(s: string): (t: string)
    ensures |t| <= |s|
  {
    if s == [] || s[0] !in FILTER_SPACE then s else FilterTrimLo(s[1..])
  }

  function FilterTrimHi(s: string): (t: string)
    ensures |t| <= |s|
  {
    if s == [] || s[|s| - 1] !in FILTER_SPACE then s else FilterTrimHi(s[..|s| - 1])
  }

  function FilterTrim(s: string): string { FilterTrimHi(FilterTrimLo(s)) }

  /** A digit run that FILTER_VALIDATE_INT accepts: `0`, or no leading zero. */
  predicate CanonicalDigits(ds: string)
  {
    && |ds| >= 1
    && (forall k :: 0 <= k < |ds| ==> IsDigit(ds[k]))
    && (ds[0] == '0' ==> |ds| == 1)
  }

  /**
   * `filter_var($s, FILTER_VALIDATE_INT)`: the whole trimmed string must be
   * an optional sign followed by canonical digits; `None` stands for `false`.
   */
  function FilterInt(s: string): (r: Option<int>)
    ensures r.Some? ==> r.value == IntVal(FilterTrim(s))
  {
    var t := FilterTrim(s);
    if t != [] && (t[0] == '-' || t[0] == '+') && CanonicalDigits(t[1..]) then
      CanonicalIntVal(t);
      Some(if t[0] == '-' then -(DigitsToNat(t[1..]) as int) else DigitsToNat(t[1..]))
    else if CanonicalDigits(t) then
      CanonicalIntVal(t);
      Some(DigitsToNat(t))
    else None
  }

  lemma CanonicalIntVal(t: string)
    requires t != []
    requires ((t[0] == '-' || t[0] == '+') && CanonicalDigits(t[1..])) || CanonicalDigits(t)
    ensures (t[0] == '-' || t[0] == '+') && CanonicalDigits(t[1..]) ==>
      IntVal(t) == if t[0] == '-' then -(DigitsToNat(t[1..]) as int) else DigitsToNat(t[1..]) as int
    ensures CanonicalDigits(t) ==> IntVal(t) == DigitsToNat(t)
  {
    NotSpace(t);
    if CanonicalDigits(t[1..]) {
      MagnitudeOfDigits(t[1..]);
    }
    if CanonicalDigits(t) {
      MagnitudeOfDigits(t);
    }
  }

  lemma NotSpace(t: string)
    requires t != [] && (IsDigit(t[0]) || t[0] == '-' || t[0] == '+')
    ensures SkipIntvalSpace(t) == t
  {
    assert t[0] !in INTVAL_SPACE;
  }

  lemma FilterIntOfNatToString(n: nat)
    ensures FilterInt(NatToString(n)) == Some(n)
  {
    var s := NatToString(n);
    assert s[0] !in FILTER_SPACE;
    assert FilterTrimLo(s) == s;
    assert s[|s| - 1] !in FILTER_SPACE;
    assert FilterTrimHi(s) == s;
    assert CanonicalDigits(s);
    DigitsOfNatToString(n);
    assert FilterInt(s) == Some(DigitsToNat(s));
  }

  function ToLowerChar(c: char): char
  {
    if 'A' <= c <= 'Z' then (c as int - 'A' as int + 'a' as int) as char else c
  }

  /** `strtolower`: ASCII capitals become small letters, every other character is kept. */
  function ToLower(s: string): (r: string)
    ensures |r| == |s|
    ensures forall k :: 0 <= k < |r| ==> !('A' <= r[k] <= 'Z')
    ensures forall k :: 0 <= k < |s| && !('A' <= s[k] <= 'Z') ==> r[k] == s[k]
    ensures forall k :: 0 <= k < |s| && 'A' <= s[k] <= 'Z' ==> r[k] == (s[k] as int + 32) as char
  {
    seq(|s|, k requires 0 <= k < |s| => ToLowerChar(s[k]))
  }

  /** Lower-casing twice is lower-casing once. */
  lemma ToLowerIdempotent(s: string)
    ensures ToLower(ToLower(s)) == ToLower(s)
  {
    var r := ToLower(s);
    assert ToLower(r) == r;
  }

  /**
   * `filter_var($s, FILTER_VALIDATE_BOOLEAN)` without FILTER_NULL_ON_FAILURE:
   * true exactly for "1", "true", "on" and "yes" in any letter case.
   */
  function FilterBool(s: string): bool
  {
    ToLower(FilterTrim(s)) in {"1", "true", "on", "yes"}
  }

  /** JavaScript `String(b)`. */
  function BoolToString(b: bool): string { if b then "true" else "false" }

  lemma FilterBoolOfBoolToString(b: bool)
    ensures FilterBool(BoolToString(b)) == b
  {
    var s := BoolToString(b);
    assert FilterTrimLo(s) == s;
    assert FilterTrimHi(s) == s;
    assert ToLower(s) == s;
  }

  // ---------------------------------------------------------------- substrings

  predicate OccursAt(needle: string, hay: string, i: int)
  {
    0 <= i && i + |needle| <= |hay| && hay[i..i + |needle|] == needle
  }

  /** `needle` occurs somewhere in `hay` (the empty needle occurs everywhere). */
  predicate IsSubstring(needle: string, hay: string)
  {
    exists i :: 0 <= i <= |hay| && OccursAt(needle, hay, i)
  }

  /** PHP's "empty" test on a request string: `''` and `'0'` are empty. */
  predicate EmptyString(s: string) { s == "" || s == "0" }
}
