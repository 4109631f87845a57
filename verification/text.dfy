/**
  Java string and integer semantics the service relies on: `Long.parseLong`,
  `String.valueOf(long)`, `String.trim().isEmpty()`, `String.contains`,
  `String.toLowerCase` (ASCII letters only), the 32-bit `int` wrap-around and
  Java's truncating integer division.
*/
module Text {
  import opened Wrappers

  const INT_MIN: int := -0x8000_0000
  const INT_MAX: int := 0x7fff_ffff
  const LONG_MIN: int := -0x8000_0000_0000_0000
  const LONG_MAX: int := 0x7fff_ffff_ffff_ffff

  predicate IsInt32(x: int) { INT_MIN <= x <= INT_MAX }

  /** Java's narrowing of a wider integer to `int` (`Long.intValue`, an `int` sum that overflows). */
  function Wrap32(x: int): (r: int)
    ensures IsInt32(r)
    ensures (x - r) % 0x1_0000_0000 == 0
    ensures IsInt32(x) ==> r == x
  {
    var m := x % 0x1_0000_0000;
    if m > INT_MAX then m - 0x1_0000_0000 else m
  }

  /** Java's `a / b`, which rounds toward zero (Dafny's `/` rounds toward negative infinity). */
  function TruncDiv(a: int, b: int): (q: int)
    requires b > 0
    ensures a >= 0 ==> q >= 0 && q * b <= a < q * b + b
    ensures a < 0 ==> q <= 0 && q * b - b < a <= q * b
  {
    if a >= 0 then
      DivBounds(a, b);
      a / b
    else
      DivBounds(-a, b);
      NegateProduct((-a) / b, b);
      -((-a) / b)
  }

  lemma DivBounds(a: int, b: int)
    requires a >= 0 && b > 0
    ensures a / b >= 0 && (a / b) * b <= a < (a / b) * b + b
  {
  }

  lemma NegateProduct(q: int, b: int)
    ensures (-q) * b == -(q * b)
  {
  }

  /** Sign, step and remainder facts about `TruncDiv(a, b) * b`, the multiple of `b` that truncation reaches. */
  lemma TruncDivFacts(a: int, b: int)
    requires b >= 1
    ensures TruncDiv(a, b) >= 0 <==> a > -b
    ensures a > -b ==> TruncDiv(a, b) * b >= 0
    ensures (TruncDiv(a, b) + 1) * b == TruncDiv(a, b) * b + b
    ensures TruncDiv(a, b) >= 1 <==> a >= b
    ensures a >= 0 ==> TruncDiv(a, b) * b == a - a % b
    ensures -b < a < 0 ==> TruncDiv(a, b) * b == 0
  {
    var q := TruncDiv(a, b);
    ProductSign(q, b);
    ProductStep(q, b);
    if a >= 0 {
      assert q == a / b;
      DivModSplit(a, b);
    }
  }

  lemma ProductStep(q: int, b: int)
    ensures (q + 1) * b == q * b + b
  {
  }

  lemma ProductSign(q: int, b: int)
    requires b >= 1
    ensures q == 0 ==> q * b == 0
    ensures q >= 0 ==> q * b >= 0
    ensures q >= 1 ==> q * b >= b
    ensures q <= -1 ==> q * b <= -b
  {
  }

  lemma DivModSplit(a: int, b: int)
    requires b >= 1
    ensures (a / b) * b == a - a % b
  {
  }

  // ---------------------------------------------------------------- case

  predicate IsUpper(c: char) { 'A' <= c <= 'Z' }

  function ToLowerChar(c: char): (r: char)
    ensures !IsUpper(r)
    ensures !IsUpper(c) ==> r == c
  {
    if IsUpper(c) then (c as int + 32) as char else c
  }

  /** `String.toLowerCase` restricted to ASCII letters. */
  function ToLower(s: string): (r: string)
    ensures |r| == |s|
    ensures forall i :: 0 <= i < |s| ==> r[i] == ToLowerChar(s[i])
    ensures forall i :: 0 <= i < |r| ==> !IsUpper(r[i])
  {
    if s == [] then [] else [ToLowerChar(s[0])] + ToLower(s[1..])
  }

  /** A string without upper-case letters is its own lower-case form. */
  lemma ToLowerOfLowerCase(s: string)
    requires forall i :: 0 <= i < |s| ==> !IsUpper(s[i])
    ensures ToLower(s) == s
  {
  }

  lemma ToLowerIdempotent(s: string)
    ensures ToLower(ToLower(s)) == ToLower(s)
  {
  }

  // ---------------------------------------------------------------- trim

  /** The characters `String.trim` strips: every code point up to and including space. */
  predicate IsTrimmable(c: char) { c <= ' ' }

  function TrimStart(s: string): (r: string)
    ensures |r| <= |s| && r == s[|s| - |r|..]
    ensures r == [] || !IsTrimmable(r[0])
    ensures forall i :: 0 <= i < |s| - |r| ==> IsTrimmable(s[i])
  {
    if s != [] && IsTrimmable(s[0]) then TrimStart(s[1..]) else s
  }

  function TrimEnd(s: string): (r: string)
    ensures |r| <= |s| && r == s[..|r|]
    ensures r == [] || !IsTrimmable(r[|r| - 1])
    ensures forall i :: |r| <= i < |s| ==> IsTrimmable(s[i])
  {
    if s != [] && IsTrimmable(s[|s| - 1]) then TrimEnd(s[..|s| - 1]) else s
  }

  /** `String.trim`: drop leading and trailing characters up to space. */
  function Trim(s: string): string {
    TrimEnd(TrimStart(s))
  }

  /** `s.trim().isEmpty()`. */
  predicate IsBlank(s: string) {
    Trim(s) == []
  }

  /** A string is blank exactly when every character in it is one `trim` strips. */
  lemma BlankIffAllTrimmable(s: string)
    ensures IsBlank(s) <==> forall i :: 0 <= i < |s| ==> IsTrimmable(s[i])
  {
  }

  /** Lower-casing leaves the blank check unchanged: it only touches letters, which `trim` never strips. */
  lemma {:induction false} ToLowerKeepsBlank(s: string)
    ensures IsBlank(ToLower(s)) <==> IsBlank(s)
  {
    BlankIffAllTrimmable(s);
    BlankIffAllTrimmable(ToLower(s));
    forall i | 0 <= i < |s| ensures IsTrimmable(ToLower(s)[i]) <==> IsTrimmable(s[i]) {
      LowerKeepsTrimmable(s[i]);
    }
  }

  lemma LowerKeepsTrimmable(c: char)
    ensures IsTrimmable(ToLowerChar(c)) <==> IsTrimmable(c)
  {
  }

  // ---------------------------------------------------------------- substring

  predicate IsPrefix(q: string, s: string) {
    |q| <= |s| && s[..|q|] == q
  }

  /** `q` occurs in `s` starting at position `i`. */
  predicate OccursAt(s: string, q: string, i: int) {
    0 <= i <= |s| - |q| && s[i..i + |q|] == q
  }

  /** `s.contains(q)`, scanning start positions left to right. */
  predicate Contains(s: string, q: string)
    decreases |s|
  {
    IsPrefix(q, s) || (|s| > |q| && Contains(s[1..], q))
  }

  /** `Contains` holds exactly when `q` occurs in `s` at some position. */
  lemma {:induction false} ContainsIffOccurs(s: string, q: string)
    ensures Contains(s, q) <==> exists i :: OccursAt(s, q, i)
    decreases |s|
  {
    if IsPrefix(q, s) {
      assert OccursAt(s, q, 0);
    } else if |s| > |q| {
      ContainsIffOccurs(s[1..], q);
      if Contains(s[1..], q) {
        var i :| OccursAt(s[1..], q, i);
        assert s[i + 1..i + 1 + |q|] == q;
        assert OccursAt(s, q, i + 1);
      }
      if exists i :: OccursAt(s, q, i) {
        var i :| OccursAt(s, q, i);
        assert i != 0;
        assert s[1..][i - 1..i - 1 + |q|] == q;
        assert OccursAt(s[1..], q, i - 1);
      }
    }
  }

  // ---------------------------------------------------------------- decimal numbers

  predicate IsDigit(c: char) { '0' <= c <= '9' }

  predicate AllDigits(s: string) {
    forall i :: 0 <= i < |s| ==> IsDigit(s[i])
  }

  function DigitValue(c: char): nat
    requires IsDigit(c)
  {
    c as int - '0' as int
  }

  function DigitChar(d: nat): (c: char)
    requires d < 10
    ensures IsDigit(c) && DigitValue(c) == d
  {
    ('0' as int + d) as char
  }

  /** The value of a string of decimal digits, most significant first. */
  function DigitsValue(s: string): nat
    requires AllDigits(s)
  {
    if s == [] then 0 else DigitsValue(s[..|s| - 1]) * 10 + DigitValue(s[|s| - 1])
  }

  /** `s` is the sign `sign` (none, `+` or `-`) followed by the non-empty digit string `digits`. */
  predicate SignedNumeral(s: string, sign: string, digits: string) {
    (sign == "" || sign == "+" || sign == "-") && s == sign + digits && digits != [] && AllDigits(digits)
  }

  /** The number a sign and a digit string denote. */
  function SignedValue(sign: string, digits: string): int
    requires AllDigits(digits)
  {
    var magnitude: int := DigitsValue(digits);
    if sign == "-" then -magnitude else magnitude
  }

  /** A string splits into a sign and digits in at most one way: the sign is the first character when that is `+` or `-`. */
  lemma SignedNumeralUnique(s: string, sign: string, digits: string)
    requires SignedNumeral(s, sign, digits)
    ensures s != []
    ensures digits == (if s[0] == '-' || s[0] == '+' then s[1..] else s)
    ensures sign == "-" <==> s[0] == '-'
  {
    if sign == "" {
      assert s == digits && IsDigit(s[0]);
    } else {
      assert s[0] == sign[0] && s[1..] == digits;
    }
  }

  /**
    `Long.parseLong(s)`: a number exactly when `s` is an optional sign followed by
    one or more ASCII digits whose signed value lies in the `long` range, and
    then that value.
  */
  function ParseLong(s: string): (r: Option<int>)
    ensures r.Some? ==> LONG_MIN <= r.value <= LONG_MAX
    ensures r.Some? <==> exists sign, digits ::
      SignedNumeral(s, sign, digits) && LONG_MIN <= SignedValue(sign, digits) <= LONG_MAX
    ensures forall sign, digits :: SignedNumeral(s, sign, digits) && r.Some? ==> r.value == SignedValue(sign, digits)
  {
    if s == [] then None
    else
      var negative := s[0] == '-';
      var signed := s[0] == '-' || s[0] == '+';
      var digits := if signed then s[1..] else s;
      assert forall sign, ds :: SignedNumeral(s, sign, ds) ==> ds == digits && (sign == "-" <==> negative) by {
        forall sign, ds | SignedNumeral(s, sign, ds) ensures ds == digits && (sign == "-" <==> negative) {
          SignedNumeralUnique(s, sign, ds);
        }
      }
      if digits == [] || !AllDigits(digits) then None
      else
        var magnitude: int := DigitsValue(digits);
        var v := if negative then -magnitude else magnitude;
        var sign := if signed then s[..1] else "";
        assert SignedNumeral(s, sign, digits) && SignedValue(sign, digits) == v;
        if LONG_MIN <= v <= LONG_MAX then Some(v) else None
  }

  /** The decimal digits of `n`, without leading zeros. */
  function NatToString(n: nat): (s: string)
    ensures s != [] && AllDigits(s)
    ensures DigitsValue(s) == n
  {
    if n < 10 then [DigitChar(n)]
    else
      var prefix := NatToString(n / 10);
      var s := prefix + [DigitChar(n % 10)];
      assert s[..|s| - 1] == prefix;
      s
  }

  /** `String.valueOf(long)` / `Long.toString`. */
  function IntToString(x: int): (s: string)
    ensures s != []
  {
    if x < 0 then "-" + NatToString(-x) else NatToString(x)
  }

  /** Rendering a `long` in decimal and parsing it back gives the same number. */
  lemma ParseLongIntToString(x: int)
    requires LONG_MIN <= x <= LONG_MAX
    ensures ParseLong(IntToString(x)) == Some(x)
  {
    var s := IntToString(x);
    if x < 0 {
      assert s[1..] == NatToString(-x);
    }
  }
}
