/** The id parse every path-parameter handler performs:
    `strconv.ParseInt(param, 10, 64)` from Go's standard library, written
    out digit by digit as that function scans its input, together with an
    independent definition of the decimal value of a digit string. */
module Strconv {
  import opened Common

  /** The two failure kinds of Go's `strconv.NumError`. */
  datatype NumError = ErrSyntax | ErrRange

  predicate IsDigit(c: char) {
    '0' <= c <= '9'
  }

  function DigitValue(c: char): (d: nat)
    requires IsDigit(c)
    ensures d < 10
  {
    c as int - '0' as int
  }

  /** The strings the routes `/do/:id|^[0-9]+$` and friends let through. */
  predicate IsDigitString(s: string) {
    |s| > 0 && forall i :: 0 <= i < |s| ==> IsDigit(s[i])
  }

  function Pow10(k: nat): (p: nat)
    ensures p >= 1
  {
    if k == 0 then 1 else 10 * Pow10(k - 1)
  }

  /** Reference meaning of a digit string: the last digit is the units digit. */
  function DecimalValue(s: string): (v: nat)
    requires forall i :: 0 <= i < |s| ==> IsDigit(s[i])
  {
    if |s| == 0 then 0
    else 10 * DecimalValue(s[..|s| - 1]) + DigitValue(s[|s| - 1])
  }

  /** The digit loop of `strconv.ParseUint` in base 10: left to right, a
      non-digit is a syntax error, and the first digit that carries the
      accumulator past 2^64 - 1 is a range error (what follows it is not
      looked at). */
  function ScanDigits(s: string, n: nat): (r: Result<nat, NumError>)
    requires n <= MaxUint64
    ensures r.Ok? ==> n <= r.value <= MaxUint64
    ensures r == Err(ErrSyntax) ==> exists i :: 0 <= i < |s| && !IsDigit(s[i])
    decreases |s|
  {
    if |s| == 0 then Ok(n)
    else if !IsDigit(s[0]) then Err(ErrSyntax)
    else
      var n1 := 10 * n + DigitValue(s[0]);
      if n1 > MaxUint64 then Err(ErrRange)
      else
        var r := ScanDigits(s[1..], n1);
        assert r == Err(ErrSyntax) ==> exists i :: 0 <= i < |s[1..]| && !IsDigit(s[1..][i]);
        r
  }

  /** `strconv.ParseUint(s, 10, 64)`. */
  function ParseUint(s: string): (r: Result<nat, NumError>)
    ensures r.Ok? ==> r.value <= MaxUint64
    ensures s == "" ==> r == Err(ErrSyntax)
    ensures r == Err(ErrSyntax) ==> s == "" || exists i :: 0 <= i < |s| && !IsDigit(s[i])
    ensures IsDigitString(s) ==>
      r == if DecimalValue(s) > MaxUint64 then Err(ErrRange) else Ok(DecimalValue(s))
  {
    if s == "" then Err(ErrSyntax)
    else
      var r := ScanDigits(s, 0);
      assert IsDigitString(s) ==> r == if DecimalValue(s) > MaxUint64 then Err(ErrRange) else Ok(DecimalValue(s)) by {
        if IsDigitString(s) { ScanDigitsValue(s, 0); }
      }
      r
  }

  /** `strconv.ParseInt(s, 10, 64)`: an optional sign, then `ParseUint`, then
      the signed 64-bit cutoff (2^63 is admitted only when negated). */
  function ParseInt(s: string): (r: Result<Int64, NumError>)
    ensures r.Ok? && IsDigitString(s) ==> r.value >= 0
  {
    if s == "" then Err(ErrSyntax)
    else
      var neg := s[0] == '-';
      var body := if s[0] == '+' || s[0] == '-' then s[1..] else s;
      match ParseUint(body)
      case Err(e) => Err(e)
      case Ok(un) =>
        if !neg && un >= MaxInt64 + 1 then Err(ErrRange)
        else if neg && un > MaxInt64 + 1 then Err(ErrRange)
        else
          var v: int := if neg then -(un as int) else un;
          Ok(v)
  }

  /** Arithmetic step: shifting a split value by one decimal place. */
  lemma ShiftSplit(d: nat, p: nat, r: nat, last: nat)
    ensures 10 * (d * p + r) + last == d * (10 * p) + (10 * r + last)
  {
  }

  /** Splitting off the leading digit of the reference value. */
  lemma {:induction false} DecimalValueCons(s: string)
    requires IsDigitString(s)
    ensures DecimalValue(s) == DigitValue(s[0]) * Pow10(|s| - 1) + DecimalValue(s[1..])
    decreases |s|
  {
    if |s| == 1 {
      assert s[..0] == [];
      assert s[1..] == [];
    } else {
      var init := s[..|s| - 1];
      var tail := s[1..];
      assert IsDigitString(init) by {
        forall i | 0 <= i < |init| ensures IsDigit(init[i]) {
          assert init[i] == s[i];
        }
      }
      DecimalValueCons(init);
      assert init[0] == s[0];
      assert init[1..] == tail[..|tail| - 1];
      assert tail[|tail| - 1] == s[|s| - 1];
      var last := DigitValue(s[|s| - 1]);
      assert DecimalValue(s) == 10 * DecimalValue(init) + last;
      assert DecimalValue(tail) == 10 * DecimalValue(init[1..]) + last;
      ShiftSplit(DigitValue(s[0]), Pow10(|s| - 2), DecimalValue(init[1..]), last);
    }
  }

  /** Arithmetic step of the scan: one more digit folded into the accumulator. */
  lemma ShiftDigit(n: nat, d: nat, p: nat, rest: nat)
    ensures n * (10 * p) + (d * p + rest) == (10 * n + d) * p + rest
  {
  }

  /** The scanning loop computes the reference value, offset by the
      accumulator it starts from, and fails exactly when that overflows. */
  lemma {:induction false} ScanDigitsValue(s: string, n: nat)
    requires n <= MaxUint64
    requires forall i :: 0 <= i < |s| ==> IsDigit(s[i])
    ensures var v := n * Pow10(|s|) + DecimalValue(s);
      ScanDigits(s, n) == if v > MaxUint64 then Err(ErrRange) else Ok(v)
    decreases |s|
  {
    if |s| == 0 {
      assert n * Pow10(0) == n;
    } else {
      var d := DigitValue(s[0]);
      var n1 := 10 * n + d;
      var rest := s[1..];
      var p := Pow10(|rest|);
      DecimalValueCons(s);
      assert Pow10(|s|) == 10 * p;
      ShiftDigit(n, d, p, DecimalValue(rest));
      var v := n * Pow10(|s|) + DecimalValue(s);
      assert v == n1 * p + DecimalValue(rest);
      if n1 > MaxUint64 {
        assert n1 * p >= n1;
        assert ScanDigits(s, n) == Err(ErrRange);
      } else {
        assert ScanDigits(s, n) == ScanDigits(rest, n1);
        ScanDigitsValue(rest, n1);
      }
    }
  }

  /** On a path segment the route admits, `ParseInt` yields the decimal value
      of the segment, and fails (with a range error) exactly when that value
      does not fit in an `int64`. */
  lemma ParseRouteId(s: string)
    requires IsDigitString(s)
    ensures DecimalValue(s) <= MaxInt64 ==> ParseInt(s) == Ok(DecimalValue(s))
    ensures DecimalValue(s) > MaxInt64 ==> ParseInt(s) == Err(ErrRange)
  {
    assert s[0] != '+' && s[0] != '-';
    ScanDigitsValue(s, 0);
  }

  /** The error branch the handlers take is reached on a route-valid segment
      only through overflow. */
  lemma RouteIdFailsIffOverflow(s: string)
    requires IsDigitString(s)
    ensures ParseInt(s).Err? <==> DecimalValue(s) > MaxInt64
  {
    ParseRouteId(s);
  }
}
