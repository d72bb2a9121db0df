/** Script values and the conversions the RainerScript evaluator applies to them
    (grammar/rainerscript.c: str2num, var2Number, var2String). */
module Values {

  /** A JSON value is seen by the evaluator only through json-c's integer and string views. */
  datatype Value = Num(n: int) | Str(s: string) | Json(num: int, text: string)

  datatype Option<+T> = None | Some(value: T)

  const INT_RANGE: int := 0x1_0000_0000

  /** Conversion of a 64-bit number to a C `int`. */
  function Trunc32(x: int): (r: int)
    ensures -0x8000_0000 <= r < 0x8000_0000
  {
    var low := x % INT_RANGE;
    if low < 0x8000_0000 then low else low - INT_RANGE
  }

  lemma Trunc32Id(x: int)
    requires -0x8000_0000 <= x < 0x8000_0000
    ensures Trunc32(x) == x
  {
    if x < 0 {
      assert (x + INT_RANGE) % INT_RANGE == x + INT_RANGE;
    }
  }

  /** Truncation only sees its argument modulo 2^32, so it may be applied to any summand first. */
  lemma Trunc32Sub(a: int, x: int)
    ensures Trunc32(a - x) == Trunc32(a - Trunc32(x))
  {
    var k := x / INT_RANGE;
    assert exists j :: x == Trunc32(x) + j * INT_RANGE by {
      if x % INT_RANGE < 0x8000_0000 {
        assert x == Trunc32(x) + k * INT_RANGE;
      } else {
        assert x == Trunc32(x) + (k + 1) * INT_RANGE;
      }
    }
    var j :| x == Trunc32(x) + j * INT_RANGE;
    ModShift(a - Trunc32(x), j);
  }

  lemma ModShift(y: int, j: int)
    ensures (y - j * INT_RANGE) % INT_RANGE == y % INT_RANGE
  {
    var z := y - j * INT_RANGE;
    var q := z / INT_RANGE;
    assert y == (q + j) * INT_RANGE + z % INT_RANGE;
  }

  predicate IsDigit(c: char) { '0' <= c <= '9' }

  function DigitVal(c: char): (d: int)
    requires IsDigit(c)
    ensures 0 <= d <= 9
  {
    c as int - '0' as int
  }

  function DigitChar(d: int): (c: char)
    requires 0 <= d <= 9
    ensures IsDigit(c) && DigitVal(c) == d
  {
    (d + '0' as int) as char
  }

  /** Reads the run of digits of `s` from index `i`; yields the value and the index behind the run. */
  function ScanDigits(s: string, i: nat, acc: int): (r: (int, nat))
    requires i <= |s|
    ensures i <= r.1 <= |s|
    ensures r.1 < |s| ==> !IsDigit(s[r.1])
    decreases |s| - i
  {
    if i < |s| && IsDigit(s[i]) then ScanDigits(s, i + 1, acc * 10 + DigitVal(s[i])) else (acc, i)
  }

  /** str2num as a value: the number read, and whether the whole text was a number.
      The empty text counts as a successful zero. */
  function TextNumber(s: string): (r: (int, bool))
  {
    if s == "" then (0, true)
    else if s[0] == '-' then var (n, i) := ScanDigits(s, 1, 0); (-n, i == |s|)
    else var (n, i) := ScanDigits(s, 0, 0); (n, i == |s|)
  }

  /** The loop of str2num. */
  method Str2Num(s: string) returns (num: int, ok: bool)
    ensures (num, ok) == TextNumber(s)
  {
    num := 0;
    if |s| == 0 {
      return 0, true;
    }
    var i := 0;
    var neg := 1;
    if s[0] == '-' {
      neg := -1;
      i := 1;
    }
    ghost var start := i;
    while i < |s| && IsDigit(s[i])
      invariant start <= i <= |s|
      invariant ScanDigits(s, start, 0) == ScanDigits(s, i, num)
    {
      num := num * 10 + DigitVal(s[i]);
      i := i + 1;
    }
    num := num * neg;
    ok := i == |s|;
  }

  function NatText(n: nat): (s: string)
    ensures |s| >= 1
    ensures forall k :: 0 <= k < |s| ==> IsDigit(s[k])
  {
    if n < 10 then [DigitChar(n)] else NatText(n / 10) + [DigitChar(n % 10)]
  }

  /** Decimal text of a number, as es_newStrFromNumber produces it. */
  function NumText(n: int): string {
    if n < 0 then "-" + NatText(-n) else NatText(n)
  }

  /** Scanning digits that are followed by one more digit. */
  lemma {:induction false} ScanAppend(s: string, i: nat, acc: int, c: char)
    requires i <= |s| && IsDigit(c)
    requires forall k :: i <= k < |s| ==> IsDigit(s[k])
    ensures ScanDigits(s, i, acc).1 == |s|
    ensures ScanDigits(s + [c], i, acc) == (ScanDigits(s, i, acc).0 * 10 + DigitVal(c), |s| + 1)
    decreases |s| - i
  {
    var t := s + [c];
    if i < |s| {
      assert t[i] == s[i];
      ScanAppend(s, i + 1, acc * 10 + DigitVal(s[i]), c);
    } else {
      assert t[i] == c;
      assert ScanDigits(t, i + 1, acc * 10 + DigitVal(c)) == (acc * 10 + DigitVal(c), |s| + 1);
    }
  }

  /** A scan that starts behind a prefix sees only what follows the prefix. */
  lemma {:induction false} ScanPrefix(p: string, s: string, i: nat, acc: int)
    requires i <= |s|
    ensures ScanDigits(p + s, |p| + i, acc) == (ScanDigits(s, i, acc).0, |p| + ScanDigits(s, i, acc).1)
    decreases |s| - i
  {
    if i < |s| && IsDigit(s[i]) {
      assert (p + s)[|p| + i] == s[i];
      ScanPrefix(p, s, i + 1, acc * 10 + DigitVal(s[i]));
    } else if i < |s| {
      assert (p + s)[|p| + i] == s[i];
    }
  }

  lemma {:induction false} ScanNatText(n: nat)
    ensures ScanDigits(NatText(n), 0, 0) == (n, |NatText(n)|)
  {
    if n < 10 {
      ScanAppend("", 0, 0, DigitChar(n));
      assert "" + [DigitChar(n)] == NatText(n);
    } else {
      ScanNatText(n / 10);
      ScanAppend(NatText(n / 10), 0, 0, DigitChar(n % 10));
    }
  }

  /** Printing a number and reading it back yields the number. */
  lemma NumberRoundTrip(n: int)
    ensures TextNumber(NumText(n)) == (n, true)
  {
    if n < 0 {
      ScanNatText(-n);
      ScanPrefix("-", NatText(-n), 0, 0);
    } else {
      ScanNatText(n);
      assert IsDigit(NatText(n)[0]);
    }
  }

  /** var2Number: the number, and its success flag. */
  function ToNum(v: Value): int {
    match v
    case Num(n) => n
    case Str(s) => TextNumber(s).0
    case Json(num, _) => num
  }

  predicate ConvOk(v: Value) {
    v.Str? ==> TextNumber(v.s).1
  }

  /** var2String. */
  function ToText(v: Value): string {
    match v
    case Num(n) => NumText(n)
    case Str(s) => s
    case Json(_, text) => text
  }

  function Bit(b: bool): Value { if b then Num(1) else Num(0) }

  /** Division and remainder of C: the quotient is truncated toward zero. */
  function CDiv(a: int, b: int): int
    requires b != 0
  {
    if a >= 0 then a / b else -((-a) / b)
  }

  function CMod(a: int, b: int): int
    requires b != 0
  {
    a - b * CDiv(a, b)
  }
}
