/** RFC 3339 timestamps (runtime/datetime.c: srSLMGParseInt32, ParseTIMESTAMP3339,
    getNormalizedSecFracPower, formatTimestamp3339), as profiled by section 6.2.3 of RFC 5424. */
module Timestamp3339 {
  import opened Values

  datatype SyslogTime = SyslogTime(
    year: int, month: int, day: int, hour: int, minute: int, second: int,
    secfrac: int, precision: int,
    mode: char, offHour: int, offMinute: int)

  datatype Parsed = Invalid | Time(t: SyslogTime, end: nat)

  const LIMIT: int := 0x7fff_ffff / 10 - 1

  // ----- parsing -----

  /** srSLMGParseInt32: digits are read while the value stays below a guard against overflow. */
  function ParseInt(s: string, p: nat, acc: int): (r: (int, nat))
    requires p <= |s|
    ensures p <= r.1 <= |s|
    ensures acc >= 0 ==> r.0 >= 0
    decreases |s| - p
  {
    if p < |s| && IsDigit(s[p]) && acc < LIMIT then ParseInt(s, p + 1, acc * 10 + DigitVal(s[p])) else (acc, p)
  }

  method ParseInt32(s: string, p: nat) returns (v: int, q: nat)
    requires p <= |s|
    ensures (v, q) == ParseInt(s, p, 0)
  {
    v, q := 0, p;
    while q < |s| && IsDigit(s[q]) && v < LIMIT
      invariant p <= q <= |s|
      invariant ParseInt(s, p, 0) == ParseInt(s, q, v)
    {
      v := v * 10 + DigitVal(s[q]);
      q := q + 1;
    }
  }

  predicate Sees(s: string, p: nat, c: char) { p < |s| && s[p] == c }

  /** Date and time of day: the fields up to the seconds, and where they end. */
  function ParseClock(s: string): Parsed {
    var (year, p) := ParseInt(s, 0, 0);
    if !Sees(s, p, '-') || year >= 2100 then Invalid else
    var (month, p) := ParseInt(s, p + 1, 0);
    if month < 1 || month > 12 || !Sees(s, p, '-') then Invalid else
    var (day, p) := ParseInt(s, p + 1, 0);
    if day < 1 || day > 31 || !Sees(s, p, 'T') then Invalid else
    var (hour, p) := ParseInt(s, p + 1, 0);
    if hour > 23 || !Sees(s, p, ':') then Invalid else
    var (minute, p) := ParseInt(s, p + 1, 0);
    if minute > 59 || !Sees(s, p, ':') then Invalid else
    var (second, p) := ParseInt(s, p + 1, 0);
    if second > 60 then Invalid else
    Time(SyslogTime(year, month, day, hour, minute, second, 0, 0, 'Z', 0, 0), p)
  }

  function ParseFraction(s: string, p: nat): (r: (int, int, nat))
    requires p <= |s|
    ensures r.2 <= |s|
  {
    if Sees(s, p, '.') then
      var (v, q) := ParseInt(s, p + 1, 0);
      (v, q - (p + 1), q)
    else (0, 0, p)
  }

  /** The time zone; there must be one. */
  function ParseZone(s: string, p: nat, t: SyslogTime): Parsed
    requires p <= |s|
  {
    if Sees(s, p, 'Z') then Time(t.(mode := 'Z', offHour := 0, offMinute := 0), p + 1)
    else if Sees(s, p, '+') || Sees(s, p, '-') then
      var (h, q) := ParseInt(s, p + 1, 0);
      if h > 23 || !Sees(s, q, ':') then Invalid else
      var (m, q) := ParseInt(s, q + 1, 0);
      if m > 59 then Invalid else Time(t.(mode := s[p], offHour := h, offMinute := m), q)
    else Invalid
  }

  /** A timestamp ends the text or is followed by a space, which is consumed. */
  function ParseEnd(s: string, r: Parsed): Parsed {
    if r.Invalid? || r.end >= |s| then r
    else if s[r.end] == ' ' then r.(end := r.end + 1)
    else Invalid
  }

  lemma ClockEnd(s: string)
    ensures ParseClock(s).Time? ==> ParseClock(s).end <= |s|
  {}

  /** ParseTIMESTAMP3339 as a value. */
  function Parse(s: string): Parsed {
    ClockEnd(s);
    var c := ParseClock(s);
    if c.Invalid? then Invalid else
    var (frac, precision, p) := ParseFraction(s, c.end);
    ParseEnd(s, ParseZone(s, p, c.t.(secfrac := frac, precision := precision)))
  }

  /** The first part of ParseTIMESTAMP3339: date and time of day. */
  method ScanClock(s: string) returns (r: Parsed)
    ensures r == ParseClock(s)
  {
    r := Invalid;
    var year, p := ParseInt32(s, 0);
    if p == |s| || s[p] != '-' || year < 0 || year >= 2100 { return; }
    var month; month, p := ParseInt32(s, p + 1);
    if month < 1 || month > 12 { return; }
    if p == |s| || s[p] != '-' { return; }
    var day; day, p := ParseInt32(s, p + 1);
    if day < 1 || day > 31 { return; }
    if p == |s| || s[p] != 'T' { return; }
    var hour; hour, p := ParseInt32(s, p + 1);
    if hour < 0 || hour > 23 { return; }
    if p == |s| || s[p] != ':' { return; }
    var minute; minute, p := ParseInt32(s, p + 1);
    if minute < 0 || minute > 59 { return; }
    if p == |s| || s[p] != ':' { return; }
    var second; second, p := ParseInt32(s, p + 1);
    if second < 0 || second > 60 { return; }
    r := Time(SyslogTime(year, month, day, hour, minute, second, 0, 0, 'Z', 0, 0), p);
  }

  method ScanZone(s: string, p0: nat, t: SyslogTime) returns (r: Parsed)
    requires p0 <= |s|
    ensures r == ParseZone(s, p0, t)
  {
    r := Invalid;
    var p := p0;
    if p == |s| { return; }
    if s[p] == 'Z' {
      r := Time(t.(mode := 'Z', offHour := 0, offMinute := 0), p + 1);
    } else if s[p] == '+' || s[p] == '-' {
      var mode := s[p];
      var h; h, p := ParseInt32(s, p + 1);
      if h < 0 || h > 23 { return; }
      if p == |s| || s[p] != ':' { return; }
      var m; m, p := ParseInt32(s, p + 1);
      if m < 0 || m > 59 { return; }
      r := Time(t.(mode := mode, offHour := h, offMinute := m), p);
    }
  }

  /** ParseTIMESTAMP3339: the text pointer and the timestamp change only on success. */
  method ParseTimestamp3339(s: string, t0: SyslogTime) returns (ok: bool, t: SyslogTime, end: nat)
    ensures ok <==> Parse(s).Time?
    ensures ok ==> Parse(s) == Time(t, end)
    ensures !ok ==> t == t0 && end == 0
  {
    t, end, ok := t0, 0, false;
    ClockEnd(s);
    var c := ScanClock(s);
    if c.Invalid? { return; }
    var p, frac, precision := c.end, 0, 0;
    if p < |s| && s[p] == '.' {
      var start := p + 1;
      frac, p := ParseInt32(s, start);
      precision := p - start;
    }
    var z := ScanZone(s, p, c.t.(secfrac := frac, precision := precision));
    if z.Invalid? { return; }
    p := z.end;
    if p < |s| {
      if s[p] != ' ' { return; }
      p := p + 1;
    }
    t, end, ok := z.t, p, true;
  }

  // ----- formatting -----

  function Pow10(k: nat): (p: int)
    ensures p >= 1
  {
    if k == 0 then 1 else 10 * Pow10(k - 1)
  }

  /** The last k decimal digits of v. */
  function Digits(v: int, k: nat): (s: string)
    requires 0 <= v < Pow10(k)
    ensures |s| == k
  {
    if k == 0 then ""
    else
      var p := Pow10(k - 1);
      DigitRange(v, p);
      [DigitChar(v / p)] + Digits(v % p, k - 1)
  }

  lemma DigitRange(v: int, p: int)
    requires p >= 1 && 0 <= v < 10 * p
    ensures 0 <= v / p <= 9
  {
    var q := v / p;
    assert v == q * p + v % p;
    assert q >= 10 ==> q * p >= 10 * p;
  }

  /** A fraction of more than six digits is cut to six. */
  function Normalized(frac: int, precision: int): int
    requires frac >= 0
    decreases precision
  {
    if precision <= 6 then frac else Normalized(frac / 10, precision - 1)
  }

  predicate Clean(t: SyslogTime) {
    && 0 <= t.year <= 2099 && 1 <= t.month <= 12 && 1 <= t.day <= 31
    && 0 <= t.hour <= 23 && 0 <= t.minute <= 59 && 0 <= t.second <= 60
    && 0 <= t.precision && 0 <= t.secfrac < Pow10(t.precision)
    && (t.mode == 'Z' || t.mode == '+' || t.mode == '-')
    && 0 <= t.offHour <= 23 && 0 <= t.offMinute <= 59
    && (t.mode == 'Z' ==> t.offHour == 0 && t.offMinute == 0)
  }

  lemma {:induction false} NormalizedRange(frac: int, precision: int)
    requires precision >= 0 && 0 <= frac < Pow10(precision)
    ensures 0 <= Normalized(frac, precision) < Pow10(if precision > 6 then 6 else precision)
    decreases precision
  {
    if precision > 6 {
      NormalizedRange(frac / 10, precision - 1);
    }
  }

  function Tens(n: int): char
    requires n >= 0
  {
    DigitChar(n / 10 % 10)
  }

  function Ones(n: int): char
    requires n >= 0
  {
    DigitChar(n % 10)
  }

  /** The 19 characters up to the seconds. */
  function ClockText(t: SyslogTime): (s: string)
    requires Clean(t)
    ensures |s| == 19
  {
    [DigitChar(t.year / 1000 % 10), DigitChar(t.year / 100 % 10), Tens(t.year), Ones(t.year), '-',
     Tens(t.month), Ones(t.month), '-', Tens(t.day), Ones(t.day), 'T',
     Tens(t.hour), Ones(t.hour), ':', Tens(t.minute), Ones(t.minute), ':', Tens(t.second), Ones(t.second)]
  }

  /** The text starts with the date and time of day. */
  predicate StartsWithClock(s: string, t: SyslogTime)
    requires Clean(t)
  {
    && |s| >= 19
    && s[0] == DigitChar(t.year / 1000 % 10) && s[1] == DigitChar(t.year / 100 % 10)
    && s[2] == Tens(t.year) && s[3] == Ones(t.year) && s[4] == '-'
    && s[5] == Tens(t.month) && s[6] == Ones(t.month) && s[7] == '-'
    && s[8] == Tens(t.day) && s[9] == Ones(t.day) && s[10] == 'T'
    && s[11] == Tens(t.hour) && s[12] == Ones(t.hour) && s[13] == ':'
    && s[14] == Tens(t.minute) && s[15] == Ones(t.minute) && s[16] == ':'
    && s[17] == Tens(t.second) && s[18] == Ones(t.second)
  }

  lemma ClockIsPrefix(s: string, t: SyslogTime)
    requires Clean(t)
    ensures StartsWithClock(s, t) <==> ClockText(t) <= s
  {
    var c := ClockText(t);
    if c <= s {
      assert forall i :: 0 <= i < 19 ==> s[i] == c[i];
    }
    if StartsWithClock(s, t) {
      assert s[..19] == [s[0], s[1], s[2], s[3], s[4], s[5], s[6], s[7], s[8], s[9], s[10], s[11], s[12], s[13], s[14], s[15], s[16], s[17], s[18]];
    }
  }

  function FractionText(t: SyslogTime): string
    requires Clean(t)
  {
    if t.precision == 0 then ""
    else
      NormalizedRange(t.secfrac, t.precision);
      "." + Digits(Normalized(t.secfrac, t.precision), if t.precision > 6 then 6 else t.precision)
  }

  function ZoneText(t: SyslogTime): string
    requires Clean(t)
  {
    if t.mode == 'Z' then "Z" else [t.mode, Tens(t.offHour), Ones(t.offHour), ':', Tens(t.offMinute), Ones(t.offMinute)]
  }

  function Format(t: SyslogTime): string
    requires Clean(t)
  {
    ClockText(t) + FractionText(t) + ZoneText(t)
  }

  /** getNormalizedSecFracPower: the fraction to print and the power of its first digit. */
  method NormalizedSecFracPower(t: SyslogTime) returns (secfrac: int, power: int)
    requires Clean(t) && t.precision > 0
    ensures secfrac == Normalized(t.secfrac, t.precision)
    ensures power == Pow10((if t.precision > 6 then 6 else t.precision) - 1)
  {
    var precision := t.precision;
    secfrac := t.secfrac;
    while precision > 6
      invariant secfrac >= 0 && (t.precision >= 6 ==> precision >= 6) && (t.precision < 6 ==> precision == t.precision)
      invariant precision <= t.precision
      invariant Normalized(secfrac, precision) == Normalized(t.secfrac, t.precision)
    {
      secfrac := secfrac / 10;
      precision := precision - 1;
    }
    Powers();
    power := [1, 10, 100, 1000, 10000, 100000][precision - 1];
  }

  /** The tenPowers table. */
  lemma Powers()
    ensures Pow10(0) == 1 && Pow10(1) == 10 && Pow10(2) == 100 && Pow10(3) == 1000
    ensures Pow10(4) == 10000 && Pow10(5) == 100000 && Pow10(6) == 1000000
  {
    assert Pow10(2) == 10 * Pow10(1);
    assert Pow10(4) == 10 * Pow10(3) && Pow10(3) == 10 * Pow10(2);
    assert Pow10(6) == 10 * Pow10(5) && Pow10(5) == 10 * Pow10(4);
  }

  lemma {:induction false} DigitsStep(d: string, i: nat, v: int, left: nat)
    requires left >= 1 && i <= |d| && 0 <= v < Pow10(left) && d[i..] == Digits(v, left)
    ensures 0 <= v / Pow10(left - 1) <= 9 && 0 <= v % Pow10(left - 1) < Pow10(left - 1)
    ensures i < |d| && d[i] == DigitChar(v / Pow10(left - 1))
    ensures d[i + 1..] == Digits(v % Pow10(left - 1), left - 1)
  {
    DigitRange(v, Pow10(left - 1));
    assert d[i..][0] == d[i];
    assert d[i + 1..] == d[i..][1..];
  }

  /** One round of the digit loop of formatTimestamp3339. */
  method WriteDigit(buf: array<char>, at: nat, secfrac: int, power: int, ghost left: nat) returns (secfrac': int, power': int)
    requires left >= 1 && power == Pow10(left - 1) && 0 <= secfrac < Pow10(left) && at < buf.Length
    modifies buf
    ensures 0 <= secfrac / power <= 9 && secfrac' == secfrac % power && 0 <= secfrac' < power
    ensures power' == if left == 1 then 0 else Pow10(left - 2)
    ensures buf[at] == DigitChar(secfrac / power)
    ensures forall m :: 0 <= m < buf.Length && m != at ==> buf[m] == old(buf[m])
  {
    DigitRange(secfrac, power);
    var digit := secfrac / power;
    secfrac' := secfrac - digit * power;
    power' := power / 10;
    buf[at] := DigitChar(digit);
  }

  /** The digit loop of formatTimestamp3339. */
  method WriteDigits(buf: array<char>, at: nat, v: int, k: nat, p: int) returns (end: nat)
    requires 1 <= k && 0 <= v < Pow10(k) && p == Pow10(k - 1) && at + k <= buf.Length
    modifies buf
    ensures end == at + k
    ensures forall m :: 0 <= m < at ==> buf[m] == old(buf[m])
    ensures forall m :: at <= m < end ==> buf[m] == Digits(v, k)[m - at]
  {
    ghost var d := Digits(v, k);
    assert d[0..] == d;
    var power, secfrac := p, v;
    end := at;
    ghost var left: nat := k;
    while power > 0
      invariant left <= k && end == at + k - left
      invariant if left == 0 then power == 0 else power == Pow10(left - 1)
      invariant 0 <= secfrac < Pow10(left) && d[k - left..] == Digits(secfrac, left)
      invariant forall m :: 0 <= m < at ==> buf[m] == old(buf[m])
      invariant forall m :: at <= m < end ==> buf[m] == d[m - at]
      decreases left
    {
      DigitsStep(d, k - left, secfrac, left);
      secfrac, power := WriteDigit(buf, end, secfrac, power, left);
      end := end + 1;
      left := left - 1;
    }
  }

  /** The fixed part of formatTimestamp3339. */
  method WriteClock(t: SyslogTime, buf: array<char>)
    requires Clean(t) && buf.Length >= 33
    modifies buf
    ensures StartsWithClock(buf[..], t)
  {
    buf[0] := DigitChar(t.year / 1000 % 10);
    buf[1] := DigitChar(t.year / 100 % 10);
    buf[2], buf[3] := Tens(t.year), Ones(t.year);
    buf[4] := '-';
    buf[5], buf[6] := Tens(t.month), Ones(t.month);
    buf[7] := '-';
    buf[8], buf[9] := Tens(t.day), Ones(t.day);
    buf[10] := 'T';
    buf[11], buf[12] := Tens(t.hour), Ones(t.hour);
    buf[13] := ':';
    buf[14], buf[15] := Tens(t.minute), Ones(t.minute);
    buf[16] := ':';
    buf[17], buf[18] := Tens(t.second), Ones(t.second);
  }

  method WriteFraction(t: SyslogTime, buf: array<char>, at: nat) returns (n: nat)
    requires Clean(t) && at + 7 <= buf.Length
    modifies buf
    ensures at <= n <= at + 7
    ensures forall m :: 0 <= m < at ==> buf[m] == old(buf[m])
    ensures buf[at..n] == FractionText(t)
  {
    n := at;
    if t.precision > 0 {
      buf[n] := '.';
      n := n + 1;
      var secfrac, power := NormalizedSecFracPower(t);
      NormalizedRange(t.secfrac, t.precision);
      n := WriteDigits(buf, n, secfrac, if t.precision > 6 then 6 else t.precision, power);
    }
  }

  method WriteZone(t: SyslogTime, buf: array<char>, at: nat) returns (n: nat)
    requires Clean(t) && at + 6 <= buf.Length
    modifies buf
    ensures at <= n <= at + 6
    ensures forall m :: 0 <= m < at ==> buf[m] == old(buf[m])
    ensures buf[at..n] == ZoneText(t)
  {
    if t.mode == 'Z' {
      buf[at] := 'Z';
      n := at + 1;
    } else {
      buf[at] := t.mode;
      buf[at + 1], buf[at + 2] := Tens(t.offHour), Ones(t.offHour);
      buf[at + 3] := ':';
      buf[at + 4], buf[at + 5] := Tens(t.offMinute), Ones(t.offMinute);
      n := at + 6;
    }
  }

  /** The three parts of the text, in place. */
  lemma Joined(clock: string, front: string, text: string, k: nat, n: nat, t: SyslogTime)
    requires Clean(t) && 19 <= k <= n <= |text| == |front| == |clock|
    requires clock[..19] == ClockText(t) && front[19..k] == FractionText(t) && text[k..n] == ZoneText(t)
    requires (forall m :: 0 <= m < 19 ==> front[m] == clock[m]) && (forall m :: 0 <= m < k ==> text[m] == front[m])
    ensures text[..n] == Format(t)
  {
    Extended(clock, front, 19, k);
    Extended(front, text, k, n);
  }

  method WriteParts(t: SyslogTime, buf: array<char>) returns (n: nat)
    requires Clean(t) && buf.Length >= 33
    modifies buf
    ensures n < buf.Length && buf[..n] == Format(t)
  {
    WriteClock(t, buf);
    ghost var clock := buf[..];
    ClockIsPrefix(clock, t);
    var k := WriteFraction(t, buf, 19);
    ghost var front := buf[..];
    n := WriteZone(t, buf, k);
    Joined(clock, front, buf[..], k, n, t);
  }

  /** formatTimestamp3339 writes the text and its terminator, and returns the length of the text. */
  method FormatTimestamp3339(t: SyslogTime, buf: array<char>) returns (n: nat)
    requires Clean(t) && buf.Length >= 33
    modifies buf
    ensures n == |Format(t)| && n < buf.Length
    ensures buf[..n] == Format(t) && buf[n] == '\0'
  {
    n := WriteParts(t, buf);
    ghost var text := buf[..n];
    buf[n] := '\0';
    assert buf[..n] == text;
  }

  /** Writing from k to n leaves the text before k. */
  lemma Extended(was: string, now: string, k: nat, n: nat)
    requires k <= n <= |now| == |was| && forall m :: 0 <= m < k ==> now[m] == was[m]
    ensures now[..n] == was[..k] + now[k..n]
  {}

  // ----- reading back what was written -----

  predicate EndsDigits(s: string, p: nat) { p >= |s| || !IsDigit(s[p]) }

  lemma {:induction false} ReadTwo(s: string, p: nat, n: int)
    requires 0 <= n <= 99 && p + 2 <= |s| && s[p] == Tens(n) && s[p + 1] == Ones(n) && EndsDigits(s, p + 2)
    ensures ParseInt(s, p, 0) == (n, p + 2)
  {
    var a := DigitVal(s[p]);
    assert ParseInt(s, p, 0) == ParseInt(s, p + 1, a);
    assert ParseInt(s, p + 1, a) == ParseInt(s, p + 2, a * 10 + DigitVal(s[p + 1]));
  }

  lemma {:induction false} ReadYear(s: string, n: int)
    requires 0 <= n <= 2099 && 4 <= |s| && EndsDigits(s, 4)
    requires s[0] == DigitChar(n / 1000 % 10) && s[1] == DigitChar(n / 100 % 10) && s[2] == Tens(n) && s[3] == Ones(n)
    ensures ParseInt(s, 0, 0) == (n, 4)
  {
    var a := DigitVal(s[0]);
    var b := a * 10 + DigitVal(s[1]);
    var c := b * 10 + DigitVal(s[2]);
    assert ParseInt(s, 0, 0) == ParseInt(s, 1, a);
    assert ParseInt(s, 1, a) == ParseInt(s, 2, b);
    assert ParseInt(s, 2, b) == ParseInt(s, 3, c);
    assert ParseInt(s, 3, c) == ParseInt(s, 4, c * 10 + DigitVal(s[3]));
    YearDigits(n);
  }

  lemma YearDigits(n: int)
    requires 0 <= n <= 9999
    ensures ((n / 1000 % 10 * 10 + n / 100 % 10) * 10 + n / 10 % 10) * 10 + n % 10 == n
  {
    assert n / 100 == n / 10 / 10 && n / 1000 == n / 100 / 10;
  }

  lemma {:induction false} ReadClock(s: string, t: SyslogTime)
    requires Clean(t) && StartsWithClock(s, t) && EndsDigits(s, 19)
    ensures ParseClock(s) == Time(SyslogTime(t.year, t.month, t.day, t.hour, t.minute, t.second, 0, 0, 'Z', 0, 0), 19)
  {
    ReadYear(s, t.year);
    ReadTwo(s, 5, t.month);
    ReadTwo(s, 8, t.day);
    ReadTwo(s, 11, t.hour);
    ReadTwo(s, 14, t.minute);
    ReadTwo(s, 17, t.second);
  }

  lemma DigitStep(acc: int, v: int, q: int)
    requires q >= 1 && 0 <= v < 10 * q && acc >= 0
    ensures 0 <= v / q <= 9 && 0 <= v % q < q
    ensures (acc * 10 + v / q) * q + v % q == acc * (10 * q) + v
    ensures acc <= acc * (10 * q) + v
  {
    DigitRange(v, q);
    var d := v / q;
    assert v == d * q + v % q;
    assert (acc * 10 + d) * q == acc * 10 * q + d * q;
    assert acc * 10 * q == acc * (10 * q);
    Grows(acc, 10 * q);
  }

  lemma Grows(a: int, b: int)
    requires a >= 0 && b >= 1
    ensures a <= a * b
  {}

  predicate TextAt(s: string, p: nat, d: string) {
    p + |d| <= |s| && forall m :: p <= m < p + |d| ==> s[m] == d[m - p]
  }

  lemma TextAtCons(s: string, p: nat, c: char, d: string)
    requires TextAt(s, p, [c] + d)
    ensures s[p] == c && TextAt(s, p + 1, d)
  {}

  /** k digits behind index p are read completely if the value stays below the guard. */
  lemma {:induction false} ReadDigits(s: string, p: nat, v: int, k: nat, acc: int)
    requires 0 <= v < Pow10(k) && TextAt(s, p, Digits(v, k)) && EndsDigits(s, p + k)
    requires acc >= 0 && acc * Pow10(k) + v < LIMIT
    ensures ParseInt(s, p, acc) == (acc * Pow10(k) + v, p + k)
    decreases k
  {
    if k > 0 {
      var q := Pow10(k - 1);
      DigitStep(acc, v, q);
      TextAtCons(s, p, DigitChar(v / q), Digits(v % q, k - 1));
      assert ParseInt(s, p, acc) == ParseInt(s, p + 1, acc * 10 + v / q);
      ReadDigits(s, p + 1, v % q, k - 1, acc * 10 + v / q);
    }
  }

  lemma {:induction false} ReadFraction(s: string, t: SyslogTime)
    requires Clean(t) && 19 + |FractionText(t)| <= |s| && s[19..19 + |FractionText(t)|] == FractionText(t)
    requires EndsDigits(s, 19 + |FractionText(t)|) && !Sees(s, 19 + |FractionText(t)|, '.')
    ensures ParseFraction(s, 19) ==
            (Normalized(t.secfrac, t.precision), if t.precision > 6 then 6 else t.precision, 19 + |FractionText(t)|)
  {
    if t.precision > 0 {
      var k := if t.precision > 6 then 6 else t.precision;
      NormalizedRange(t.secfrac, t.precision);
      assert s[19] == s[19..20 + k][0];
      assert forall m :: 20 <= m < 20 + k ==> s[m] == s[19..20 + k][m - 19];
      ReadFractionDigits(s, Normalized(t.secfrac, t.precision), k);
    }
  }

  lemma ReadFractionDigits(s: string, v: int, k: nat)
    requires 1 <= k <= 6 && 0 <= v < Pow10(k) && 20 + k <= |s| && EndsDigits(s, 20 + k)
    requires forall m :: 20 <= m < 20 + k ==> s[m] == Digits(v, k)[m - 20]
    ensures ParseInt(s, 20, 0) == (v, 20 + k) && 0 <= v < 1000000
  {
    PowMonotone(k);
    ReadDigits(s, 20, v, k, 0);
  }

  lemma PowMonotone(k: nat)
    requires k <= 6
    ensures Pow10(k) <= 1000000
  {
    Powers();
  }

  lemma {:induction false} ReadZone(s: string, p: nat, t: SyslogTime, u: SyslogTime)
    requires Clean(t) && p + |ZoneText(t)| <= |s| && s[p..p + |ZoneText(t)|] == ZoneText(t)
    requires EndsDigits(s, p + |ZoneText(t)|)
    ensures ParseZone(s, p, u) == Time(u.(mode := t.mode, offHour := t.offHour, offMinute := t.offMinute), p + |ZoneText(t)|)
  {
    var z := ZoneText(t);
    assert forall i :: 0 <= i < |z| ==> s[p + i] == z[i];
    assert s[p] == z[0] && z[0] == t.mode;
    if t.mode != 'Z' {
      assert s[p + 1] == z[1] && s[p + 2] == z[2] && s[p + 3] == z[3] && s[p + 4] == z[4] && s[p + 5] == z[5];
      ReadTwo(s, p + 1, t.offHour);
      ReadTwo(s, p + 4, t.offMinute);
    }
  }

  /** The timestamp with its fraction cut to six digits. */
  function Cut(t: SyslogTime): SyslogTime
    requires Clean(t)
  {
    if t.precision <= 6 then t else t.(secfrac := Normalized(t.secfrac, t.precision), precision := 6)
  }

  /** Where the parts of a formatted timestamp lie. */
  lemma Layout(t: SyslogTime, rest: string)
    requires Clean(t) && (rest == "" || rest[0] == ' ')
    ensures var f, z, s := FractionText(t), ZoneText(t), Format(t) + rest;
            var p := 19 + |f|;
            && |s| == p + |z| + |rest| && |Format(t)| == p + |z|
            && ClockText(t) <= s && s[19..p] == f && s[p..p + |z|] == z
            && EndsDigits(s, 19) && EndsDigits(s, p) && !Sees(s, p, '.') && EndsDigits(s, p + |z|)
            && (rest != "" ==> s[p + |z|] == ' ')
  {
    var c, f, z := ClockText(t), FractionText(t), ZoneText(t);
    var s := Format(t) + rest;
    var p := 19 + |f|;
    assert s == c + f + z + rest;
    assert s[p] == z[0] == t.mode;
    if f != "" { assert s[19] == f[0] == '.'; }
    if rest != "" { assert s[p + |z|] == rest[0]; }
  }

  /** Parsing a formatted timestamp, alone or followed by a space and any text, returns its fields,
      with a fraction of more than six digits cut to six, and consumes the timestamp and the space. */
  lemma ParseFormat(t: SyslogTime, rest: string)
    requires Clean(t) && (rest == "" || rest[0] == ' ')
    ensures Parse(Format(t) + rest) == Time(Cut(t), |Format(t)| + if rest == "" then 0 else 1)
  {
    var s := Format(t) + rest;
    var p := 19 + |FractionText(t)|;
    Layout(t, rest);
    ClockIsPrefix(s, t);
    ReadClock(s, t);
    ReadFraction(s, t);
    var c := ParseClock(s).t;
    var (frac, precision, q) := ParseFraction(s, 19);
    ReadZone(s, p, t, c.(secfrac := frac, precision := precision));
    CutFields(t);
  }

  lemma CutFields(t: SyslogTime)
    requires Clean(t)
    ensures Cut(t) == SyslogTime(t.year, t.month, t.day, t.hour, t.minute, t.second, Normalized(t.secfrac, t.precision),
                                 if t.precision > 6 then 6 else t.precision, t.mode, t.offHour, t.offMinute)
  {}

  /** Cutting to six digits drops exactly the digits behind the sixth. */
  lemma {:induction false} CutTruncates(frac: int, precision: nat)
    requires frac >= 0 && precision >= 6
    ensures Normalized(frac, precision) == frac / Pow10(precision - 6)
    decreases precision
  {
    if precision == 6 {
      assert frac / 1 == frac;
    } else {
      CutTruncates(frac / 10, precision - 1);
      DivTwice(frac, Pow10(precision - 7));
    }
  }

  lemma DivTwice(v: int, p: int)
    requires v >= 0 && p >= 1
    ensures v / 10 / p == v / (10 * p)
  {
    var a, r := v / 10, v % 10;
    var q, m := a / p, a % p;
    assert v == 10 * (q * p + m) + r;
    assert 10 * (q * p) == q * (10 * p);
    var k := 10 * p;
    assert v == q * k + (10 * m + r) && 0 <= 10 * m + r < k;
    QuotientUnique(v, k, q, 10 * m + r);
  }

  lemma QuotientUnique(v: int, k: int, q: int, r: int)
    requires k > 0 && 0 <= r < k && v == q * k + r
    ensures v / k == q
  {
    var d := v / k - q;
    assert d * k == r - v % k;
    assert d >= 1 ==> d * k >= k;
    assert d <= -1 ==> d * k <= -k;
  }
}
