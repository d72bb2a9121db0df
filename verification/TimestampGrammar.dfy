/** The texts that are RFC 3339 timestamps to the parser (runtime/datetime.c: ParseTIMESTAMP3339), described by their
    characters: an independent account of what Timestamp3339.Parse accepts and reads. */
module TimestampGrammar {
  import opened Values
  import opened Timestamp3339

  /** The number that the characters from p up to q are the decimal digits of. */
  function Number(s: string, p: nat, q: nat): int
    requires p <= q <= |s|
  {
    if p == q then 0 else Number(s, p, q - 1) * 10 + (s[q - 1] as int - 48)
  }

  predicate AllDigits(s: string, p: nat, q: nat)
    requires q <= |s|
  {
    forall i :: p <= i < q ==> '0' <= s[i] <= '9'
  }

  /** A run of digits, perhaps empty, as long as it can be, and its value. */
  predicate Field(s: string, p: nat, q: nat, v: int) {
    && p <= q <= |s| && AllDigits(s, p, q) && (q < |s| ==> !('0' <= s[q] <= '9'))
    && v == Number(s, p, q)
  }

  /** What a field reads is less than 2^31. */
  predicate Fits(s: string, p: nat, q: nat)
    requires p <= q <= |s|
  {
    p == q || Number(s, p, q - 1) < 214748363
  }

  lemma {:induction false} NumberGrows(s: string, p: nat, k: nat, q: nat)
    requires p <= k <= q <= |s| && AllDigits(s, p, q)
    ensures 0 <= Number(s, p, k) <= Number(s, p, q)
    decreases q
  {
    if k < q {
      NumberGrows(s, p, k, q - 1);
    } else if p < q {
      NumberGrows(s, p, q - 1, q - 1);
    }
  }

  lemma {:induction false} Reads(s: string, p: nat, m: nat)
    requires p <= m <= |s| && AllDigits(s, p, m)
    ensures var (v, q) := ParseInt(s, m, Number(s, p, m));
            && p <= q <= |s| && AllDigits(s, p, q) && v == Number(s, p, q)
            && (v < 214748363 ==> q == |s| || !('0' <= s[q] <= '9'))
            && (m == q || Fits(s, p, q))
    decreases |s| - m
  {
    if m < |s| && IsDigit(s[m]) && Number(s, p, m) < LIMIT {
      assert Number(s, p, m + 1) == Number(s, p, m) * 10 + DigitVal(s[m]);
      Reads(s, p, m + 1);
    }
  }

  lemma {:induction false} IsRead(s: string, p: nat, m: nat, q: nat)
    requires p <= m <= q <= |s| && Field(s, p, q, Number(s, p, q)) && Fits(s, p, q)
    ensures ParseInt(s, m, Number(s, p, m)) == (Number(s, p, q), q)
    decreases q - m
  {
    if m < q {
      NumberGrows(s, p, m, q - 1);
      assert Number(s, p, m + 1) == Number(s, p, m) * 10 + DigitVal(s[m]);
      IsRead(s, p, m + 1, q);
    }
  }

  /** Reading a number yields this value and stops here exactly when it is such a field, for values below the guard. */
  lemma FieldIsRead(s: string, p: nat, q: nat, v: int)
    requires p <= |s|
    ensures v < 214748363 ==> (ParseInt(s, p, 0) == (v, q) <==> Field(s, p, q, v))
    ensures Field(s, p, q, v) && Fits(s, p, q) ==> ParseInt(s, p, 0) == (v, q)
    ensures ParseInt(s, p, 0) == (v, q) && (q == |s| || !('0' <= s[q] <= '9')) ==> Field(s, p, q, v) && Fits(s, p, q)
  {
    Reads(s, p, p);
    if Field(s, p, q, v) && (v < 214748363 || Fits(s, p, q)) {
      if p < q { NumberGrows(s, p, q - 1, q); }
      IsRead(s, p, p, q);
    }
  }

  predicate At(s: string, p: nat, c: char) { p < |s| && s[p] == c }

  /** Where the fields of date and time end. */
  datatype ClockEnds = ClockEnds(year: nat, month: nat, day: nat, hour: nat, minute: nat, second: nat)

  /** Where the parts of a timestamp end; for a numeric zone also its hours. */
  datatype Ends = Ends(clock: ClockEnds, frac: nat, zoneHour: nat, zone: nat)

  /** yyyy-mm-dd, any number of digits in each field, and a T behind it. */
  predicate Date(s: string, t: SyslogTime, e: ClockEnds) {
    && Field(s, 0, e.year, t.year) && t.year <= 2099 && At(s, e.year, '-')
    && Field(s, e.year + 1, e.month, t.month) && 1 <= t.month <= 12 && At(s, e.month, '-')
    && Field(s, e.month + 1, e.day, t.day) && 1 <= t.day <= 31 && At(s, e.day, 'T')
  }

  /** hh:mm:ss */
  predicate TimeOfDay(s: string, t: SyslogTime, e: ClockEnds) {
    && Field(s, e.day + 1, e.hour, t.hour) && t.hour <= 23 && At(s, e.hour, ':')
    && Field(s, e.hour + 1, e.minute, t.minute) && t.minute <= 59 && At(s, e.minute, ':')
    && Field(s, e.minute + 1, e.second, t.second) && t.second <= 60
  }

  /** Perhaps a point and digits, which fit into an int. */
  predicate Fraction(s: string, t: SyslogTime, second: nat, frac: nat) {
    if At(s, second, '.') then
      Field(s, second + 1, frac, t.secfrac) && Fits(s, second + 1, frac) && t.precision == frac - (second + 1)
    else frac == second && t.secfrac == 0 && t.precision == 0
  }

  /** Z, or a sign and hh:mm. */
  predicate Zone(s: string, t: SyslogTime, frac: nat, hour: nat, zone: nat) {
    if At(s, frac, 'Z') then t.mode == 'Z' && t.offHour == 0 && t.offMinute == 0 && zone == frac + 1
    else
      && (At(s, frac, '+') || At(s, frac, '-')) && t.mode == s[frac]
      && Field(s, frac + 1, hour, t.offHour) && t.offHour <= 23 && At(s, hour, ':')
      && Field(s, hour + 1, zone, t.offMinute) && t.offMinute <= 59
  }

  /** The text is a timestamp with these fields, at the end of the text or before a space, which belongs to it. */
  predicate Timestamp(s: string, t: SyslogTime, e: Ends, end: nat) {
    && Date(s, t, e.clock) && TimeOfDay(s, t, e.clock)
    && Fraction(s, t, e.clock.second, e.frac) && Zone(s, t, e.frac, e.zoneHour, e.zone)
    && if e.zone == |s| then end == e.zone else At(s, e.zone, ' ') && end == e.zone + 1
  }

  // ----- date and time -----

  /** The parser's own reading of a field. */
  predicate Scanned(s: string, p: nat, q: nat, v: int) { p <= |s| && ParseInt(s, p, 0) == (v, q) }

  lemma FieldIsScanned(s: string, p: nat, q: nat, v: int)
    requires v < 214748363
    ensures Scanned(s, p, q, v) <==> Field(s, p, q, v)
  {
    if p <= |s| {
      FieldIsRead(s, p, q, v);
    }
  }

  predicate ScannedDate(s: string, t: SyslogTime, e: ClockEnds) {
    && Scanned(s, 0, e.year, t.year) && t.year <= 2099 && At(s, e.year, '-')
    && Scanned(s, e.year + 1, e.month, t.month) && 1 <= t.month <= 12 && At(s, e.month, '-')
    && Scanned(s, e.month + 1, e.day, t.day) && 1 <= t.day <= 31 && At(s, e.day, 'T')
  }

  predicate ScannedTime(s: string, t: SyslogTime, e: ClockEnds) {
    && Scanned(s, e.day + 1, e.hour, t.hour) && t.hour <= 23 && At(s, e.hour, ':')
    && Scanned(s, e.hour + 1, e.minute, t.minute) && t.minute <= 59 && At(s, e.minute, ':')
    && Scanned(s, e.minute + 1, e.second, t.second) && t.second <= 60
  }

  lemma DateIsScanned(s: string, t: SyslogTime, e: ClockEnds)
    requires t.year <= 2099 && t.month <= 12 && t.day <= 31
    ensures Date(s, t, e) <==> ScannedDate(s, t, e)
  {
    FieldIsScanned(s, 0, e.year, t.year);
    FieldIsScanned(s, e.year + 1, e.month, t.month);
    FieldIsScanned(s, e.month + 1, e.day, t.day);
  }

  lemma TimeIsScanned(s: string, t: SyslogTime, e: ClockEnds)
    requires t.hour <= 23 && t.minute <= 59 && t.second <= 60
    ensures TimeOfDay(s, t, e) <==> ScannedTime(s, t, e)
  {
    FieldIsScanned(s, e.day + 1, e.hour, t.hour);
    FieldIsScanned(s, e.hour + 1, e.minute, t.minute);
    FieldIsScanned(s, e.minute + 1, e.second, t.second);
  }

  function Clock(t: SyslogTime): SyslogTime {
    SyslogTime(t.year, t.month, t.day, t.hour, t.minute, t.second, 0, 0, 'Z', 0, 0)
  }

  lemma ClockScanned(s: string, t: SyslogTime, e: ClockEnds)
    requires ScannedDate(s, t, e) && ScannedTime(s, t, e)
    ensures ParseClock(s) == Time(Clock(t), e.second) && e.second <= |s|
  {}

  lemma ScannedClock(s: string, t: SyslogTime) returns (e: ClockEnds)
    requires ParseClock(s).Time? && ParseClock(s).t == Clock(t)
    ensures ScannedDate(s, t, e) && ScannedTime(s, t, e) && e.second == ParseClock(s).end
  {
    var (_, a) := ParseInt(s, 0, 0);
    var (_, b) := ParseInt(s, a + 1, 0);
    var (_, c) := ParseInt(s, b + 1, 0);
    var (_, d) := ParseInt(s, c + 1, 0);
    var (_, f) := ParseInt(s, d + 1, 0);
    var (_, g) := ParseInt(s, f + 1, 0);
    e := ClockEnds(a, b, c, d, f, g);
  }

  // ----- fraction and zone -----

  lemma FractionIsParsed(s: string, t: SyslogTime, second: nat, frac: nat)
    requires Fraction(s, t, second, frac) && second <= |s|
    ensures ParseFraction(s, second) == (t.secfrac, t.precision, frac)
  {
    if At(s, second, '.') {
      FieldIsRead(s, second + 1, frac, t.secfrac);
    }
  }

  lemma ParsedIsFraction(s: string, t: SyslogTime, second: nat, frac: nat)
    requires second <= |s| && ParseFraction(s, second) == (t.secfrac, t.precision, frac)
    requires frac == |s| || !('0' <= s[frac] <= '9')
    ensures Fraction(s, t, second, frac)
  {
    if At(s, second, '.') {
      FieldIsRead(s, second + 1, frac, t.secfrac);
    }
  }

  lemma ZoneIsParsed(s: string, t: SyslogTime, frac: nat, hour: nat, zone: nat, u: SyslogTime)
    requires Zone(s, t, frac, hour, zone) && frac <= |s|
    ensures ParseZone(s, frac, u) == Time(u.(mode := t.mode, offHour := t.offHour, offMinute := t.offMinute), zone)
    ensures zone <= |s|
  {
    if !At(s, frac, 'Z') {
      FieldIsRead(s, frac + 1, hour, t.offHour);
      FieldIsRead(s, hour + 1, zone, t.offMinute);
    }
  }

  lemma ParsedIsZone(s: string, frac: nat, u: SyslogTime) returns (hour: nat)
    requires frac <= |s| && ParseZone(s, frac, u).Time?
    ensures Zone(s, ParseZone(s, frac, u).t, frac, hour, ParseZone(s, frac, u).end)
    ensures ParseZone(s, frac, u).end <= |s| && frac < |s| && !('0' <= s[frac] <= '9')
  {
    hour := 0;
    if !At(s, frac, 'Z') {
      var (h, a) := ParseInt(s, frac + 1, 0);
      var (m, b) := ParseInt(s, a + 1, 0);
      hour := a;
      FieldIsRead(s, frac + 1, a, h);
      FieldIsRead(s, a + 1, b, m);
    }
  }

  // ----- whole timestamps -----

  /** Every timestamp is accepted, with its fields and its end. */
  lemma TimestampIsParsed(s: string, t: SyslogTime, e: Ends, end: nat)
    requires Timestamp(s, t, e, end)
    ensures Parse(s) == Time(t, end)
  {
    DateIsScanned(s, t, e.clock);
    TimeIsScanned(s, t, e.clock);
    ClockScanned(s, t, e.clock);
    FractionIsParsed(s, t, e.clock.second, e.frac);
    ZoneIsParsed(s, t, e.frac, e.zoneHour, e.zone, Clock(t).(secfrac := t.secfrac, precision := t.precision));
  }

  lemma ClockRanges(s: string)
    ensures var c := ParseClock(s);
            c.Time? ==> c.t == Clock(c.t) && c.t.year <= 2099 && c.t.month <= 12 && c.t.day <= 31
                        && c.t.hour <= 23 && c.t.minute <= 59 && c.t.second <= 60
  {}

  /** Nothing else is. */
  lemma ParsedIsTimestamp(s: string) returns (e: Ends)
    requires Parse(s).Time?
    ensures Timestamp(s, Parse(s).t, e, Parse(s).end)
  {
    var t := Parse(s).t;
    ClockEnd(s);
    ClockRanges(s);
    var c := ParseClock(s);
    var (frac, precision, p) := ParseFraction(s, c.end);
    var u := c.t.(secfrac := frac, precision := precision);
    var clock := ScannedClock(s, t);
    DateIsScanned(s, t, clock);
    TimeIsScanned(s, t, clock);
    var hour := ParsedIsZone(s, p, u);
    ParsedIsFraction(s, t, c.end, p);
    e := Ends(clock, p, hour, ParseZone(s, p, u).end);
  }

  /** A text is accepted, with these fields and this end, exactly when it is a timestamp with them. */
  lemma ParseAccepts(s: string, t: SyslogTime, end: nat)
    ensures (exists e :: Timestamp(s, t, e, end)) <==> Parse(s) == Time(t, end)
  {
    if e :| Timestamp(s, t, e, end) {
      TimestampIsParsed(s, t, e, end);
    }
    if Parse(s).Time? {
      var e := ParsedIsTimestamp(s);
    }
  }
}
