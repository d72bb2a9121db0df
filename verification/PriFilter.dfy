/** The decoder of traditional PRI selectors such as `mail,news.=err;*.!info` (runtime/conf.c: DecodePRIFilter). */
module PriFilter {
  import opened PriMask
  import opened Values

  const INTERNAL_NOPRI: int := 0x10
  const ALL_LEVELS: int := 0xFF     // the code of the priority name `*`
  const NAME_LIMIT: nat := 2047     // the name buffer less its terminator

  /** The name tables behind decodeSyslogName; -1 says unknown. */
  datatype Names = Names(pri: string -> int, fac: string -> int)

  /** Facility codes are in the range of the mask. */
  ghost predicate ValidNames(names: Names) { forall s {:trigger names.fac(s)} :: -1 <= names.fac(s) < 8 * ENTRIES }

  /** A decoded priority: `!`, `=` and the code. */
  datatype Level = Level(negated: bool, single: bool, pri: int)

  // ----- what a priority does to the mask of a facility -----

  /** A negated priority on an empty mask starts from all severities. */
  function Filled(m: bv8): bv8 { if m == TABLE_NOPRI then TABLE_ALLPRI else m }

  function SetBit(m: bv8, k: nat): bv8 { m | OneBit(k) }

  function ClearBit(m: bv8, k: nat): bv8 { m & !OneBit(k) }

  lemma ClearedAnyBit(m: bv8, b: bv8, sev: nat)
    requires sev < 8
    ensures HasBit(m & !b, sev) == (HasBit(m, sev) && !HasBit(b, sev))
  {
    BitAnd(m, !b, sev);
    BitNot(b, sev);
  }

  lemma ClearBitAt(m: bv8, k: nat, sev: nat)
    requires sev < 8
    ensures HasBit(ClearBit(m, k), sev) == (HasBit(m, sev) && sev != k)
  {
    ClearedAnyBit(m, OneBit(k), sev);
    AnyBitAt(k, sev);
  }

  /** A bit beyond the byte is no bit of it. */
  lemma AnyBitAt(k: nat, sev: nat)
    requires sev < 8
    ensures HasBit(OneBit(k), sev) == (sev == k)
  {
    if k < 8 {
      OneBitAt(k, sev);
    } else {
      BitNot(0, sev);
    }
  }

  lemma SetBitAt(m: bv8, k: nat, sev: nat)
    requires sev < 8
    ensures HasBit(SetBit(m, k), sev) == (HasBit(m, sev) || sev == k)
  {
    BitOr(m, OneBit(k), sev);
    AnyBitAt(k, sev);
  }

  function Apply(m: bv8, l: Level): bv8
    requires l.pri >= 0
  {
    if l.pri == INTERNAL_NOPRI then (if l.negated then TABLE_ALLPRI else TABLE_NOPRI)
    else if l.single then (if l.negated then ClearBit(Filled(m), l.pri) else SetBit(m, l.pri))
    else if l.pri == ALL_LEVELS then (if l.negated then TABLE_NOPRI else TABLE_ALLPRI)
    else if l.negated then Cleared(Filled(m), l.pri + 1) else Added(m, l.pri + 1)
  }

  /** The bits below n cleared, or set, one at a time. */
  function Cleared(m: bv8, n: nat): bv8 { if n == 0 then m else ClearBit(Cleared(m, n - 1), n - 1) }

  function Added(m: bv8, n: nat): bv8 { if n == 0 then m else SetBit(Added(m, n - 1), n - 1) }

  lemma {:induction false} ClearedBits(m: bv8, n: nat, sev: nat)
    requires sev < 8
    ensures HasBit(Cleared(m, n), sev) == (HasBit(m, sev) && sev >= n)
  {
    if n > 0 {
      ClearedBits(m, n - 1, sev);
      ClearBitAt(Cleared(m, n - 1), n - 1, sev);
    }
  }

  lemma {:induction false} AddedBits(m: bv8, n: nat, sev: nat)
    requires sev < 8
    ensures HasBit(Added(m, n), sev) == (HasBit(m, sev) || sev < n)
  {
    if n > 0 {
      AddedBits(m, n - 1, sev);
      SetBitAt(Added(m, n - 1), n - 1, sev);
    }
  }

  lemma FilledBits(m: bv8, sev: nat)
    requires sev < 8
    ensures HasBit(Filled(m), sev) == (m == TABLE_NOPRI || HasBit(m, sev))
  {
    BitNot(m, sev);
  }

  /** `pri` enables exactly the severities 0 to pri, `=pri` just pri; `!` disables instead. */
  lemma ApplyMeans(m: bv8, l: Level, sev: nat)
    requires sev < 8 && l.pri >= 0
    ensures HasBit(Apply(m, l), sev) ==
              if l.pri == INTERNAL_NOPRI then l.negated
              else if l.pri == ALL_LEVELS && !l.single then !l.negated
              else
                var named := if l.single then sev == l.pri else sev <= l.pri;
                if l.negated then (m == TABLE_NOPRI || HasBit(m, sev)) && !named else HasBit(m, sev) || named
  {
    if l.pri == INTERNAL_NOPRI || (l.pri == ALL_LEVELS && !l.single) {
      BitNot(m, sev);
    } else if l.negated {
      FilledBits(m, sev);
      if l.single { ClearBitAt(Filled(m), l.pri, sev); } else { ClearedBits(Filled(m), l.pri + 1, sev); }
    } else if l.single {
      SetBitAt(m, l.pri, sev);
    } else {
      AddedBits(m, l.pri + 1, sev);
    }
  }

  // ----- scanning -----

  /** The character sets the scanner tests against. */
  datatype Chars = FacilityEnd | PriorityEnd | Separators | Blanks | DotOrTab

  predicate In(c: char, s: Chars) {
    match s
    case FacilityEnd => c == '\t' || c == ' ' || c == ',' || c == ';' || c == '.'
    case PriorityEnd => c == '\t' || c == ' ' || c == ',' || c == ';'
    case Separators => c == ',' || c == ';'
    case Blanks => c == ',' || c == ' '
    case DotOrTab => c == '.' || c == '\t'
  }

  /** The characters of each set, listed. */
  function Listed(s: Chars): string {
    match s
    case FacilityEnd => "\t ,;."
    case PriorityEnd => "\t ,;"
    case Separators => ",;"
    case Blanks => ", "
    case DotOrTab => ".\t"
  }

  lemma ListedMeans(c: char, s: Chars)
    ensures In(c, s) <==> c in Listed(s)
  {
    var t := Listed(s);
    assert t[0] in t && t[1] in t && (|t| > 2 ==> t[2] in t) && (|t| > 3 ==> t[3] in t) && (|t| > 4 ==> t[4] in t);
  }

  /** The first stop character from p on, the end of the line, or where the name buffer is full. */
  function NameEnd(line: string, p: nat, stops: Chars, full: nat): (e: nat)
    requires p <= |line|
    ensures p <= e <= |line|
    decreases |line| - p
  {
    if p == |line| || In(line[p], stops) || p == full then p else NameEnd(line, p + 1, stops, full)
  }

  /** Past the dot that ends a facility list; a tab or the end of the line stops the search. */
  function AfterDot(line: string, p: nat): (q: nat)
    requires p <= |line|
    ensures p <= q <= |line|
    ensures p < |line| && line[p] != '\t' ==> p < q
    decreases |line| - p
  {
    if p == |line| || line[p] == '\t' then p else if line[p] == '.' then p + 1 else AfterDot(line, p + 1)
  }

  function Skip(line: string, p: nat, chars: Chars): (q: nat)
    requires p <= |line|
    ensures p <= q <= |line|
    decreases |line| - p
  {
    if p == |line| || !In(line[p], chars) then p else Skip(line, p + 1, chars)
  }

  function ParseLevel(text: string, names: Names): Level {
    var negated := text != "" && text[0] == '!';
    var rest := if negated then text[1..] else text;
    var single := rest != "" && rest[0] == '=';
    Level(negated, single, names.pri(if single then rest[1..] else rest))
  }

  function ApplyName(mask: Mask, name: string, l: Level, names: Names): Option<Mask>
    requires l.pri >= 0 && names.fac(name) < 8 * ENTRIES
  {
    if name != "" && name[0] == '*' then Some(seq(ENTRIES, f requires 0 <= f < ENTRIES => Apply(mask[f], l)))
    else if names.fac(name) < 0 then None
    else Some(mask[names.fac(name) / 8 := Apply(mask[names.fac(name) / 8], l)])
  }

  predicate EndsFacilities(c: char) { c == '\t' || c == ' ' || c == '.' || c == ';' }

  /** The facility names of the selector at p. */
  function NamesFrom(line: string, p: nat): seq<string>
    requires p <= |line|
    decreases |line| - p
  {
    if p == |line| || EndsFacilities(line[p]) then []
    else
      var e := NameEnd(line, p, FacilityEnd, p + NAME_LIMIT);
      [line[p..e]] + NamesFrom(line, Skip(line, e, Blanks))
  }

  /** The priority applied to the named facilities in order, or None at the first unknown one. */
  function ApplyNames(ns: seq<string>, mask: Mask, l: Level, names: Names): Option<Mask>
    requires l.pri >= 0 && ValidNames(names)
  {
    if ns == [] then Some(mask)
    else
      match ApplyName(mask, ns[0], l, names)
      case None => None
      case Some(m) => ApplyNames(ns[1..], m, l, names)
  }

  /** Where the priority name of the selector at p ends. */
  function LevelEnd(line: string, p: nat): (e: nat)
    requires p <= |line|
    ensures AfterDot(line, p) <= e <= |line|
  {
    NameEnd(line, AfterDot(line, p), PriorityEnd, AfterDot(line, p) + NAME_LIMIT)
  }

  function LevelAt(line: string, p: nat, names: Names): Level
    requires p <= |line|
  {
    ParseLevel(line[AfterDot(line, p)..LevelEnd(line, p)], names)
  }

  function Scan(line: string, p: nat, mask: Mask, names: Names): Option<Mask>
    requires p <= |line| && ValidNames(names)
    decreases |line| - p
  {
    if p == |line| || line[p] == '\t' || line[p] == ' ' then Some(mask)
    else if LevelAt(line, p, names).pri < 0 then None
    else
      match ApplyNames(NamesFrom(line, p), mask, LevelAt(line, p, names), names)
      case None => None
      case Some(m) => Scan(line, Skip(line, LevelEnd(line, p), Separators), m, names)
  }

  function NoPri(): Mask { seq(ENTRIES, i => TABLE_NOPRI) }

  // ----- the decoder -----

  /** The loops over the severities of a range. */
  method ClearRange(m0: bv8, pri: nat) returns (m: bv8)
    ensures m == Cleared(m0, pri + 1)
  {
    m := m0;
    for k := 0 to pri + 1
      invariant m == Cleared(m0, k)
    {
      m := ClearBit(m, k);
    }
  }

  method AddRange(m0: bv8, pri: nat) returns (m: bv8)
    ensures m == Added(m0, pri + 1)
  {
    m := m0;
    for k := 0 to pri + 1
      invariant m == Added(m0, k)
    {
      m := SetBit(m, k);
    }
  }

  /** The bit work on one entry of the mask. */
  method SetBits(pmask: array<bv8>, i: nat, l: Level)
    requires i < pmask.Length && l.pri >= 0
    modifies pmask
    ensures pmask[i] == Apply(old(pmask[i]), l)
    ensures forall j :: 0 <= j < pmask.Length && j != i ==> pmask[j] == old(pmask[j])
  {
    var m := pmask[i];
    if l.pri == INTERNAL_NOPRI {
      m := if l.negated then TABLE_ALLPRI else TABLE_NOPRI;
    } else if !l.single && l.pri == ALL_LEVELS {
      m := if l.negated then TABLE_NOPRI else TABLE_ALLPRI;
    } else if l.negated {
      if m == TABLE_NOPRI { m := TABLE_ALLPRI; }
      if l.single { m := ClearBit(m, l.pri); } else { m := ClearRange(m, l.pri); }
    } else if l.single {
      m := SetBit(m, l.pri);
    } else {
      m := AddRange(m, l.pri);
    }
    pmask[i] := m;
  }

  /** One facility name. */
  method SetFacility(pmask: array<bv8>, name: string, l: Level, names: Names) returns (ok: bool)
    requires pmask.Length == ENTRIES && ValidNames(names) && l.pri >= 0
    modifies pmask
    ensures var r := ApplyName(old(pmask[..]), name, l, names); ok == r.Some? && (ok ==> pmask[..] == r.value)
  {
    ghost var was: Mask := pmask[..];
    ok := true;
    if name != "" && name[0] == '*' {
      for i := 0 to ENTRIES
        invariant forall f :: 0 <= f < ENTRIES ==> pmask[f] == if f < i then Apply(was[f], l) else was[f]
      {
        SetBits(pmask, i, l);
      }
    } else {
      var code := names.fac(name);
      if code < 0 {
        ok := false;
      } else {
        SetBits(pmask, code / 8, l);
        assert pmask[..] == was[code / 8 := Apply(was[code / 8], l)];
      }
    }
  }

  /** Copies characters into the name buffer. */
  method Collect(line: string, p: nat, stops: Chars) returns (q: nat)
    requires p <= |line|
    ensures q == NameEnd(line, p, stops, p + NAME_LIMIT) && p <= q <= |line|
  {
    q := p;
    while q < |line| && !In(line[q], stops) && q - p < NAME_LIMIT
      invariant p <= q <= |line| && q - p <= NAME_LIMIT
      invariant NameEnd(line, p, stops, p + NAME_LIMIT) == NameEnd(line, q, stops, p + NAME_LIMIT)
    {
      q := q + 1;
    }
  }

  method FindDot(line: string, p: nat) returns (q: nat)
    requires p <= |line|
    ensures q == AfterDot(line, p)
  {
    q := p;
    while q < |line| && line[q] != '\t'
      invariant p <= q <= |line| && AfterDot(line, p) == AfterDot(line, q)
    {
      q := q + 1;
      if line[q - 1] == '.' { return; }
    }
  }

  method SkipChars(line: string, p: nat, chars: Chars) returns (q: nat)
    requires p <= |line|
    ensures q == Skip(line, p, chars)
  {
    q := p;
    while q < |line| && In(line[q], chars)
      invariant p <= q <= |line| && Skip(line, p, chars) == Skip(line, q, chars)
    {
      q := q + 1;
    }
  }

  /** The facility loop. */
  method SetFacilities(line: string, p0: nat, pmask: array<bv8>, l: Level, names: Names) returns (ok: bool)
    requires p0 <= |line| && pmask.Length == ENTRIES && ValidNames(names) && l.pri >= 0
    modifies pmask
    ensures var r := ApplyNames(NamesFrom(line, p0), old(pmask[..]), l, names); ok == r.Some? && (ok ==> pmask[..] == r.value)
  {
    var p := p0;
    ok := true;
    while p < |line| && !EndsFacilities(line[p])
      invariant p <= |line|
      invariant ApplyNames(NamesFrom(line, p0), old(pmask[..]), l, names) == ApplyNames(NamesFrom(line, p), pmask[..], l, names)
      decreases |line| - p
    {
      var e := Collect(line, p, FacilityEnd);
      assert NamesFrom(line, p)[1..] == NamesFrom(line, Skip(line, e, Blanks));
      ok := SetFacility(pmask, line[p..e], l, names);
      if !ok { return; }
      p := SkipChars(line, e, Blanks);
    }
  }

  /** DecodePRIFilter */
  method DecodePRIFilter(line: string, pmask: array<bv8>, names: Names) returns (ok: bool)
    requires pmask.Length == ENTRIES && ValidNames(names)
    modifies pmask
    ensures var r := Scan(line, 0, NoPri(), names); ok == r.Some? && (ok ==> pmask[..] == r.value)
  {
    for i := 0 to ENTRIES
      invariant forall j :: 0 <= j < i ==> pmask[j] == TABLE_NOPRI
    {
      pmask[i] := TABLE_NOPRI;
    }
    assert pmask[..] == NoPri();
    var p := 0;
    ok := true;
    while p < |line| && line[p] != '\t' && line[p] != ' '
      invariant p <= |line| && ok
      invariant Scan(line, 0, NoPri(), names) == Scan(line, p, pmask[..], names)
      decreases |line| - p
    {
      var d := FindDot(line, p);
      var e := Collect(line, d, PriorityEnd);
      var q := SkipChars(line, e, Separators);
      var l := ParseLevel(line[d..e], names);
      ok := l.pri >= 0;
      if !ok { break; }
      ok := SetFacilities(line, p, pmask, l, names);
      if !ok { break; }
      p := q;
    }
  }

  // ----- selector lists and their text -----

  /** A selector as written: each facility name with the commas and blanks behind it, the priority, and the
      separators before the next selector. */
  datatype Selector = Selector(facs: seq<Name>, negated: bool, single: bool, pri: string, sep: string)

  datatype Name = Name(text: string, gap: string)

  predicate Free(w: string, stops: Chars) { forall i :: 0 <= i < |w| ==> !In(w[i], stops) }

  predicate Only(w: string, chars: Chars) { forall i :: 0 <= i < |w| ==> In(w[i], chars) }

  predicate FacName(w: string) { 0 < |w| <= NAME_LIMIT && Free(w, FacilityEnd) }

  function LevelText(s: Selector): string {
    (if s.negated then "!" else "") + (if s.single then "=" else "") + s.pri
  }

  /** Names are not empty and free of the characters that end them; only the last may have no gap. */
  predicate Spaced(facs: seq<Name>) {
    && facs != []
    && forall i :: 0 <= i < |facs| ==>
         FacName(facs[i].text) && Only(facs[i].gap, Blanks) && (i + 1 < |facs| ==> facs[i].gap != "")
  }

  predicate WellFormed(s: Selector) {
    && Spaced(s.facs) && Only(s.sep, Separators)
    && |LevelText(s)| <= NAME_LIMIT && Free(s.pri, PriorityEnd)
    && (s.pri != "" ==> s.pri[0] != '!' && s.pri[0] != '=')
  }

  predicate AllWellFormed(sels: seq<Selector>) {
    forall i {:trigger sels[i]} :: 0 <= i < |sels| ==> WellFormed(sels[i]) && (i + 1 < |sels| ==> sels[i].sep != "")
  }

  /** The facility names from j on, the dot and what follows. */
  function FacText(facs: seq<Name>, j: nat, rest: string): string
    requires j <= |facs|
    decreases |facs| - j
  {
    if j == |facs| then "." + rest else facs[j].text + (facs[j].gap + FacText(facs, j + 1, rest))
  }

  /** The text of the selectors from k on, before text that a blank or tab sets off. */
  function Line(sels: seq<Selector>, k: nat, rest: string): string
    requires k <= |sels| && AllWellFormed(sels)
    decreases |sels| - k
  {
    if k == |sels| then rest
    else FacText(sels[k].facs, 0, LevelText(sels[k]) + (sels[k].sep + Line(sels, k + 1, rest)))
  }

  predicate SetOff(rest: string) { rest == "" || rest[0] == ' ' || rest[0] == '\t' }

  // ----- what a selector list means -----

  function Coded(s: Selector, names: Names): Level { Level(s.negated, s.single, names.pri(s.pri)) }

  predicate IsNamed(name: string, f: nat, names: Names) {
    (name != "" && name[0] == '*') || names.fac(name) / 8 == f
  }

  predicate KnownFac(name: string, names: Names) { (name != "" && name[0] == '*') || names.fac(name) >= 0 }

  /** Every name of the list is in the tables. */
  predicate Known(s: Selector, names: Names) {
    names.pri(s.pri) >= 0 && forall i :: 0 <= i < |s.facs| ==> KnownFac(s.facs[i].text, names)
  }

  predicate AllKnown(sels: seq<Selector>, names: Names) {
    forall i {:trigger sels[i]} :: 0 <= i < |sels| ==> Known(sels[i], names)
  }

  function Texts(facs: seq<Name>): seq<string> { seq(|facs|, i requires 0 <= i < |facs| => facs[i].text) }

  /** The mask of one facility after the names of a selector. */
  function FoldFacs(ns: seq<string>, m: bv8, f: nat, l: Level, names: Names): bv8
    requires l.pri >= 0
  {
    if ns == [] then m
    else FoldFacs(ns[1..], if IsNamed(ns[0], f, names) then Apply(m, l) else m, f, l, names)
  }

  /** The mask of one facility: a fold over just the selectors naming it or `*`. */
  function Fold(sels: seq<Selector>, k: nat, m: bv8, f: nat, names: Names): bv8
    requires k <= |sels| && AllKnown(sels, names)
    decreases |sels| - k
  {
    if k == |sels| then m
    else Fold(sels, k + 1, FoldFacs(Texts(sels[k].facs), m, f, Coded(sels[k], names), names), f, names)
  }

  // ----- scanning a text -----

  lemma Cut(line: string, p: nat, a: string, b: string)
    requires p <= |line| && line[p..] == a + b
    ensures p + |a| <= |line| && line[p..p + |a|] == a && line[p + |a|..] == b
  {
    assert line[p..][..|a|] == a && line[p..][|a|..] == b;
  }

  lemma {:induction false} NameEndAt(line: string, p: nat, w: string, stops: Chars, full: nat)
    requires p + |w| <= |line| && line[p..p + |w|] == w && Free(w, stops) && p + |w| <= full
    requires p + |w| < |line| ==> In(line[p + |w|], stops)
    ensures NameEnd(line, p, stops, full) == p + |w|
    decreases |w|
  {
    if w != "" {
      assert line[p] == w[0];
      assert line[p + 1..p + |w|] == w[1..];
      NameEndAt(line, p + 1, w[1..], stops, full);
    }
  }

  lemma {:induction false} AfterDotPast(line: string, p: nat, q: nat)
    requires p <= q <= |line| && forall k :: p <= k < q ==> !In(line[k], DotOrTab)
    ensures AfterDot(line, p) == AfterDot(line, q)
    decreases q - p
  {
    if p < q {
      AfterDotPast(line, p + 1, q);
    }
  }

  lemma ParseLevelText(s: Selector, names: Names)
    requires WellFormed(s)
    ensures ParseLevel(LevelText(s), names) == Coded(s, names)
  {
    var text, rest := LevelText(s), (if s.single then "=" else "") + s.pri;
    if s.negated {
      assert text[0] == '!' && text[1..] == rest;
    } else {
      assert text == rest;
    }
    if s.single {
      assert rest[0] == '=' && rest[1..] == s.pri;
    } else {
      assert rest == s.pri;
    }
  }

  lemma ApplyNameAt(mask: Mask, name: string, l: Level, names: Names)
    requires ValidNames(names) && l.pri >= 0
    ensures ApplyName(mask, name, l, names).Some? <==> KnownFac(name, names)
    ensures KnownFac(name, names) ==>
              forall f :: 0 <= f < ENTRIES ==>
                ApplyName(mask, name, l, names).value[f] == if IsNamed(name, f, names) then Apply(mask[f], l) else mask[f]
  {}

  lemma {:induction false} NamesAt(ns: seq<string>, mask: Mask, l: Level, names: Names)
    requires l.pri >= 0 && ValidNames(names)
    ensures var r := ApplyNames(ns, mask, l, names);
            && (r.Some? <==> forall n :: n in ns ==> KnownFac(n, names))
            && (r.Some? ==> forall f :: 0 <= f < ENTRIES ==> r.value[f] == FoldFacs(ns, mask[f], f, l, names))
  {
    if ns != [] {
      ApplyNameAt(mask, ns[0], l, names);
      if KnownFac(ns[0], names) {
        NamesAt(ns[1..], ApplyName(mask, ns[0], l, names).value, l, names);
      }
    }
  }

  lemma {:induction false} SkipAt(line: string, p: nat, w: string, chars: Chars)
    requires p + |w| <= |line| && line[p..p + |w|] == w && Only(w, chars)
    requires p + |w| < |line| ==> !In(line[p + |w|], chars)
    ensures Skip(line, p, chars) == p + |w|
    decreases |w|
  {
    if w != "" {
      assert line[p] == w[0];
      assert line[p + 1..p + |w|] == w[1..];
      SkipAt(line, p + 1, w[1..], chars);
    }
  }

  lemma FacTextShape(facs: seq<Name>, j: nat, rest: string)
    requires Spaced(facs) && j <= |facs|
    ensures FacText(facs, j, rest) != ""
    ensures FacText(facs, j, rest)[0] == if j == |facs| then '.' else facs[j].text[0]
    ensures if j == |facs| then FacText(facs, j, rest)[1..] == rest else !In(FacText(facs, j, rest)[0], FacilityEnd)
  {
    if j < |facs| {
      assert FacName(facs[j].text);
    }
  }

  lemma NameAt(line: string, p: nat, name: string, tail: string)
    requires FacName(name) && p <= |line| && line[p..] == name + tail && tail != "" && In(tail[0], FacilityEnd)
    ensures p + |name| < |line| && !EndsFacilities(line[p]) && line[p..p + |name|] == name
    ensures NameEnd(line, p, FacilityEnd, p + NAME_LIMIT) == p + |name| && line[p + |name|..] == tail
  {
    Cut(line, p, name, tail);
    assert line[p] == line[p..p + |name|][0] && line[p + |name|] == line[p + |name|..][0];
    NameEndAt(line, p, name, FacilityEnd, p + NAME_LIMIT);
  }

  lemma GapAt(line: string, p: nat, gap: string, tail: string, chars: Chars)
    requires Only(gap, chars) && p <= |line| && line[p..] == gap + tail && (tail != "" ==> !In(tail[0], chars))
    ensures p + |gap| <= |line| && Skip(line, p, chars) == p + |gap| && line[p + |gap|..] == tail
  {
    Cut(line, p, gap, tail);
    assert p + |gap| < |line| ==> line[p + |gap|] == line[p + |gap|..][0];
    SkipAt(line, p, gap, chars);
  }

  /** A facility name with its gap, found at p. */
  predicate NameHere(line: string, p: nat, name: Name) {
    var e := p + |name.text|;
    && e < |line| && !EndsFacilities(line[p]) && line[p..e] == name.text
    && NameEnd(line, p, FacilityEnd, p + NAME_LIMIT) == e && Skip(line, e, Blanks) == e + |name.gap|
  }

  function NextName(p: nat, name: Name): nat { p + |name.text| + |name.gap| }

  /** The facility names from j on, found at p, and the dot behind them. */
  predicate Laid(line: string, p: nat, facs: seq<Name>, j: nat, dot: nat)
    requires j <= |facs|
    decreases |facs| - j
  {
    if j == |facs| then p == dot < |line| && line[p] == '.'
    else NameHere(line, p, facs[j]) && Laid(line, NextName(p, facs[j]), facs, j + 1, dot)
  }

  lemma NameFound(line: string, p: nat, facs: seq<Name>, j: nat, rest: string)
    requires Spaced(facs) && j < |facs| && p <= |line| && line[p..] == FacText(facs, j, rest)
    ensures NameHere(line, p, facs[j]) && NextName(p, facs[j]) <= |line|
    ensures line[NextName(p, facs[j])..] == FacText(facs, j + 1, rest)
  {
    var name, gap, after := facs[j].text, facs[j].gap, FacText(facs, j + 1, rest);
    FacTextShape(facs, j + 1, rest);
    NameAt(line, p, name, gap + after);
    GapAt(line, p + |name|, gap, after, Blanks);
  }

  lemma {:induction false} LaidOut(line: string, p: nat, facs: seq<Name>, j: nat, rest: string) returns (dot: nat)
    requires Spaced(facs) && j <= |facs| && p <= |line| && line[p..] == FacText(facs, j, rest)
    ensures Laid(line, p, facs, j, dot) && dot < |line| && line[dot + 1..] == rest
    decreases |facs| - j
  {
    if j == |facs| {
      dot := p;
      assert line[p] == line[p..][0] && line[p + 1..] == line[p..][1..];
    } else {
      NameFound(line, p, facs, j, rest);
      dot := LaidOut(line, NextName(p, facs[j]), facs, j + 1, rest);
    }
  }

  lemma {:induction false} SkippedAt(line: string, p: nat, chars: Chars, k: nat)
    requires p <= |line| && p <= k < Skip(line, p, chars)
    ensures In(line[k], chars)
    decreases k - p
  {
    if p < k {
      SkippedAt(line, p + 1, chars, k);
    }
  }

  /** The dot is the one the search for the priority finds. */
  lemma {:induction false} DotOf(line: string, p: nat, facs: seq<Name>, j: nat, dot: nat)
    requires Spaced(facs) && j <= |facs| && Laid(line, p, facs, j, dot)
    ensures p <= |line| && AfterDot(line, p) == dot + 1
    decreases |facs| - j
  {
    if j < |facs| {
      var e, q := p + |facs[j].text|, NextName(p, facs[j]);
      DotOf(line, q, facs, j + 1, dot);
      forall k | p <= k < q ensures !In(line[k], DotOrTab) {
        if k < e {
          assert line[k] == facs[j].text[k - p];
        } else {
          SkippedAt(line, e, Blanks, k);
        }
      }
      AfterDotPast(line, p, q);
    }
  }

  /** The facility loop sees the names that are there. */
  lemma {:induction false} NamesFound(line: string, p: nat, facs: seq<Name>, j: nat, dot: nat)
    requires j <= |facs| && Laid(line, p, facs, j, dot)
    ensures p <= |line| && NamesFrom(line, p) == Texts(facs)[j..]
    decreases |facs| - j
  {
    if j < |facs| {
      NamesFound(line, NextName(p, facs[j]), facs, j + 1, dot);
    }
  }

  lemma LevelTextFree(s: Selector)
    requires WellFormed(s)
    ensures Free(LevelText(s), PriorityEnd)
  {}

  /** Where the priority ends and the next selector starts. */
  lemma LevelLayout(line: string, d: nat, level: string, sep: string, tail: string)
    requires d <= |line| && line[d..] == level + (sep + tail) && Free(level, PriorityEnd) && |level| <= NAME_LIMIT
    requires Only(sep, Separators) && (tail != "" ==> !In(tail[0], Separators))
    requires sep == "" && tail != "" ==> In(tail[0], PriorityEnd)
    ensures var e := NameEnd(line, d, PriorityEnd, d + NAME_LIMIT);
            line[d..e] == level && line[Skip(line, e, Separators)..] == tail
  {
    var e := d + |level|;
    Cut(line, d, level, sep + tail);
    assert e < |line| ==> line[e] == line[e..][0];
    NameEndAt(line, d, level, PriorityEnd, d + NAME_LIMIT);
    GapAt(line, e, sep, tail, Separators);
  }

  /** What a text of selectors starts with. */
  lemma LineShape(sels: seq<Selector>, k: nat, rest: string)
    requires k <= |sels| && AllWellFormed(sels) && SetOff(rest)
    ensures var line := Line(sels, k, rest);
            if k == |sels| then SetOff(line) else line != "" && !In(line[0], FacilityEnd)
  {
    if k < |sels| {
      FacTextShape(sels[k].facs, 0, LevelText(sels[k]) + (sels[k].sep + Line(sels, k + 1, rest)));
    }
  }

  /** The priority and what follows it. */
  function FromLevel(sels: seq<Selector>, k: nat, rest: string): string
    requires k < |sels| && AllWellFormed(sels)
  {
    LevelText(sels[k]) + (sels[k].sep + Line(sels, k + 1, rest))
  }

  lemma LevelHere(line: string, d: nat, sels: seq<Selector>, k: nat, rest: string)
    requires k < |sels| && AllWellFormed(sels) && SetOff(rest) && d <= |line| && line[d..] == FromLevel(sels, k, rest)
    ensures var e := NameEnd(line, d, PriorityEnd, d + NAME_LIMIT);
            line[d..e] == LevelText(sels[k]) && line[Skip(line, e, Separators)..] == Line(sels, k + 1, rest)
  {
    LineShape(sels, k + 1, rest);
    LevelTextFree(sels[k]);
    LevelLayout(line, d, LevelText(sels[k]), sels[k].sep, Line(sels, k + 1, rest));
  }

  lemma FacilitiesHere(line: string, p: nat, sels: seq<Selector>, k: nat, rest: string) returns (dot: nat)
    requires k < |sels| && AllWellFormed(sels) && SetOff(rest) && p <= |line| && line[p..] == Line(sels, k, rest)
    ensures p < |line| && line[p] != '\t' && line[p] != ' '
    ensures dot < |line| && Laid(line, p, sels[k].facs, 0, dot) && AfterDot(line, p) == dot + 1
    ensures line[dot + 1..] == FromLevel(sels, k, rest)
  {
    LineShape(sels, k, rest);
    assert line[p] == line[p..][0];
    dot := LaidOut(line, p, sels[k].facs, 0, FromLevel(sels, k, rest));
    DotOf(line, p, sels[k].facs, 0, dot);
  }

  /** A selector of the list, found in the line. */
  lemma SelectorHere(line: string, p: nat, sels: seq<Selector>, k: nat, rest: string) returns (dot: nat)
    requires k < |sels| && AllWellFormed(sels) && SetOff(rest) && p <= |line| && line[p..] == Line(sels, k, rest)
    ensures p < |line| && line[p] != '\t' && line[p] != ' ' && Laid(line, p, sels[k].facs, 0, dot)
    ensures line[AfterDot(line, p)..LevelEnd(line, p)] == LevelText(sels[k])
    ensures line[Skip(line, LevelEnd(line, p), Separators)..] == Line(sels, k + 1, rest)
  {
    dot := FacilitiesHere(line, p, sels, k, rest);
    LevelHere(line, dot + 1, sels, k, rest);
  }

  function ApplySelectors(sels: seq<Selector>, k: nat, mask: Mask, names: Names): Option<Mask>
    requires k <= |sels| && ValidNames(names)
    decreases |sels| - k
  {
    if k == |sels| then Some(mask)
    else if names.pri(sels[k].pri) < 0 then None
    else
      match ApplyNames(Texts(sels[k].facs), mask, Coded(sels[k], names), names)
      case None => None
      case Some(m) => ApplySelectors(sels, k + 1, m, names)
  }

  /** The scan of a rendered list does what the list says. */
  lemma {:induction false} ScanOf(line: string, p: nat, sels: seq<Selector>, k: nat, rest: string, mask: Mask, names: Names)
    requires ValidNames(names) && k <= |sels| && AllWellFormed(sels) && SetOff(rest)
    requires p <= |line| && line[p..] == Line(sels, k, rest)
    ensures Scan(line, p, mask, names) == ApplySelectors(sels, k, mask, names)
    decreases |sels| - k
  {
    if k == |sels| {
      assert p < |line| ==> line[p] == line[p..][0];
    } else {
      var dot := SelectorHere(line, p, sels, k, rest);
      ParseLevelText(sels[k], names);
      if names.pri(sels[k].pri) >= 0 {
        var l := Coded(sels[k], names);
        NamesFound(line, p, sels[k].facs, 0, dot);
        assert Texts(sels[k].facs)[0..] == Texts(sels[k].facs);
        var r := ApplyNames(Texts(sels[k].facs), mask, l, names);
        if r.Some? {
          ScanOf(line, Skip(line, LevelEnd(line, p), Separators), sels, k + 1, rest, r.value, names);
        }
      }
    }
  }

  lemma KnownTexts(facs: seq<Name>, names: Names)
    ensures (forall n :: n in Texts(facs) ==> KnownFac(n, names))
            <==> forall i :: 0 <= i < |facs| ==> KnownFac(facs[i].text, names)
  {
    forall i | 0 <= i < |facs| ensures facs[i].text in Texts(facs) {
      assert Texts(facs)[i] == facs[i].text;
    }
  }

  lemma {:induction false} SelectorsAt(sels: seq<Selector>, k: nat, mask: Mask, names: Names)
    requires k <= |sels| && ValidNames(names)
    ensures var r := ApplySelectors(sels, k, mask, names);
            && (r.Some? <==> forall i {:trigger sels[i]} :: k <= i < |sels| ==> Known(sels[i], names))
            && (r.Some? && AllKnown(sels, names) ==>
                  forall f :: 0 <= f < ENTRIES ==> r.value[f] == Fold(sels, k, mask[f], f, names))
    decreases |sels| - k
  {
    if k < |sels| && names.pri(sels[k].pri) >= 0 {
      var l := Coded(sels[k], names);
      KnownTexts(sels[k].facs, names);
      NamesAt(Texts(sels[k].facs), mask, l, names);
      var r := ApplyNames(Texts(sels[k].facs), mask, l, names);
      if r.Some? {
        SelectorsAt(sels, k + 1, r.value, names);
      }
    }
  }

  /**
   * Decoding the text of a selector list, with any commas and blanks between facilities, any separators between
   * selectors and anything behind a blank or tab, fails exactly when a name is unknown; otherwise the mask of each
   * facility is the left-to-right fold of just the selectors naming it or `*`.
   */
  lemma DecodedList(sels: seq<Selector>, rest: string, names: Names)
    requires ValidNames(names) && AllWellFormed(sels) && SetOff(rest)
    ensures var r := Scan(Line(sels, 0, rest), 0, NoPri(), names);
            && (r.Some? <==> AllKnown(sels, names))
            && (r.Some? ==> forall f :: 0 <= f < ENTRIES ==> r.value[f] == Fold(sels, 0, TABLE_NOPRI, f, names))
  {
    var line := Line(sels, 0, rest);
    assert line[0..] == line;
    ScanOf(line, 0, sels, 0, rest, NoPri(), names);
    SelectorsAt(sels, 0, NoPri(), names);
  }
}
