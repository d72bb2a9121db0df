/** Priority masks: one byte per facility, one bit per severity
    (grammar/rainerscript.c: prifilt*, doFunct_Prifilt; runtime/srUtils.h: TABLE_*). */
module PriMask {

  const ENTRIES: nat := 26          // LOG_NFACILITIES + 1
  const TABLE_NOPRI: bv8 := 0
  const TABLE_ALLPRI: bv8 := 0xFF

  type Mask = m: seq<bv8> | |m| == ENTRIES witness seq(ENTRIES, i => 0)

  datatype CmpOp = EQ | NE | LT | LE | GT | GE

  predicate Holds(op: CmpOp, a: int, b: int) {
    match op
    case EQ => a == b
    case NE => a != b
    case LT => a < b
    case LE => a <= b
    case GT => a > b
    case GE => a >= b
  }

  /** `1 << k` stored into an unsigned char. */
  function OneBit(k: nat): bv8 {
    match k
    case 0 => 1
    case 1 => 2
    case 2 => 4
    case 3 => 8
    case 4 => 16
    case 5 => 32
    case 6 => 64
    case 7 => 128
    case _ => 0
  }

  predicate HasBit(b: bv8, k: nat) { b & OneBit(k) != 0 }

  predicate SingleBit(m: bv8) { m != 0 && m & (m - 1) == 0 }

  lemma SingleBitOps(a: bv8, b: bv8, m: bv8)
    requires SingleBit(m)
    ensures (a & b & m != 0) == (a & m != 0 && b & m != 0)
    ensures ((a | b) & m != 0) == (a & m != 0 || b & m != 0)
    ensures (!a & m != 0) == (a & m == 0)
    ensures TABLE_ALLPRI & m == m
  {}

  lemma OneBitIsSingle(k: nat)
    requires k < 8
    ensures SingleBit(OneBit(k))
  {}

  lemma BitAnd(a: bv8, b: bv8, k: nat)
    requires k < 8
    ensures HasBit(a & b, k) == (HasBit(a, k) && HasBit(b, k))
  {
    OneBitIsSingle(k);
    SingleBitOps(a, b, OneBit(k));
  }

  lemma BitOr(a: bv8, b: bv8, k: nat)
    requires k < 8
    ensures HasBit(a | b, k) == (HasBit(a, k) || HasBit(b, k))
  {
    OneBitIsSingle(k);
    SingleBitOps(a, b, OneBit(k));
  }

  lemma BitNot(a: bv8, k: nat)
    requires k < 8
    ensures HasBit(!a, k) == !HasBit(a, k)
    ensures !HasBit(TABLE_NOPRI, k) && HasBit(TABLE_ALLPRI, k)
  {
    OneBitIsSingle(k);
    SingleBitOps(a, a, OneBit(k));
  }

  lemma OneBitAt(k: nat, j: nat)
    requires k < 8 && j < 8
    ensures HasBit(OneBit(k), j) == (j == k)
  {
    if k == 0 {} else if k == 1 {} else if k == 2 {} else if k == 3 {}
    else if k == 4 {} else if k == 5 {} else if k == 6 {} else {}
  }

  /** The lessthanmasks table. */
  function LessThanMask(sev: nat): bv8
    requires sev <= 8
  {
    [0x00, 0x01, 0x03, 0x07, 0x0f, 0x1f, 0x3f, 0x7f, 0xff][sev]
  }

  lemma LessThanMaskAt(sev: nat, j: nat)
    requires sev <= 8 && j < 8
    ensures HasBit(LessThanMask(sev), j) == (j < sev)
  {
    if j == 0 {} else if j == 1 {} else if j == 2 {} else if j == 3 {}
    else if j == 4 {} else if j == 5 {} else if j == 6 {} else {}
  }

  /** doFunct_Prifilt and execPRIFILT: does the mask let a message of this facility and severity pass? */
  predicate Passes(m: Mask, fac: nat, sev: nat)
    requires fac < ENTRIES
  {
    m[fac] != TABLE_NOPRI && HasBit(m[fac], sev)
  }

  lemma PassesIsBit(m: Mask, fac: nat, sev: nat)
    requires fac < ENTRIES
    ensures Passes(m, fac, sev) == HasBit(m[fac], sev)
  {
    if m[fac] == 0 {
      assert 0 & OneBit(sev) == 0;
    }
  }

  // ----- the masks as values -----

  function Inverted(m: Mask): Mask { seq(ENTRIES, i requires 0 <= i < ENTRIES => !m[i]) }

  function CombineByte(a: bv8, b: bv8, conj: bool): bv8 { if conj then a & b else a | b }

  function Combined(a: Mask, b: Mask, conj: bool): Mask {
    seq(ENTRIES, i requires 0 <= i < ENTRIES => CombineByte(a[i], b[i], conj))
  }

  function SeverityByte(sev: nat, op: CmpOp): bv8
    requires sev <= 7
  {
    match op
    case EQ => OneBit(sev)
    case NE => !OneBit(sev)
    case LT => LessThanMask(sev)
    case LE => LessThanMask(sev + 1)
    case GT => !LessThanMask(sev + 1)
    case GE => !LessThanMask(sev)
  }

  function SeverityMask(sev: nat, op: CmpOp): Mask
    requires sev <= 7
  {
    seq(ENTRIES, i => SeverityByte(sev, op))
  }

  function FacilityMask(fac: nat, op: CmpOp): Mask
    requires fac <= 24
  {
    seq(ENTRIES, i => if Holds(op, i, fac) then TABLE_ALLPRI else TABLE_NOPRI)
  }

  /** cnffuncNew_prifilt: every severity of the facility with this code. */
  function OneFacility(code: nat): Mask {
    seq(ENTRIES, i => if i == code / 8 then TABLE_ALLPRI else TABLE_NOPRI)
  }

  /** The mask of an == or <> comparison with the severity of this code; codes above 7 are shifted out of the byte. */
  function OneSeverity(code: nat, op: CmpOp): Mask {
    if code <= 7 then SeverityMask(code, op) else seq(ENTRIES, i => if op == EQ then TABLE_NOPRI else TABLE_ALLPRI)
  }

  // ----- what the masks mean -----

  lemma InvertedMeans(m: Mask, fac: nat, sev: nat)
    requires fac < ENTRIES && sev < 8
    ensures Passes(Inverted(m), fac, sev) == !Passes(m, fac, sev)
  {
    BitNot(m[fac], sev);
    PassesIsBit(m, fac, sev);
    PassesIsBit(Inverted(m), fac, sev);
  }

  lemma CombinedMeans(a: Mask, b: Mask, conj: bool, fac: nat, sev: nat)
    requires fac < ENTRIES && sev < 8
    ensures Passes(Combined(a, b, conj), fac, sev) ==
            if conj then Passes(a, fac, sev) && Passes(b, fac, sev) else Passes(a, fac, sev) || Passes(b, fac, sev)
  {
    BitAnd(a[fac], b[fac], sev);
    BitOr(a[fac], b[fac], sev);
    PassesIsBit(a, fac, sev);
    PassesIsBit(b, fac, sev);
    PassesIsBit(Combined(a, b, conj), fac, sev);
  }

  /** A severity mask passes exactly the messages whose severity compares as asked, whatever their facility. */
  lemma SeverityMaskMeans(lit: nat, op: CmpOp, fac: nat, sev: nat)
    requires lit <= 7 && fac < ENTRIES && sev < 8
    ensures Passes(SeverityMask(lit, op), fac, sev) == Holds(op, sev, lit)
  {
    PassesIsBit(SeverityMask(lit, op), fac, sev);
    OneBitAt(lit, sev);
    LessThanMaskAt(lit, sev);
    LessThanMaskAt(lit + 1, sev);
    BitNot(OneBit(lit), sev);
    BitNot(LessThanMask(lit), sev);
    BitNot(LessThanMask(lit + 1), sev);
  }

  lemma FacilityMaskMeans(lit: nat, op: CmpOp, fac: nat, sev: nat)
    requires lit <= 24 && fac < ENTRIES && sev < 8
    ensures Passes(FacilityMask(lit, op), fac, sev) == Holds(op, fac, lit)
  {
    PassesIsBit(FacilityMask(lit, op), fac, sev);
    BitNot(0, sev);
  }

  lemma OneFacilityMeans(code: nat, fac: nat, sev: nat)
    requires fac < ENTRIES && sev < 8
    ensures Passes(OneFacility(code), fac, sev) == (fac == code / 8)
    ensures Passes(Inverted(OneFacility(code)), fac, sev) == (fac != code / 8)
  {
    PassesIsBit(OneFacility(code), fac, sev);
    BitNot(0, sev);
    InvertedMeans(OneFacility(code), fac, sev);
  }

  lemma OneSeverityMeans(code: nat, op: CmpOp, fac: nat, sev: nat)
    requires fac < ENTRIES && sev < 8 && (op == EQ || op == NE)
    ensures Passes(OneSeverity(code, op), fac, sev) == Holds(op, sev, code)
  {
    if code <= 7 {
      SeverityMaskMeans(code, op, fac, sev);
    } else {
      PassesIsBit(OneSeverity(code, op), fac, sev);
      BitNot(0, sev);
    }
  }

  // ----- the in-place loops -----

  method PrifiltInvert(pmask: array<bv8>)
    requires pmask.Length == ENTRIES
    modifies pmask
    ensures pmask[..] == Inverted(old(pmask[..]))
  {
    var i := 0;
    while i < ENTRIES
      invariant 0 <= i <= ENTRIES
      invariant forall k :: 0 <= k < i ==> pmask[k] == !old(pmask[k])
      invariant forall k :: i <= k < ENTRIES ==> pmask[k] == old(pmask[k])
    {
      pmask[i] := !pmask[i];
      i := i + 1;
    }
  }

  method PrifiltSetSeverity(pmask: array<bv8>, sev: nat, mode: CmpOp)
    requires pmask.Length == ENTRIES && sev <= 7
    modifies pmask
    ensures pmask[..] == SeverityMask(sev, mode)
  {
    ghost var plain := if mode == NE then OneBit(sev) else SeverityByte(sev, mode);
    var i := 0;
    while i < ENTRIES
      invariant 0 <= i <= ENTRIES
      invariant forall k :: 0 <= k < i ==> pmask[k] == plain
    {
      match mode {
        case EQ => pmask[i] := OneBit(sev);
        case NE => pmask[i] := OneBit(sev);
        case LT => pmask[i] := LessThanMask(sev);
        case LE => pmask[i] := LessThanMask(sev + 1);
        case GT => pmask[i] := !LessThanMask(sev + 1);
        case GE => pmask[i] := !LessThanMask(sev);
      }
      i := i + 1;
    }
    if mode == NE {
      PrifiltInvert(pmask);
    }
  }

  /** Enables every severity for the entries lo..hi. */
  method FillAll(pmask: array<bv8>, lo: nat, hi: nat)
    requires lo <= hi <= pmask.Length
    modifies pmask
    ensures forall k :: 0 <= k < pmask.Length ==> pmask[k] == if lo <= k < hi then TABLE_ALLPRI else old(pmask[k])
  {
    var i := lo;
    while i < hi
      invariant lo <= i <= hi
      invariant forall k :: 0 <= k < pmask.Length ==> pmask[k] == if lo <= k < i then TABLE_ALLPRI else old(pmask[k])
    {
      pmask[i] := TABLE_ALLPRI;
      i := i + 1;
    }
  }

  method PrifiltSetFacility(pmask: array<bv8>, fac: nat, mode: CmpOp)
    requires pmask.Length == ENTRIES && fac <= 24
    modifies pmask
    ensures pmask[..] == FacilityMask(fac, mode)
  {
    forall i | 0 <= i < ENTRIES {
      pmask[i] := TABLE_NOPRI;
    }
    match mode {
      case EQ => pmask[fac] := TABLE_ALLPRI;
      case NE =>
        pmask[fac] := TABLE_ALLPRI;
        PrifiltInvert(pmask);
        assert !TABLE_NOPRI == TABLE_ALLPRI && !TABLE_ALLPRI == TABLE_NOPRI;
      case LT => FillAll(pmask, 0, fac);
      case LE => FillAll(pmask, 0, fac + 1);
      case GE => FillAll(pmask, fac, ENTRIES);
      case GT => FillAll(pmask, fac + 1, ENTRIES);
    }
  }

  method PrifiltCombine(pmask: array<bv8>, other: array<bv8>, conj: bool)
    requires pmask.Length == ENTRIES && other.Length == ENTRIES && pmask != other
    modifies pmask
    ensures pmask[..] == Combined(old(pmask[..]), other[..], conj)
  {
    var i := 0;
    while i < ENTRIES
      invariant 0 <= i <= ENTRIES
      invariant forall k :: 0 <= k < i ==> pmask[k] == CombineByte(old(pmask[k]), other[k], conj)
      invariant forall k :: i <= k < ENTRIES ==> pmask[k] == old(pmask[k])
    {
      pmask[i] := CombineByte(pmask[i], other[i], conj);
      i := i + 1;
    }
  }
}
