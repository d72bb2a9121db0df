/** The expression optimizer preserves meaning: for every message, running the optimized tree
    yields what the original expression says. */
module OptimizerSound {
  import opened Values
  import opened PriMask
  import opened Script
  import opened Optimizer

  // ----- trees that need no optimizing: running them is reading them -----

  /** Array comparisons have the array on the right, sorted, and a text on the left or a number that does no harm:
      none to the value where `exact` asks for it, none to the truth elsewhere. */
  ghost predicate Ordered(e: Expr, exact: bool, lib: Lib) {
    match e
    case Func(_, args) => forall a :: a in args ==> Ordered(a, true, lib)
    case Neg(r) => Ordered(r, true, lib)
    case Not(r) => Ordered(r, false, lib)
    case And(l, r) => Ordered(l, false, lib) && Ordered(r, false, lib)
    case Or(l, r) => Ordered(l, false, lib) && Ordered(r, false, lib)
    case Text(_, l, r) => Ordered(l, true, lib) && Ordered(r, true, lib)
    case Arith(_, l, r) => Ordered(l, true, lib) && Ordered(r, true, lib)
    case Concat(l, r) => Ordered(l, true, lib) && Ordered(r, true, lib)
    case Cmp(op, l, r) =>
      Ordered(l, true, lib) && Ordered(r, true, lib) && (IsEqOp(op) ==> OrderedArrays(l, r, exact && op == NE, lib))
    case Freed => false
    case _ => true
  }

  ghost predicate OrderedArrays(l: Expr, r: Expr, numeral: bool, lib: Lib) {
    && (l.ArrLit? ==> r.ArrLit?)
    && (r.ArrLit? ==> Sorted(lib.cmp, r.elems) && (Numeric(l, lib) ==> NumberOk(numeral, r.elems, lib)))
  }

  /** The decimal texts among the elements are just that of the number `first` reads as, or none if it reads as none. */
  ghost predicate OneNumeral(a: seq<string>, first: string) {
    var (k, ok) := TextNumber(first);
    && (ok ==> NumText(k) in a)
    && forall n :: NumText(n) in a ==> ok && n == k
  }

  /** Comparing a number with `first` tells whether its text is in the array. */
  ghost predicate MembershipByFirst(a: seq<string>, first: string, lib: Lib) {
    forall n :: EqVals(lib, Num(n), Str(first)) <==> NumText(n) in a
  }

  /** Comparing numbers with `first` instead of the array gives membership exactly under that condition. */
  lemma OneNumeralExactly(a: seq<string>, first: string, lib: Lib)
    requires TotalOrder(lib.cmp)
    ensures MembershipByFirst(a, first, lib) <==> OneNumeral(a, first)
  {
    forall n ensures EqVals(lib, Num(n), Str(first)) <==> TextNumber(first) == (n, true) {
      NumberRoundTrip(n);
    }
    var (k, ok) := TextNumber(first);
    assert EqVals(lib, Num(k), Str(first)) == ok;
  }

  ghost predicate Least(f: string, a: seq<string>, lib: Lib) {
    f in a && forall y :: y in a && y != f ==> lib.cmp(f, y) <= 0
  }

  /** A number may be compared with the element that sorting puts first; `numeral` asks that this one is a number. */
  ghost predicate NumberOk(numeral: bool, a: seq<string>, lib: Lib) {
    a != [] && forall f :: Least(f, a, lib) ==> OneNumeral(a, f) && (numeral ==> TextNumber(f).1)
  }

  lemma FirstIsLeast(a: seq<string>, lib: Lib)
    requires a != [] && Sorted(lib.cmp, a)
    ensures Least(a[0], a, lib)
  {
    forall y | y in a && y != a[0] ensures lib.cmp(a[0], y) <= 0 {
      assert y in a[1..];
    }
  }

  lemma NumberOkMembers(numeral: bool, a: seq<string>, b: seq<string>, lib: Lib)
    requires NumberOk(numeral, a, lib) && b != [] && forall t :: t in b <==> t in a
    ensures NumberOk(numeral, b, lib)
  {
    forall f | Least(f, b, lib) ensures OneNumeral(b, f) && (numeral ==> TextNumber(f).1) {
      assert Least(f, a, lib);
    }
  }

  /** A number against a sorted array. */
  lemma NumberAgainstSorted(op: CmpOp, n: int, a: seq<string>, exact: bool, lib: Lib)
    requires ValidLib(lib) && IsEqOp(op) && Sorted(lib.cmp, a) && NumberOk(exact && op == NE, a, lib)
    ensures Agree(exact, CmpVals(lib, op, Num(n), Str(First(a))), Bit((NumText(n) in a) == (op == EQ)))
  {
    FirstIsLeast(a, lib);
    OneNumeralExactly(a, a[0], lib);
    assert EqVals(lib, Num(n), Str(First(a))) <==> NumText(n) in a;
    FlagAgrees(NeVals(lib, Num(n), Str(First(a))));
  }

  /** Binary search agrees with membership everywhere in an ordered tree. */
  lemma {:induction false} RunIsRef(e: Expr, exact: bool, lib: Lib, env: Env)
    requires ValidLib(lib) && ValidSearch(lib) && ValidEnv(lib, env) && Ordered(e, exact, lib)
    ensures Agree(exact, Eval(Run, e, lib, env), Eval(Ref, e, lib, env))
    decreases e, 1
  {
    match e
    case Func(_, args) => RunIsRefAll(args, lib, env);
    case Neg(r) => RunIsRef(r, true, lib, env);
    case Not(r) => RunIsRef(r, false, lib, env);
    case And(l, r) => RunIsRef(l, false, lib, env); RunIsRef(r, false, lib, env);
    case Or(l, r) => RunIsRef(l, false, lib, env); RunIsRef(r, false, lib, env);
    case Text(_, l, r) => RunIsRef(l, true, lib, env); RunIsRef(r, true, lib, env);
    case Arith(_, l, r) => RunIsRef(l, true, lib, env); RunIsRef(r, true, lib, env);
    case Concat(l, r) => RunIsRef(l, true, lib, env); RunIsRef(r, true, lib, env);
    case Cmp(op, l, r) =>
      RunIsRef(l, true, lib, env);
      RunIsRef(r, true, lib, env);
      CmpRunIsRef(op, l, r, exact, lib, env);
    case _ =>
  }

  lemma {:induction false} CmpRunIsRef(op: CmpOp, l: Expr, r: Expr, exact: bool, lib: Lib, env: Env)
    requires ValidLib(lib) && ValidSearch(lib) && ValidEnv(lib, env)
    requires IsEqOp(op) ==> OrderedArrays(l, r, exact && op == NE, lib)
    requires Eval(Run, l, lib, env) == Eval(Ref, l, lib, env) && Eval(Run, r, lib, env) == Eval(Ref, r, lib, env)
    ensures Agree(exact, Eval(Run, Cmp(op, l, r), lib, env), Eval(Ref, Cmp(op, l, r), lib, env))
  {
    NumericSound(Ref, l, lib, env);
    var lv := Eval(Ref, l, lib, env);
    if IsEqOp(op) && r.ArrLit? && lv.Num? {
      NumberAgainstSorted(op, lv.n, r.elems, exact, lib);
    }
  }

  lemma {:induction false} RunIsRefAll(es: seq<Expr>, lib: Lib, env: Env)
    requires ValidLib(lib) && ValidSearch(lib) && ValidEnv(lib, env)
    requires forall a :: a in es ==> Ordered(a, true, lib)
    ensures EvalAll(Run, es, lib, env) == EvalAll(Ref, es, lib, env)
    decreases es, 0
  {
    if es != [] {
      RunIsRef(es[0], true, lib, env);
      RunIsRefAll(es[1..], lib, env);
    }
  }

  // ----- the expressions the optimizer treats correctly -----

  /** The names are those of the properties. */
  predicate NameOk(name: string, prop: Prop) {
    && (name == SEVERITY ==> prop.id == PROP_SYSLOGSEVERITY)
    && (name == FACILITY ==> prop.id == PROP_SYSLOGFACILITY)
    && (name == SEVERITY_TEXT ==> prop.id == PROP_SYSLOGSEVERITY_TEXT)
    && (name == FACILITY_TEXT ==> prop.id == PROP_SYSLOGFACILITY_TEXT)
  }

  /** The number of an == or <> survives the narrowing to an int, and facility 24, which reads as a word,
      is not compared with 24 in a way where word and number differ. */
  predicate LiteralOk(name: string, n: int, op: CmpOp) {
    && (IsEqOp(op) ==> n == Trunc32(n))
    && (name == FACILITY && Trunc32(n) == 24 ==> op == LT || op == GE)
  }

  /** The name is the one a message with its code reads as, and no other name, alias or number;
      a code no message has goes with a name no message reads as. */
  predicate CanonicalName(name: string, s: string, code: nat) {
    if name == SEVERITY_TEXT then
      if code <= 7 then s == SeverityName(code) else forall sev: nat :: sev <= 7 ==> s != SeverityName(sev)
    else if code / 8 <= 24 then s == FacilityName(code / 8) else forall fac: nat :: fac <= 24 ==> s != FacilityName(fac)
  }

  predicate RewriteOk(op: CmpOp, name: string, v: Value, lib: Lib)
    requires Rewrites(op, name, v, lib)
  {
    if v.Num? then LiteralOk(name, v.n, op) else CanonicalName(name, v.s, NameCode(name, v.s, lib))
  }

  /** Both operands are constants that are compared as texts. */
  predicate TextFold(lv: Option<Value>, rv: Option<Value>) {
    && lv.Some? && rv.Some?
    && !(lv.value.Num? && rv.value.Num?)
    && ((lv.value.Num? || rv.value.Num?) ==> !(ConvOk(lv.value) && ConvOk(rv.value)))
  }

  predicate NumeralOk(v: Option<Value>, lib: Lib) {
    v.Some? && v.value.Str? ==> lib.esNum(v.value.s) == TextNumber(v.value.s).0
  }

  ghost predicate CmpOk(op: CmpOp, l: Expr, r: Expr, exact: bool, lib: Lib) {
    var lv, rv := FoldValue(l, lib), FoldValue(r, lib);
    var rewritten := l.Var? && rv.Some? && Rewrites(op, l.name, rv.value, lib);
    && (rewritten ==> RewriteOk(op, l.name, rv.value, lib))
    && (IsEqOp(op) && r.ArrLit? && Numeric(l, lib) ==> NumberOk(exact && op == NE, r.elems, lib))
    && (IsEqOp(op) && l.ArrLit? && Numeric(r, lib) ==> NumberOk(exact && op == NE, l.elems, lib))
    && (exact && op == NE ==> !TextFold(lv, rv) && !(rewritten && l.name != SEVERITY))
  }

  /** `exact` asks for the same value, otherwise only for the same truth value. */
  ghost predicate Safe(e: Expr, exact: bool, lib: Lib) {
    match e
    case Var(name, prop, _) => NameOk(name, prop)
    case Func(_, args) => forall a :: a in args ==> Ordered(a, true, lib)
    case Neg(r) => Ordered(r, true, lib)
    case Not(r) => Safe(r, false, lib)
    case And(l, r) => Safe(l, false, lib) && Safe(r, false, lib)
    case Or(l, r) => Safe(l, false, lib) && Safe(r, false, lib)
    case Text(_, l, r) => Safe(l, true, lib) && Safe(r, true, lib)
    case Arith(_, l, r) =>
      && Safe(l, true, lib) && Safe(r, true, lib) && !Moves(l, lib) && !Moves(r, lib)
      && NumeralOk(FoldValue(l, lib), lib) && NumeralOk(FoldValue(r, lib), lib)
    case Concat(l, r) => Safe(l, true, lib) && Safe(r, true, lib) && !Moves(l, lib) && !Moves(r, lib)
    case Cmp(op, l, r) => Safe(l, true, lib) && Safe(r, true, lib) && CmpOk(op, l, r, exact, lib)
    case Freed => false
    case _ => true
  }

  /** Same value, or same truth both as an operand of a logical operator and as a condition. */
  predicate Agree(exact: bool, v: Value, w: Value) {
    if exact then v == w else Truthy(v) == Truthy(w) && Condition(v) == Condition(w)
  }

  // ----- one rewrite at a time -----

  lemma FoldArithMeans(op: ArithOp, l: Expr, r: Expr, lib: Lib, env: Env)
    requires env.fac < ENTRIES
    requires l.StrLit? ==> lib.esNum(l.s) == TextNumber(l.s).0
    requires r.StrLit? ==> lib.esNum(r.s) == TextNumber(r.s).0
    ensures Eval(Ref, FoldArith(op, l, r, lib), lib, env) == Eval(Ref, Arith(op, l, r), lib, env)
  {}

  lemma FoldConcatMeans(l: Expr, r: Expr, lib: Lib, env: Env)
    requires env.fac < ENTRIES
    ensures Eval(Ref, FoldConcat(l, r), lib, env) == Eval(Ref, Concat(l, r), lib, env)
  {}

  lemma FlagAgrees(n: int)
    requires -0x8000_0000 <= n < 0x8000_0000
    ensures Agree(false, Num(n), Num(Flag(n != 0)))
  {
    Trunc32Id(n);
    Trunc32Id(0);
    Trunc32Id(1);
  }

  lemma {:induction false} FoldCmpMeans(op: CmpOp, l: Expr, r: Expr, exact: bool, lib: Lib, env: Env)
    requires ValidLib(lib) && env.fac < ENTRIES && IsEqOp(op) && IsLit(l) && IsLit(r)
    requires exact && op == NE ==> !TextFold(Some(LitValue(l)), Some(LitValue(r)))
    ensures Agree(exact, Eval(Ref, Cmp(op, l, r), lib, env), Num(FoldCmp(op, l, r, lib)))
  {
    FoldCmpValue(op, l, r, lib);
    var lv, rv := LitValue(l), LitValue(r);
    assert Eval(Ref, Cmp(op, l, r), lib, env) == CmpVals(lib, op, lv, rv);
    if op == NE {
      FlagAgrees(NeVals(lib, lv, rv));
    }
  }

  lemma {:induction false} ArrangeMeans(op: CmpOp, l: Expr, r: Expr, lib: Lib, env: Env)
    requires ValidSearch(lib) && env.fac < ENTRIES
    ensures var (l', r') := Arrange(op, l, r, lib);
            Eval(Ref, Cmp(op, l, r), lib, env) == Eval(Ref, Cmp(op, l', r'), lib, env)
  {
    if IsEqOp(op) && r.ArrLit? {
      SortKeeps(r.elems, ToText(Eval(Ref, l, lib, env)), lib);
    } else if IsEqOp(op) && l.ArrLit? {
      SortKeeps(l.elems, ToText(Eval(Ref, r, lib, env)), lib);
    }
  }

  lemma SortKeeps(a: seq<string>, t: string, lib: Lib)
    requires ValidSearch(lib)
    ensures t in lib.sort(a) <==> t in a
  {
    assert multiset(lib.sort(a)) == multiset(a);
    assert t in lib.sort(a) <==> t in multiset(lib.sort(a));
    assert t in a <==> t in multiset(a);
  }

  /** The ordering sees a difference only as a C int, so narrowing the literal first changes nothing. */
  lemma NarrowedOrder(a: int, n: int, op: CmpOp)
    requires 0 <= a <= 24 && 0 <= Trunc32(n) <= 24 && !IsEqOp(op)
    ensures Holds(op, Trunc32(a - n), 0) == Holds(op, a, Trunc32(n))
  {
    Trunc32Sub(a, n);
    Trunc32Id(a - Trunc32(n));
  }

  /** The comparison of a decimal text with a number, for a severity or a valid facility. */
  lemma NumeralCmp(a: nat, n: int, op: CmpOp, lib: Lib)
    requires a <= 24 && 0 <= Trunc32(n) <= 24
    requires IsEqOp(op) ==> n == Trunc32(n)
    ensures CmpVals(lib, op, Str(NumText(a)), Num(n)) == Bit(Holds(op, a, Trunc32(n)))
  {
    NumberRoundTrip(a);
    if !IsEqOp(op) {
      NarrowedOrder(a, n, op);
    }
  }

  lemma SeverityMeans(n: int, op: CmpOp, lib: Lib, env: Env)
    requires ValidEnv(lib, env) && PriLiteral(SEVERITY, n) && LiteralOk(SEVERITY, n, op)
    ensures CmpVals(lib, op, Str(NumText(env.sev)), Num(n)) == Bit(Passes(PriMaskFor(SEVERITY, n, op), env.fac, env.sev))
  {
    NumeralCmp(env.sev, n, op, lib);
    SeverityMaskMeans(Trunc32(n), op, env.fac, env.sev);
  }

  lemma InvalidFacilityCmp(n: int, op: CmpOp, lib: Lib)
    requires ValidLib(lib)
    ensures CmpVals(lib, op, Str("invld"), Num(n)) ==
            if op == NE then Num(lib.cmp("invld", NumText(n))) else Bit(op == GT || op == GE)
  {
    assert !ConvOk(Str("invld")) by {
      assert !IsDigit("invld"[0]);
    }
    assert lib.cmp("invld", NumText(n)) > 0;
  }

  lemma FacilityMeans(n: int, op: CmpOp, exact: bool, lib: Lib, fac: nat, sev: nat)
    requires ValidLib(lib) && fac <= 24 && sev <= 7 && PriLiteral(FACILITY, n) && LiteralOk(FACILITY, n, op)
    requires exact ==> op != NE
    ensures Agree(exact, CmpVals(lib, op, Str(FacilityText(fac)), Num(n)),
                  Bit(Passes(PriMaskFor(FACILITY, n, op), fac, sev)))
  {
    FacilityMaskMeans(Trunc32(n), op, fac, sev);
    if fac <= 23 {
      NumeralCmp(fac, n, op, lib);
    } else {
      InvalidFacilityCmp(n, op, lib);
      FlagAgrees(lib.cmp("invld", NumText(n)));
    }
  }

  /** What a message reads as under one of the two name variables. */
  function NameText(name: string, fac: nat, sev: nat): string {
    if name == SEVERITY_TEXT then SeverityName(sev) else FacilityName(fac)
  }

  /** The mask passes exactly the messages that read as the name. */
  lemma NameMaskMeans(name: string, s: string, code: nat, op: CmpOp, fac: nat, sev: nat)
    requires fac <= 24 && sev <= 7 && IsEqOp(op) && CanonicalName(name, s, code)
    ensures Passes(NameMask(name, code, op), fac, sev) == ((NameText(name, fac, sev) == s) == (op == EQ))
  {
    if name == SEVERITY_TEXT {
      OneSeverityMeans(code, op, fac, sev);
      SeverityNamed(sev);
      if code <= 7 { SeverityNamed(code); }
    } else {
      OneFacilityMeans(code, fac, sev);
      FacilityNamed(fac);
      if code / 8 <= 24 { FacilityNamed(code / 8); }
    }
  }

  lemma NameMeans(name: string, s: string, code: nat, op: CmpOp, exact: bool, lib: Lib, fac: nat, sev: nat)
    requires ValidLib(lib) && fac <= 24 && sev <= 7 && IsEqOp(op) && CanonicalName(name, s, code)
    requires exact ==> op != NE
    ensures Agree(exact, CmpVals(lib, op, Str(NameText(name, fac, sev)), Str(s)),
                  Bit(Passes(NameMask(name, code, op), fac, sev)))
  {
    NameMaskMeans(name, s, code, op, fac, sev);
    FlagAgrees(lib.cmp(NameText(name, fac, sev), s));
  }

  lemma {:induction false} PriMeans(op: CmpOp, l: Expr, r: Expr, exact: bool, lib: Lib, env: Env)
    requires ValidLib(lib) && ValidEnv(lib, env)
    requires l.Var? ==> NameOk(l.name, l.prop)
    requires l.Var? && IsLit(r) && Rewrites(op, l.name, LitValue(r), lib) ==>
               RewriteOk(op, l.name, LitValue(r), lib) && (exact && op == NE ==> l.name == SEVERITY)
    ensures Agree(exact, Eval(Ref, Cmp(op, l, r), lib, env), Eval(Ref, OptimizePri(op, l, r, lib).expr, lib, env))
  {
    if l.Var? && IsLit(r) && Rewrites(op, l.name, LitValue(r), lib) {
      assert Eval(Ref, Cmp(op, l, r), lib, env) == CmpVals(lib, op, env.read(l.prop), LitValue(r));
      if l.name == SEVERITY && r.NumLit? {
        SeverityMeans(r.n, op, lib, env);
      } else if r.NumLit? {
        FacilityMeans(r.n, op, exact, lib, env.fac, env.sev);
      } else {
        NameMeans(l.name, r.s, NameCode(l.name, r.s, lib), op, exact, lib, env.fac, env.sev);
      }
    }
  }

  /** The whole treatment of a comparison whose operands are already optimized. */
  lemma {:induction false} CmpMeans(op: CmpOp, l: Expr, r: Expr, exact: bool, lib: Lib, env: Env)
    requires ValidLib(lib) && ValidSearch(lib) && ValidEnv(lib, env)
    requires l.Var? ==> NameOk(l.name, l.prop)
    requires r.Var? ==> NameOk(r.name, r.prop)
    requires IsLit(l) ==> FoldValue(l, lib) == Some(LitValue(l))
    requires IsLit(r) ==> FoldValue(r, lib) == Some(LitValue(r))
    requires CmpOk(op, l, r, exact, lib)
    ensures Agree(exact, Eval(Ref, Cmp(op, l, r), lib, env), Eval(Ref, OptimizeCmp(op, l, r, lib).expr, lib, env))
  {
    if IsEqOp(op) && IsLit(l) && IsLit(r) {
      FoldCmpMeans(op, l, r, exact, lib, env);
    } else {
      var (l', r') := Arrange(op, l, r, lib);
      ArrangeMeans(op, l, r, lib, env);
      PriMeans(op, l', r', exact, lib, env);
    }
  }

  lemma {:induction false} NotMeans(r: Expr, lib: Lib, env: Env)
    requires env.fac < ENTRIES && env.sev <= 7 && r.Prifilt?
    ensures Eval(Ref, Prifilt(Inverted(r.mask)), lib, env) == Eval(Ref, Not(r), lib, env)
  {
    InvertedMeans(r.mask, env.fac, env.sev);
  }

  lemma {:induction false} MergeMeans(l: Expr, r: Expr, lib: Lib, env: Env)
    requires env.fac < ENTRIES && env.sev <= 7 && l.Prifilt? && r.Prifilt?
    ensures Eval(Ref, Prifilt(Combined(l.mask, r.mask, true)), lib, env) == Eval(Ref, And(l, r), lib, env)
    ensures Eval(Ref, Prifilt(Combined(l.mask, r.mask, false)), lib, env) == Eval(Ref, Or(l, r), lib, env)
  {
    CombinedMeans(l.mask, r.mask, true, env.fac, env.sev);
    CombinedMeans(l.mask, r.mask, false, env.fac, env.sev);
  }

  // ----- the whole tree -----

  ghost predicate Preserved(e: Expr, exact: bool, lib: Lib, env: Env)
    requires env.fac < ENTRIES
  {
    Agree(exact, Eval(Ref, e, lib, env), Eval(Ref, Optimize(e, lib).expr, lib, env))
  }

  lemma {:induction false} CmpPreserved(op: CmpOp, l: Expr, r: Expr, exact: bool, lib: Lib, env: Env)
    requires ValidLib(lib) && ValidSearch(lib) && ValidEnv(lib, env)
    requires Safe(Cmp(op, l, r), exact, lib) && Preserved(l, true, lib, env) && Preserved(r, true, lib, env)
    ensures Preserved(Cmp(op, l, r), exact, lib, env)
  {
    var l', r' := Optimize(l, lib).expr, Optimize(r, lib).expr;
    ShapeKept(l, lib);
    ShapeKept(r, lib);
    FoldStable(l, lib);
    FoldStable(r, lib);
    FoldLiteral(l, lib);
    FoldLiteral(r, lib);
    NumericKept(l, lib);
    NumericKept(r, lib);
    assert Eval(Ref, Cmp(op, l, r), lib, env) == Eval(Ref, Cmp(op, l', r'), lib, env);
    CmpMeans(op, l', r', exact, lib, env);
  }

  /** Optimizing does not change what folding would make of an expression. */
  lemma {:induction false} FoldStable(e: Expr, lib: Lib)
    ensures FoldValue(Optimize(e, lib).expr, lib) == FoldValue(e, lib)
  {
    FoldLiteral(e, lib);
    if FoldValue(e, lib).None? {
      match e
      case Concat(l, r) => FoldStable(l, lib); FoldStable(r, lib); FoldLiteral(l, lib); FoldLiteral(r, lib);
      case Arith(op, l, r) => FoldStable(l, lib); FoldStable(r, lib); FoldLiteral(l, lib); FoldLiteral(r, lib);
      case Cmp(op, l, r) =>
        FoldStable(l, lib);
        FoldStable(r, lib);
      case _ =>
    }
  }

  lemma {:induction false} NumericKept(e: Expr, lib: Lib)
    ensures Numeric(Optimize(e, lib).expr, lib) <==> Numeric(e, lib)
  {}

  lemma {:induction false} ArithPreserved(op: ArithOp, l: Expr, r: Expr, lib: Lib, env: Env)
    requires env.fac < ENTRIES && Preserved(l, true, lib, env) && Preserved(r, true, lib, env)
    requires !Moves(l, lib) && !Moves(r, lib)
    requires NumeralOk(FoldValue(l, lib), lib) && NumeralOk(FoldValue(r, lib), lib)
    ensures Preserved(Arith(op, l, r), true, lib, env)
  {
    OperandKept(l, lib);
    OperandKept(r, lib);
    ArithFolded(op, l, r, lib);
    ArithMeans(op, l, r, Optimize(l, lib).expr, Optimize(r, lib).expr, lib, env);
  }

  lemma {:induction false} ArithFolded(op: ArithOp, l: Expr, r: Expr, lib: Lib)
    requires Operand(Optimize(l, lib)) == Optimize(l, lib).expr && Operand(Optimize(r, lib)) == Optimize(r, lib).expr
    ensures Optimize(Arith(op, l, r), lib).expr == FoldArith(op, Optimize(l, lib).expr, Optimize(r, lib).expr, lib)
  {}

  /** Folding an arithmetic operator whose operands have kept their values. */
  lemma {:induction false} ArithMeans(op: ArithOp, l: Expr, r: Expr, l': Expr, r': Expr, lib: Lib, env: Env)
    requires env.fac < ENTRIES
    requires Eval(Ref, l, lib, env) == Eval(Ref, l', lib, env) && Eval(Ref, r, lib, env) == Eval(Ref, r', lib, env)
    requires l'.StrLit? ==> lib.esNum(l'.s) == TextNumber(l'.s).0
    requires r'.StrLit? ==> lib.esNum(r'.s) == TextNumber(r'.s).0
    ensures Eval(Ref, Arith(op, l, r), lib, env) == Eval(Ref, FoldArith(op, l', r', lib), lib, env)
  {
    FoldArithMeans(op, l', r', lib, env);
  }

  lemma {:induction false} OperandKept(e: Expr, lib: Lib)
    requires !Moves(e, lib) && NumeralOk(FoldValue(e, lib), lib)
    ensures var o := Optimize(e, lib);
            Operand(o) == o.expr && (o.expr.StrLit? ==> lib.esNum(o.expr.s) == TextNumber(o.expr.s).0)
  {
    MovesExactly(e, lib);
    FoldLiteral(e, lib);
  }

  lemma {:induction false} ConcatPreserved(l: Expr, r: Expr, lib: Lib, env: Env)
    requires env.fac < ENTRIES && Preserved(l, true, lib, env) && Preserved(r, true, lib, env)
    requires !Moves(l, lib) && !Moves(r, lib)
    ensures Preserved(Concat(l, r), true, lib, env)
  {
    MovesExactly(l, lib);
    MovesExactly(r, lib);
    FoldConcatMeans(Optimize(l, lib).expr, Optimize(r, lib).expr, lib, env);
  }

  lemma {:induction false} TextPreserved(op: TextOp, l: Expr, r: Expr, lib: Lib, env: Env)
    requires env.fac < ENTRIES && Preserved(l, true, lib, env) && Preserved(r, true, lib, env)
    ensures Preserved(Text(op, l, r), true, lib, env)
  {
    ShapeKept(r, lib);
  }

  lemma {:induction false} LogicPreserved(l: Expr, r: Expr, lib: Lib, env: Env)
    requires env.fac < ENTRIES && env.sev <= 7
    requires Preserved(l, false, lib, env) && Preserved(r, false, lib, env)
    ensures Preserved(And(l, r), true, lib, env) && Preserved(Or(l, r), true, lib, env)
  {
    var l', r' := Optimize(l, lib).expr, Optimize(r, lib).expr;
    if l'.Prifilt? && r'.Prifilt? {
      MergeMeans(l', r', lib, env);
    }
  }

  lemma {:induction false} NotPreserved(r: Expr, lib: Lib, env: Env)
    requires env.fac < ENTRIES && env.sev <= 7 && Preserved(r, false, lib, env)
    ensures Preserved(Not(r), true, lib, env)
  {
    var r' := Optimize(r, lib).expr;
    if r'.Prifilt? {
      NotMeans(r', lib, env);
    }
  }

  /** Optimizing a safe expression preserves its value, or its truth value where only that is asked for. */
  lemma {:induction false} OptimizePreserves(e: Expr, exact: bool, lib: Lib, env: Env)
    requires ValidLib(lib) && ValidSearch(lib) && ValidEnv(lib, env)
    requires Safe(e, exact, lib)
    ensures Preserved(e, exact, lib, env)
    decreases e, 1
  {
    if e.Concat? || e.Arith? || e.Text? {
      ValueNode(e, lib, env);
    } else if e.And? || e.Or? || e.Not? {
      LogicNode(e, lib, env);
    } else if e.Cmp? {
      CmpNode(e, exact, lib, env);
    }
  }

  lemma {:induction false} ValueNode(e: Expr, lib: Lib, env: Env)
    requires ValidLib(lib) && ValidSearch(lib) && ValidEnv(lib, env)
    requires (e.Concat? || e.Arith? || e.Text?) && Safe(e, true, lib)
    ensures Preserved(e, true, lib, env)
    decreases e, 0
  {
    OptimizePreserves(e.l, true, lib, env);
    OptimizePreserves(e.r, true, lib, env);
    if e.Concat? {
      ConcatPreserved(e.l, e.r, lib, env);
    } else if e.Arith? {
      ArithPreserved(e.aop, e.l, e.r, lib, env);
    } else {
      TextPreserved(e.top, e.l, e.r, lib, env);
    }
  }

  lemma {:induction false} CmpNode(e: Expr, exact: bool, lib: Lib, env: Env)
    requires ValidLib(lib) && ValidSearch(lib) && ValidEnv(lib, env)
    requires e.Cmp? && Safe(e, exact, lib)
    ensures Preserved(e, exact, lib, env)
    decreases e, 0
  {
    OptimizePreserves(e.l, true, lib, env);
    OptimizePreserves(e.r, true, lib, env);
    CmpPreserved(e.cop, e.l, e.r, exact, lib, env);
  }

  lemma {:induction false} LogicNode(e: Expr, lib: Lib, env: Env)
    requires ValidLib(lib) && ValidSearch(lib) && ValidEnv(lib, env)
    requires (e.And? || e.Or? || e.Not?) && Safe(e, true, lib)
    ensures Preserved(e, true, lib, env)
    decreases e, 0
  {
    OptimizePreserves(e.r, false, lib, env);
    if e.Not? {
      NotPreserved(e.r, lib, env);
    } else {
      OptimizePreserves(e.l, false, lib, env);
      LogicPreserved(e.l, e.r, lib, env);
    }
  }

  // ----- the result is ready to run, and optimizing it once more is safe, too -----

  ghost predicate Ready(e: Expr, exact: bool, lib: Lib) { Ordered(e, exact, lib) && Safe(e, exact, lib) }

  lemma {:induction false} CmpReady(op: CmpOp, l: Expr, r: Expr, exact: bool, lib: Lib)
    requires ValidSearch(lib)
    requires Safe(Cmp(op, l, r), exact, lib)
    requires Ready(Optimize(l, lib).expr, true, lib) && Ready(Optimize(r, lib).expr, true, lib)
    ensures Ready(Optimize(Cmp(op, l, r), lib).expr, exact, lib)
  {
    var l', r' := Optimize(l, lib).expr, Optimize(r, lib).expr;
    ShapeKept(l, lib);
    ShapeKept(r, lib);
    FoldStable(l, lib);
    FoldStable(r, lib);
    NumericKept(l, lib);
    NumericKept(r, lib);
    assert CmpOk(op, l', r', exact, lib);
    ArrangedReady(op, l', r', exact, lib);
  }

  lemma {:induction false} ArrangedReady(op: CmpOp, l: Expr, r: Expr, exact: bool, lib: Lib)
    requires ValidSearch(lib) && CmpOk(op, l, r, exact, lib)
    requires Ready(l, true, lib) && Ready(r, true, lib)
    ensures Ready(OptimizeCmp(op, l, r, lib).expr, exact, lib)
  {
    var (l', r') := Arrange(op, l, r, lib);
    if !(IsEqOp(op) && IsLit(l) && IsLit(r)) {
      ArrangedOk(op, l, r, exact, lib);
      assert r'.ArrLit? && IsEqOp(op) ==> Sorted(lib.cmp, r'.elems);
    }
  }

  lemma {:induction false} ArrangedOk(op: CmpOp, l: Expr, r: Expr, exact: bool, lib: Lib)
    requires ValidSearch(lib) && CmpOk(op, l, r, exact, lib)
    ensures var (l', r') := Arrange(op, l, r, lib); CmpOk(op, l', r', exact, lib)
  {
    if IsEqOp(op) && r.ArrLit? {
      SortedNumberOk(exact && op == NE, r.elems, lib);
    } else if IsEqOp(op) && l.ArrLit? {
      SortedNumberOk(exact && op == NE, l.elems, lib);
    }
  }

  lemma SortedNumberOk(numeral: bool, a: seq<string>, lib: Lib)
    requires ValidSearch(lib)
    ensures NumberOk(numeral, a, lib) ==> NumberOk(numeral, lib.sort(a), lib)
  {
    if NumberOk(numeral, a, lib) {
      forall t ensures t in lib.sort(a) <==> t in a { SortKeeps(a, t, lib); }
      assert a[0] in a;
      NumberOkMembers(numeral, a, lib.sort(a), lib);
    }
  }

  lemma {:induction false} ArithReady(op: ArithOp, l: Expr, r: Expr, lib: Lib)
    requires Safe(l, true, lib) && Safe(r, true, lib) && !Moves(l, lib) && !Moves(r, lib)
    requires Ready(Optimize(l, lib).expr, true, lib) && Ready(Optimize(r, lib).expr, true, lib)
    ensures NumeralOk(FoldValue(l, lib), lib) && NumeralOk(FoldValue(r, lib), lib) ==>
              Ready(Optimize(Arith(op, l, r), lib).expr, true, lib)
  {
    var l', r' := Optimize(l, lib).expr, Optimize(r, lib).expr;
    MovesExactly(l, lib);
    MovesExactly(r, lib);
    MaskStable(l, lib);
    MaskStable(r, lib);
    FoldStable(l, lib);
    FoldStable(r, lib);
  }

  lemma {:induction false} ConcatReady(l: Expr, r: Expr, lib: Lib)
    requires Safe(l, true, lib) && Safe(r, true, lib) && !Moves(l, lib) && !Moves(r, lib)
    requires Ready(Optimize(l, lib).expr, true, lib) && Ready(Optimize(r, lib).expr, true, lib)
    ensures Ready(Optimize(Concat(l, r), lib).expr, true, lib)
  {
    MovesExactly(l, lib);
    MovesExactly(r, lib);
    MaskStable(l, lib);
    MaskStable(r, lib);
  }

  /** An optimized tree does not move again. */
  lemma {:induction false} MaskStable(e: Expr, lib: Lib)
    ensures !Moves(Optimize(e, lib).expr, lib)
  {
    match e
    case Cmp(op, l, r) => FoldStable(l, lib); FoldStable(r, lib); FoldLiteral(l, lib); FoldLiteral(r, lib);
    case And(l, r) => MaskStable(l, lib); MaskStable(r, lib);
    case Or(l, r) => MaskStable(l, lib); MaskStable(r, lib);
    case Not(r) => MaskStable(r, lib);
    case _ =>
  }

  lemma {:induction false} OptimizeReady(e: Expr, exact: bool, lib: Lib)
    requires ValidSearch(lib) && Safe(e, exact, lib)
    ensures Ready(Optimize(e, lib).expr, exact, lib)
    decreases e, 1
  {
    if e.Concat? || e.Arith? || e.Text? {
      ValueReady(e, lib);
    } else if e.And? || e.Or? || e.Not? {
      LogicReady(e, lib);
    } else if e.Cmp? {
      OptimizeReady(e.l, true, lib);
      OptimizeReady(e.r, true, lib);
      CmpReady(e.cop, e.l, e.r, exact, lib);
    }
  }

  lemma {:induction false} ValueReady(e: Expr, lib: Lib)
    requires ValidSearch(lib) && (e.Concat? || e.Arith? || e.Text?) && Safe(e, true, lib)
    ensures forall exact :: Ready(Optimize(e, lib).expr, exact, lib)
    decreases e, 0
  {
    OptimizeReady(e.l, true, lib);
    OptimizeReady(e.r, true, lib);
    if e.Concat? {
      ConcatReady(e.l, e.r, lib);
    } else if e.Arith? {
      ArithReady(e.aop, e.l, e.r, lib);
    }
  }

  lemma {:induction false} LogicReady(e: Expr, lib: Lib)
    requires ValidSearch(lib) && (e.And? || e.Or? || e.Not?) && Safe(e, true, lib)
    ensures forall exact :: Ready(Optimize(e, lib).expr, exact, lib)
    decreases e, 0
  {
    OptimizeReady(e.r, false, lib);
    if !e.Not? {
      OptimizeReady(e.l, false, lib);
    }
  }

  /** Running the optimized expression yields the value, or the truth value, of the original. */
  lemma OptimizedRunsAsWritten(e: Expr, exact: bool, lib: Lib, env: Env)
    requires ValidLib(lib) && ValidSearch(lib) && ValidEnv(lib, env)
    requires Safe(e, exact, lib)
    ensures Agree(exact, Eval(Run, Optimize(e, lib).expr, lib, env), Eval(Ref, e, lib, env))
  {
    OptimizePreserves(e, exact, lib, env);
    OptimizeReady(e, exact, lib);
    RunIsRef(Optimize(e, lib).expr, exact, lib, env);
  }
}
