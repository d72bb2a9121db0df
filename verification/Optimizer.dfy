/** The expression optimizer (grammar/rainerscript.c: cnfexprOptimize and its helpers).
    The optimizer rewrites the tree in place and returns a pointer to the new root. `moved` records
    that the old root has been freed; a parent that ignores the returned pointer then holds a
    pointer to a freed node. */
module Optimizer {
  import opened Values
  import opened PriMask
  import opened Script

  datatype Opt = Opt(expr: Expr, moved: bool)

  /** An operand slot that keeps the old pointer, as in getConstNumber and constFoldConcat. */
  function Operand(o: Opt): Expr { if o.moved then Freed else o.expr }

  predicate IsLit(e: Expr) { e.NumLit? || e.StrLit? }

  function LitValue(e: Expr): Value
    requires IsLit(e)
  {
    if e.NumLit? then Num(e.n) else Str(e.s)
  }

  /** How folding reads a number: es_str2num, where evaluation uses str2num. */
  function FoldNum(v: Value, lib: Lib): int {
    if v.Str? then lib.esNum(v.s) else ToNum(v)
  }

  function FoldArith(op: ArithOp, l: Expr, r: Expr, lib: Lib): Expr {
    if IsLit(l) && IsLit(r) then NumLit(ArithVals(op, FoldNum(LitValue(l), lib), FoldNum(LitValue(r), lib)))
    else Arith(op, l, r)
  }

  function FoldConcat(l: Expr, r: Expr): Expr {
    if IsLit(l) && IsLit(r) then StrLit(ToText(LitValue(l)) + ToText(LitValue(r))) else Concat(l, r)
  }

  /** constFoldCmp on two literals. */
  function FoldCmp(op: CmpOp, l: Expr, r: Expr, lib: Lib): int
    requires IsLit(l) && IsLit(r)
  {
    var same :=
      if l.StrLit? && r.StrLit? then lib.cmp(l.s, r.s) == 0
      else if l.NumLit? && r.NumLit? then l.n == r.n
      else if l.StrLit? then
        var (ln, ok) := TextNumber(l.s);
        if ok then ln == r.n else lib.cmp(l.s, NumText(r.n)) == 0
      else
        var (rn, ok) := TextNumber(r.s);
        if ok then l.n == rn else lib.cmp(r.s, NumText(l.n)) == 0;
    Flag(if op == EQ then same else !same)
  }

  const SEVERITY := "syslogseverity"
  const FACILITY := "syslogfacility"
  const SEVERITY_TEXT := "syslogseverity-text"
  const FACILITY_TEXT := "syslogfacility-text"

  /** Is this a number the mask rewrite accepts for the variable? It is narrowed to an int first. */
  predicate PriLiteral(name: string, n: int) {
    || (name == SEVERITY && 0 <= Trunc32(n) <= 7)
    || (name == FACILITY && 0 <= Trunc32(n) <= 24)
  }

  function PriMaskFor(name: string, n: int, op: CmpOp): Mask
    requires PriLiteral(name, n)
  {
    if name == SEVERITY then SeverityMask(Trunc32(n), op) else FacilityMask(Trunc32(n), op)
  }

  /** The code of a severity or facility name; negative for an unknown name or another variable. */
  function NameCode(name: string, s: string, lib: Lib): int {
    if name == SEVERITY_TEXT then lib.sevCode(s) else if name == FACILITY_TEXT then lib.facCode(s) else -1
  }

  function NameMask(name: string, code: nat, op: CmpOp): Mask {
    if name == SEVERITY_TEXT then OneSeverity(code, op)
    else if op == EQ then OneFacility(code) else Inverted(OneFacility(code))
  }

  /** Is a comparison of this variable with this constant rewritten to a mask? */
  predicate Rewrites(op: CmpOp, name: string, v: Value, lib: Lib) {
    match v
    case Num(n) => PriLiteral(name, n)
    case Str(s) => IsEqOp(op) && NameCode(name, s, lib) >= 0
    case Json(_, _) => false
  }

  function RewriteMask(op: CmpOp, name: string, v: Value, lib: Lib): Mask
    requires Rewrites(op, name, v, lib)
  {
    if v.Num? then PriMaskFor(name, v.n, op) else NameMask(name, NameCode(name, v.s, lib), op)
  }

  /** cnfexprOptimize_CMP_var and cnfexprOptimize_CMP_severity_facility. */
  function OptimizePri(op: CmpOp, l: Expr, r: Expr, lib: Lib): Opt {
    if l.Var? && IsLit(r) && Rewrites(op, l.name, LitValue(r), lib)
    then Opt(Prifilt(RewriteMask(op, l.name, LitValue(r), lib)), true)
    else Opt(Cmp(op, l, r), false)
  }

  function SortArray(e: Expr, lib: Lib): Expr { if e.ArrLit? then ArrLit(lib.sort(e.elems)) else e }

  /** For == and <>: an array moves to the right and is sorted. */
  function Arrange(op: CmpOp, l: Expr, r: Expr, lib: Lib): (Expr, Expr) {
    if !IsEqOp(op) then (l, r)
    else if l.ArrLit? && !r.ArrLit? then (r, SortArray(l, lib))
    else (l, SortArray(r, lib))
  }

  function OptimizeCmp(op: CmpOp, l: Expr, r: Expr, lib: Lib): Opt {
    if IsEqOp(op) && IsLit(l) && IsLit(r) then Opt(NumLit(FoldCmp(op, l, r, lib)), false)
    else
      var (l', r') := Arrange(op, l, r, lib);
      OptimizePri(op, l', r', lib)
  }

  function Optimize(e: Expr, lib: Lib): Opt {
    match e
    case Concat(l, r) => Opt(FoldConcat(Operand(Optimize(l, lib)), Operand(Optimize(r, lib))), false)
    case Arith(op, l, r) => Opt(FoldArith(op, Operand(Optimize(l, lib)), Operand(Optimize(r, lib)), lib), false)
    case Cmp(op, l, r) => OptimizeCmp(op, Optimize(l, lib).expr, Optimize(r, lib).expr, lib)
    case Text(op, l, r) => Opt(Text(op, Optimize(l, lib).expr, Optimize(r, lib).expr), false)
    case And(l, r) =>
      var l' := Optimize(l, lib).expr;
      var r' := Optimize(r, lib).expr;
      if l'.Prifilt? && r'.Prifilt? then Opt(Prifilt(Combined(l'.mask, r'.mask, true)), true) else Opt(And(l', r'), false)
    case Or(l, r) =>
      var l' := Optimize(l, lib).expr;
      var r' := Optimize(r, lib).expr;
      if l'.Prifilt? && r'.Prifilt? then Opt(Prifilt(Combined(l'.mask, r'.mask, false)), true) else Opt(Or(l', r'), false)
    case Not(r) =>
      var r' := Optimize(r, lib).expr;
      if r'.Prifilt? then Opt(Prifilt(Inverted(r'.mask)), true) else Opt(Not(r'), false)
    case _ => Opt(e, false)
  }

  // ----- what the optimizer does, told without running it -----

  /** The value of an expression built from literals with the operators that folding knows. */
  function FoldValue(e: Expr, lib: Lib): Option<Value> {
    match e
    case NumLit(n) => Some(Num(n))
    case StrLit(s) => Some(Str(s))
    case Arith(op, l, r) =>
      var lv, rv := FoldValue(l, lib), FoldValue(r, lib);
      if lv.Some? && rv.Some? then Some(Num(ArithVals(op, FoldNum(lv.value, lib), FoldNum(rv.value, lib)))) else None
    case Concat(l, r) =>
      var lv, rv := FoldValue(l, lib), FoldValue(r, lib);
      if lv.Some? && rv.Some? then Some(Str(ToText(lv.value) + ToText(rv.value))) else None
    case Cmp(op, l, r) =>
      var lv, rv := FoldValue(l, lib), FoldValue(r, lib);
      if IsEqOp(op) && lv.Some? && rv.Some? then Some(Num(Flag(EqVals(lib, lv.value, rv.value) == (op == EQ)))) else None
    case _ => None
  }

  /** Does the expression turn into a mask? */
  predicate BecomesMask(e: Expr, lib: Lib) {
    match e
    case Prifilt(_) => true
    case Cmp(op, l, r) => l.Var? && FoldValue(r, lib).Some? && Rewrites(op, l.name, FoldValue(r, lib).value, lib)
    case Not(r) => BecomesMask(r, lib)
    case And(l, r) => BecomesMask(l, lib) && BecomesMask(r, lib)
    case Or(l, r) => BecomesMask(l, lib) && BecomesMask(r, lib)
    case _ => false
  }

  /** Is the root of the expression replaced by a new mask node? */
  predicate Moves(e: Expr, lib: Lib) { !e.Prifilt? && BecomesMask(e, lib) }

  /** Variables and arrays stay as they are, and no other node turns into one. */
  lemma {:induction false} ShapeKept(e: Expr, lib: Lib)
    ensures e.Var? || e.ArrLit? || e.Freed? ==> Optimize(e, lib).expr == e
    ensures Optimize(e, lib).expr.Var? ==> e.Var?
    ensures Optimize(e, lib).expr.ArrLit? ==> e.ArrLit?
    ensures Optimize(e, lib).expr.Freed? ==> e.Freed?
  {}

  lemma {:induction false} FoldCmpValue(op: CmpOp, l: Expr, r: Expr, lib: Lib)
    requires IsLit(l) && IsLit(r) && IsEqOp(op)
    ensures FoldCmp(op, l, r, lib) == Flag(EqVals(lib, LitValue(l), LitValue(r)) == (op == EQ))
  {}

  /** Folding yields a literal exactly for the expressions that have a fold value, and that value. */
  lemma {:induction false} FoldLiteral(e: Expr, lib: Lib)
    ensures FoldValue(e, lib).Some? <==> IsLit(Optimize(e, lib).expr)
    ensures FoldValue(e, lib).Some? ==> LitValue(Optimize(e, lib).expr) == FoldValue(e, lib).value
    ensures IsLit(Optimize(e, lib).expr) ==> !Optimize(e, lib).moved
  {
    match e
    case Concat(l, r) => FoldLiteral(l, lib); FoldLiteral(r, lib);
    case Arith(op, l, r) => FoldLiteral(l, lib); FoldLiteral(r, lib);
    case Cmp(op, l, r) =>
      FoldLiteral(l, lib);
      FoldLiteral(r, lib);
      var l', r' := Optimize(l, lib).expr, Optimize(r, lib).expr;
      if IsEqOp(op) && IsLit(l') && IsLit(r') {
        FoldCmpValue(op, l', r', lib);
      }
    case _ =>
  }

  /** The root moves, and the result is a mask, exactly as the syntactic predicates say. */
  lemma {:induction false} MovesExactly(e: Expr, lib: Lib)
    ensures Optimize(e, lib).moved <==> Moves(e, lib)
    ensures Optimize(e, lib).expr.Prifilt? <==> BecomesMask(e, lib)
  {
    match e
    case Cmp(op, l, r) => ShapeKept(l, lib); ShapeKept(r, lib); FoldLiteral(l, lib); FoldLiteral(r, lib);
    case And(l, r) => MovesExactly(l, lib); MovesExactly(r, lib);
    case Or(l, r) => MovesExactly(l, lib); MovesExactly(r, lib);
    case Not(r) => MovesExactly(r, lib);
    case _ =>
  }

  // ----- pointers to freed nodes -----

  predicate HasFreed(e: Expr) {
    match e
    case Freed => true
    case Func(_, args) => exists a | a in args :: HasFreed(a)
    case Neg(r) => HasFreed(r)
    case Not(r) => HasFreed(r)
    case And(l, r) => HasFreed(l) || HasFreed(r)
    case Or(l, r) => HasFreed(l) || HasFreed(r)
    case Cmp(_, l, r) => HasFreed(l) || HasFreed(r)
    case Text(_, l, r) => HasFreed(l) || HasFreed(r)
    case Arith(_, l, r) => HasFreed(l) || HasFreed(r)
    case Concat(l, r) => HasFreed(l) || HasFreed(r)
    case _ => false
  }

  /** Somewhere the optimizer reaches, an arithmetic or concatenation operator has an operand whose root moves. */
  predicate MovedOperand(e: Expr, lib: Lib) {
    match e
    case Not(r) => MovedOperand(r, lib)
    case And(l, r) => MovedOperand(l, lib) || MovedOperand(r, lib)
    case Or(l, r) => MovedOperand(l, lib) || MovedOperand(r, lib)
    case Cmp(_, l, r) => MovedOperand(l, lib) || MovedOperand(r, lib)
    case Text(_, l, r) => MovedOperand(l, lib) || MovedOperand(r, lib)
    case Arith(_, l, r) => Moves(l, lib) || Moves(r, lib) || MovedOperand(l, lib) || MovedOperand(r, lib)
    case Concat(l, r) => Moves(l, lib) || Moves(r, lib) || MovedOperand(l, lib) || MovedOperand(r, lib)
    case _ => false
  }

  lemma {:induction false} CmpFreed(op: CmpOp, l: Expr, r: Expr, lib: Lib)
    ensures HasFreed(OptimizeCmp(op, l, r, lib).expr) <==> HasFreed(l) || HasFreed(r)
  {
    var (l', r') := Arrange(op, l, r, lib);
    ArrangeFreed(op, l, r, lib);
    PriFreed(op, l', r', lib);
  }

  lemma {:induction false} ArrangeFreed(op: CmpOp, l: Expr, r: Expr, lib: Lib)
    ensures var (l', r') := Arrange(op, l, r, lib); HasFreed(l') || HasFreed(r') <==> HasFreed(l) || HasFreed(r)
  {}

  lemma {:induction false} PriFreed(op: CmpOp, l: Expr, r: Expr, lib: Lib)
    ensures HasFreed(OptimizePri(op, l, r, lib).expr) <==> HasFreed(l) || HasFreed(r)
  {}

  predicate FreedIff(e: Expr, lib: Lib) { HasFreed(Optimize(e, lib).expr) <==> MovedOperand(e, lib) }

  lemma {:induction false} ArithFreed(op: ArithOp, l: Expr, r: Expr, lib: Lib)
    requires FreedIff(l, lib) && FreedIff(r, lib)
    ensures FreedIff(Arith(op, l, r), lib)
  {
    MovesExactly(l, lib);
    MovesExactly(r, lib);
  }

  lemma {:induction false} ConcatFreed(l: Expr, r: Expr, lib: Lib)
    requires FreedIff(l, lib) && FreedIff(r, lib)
    ensures FreedIff(Concat(l, r), lib)
  {
    MovesExactly(l, lib);
    MovesExactly(r, lib);
  }

  lemma {:induction false} LogicFreed(l: Expr, r: Expr, lib: Lib)
    requires FreedIff(l, lib) && FreedIff(r, lib)
    ensures FreedIff(And(l, r), lib) && FreedIff(Or(l, r), lib) && FreedIff(Not(r), lib)
  {}

  /** The optimized tree refers to a freed node exactly when an arithmetic or concatenation
      operator has an operand that is rewritten to a mask. */
  lemma {:induction false} FreedExactly(e: Expr, lib: Lib)
    requires !HasFreed(e)
    ensures HasFreed(Optimize(e, lib).expr) <==> MovedOperand(e, lib)
  {
    match e
    case Concat(l, r) => FreedExactly(l, lib); FreedExactly(r, lib); ConcatFreed(l, r, lib);
    case Arith(op, l, r) => FreedExactly(l, lib); FreedExactly(r, lib); ArithFreed(op, l, r, lib);
    case Cmp(op, l, r) =>
      FreedExactly(l, lib);
      FreedExactly(r, lib);
      CmpFreed(op, Optimize(l, lib).expr, Optimize(r, lib).expr, lib);
    case Text(op, l, r) => FreedExactly(l, lib); FreedExactly(r, lib);
    case And(l, r) => FreedExactly(l, lib); FreedExactly(r, lib); LogicFreed(l, r, lib);
    case Or(l, r) => FreedExactly(l, lib); FreedExactly(r, lib); LogicFreed(l, r, lib);
    case Not(r) => FreedExactly(r, lib); LogicFreed(r, r, lib);
    case _ =>
  }
}
