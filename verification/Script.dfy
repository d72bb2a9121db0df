/** RainerScript expressions and their evaluation
    (grammar/rainerscript.c: cnfexprEval, eval_strcmp_like, evalStrArrayCmp, cnfexprEvalBool). */
module Script {
  import opened Values
  import opened PriMask

  datatype ArithOp = Add | Sub | Mul | Div | Mod
  datatype TextOp = Contains | ContainsI | StartsWith | StartsWithI | EndsWith

  /** A property descriptor. For native properties only the id counts: their name field is never filled in. */
  datatype Prop = Prop(id: nat, name: string)

  const PROP_SYSLOGFACILITY: nat := 12
  const PROP_SYSLOGFACILITY_TEXT: nat := 13
  const PROP_SYSLOGSEVERITY: nat := 14
  const PROP_SYSLOGSEVERITY_TEXT: nat := 15
  const PROP_CEE: nat := 200
  const PROP_LOCAL_VAR: nat := 202
  const PROP_GLOBAL_VAR: nat := 203

  predicate IsNamed(id: nat) { id == PROP_CEE || id == PROP_LOCAL_VAR || id == PROP_GLOBAL_VAR }

  /** same_var_property. */
  predicate SameProp(a: Prop, b: Prop) { a.id == b.id && (IsNamed(a.id) ==> a.name == b.name) }

  datatype Expr =
    | NumLit(n: int)
    | StrLit(s: string)
    | ArrLit(elems: seq<string>)
    | Var(name: string, prop: Prop, slot: int)
    | Func(fname: string, args: seq<Expr>)
    | Prifilt(mask: Mask)
    | Exists(vname: string)
    | Neg(r: Expr)
    | Not(r: Expr)
    | And(l: Expr, r: Expr)
    | Or(l: Expr, r: Expr)
    | Cmp(cop: CmpOp, l: Expr, r: Expr)
    | Text(top: TextOp, l: Expr, r: Expr)
    | Arith(aop: ArithOp, l: Expr, r: Expr)
    | Concat(l: Expr, r: Expr)
    | Freed // a pointer to a node that has been destructed

  /** The library routines the interpreter calls: es_strcmp, es_str2num, qsort, bsearch, the
      substring tests, decodeSyslogName for facilities and severities (-1 for an unknown name),
      and which script functions return a number. */
  datatype Lib = Lib(
    cmp: (string, string) -> int,
    esNum: string -> int,
    sort: seq<string> -> seq<string>,
    find: (seq<string>, string) -> bool,
    test: (TextOp, string, string) -> bool,
    facCode: string -> int,
    sevCode: string -> int,
    numericFn: string -> bool)

  ghost predicate Transitive(cmp: (string, string) -> int, a: string, b: string, c: string) {
    cmp(a, b) <= 0 && cmp(b, c) <= 0 ==> cmp(a, c) <= 0
  }

  ghost predicate TotalOrder(cmp: (string, string) -> int) {
    && (forall a, b :: cmp(a, b) == 0 <==> a == b)
    && (forall a, b :: cmp(a, b) < 0 <==> cmp(b, a) > 0)
    && (forall a, b, c :: Transitive(cmp, a, b, c))
  }

  /** What is assumed of es_strcmp: a total order on texts, with an int result,
      that places the text "invld" behind every numeral. */
  ghost predicate ValidLib(lib: Lib) {
    && TotalOrder(lib.cmp)
    && (forall a, b :: -0x8000_0000 <= lib.cmp(a, b) < 0x8000_0000)
    && (forall n :: lib.cmp("invld", NumText(n)) > 0)
  }

  /** What an expression can see of the message it is evaluated for. */
  datatype Env = Env(
    sev: nat,
    fac: nat,
    read: Prop -> Value,
    call: (string, seq<Value>) -> Value,
    present: string -> bool)

  /** getSeverity and getFacility (runtime/msg.c:2025-2067): the invalid facility 24 reads as a word. */
  function FacilityText(fac: nat): string { if fac > 23 then "invld" else NumText(fac) }

  /** getFacilityStr and getSeverityStr. */
  function FacilityName(fac: nat): string {
    match fac
    case 0 => "kern"
    case 1 => "user"
    case 2 => "mail"
    case 3 => "daemon"
    case 4 => "auth"
    case 5 => "syslog"
    case 6 => "lpr"
    case 7 => "news"
    case 8 => "uucp"
    case 9 => "cron"
    case 10 => "authpriv"
    case 11 => "ftp"
    case 12 => "ntp"
    case 13 => "audit"
    case 14 => "alert"
    case 15 => "clock"
    case 16 => "local0"
    case 17 => "local1"
    case 18 => "local2"
    case 19 => "local3"
    case 20 => "local4"
    case 21 => "local5"
    case 22 => "local6"
    case 23 => "local7"
    case _ => "invld"
  }

  function SeverityName(sev: nat): string {
    match sev
    case 0 => "emerg"
    case 1 => "alert"
    case 2 => "crit"
    case 3 => "err"
    case 4 => "warning"
    case 5 => "notice"
    case 6 => "info"
    case 7 => "debug"
    case _ => "invld"
  }

  /** A number that tells the names apart, and the way back from it. */
  function NameKey(s: string): int {
    if |s| < 3 then 0 else 3 * s[0] as int + 3 * s[1] as int + s[|s| - 1] as int
  }

  function FacilityOf(key: int): int {
    match key
    case 734 => 0
    case 810 => 1
    case 726 => 2
    case 701 => 3
    case 746 => 4
    case 811 => 5
    case 774 => 6
    case 748 => 7
    case 814 => 8
    case 749 => 9
    case 760 => 10
    case 766 => 11
    case 790 => 12
    case 758 => 13
    case 731 => 14
    case 728 => 15
    case 705 => 16
    case 706 => 17
    case 707 => 18
    case 708 => 19
    case 709 => 20
    case 710 => 21
    case 711 => 22
    case 712 => 23
    case _ => 24
  }

  function SeverityOf(key: int): int {
    match key
    case 733 => 0
    case 731 => 1
    case 755 => 2
    case 759 => 3
    case 751 => 4
    case 764 => 5
    case 756 => 6
    case 706 => 7
    case _ => 8
  }

  /** Each name belongs to one facility, and to one severity. */
  lemma FacilityNamed(fac: nat)
    requires fac <= 24
    ensures FacilityOf(NameKey(FacilityName(fac))) == fac
  {}

  lemma SeverityNamed(sev: nat)
    requires sev <= 7
    ensures SeverityOf(NameKey(SeverityName(sev))) == sev
  {}

  ghost predicate ValidEnv(lib: Lib, env: Env) {
    && env.sev <= 7 && env.fac <= 24
    && (forall p :: !env.read(p).Num?)
    && (forall p, q :: SameProp(p, q) ==> env.read(p) == env.read(q))
    && (forall p: Prop :: p.id == PROP_SYSLOGSEVERITY ==> env.read(p) == Str(NumText(env.sev)))
    && (forall p: Prop :: p.id == PROP_SYSLOGFACILITY ==> env.read(p) == Str(FacilityText(env.fac)))
    && (forall p: Prop :: p.id == PROP_SYSLOGSEVERITY_TEXT ==> env.read(p) == Str(SeverityName(env.sev)))
    && (forall p: Prop :: p.id == PROP_SYSLOGFACILITY_TEXT ==> env.read(p) == Str(FacilityName(env.fac)))
    && (forall f, vs :: env.call(f, vs).Num? ==> lib.numericFn(f))
  }

  // ----- sorting and searching string arrays -----

  ghost predicate Sorted(cmp: (string, string) -> int, a: seq<string>) {
    a != [] ==> (forall y :: y in a[1..] ==> cmp(a[0], y) <= 0) && Sorted(cmp, a[1..])
  }

  /** What is assumed of qsort and bsearch when they run with qs_arrcmp. */
  ghost predicate ValidSearch(lib: Lib) {
    && (forall a :: Sorted(lib.cmp, lib.sort(a)) && multiset(lib.sort(a)) == multiset(a))
    && (forall a, key :: Sorted(lib.cmp, a) ==> (lib.find(a, key) <==> key in a))
  }

  // ----- operators on values -----

  /** The CMP_EQ branch of cnfexprEval for a right operand that is no array. */
  predicate EqVals(lib: Lib, l: Value, r: Value) {
    match l
    case Str(s) =>
      if r.Str? then lib.cmp(s, r.s) == 0
      else if ConvOk(l) then ToNum(l) == ToNum(r)
      else lib.cmp(s, ToText(r)) == 0
    case Json(_, text) =>
      if r.Str? then lib.cmp(text, r.s) == 0 else ToNum(l) == ToNum(r)
    case Num(n) =>
      if r.Str? && !ConvOk(r) then lib.cmp(r.s, ToText(l)) == 0 else n == ToNum(r)
  }

  function Flag(b: bool): int { if b then 1 else 0 }

  /** The CMP_NE branch: a textual comparison yields the raw result of es_strcmp. */
  function NeVals(lib: Lib, l: Value, r: Value): int {
    match l
    case Str(s) =>
      if r.Str? then lib.cmp(s, r.s)
      else if ConvOk(l) then Flag(ToNum(l) != ToNum(r))
      else lib.cmp(s, ToText(r))
    case Json(_, text) =>
      if r.Str? then lib.cmp(text, r.s) else Flag(ToNum(l) != ToNum(r))
    case Num(n) =>
      if r.Str? && !ConvOk(r) then lib.cmp(r.s, ToText(l)) else Flag(n != ToNum(r))
  }

  /** eval_strcmp_like: a numerical difference is returned as a C int. */
  function OrderVals(lib: Lib, l: Value, r: Value): int {
    if ConvOk(l) && ConvOk(r) then Trunc32(ToNum(l) - ToNum(r)) else lib.cmp(ToText(l), ToText(r))
  }

  function CmpVals(lib: Lib, op: CmpOp, l: Value, r: Value): Value {
    match op
    case EQ => Bit(EqVals(lib, l, r))
    case NE => Num(NeVals(lib, l, r))
    case _ => Bit(Holds(op, OrderVals(lib, l, r), 0))
  }

  function ArithVals(op: ArithOp, a: int, b: int): int {
    match op
    case Add => a + b
    case Sub => a - b
    case Mul => a * b
    case Div => if b == 0 then 0 else CDiv(a, b)
    case Mod => if b == 0 then 0 else CMod(a, b)
  }

  function First(a: seq<string>): string { if a == [] then "" else a[0] }

  // ----- evaluation -----

  /** Run is what the interpreter computes. Ref is what the script says: there, == and <> against
      an array literal on either side ask for membership. */
  datatype Mode = Ref | Run

  predicate IsEqOp(op: CmpOp) { op == EQ || op == NE }

  predicate Member(mode: Mode, lib: Lib, a: seq<string>, t: string) {
    if mode == Ref then t in a else lib.find(a, t)
  }

  function ArrayCmp(mode: Mode, lib: Lib, op: CmpOp, v: Value, a: seq<string>): Value {
    var found := Member(mode, lib, a, ToText(v));
    Bit(if op == EQ then found else !found)
  }

  predicate Truthy(v: Value) { ToNum(v) != 0 }

  function Eval(mode: Mode, e: Expr, lib: Lib, env: Env): Value
    requires env.fac < ENTRIES
    decreases e, 1
  {
    match e
    case NumLit(n) => Num(n)
    case StrLit(s) => Str(s)
    case ArrLit(a) => Str(First(a))
    case Var(_, prop, _) => env.read(prop)
    case Func(f, args) => env.call(f, EvalAll(mode, args, lib, env))
    case Prifilt(m) => Bit(Passes(m, env.fac, env.sev))
    case Exists(v) => Bit(env.present(v))
    case Neg(r) => Num(-ToNum(Eval(mode, r, lib, env)))
    case Not(r) => Bit(!Truthy(Eval(mode, r, lib, env)))
    case And(l, r) => Bit(Truthy(Eval(mode, l, lib, env)) && Truthy(Eval(mode, r, lib, env)))
    case Or(l, r) => Bit(Truthy(Eval(mode, l, lib, env)) || Truthy(Eval(mode, r, lib, env)))
    case Cmp(op, l, r) =>
      var lv := Eval(mode, l, lib, env);
      if IsEqOp(op) && r.ArrLit? && (mode == Run ==> !lv.Num?) then ArrayCmp(mode, lib, op, lv, r.elems)
      else
        var rv := Eval(mode, r, lib, env);
        if IsEqOp(op) && l.ArrLit? && mode == Ref then ArrayCmp(mode, lib, op, rv, l.elems)
        else CmpVals(lib, op, lv, rv)
    case Text(op, l, r) =>
      var lv := ToText(Eval(mode, l, lib, env));
      if r.ArrLit? then Bit(exists i :: 0 <= i < |r.elems| && lib.test(op, lv, r.elems[i]))
      else Bit(lib.test(op, lv, ToText(Eval(mode, r, lib, env))))
    case Arith(op, l, r) =>
      Num(ArithVals(op, ToNum(Eval(mode, l, lib, env)), ToNum(Eval(mode, r, lib, env))))
    case Concat(l, r) => Str(ToText(Eval(mode, l, lib, env)) + ToText(Eval(mode, r, lib, env)))
    case Freed => Num(0)
  }

  function EvalAll(mode: Mode, es: seq<Expr>, lib: Lib, env: Env): (vs: seq<Value>)
    requires env.fac < ENTRIES
    ensures |vs| == |es|
    decreases es, 0
  {
    if es == [] then [] else [Eval(mode, es[0], lib, env)] + EvalAll(mode, es[1..], lib, env)
  }

  /** cnfexprEvalBool: the number is narrowed to an int before it is tested. */
  predicate Condition(v: Value) { Trunc32(ToNum(v)) != 0 }

  /** Nodes that may yield a number. */
  predicate Numeric(e: Expr, lib: Lib) {
    match e
    case StrLit(_) => false
    case ArrLit(_) => false
    case Var(_, _, _) => false
    case Concat(_, _) => false
    case Func(f, _) => lib.numericFn(f)
    case _ => true
  }

  /** Numbers come from these nodes only, and from all of them but function calls always. */
  lemma NumericSound(mode: Mode, e: Expr, lib: Lib, env: Env)
    requires ValidEnv(lib, env)
    ensures Eval(mode, e, lib, env).Num? ==> Numeric(e, lib)
    ensures Numeric(e, lib) && !e.Func? ==> Eval(mode, e, lib, env).Num?
  {}
}
