/** The statement optimizer (grammar/rainerscript.c: cnfstmtOptimize and its helpers, removeNOPs). */
module StmtOptimizer {
  import opened PriMask
  import opened Script
  import opened Optimizer
  import opened Statements

  function SizeOne(s: Stmt): (n: nat)
    ensures n >= 1
    decreases s, 0
  {
    match s
    case If(_, thn, els, _) => 1 + Size(thn) + Size(els)
    case PriFilt(_, thn, els) => 1 + Size(thn) + Size(els)
    case PropFilt(_, thn) => 1 + Size(thn)
    case Foreach(_, _, body) => 1 + Size(body)
    case _ => 1
  }

  function Size(ss: seq<Stmt>): nat
    decreases ss, 0
  {
    if ss == [] then 0 else SizeOne(ss[0]) + Size(ss[1..])
  }

  lemma {:induction false} SizeAppend(a: seq<Stmt>, b: seq<Stmt>)
    ensures Size(a + b) == Size(a) + Size(b)
  {
    if a == [] {
      assert a + b == b;
    } else {
      assert (a + b)[1..] == a[1..] + b;
      SizeAppend(a[1..], b);
    }
  }

  /** removeNOPs. */
  function RemoveNops(ss: seq<Stmt>): (r: seq<Stmt>)
    ensures Size(r) <= Size(ss)
  {
    if ss == [] then []
    else if ss[0].Nop? then RemoveNops(ss[1..])
    else
      var r := RemoveNops(ss[1..]);
      assert ([ss[0]] + r)[1..] == r;
      [ss[0]] + r
  }

  predicate AlwaysTrue(mask: Mask) { forall i :: 0 <= i < ENTRIES ==> mask[i] == 0xff }

  /** One step of the loop in cnfstmtOptimize: what the statement is replaced by. An always-true
      filter is replaced by its then-branch; everything else by a single statement. */
  function OptOne(s: Stmt, lib: Lib, known: string -> bool): (r: seq<Stmt>)
    ensures r != [] && Size(r) <= SizeOne(s)
    decreases SizeOne(s), 0
  {
    match s
    case If(cond, thn, els, elseIf) =>
      var c := Optimize(cond, lib).expr;
      var t := OptList(thn, lib, known);
      var e := OptList(els, lib, known);
      if t == [] && e == [] then [Nop]
      else if c.NumLit? && c.n == 0 && e == [] then [Nop]
      else if !elseIf && c.Prifilt? then OptPri(c.mask, t, e, lib, known)
      else [If(c, t, e, elseIf)]
    case PriFilt(mask, thn, els) => OptPri(mask, thn, els, lib, known)
    case PropFilt(id, thn) => [PropFilt(id, OptList(thn, lib, known))]
    case Foreach(v, coll, body) => [Foreach(v, Optimize(coll, lib).expr, OptList(body, lib, known))]
    case Set(v, e) => [Set(v, Optimize(e, lib).expr)]
    case CallIndirect(e) => [CallIndirect(Optimize(e, lib).expr)]
    case Act(_, discard) => if discard then [Stop] else [s]
    case Call(name) => if known(name) then [s] else [Nop]
    case _ => [s]
  }

  /** cnfstmtOptimizePRIFilt. */
  function OptPri(mask: Mask, thn: seq<Stmt>, els: seq<Stmt>, lib: Lib, known: string -> bool): (r: seq<Stmt>)
    ensures r != [] && Size(r) <= 1 + Size(thn) + Size(els)
    decreases Size(thn), 3
  {
    var t := OptList(thn, lib, known);
    if !AlwaysTrue(mask) then [PriFilt(mask, t, els)]
    else if t == [] then [Nop]
    else t
  }

  /** The loop of cnfstmtOptimize. The loop goes on behind the first statement of a replacement,
      so the rest of a spliced branch is visited again. */
  function OptLoop(ss: seq<Stmt>, lib: Lib, known: string -> bool): (r: seq<Stmt>)
    ensures Size(r) <= Size(ss)
    decreases Size(ss), 1
  {
    if ss == [] then []
    else
      var o := OptOne(ss[0], lib, known);
      SizeAppend(o[1..], ss[1..]);
      var rest := OptLoop(o[1..] + ss[1..], lib, known);
      assert ([o[0]] + rest)[1..] == rest;
      [o[0]] + rest
  }

  /** cnfstmtOptimize. */
  function OptList(ss: seq<Stmt>, lib: Lib, known: string -> bool): (r: seq<Stmt>)
    ensures Size(r) <= Size(ss)
    decreases Size(ss), 2
  {
    RemoveNops(OptLoop(ss, lib, known))
  }
}
