/** The statement optimizer preserves every run: the same actions run in order on the same
    message contents, and processing ends at the same point. */
module StmtSound {
  import opened Values
  import opened PriMask
  import opened Script
  import opened Optimizer
  import opened OptimizerSound
  import opened Statements
  import opened StmtOptimizer

  type Known = string -> bool

  /** Statements that run as they are written. */
  ghost predicate PlainStmt(s: Stmt, lib: Lib, known: Known)
    decreases s, 0
  {
    match s
    case If(cond, thn, els, _) => Ordered(cond, false, lib) && Plain(thn, lib, known) && Plain(els, lib, known)
    case PriFilt(_, thn, els) => Plain(thn, lib, known) && Plain(els, lib, known)
    case PropFilt(_, thn) => Plain(thn, lib, known)
    case Foreach(_, coll, body) => Ordered(coll, true, lib) && Plain(body, lib, known)
    case Set(_, e) => Ordered(e, true, lib)
    case CallIndirect(e) => Ordered(e, true, lib)
    case Act(_, discard) => !discard
    case Call(name) => known(name)
    case _ => true
  }

  ghost predicate Plain(ss: seq<Stmt>, lib: Lib, known: Known)
    decreases ss, 0
  {
    forall s :: s in ss ==> PlainStmt(s, lib, known)
  }

  /** Statements whose expressions the optimizer treats correctly. Values that are stored or passed
      on must be kept exactly, conditions only in their truth. The optimizer does not visit the
      else-branch of a priority filter, which the parser leaves empty. */
  ghost predicate SafeStmt(s: Stmt, lib: Lib, known: Known)
    decreases s, 0
  {
    match s
    case If(cond, thn, els, _) => Safe(cond, false, lib) && SafeList(thn, lib, known) && SafeList(els, lib, known)
    case PriFilt(_, thn, els) => SafeList(thn, lib, known) && SafeList(els, lib, known) && Plain(els, lib, known)
    case PropFilt(_, thn) => SafeList(thn, lib, known)
    case Foreach(_, coll, body) => Safe(coll, true, lib) && SafeList(body, lib, known)
    case Set(_, e) => Safe(e, true, lib)
    case CallIndirect(e) => Safe(e, true, lib)
    case _ => true
  }

  ghost predicate SafeList(ss: seq<Stmt>, lib: Lib, known: Known)
    decreases ss, 0
  {
    forall s :: s in ss ==> SafeStmt(s, lib, known)
  }

  ghost predicate ReadyList(ss: seq<Stmt>, lib: Lib, known: Known) {
    SafeList(ss, lib, known) && Plain(ss, lib, known)
  }

  // ----- plain statements: running is reading -----

  lemma {:induction false} RunPlain<M(!new)>(ss: seq<Stmt>, sem: Sem<M>, lib: Lib, m: M)
    requires Valid(sem, lib) && Plain(ss, lib, sem.known)
    ensures Exec(Run, ss, sem, lib, m) == Exec(Ref, ss, sem, lib, m)
    decreases ss, 0
  {
    if ss != [] {
      RunPlainOne(ss[0], sem, lib, m);
      var o := ExecOne(Ref, ss[0], sem, lib, m);
      if !o.stopped {
        RunPlain(ss[1..], sem, lib, o.msg);
      }
    }
  }

  lemma {:induction false} RunPlainOne<M(!new)>(s: Stmt, sem: Sem<M>, lib: Lib, m: M)
    requires Valid(sem, lib) && PlainStmt(s, lib, sem.known)
    ensures ExecOne(Run, s, sem, lib, m) == ExecOne(Ref, s, sem, lib, m)
    decreases s, 0
  {
    var env := sem.env(m);
    match s
    case If(cond, thn, els, _) => RunIsRef(cond, false, lib, env); RunPlain(thn, sem, lib, m); RunPlain(els, sem, lib, m);
    case PriFilt(_, thn, els) => RunPlain(thn, sem, lib, m); RunPlain(els, sem, lib, m);
    case PropFilt(_, thn) => RunPlain(thn, sem, lib, m);
    case Foreach(v, coll, body) =>
      RunIsRef(coll, true, lib, env);
      RunPlainItems(v, sem.items(Eval(Ref, coll, lib, env)), body, sem, lib, m);
    case Set(_, e) => RunIsRef(e, true, lib, env);
    case CallIndirect(e) => RunIsRef(e, true, lib, env);
    case _ =>
  }

  lemma {:induction false} RunPlainItems<M(!new)>(v: string, items: seq<Value>, body: seq<Stmt>, sem: Sem<M>, lib: Lib, m: M)
    requires Valid(sem, lib) && Plain(body, lib, sem.known)
    ensures ExecItems(Run, v, items, body, sem, lib, m) == ExecItems(Ref, v, items, body, sem, lib, m)
    decreases body, |items| + 1
  {
    if items != [] {
      var m' := sem.assign(v, items[0], m);
      RunPlain(body, sem, lib, m');
      var o := Exec(Ref, body, sem, lib, m');
      if !o.stopped {
        RunPlainItems(v, items[1..], body, sem, lib, o.msg);
      }
    }
  }

  // ----- removing NOPs -----

  lemma {:induction false} RemoveNopsKeeps(ss: seq<Stmt>, s: Stmt)
    ensures s in RemoveNops(ss) <==> s in ss && !s.Nop?
  {
    if ss != [] {
      assert s in ss <==> s == ss[0] || s in ss[1..];
      RemoveNopsKeeps(ss[1..], s);
    }
  }

  lemma {:induction false} RemoveNopsExec<M(!new)>(ss: seq<Stmt>, sem: Sem<M>, lib: Lib, m: M)
    requires ValidSem(sem, lib)
    ensures Exec(Ref, RemoveNops(ss), sem, lib, m) == Exec(Ref, ss, sem, lib, m)
  {
    if ss != [] {
      var o := ExecOne(Ref, ss[0], sem, lib, m);
      if !o.stopped {
        RemoveNopsExec(ss[1..], sem, lib, o.msg);
      }
      if !ss[0].Nop? {
        assert RemoveNops(ss)[1..] == RemoveNops(ss[1..]);
      }
    }
  }

  // ----- the result is ready to run -----

  lemma {:induction false} OneReady(s: Stmt, lib: Lib, known: Known)
    requires ValidSearch(lib) && SafeStmt(s, lib, known)
    ensures ReadyList(OptOne(s, lib, known), lib, known)
    decreases SizeOne(s), 0
  {
    match s
    case If(cond, thn, els, elseIf) =>
      OptimizeReady(cond, false, lib);
      ListReady(thn, lib, known);
      ListReady(els, lib, known);
      var c := Optimize(cond, lib).expr;
      if !elseIf && c.Prifilt? {
        PriReady(c.mask, OptList(thn, lib, known), OptList(els, lib, known), lib, known);
      }
    case PriFilt(mask, thn, els) => PriReady(mask, thn, els, lib, known);
    case PropFilt(_, thn) => ListReady(thn, lib, known);
    case Foreach(_, coll, body) => OptimizeReady(coll, true, lib); ListReady(body, lib, known);
    case Set(_, e) => OptimizeReady(e, true, lib);
    case CallIndirect(e) => OptimizeReady(e, true, lib);
    case _ =>
  }

  lemma {:induction false} PriReady(mask: Mask, thn: seq<Stmt>, els: seq<Stmt>, lib: Lib, known: Known)
    requires ValidSearch(lib) && SafeList(thn, lib, known) && ReadyList(els, lib, known)
    ensures ReadyList(OptPri(mask, thn, els, lib, known), lib, known)
    decreases Size(thn), 3
  {
    ListReady(thn, lib, known);
  }

  lemma {:induction false} LoopReady(ss: seq<Stmt>, lib: Lib, known: Known)
    requires ValidSearch(lib) && SafeList(ss, lib, known)
    ensures ReadyList(OptLoop(ss, lib, known), lib, known)
    decreases Size(ss), 1
  {
    if ss != [] {
      var o := OptOne(ss[0], lib, known);
      OneReady(ss[0], lib, known);
      SizeAppend(o[1..], ss[1..]);
      assert SafeList(o[1..] + ss[1..], lib, known);
      LoopReady(o[1..] + ss[1..], lib, known);
    }
  }

  lemma {:induction false} ListReady(ss: seq<Stmt>, lib: Lib, known: Known)
    requires ValidSearch(lib) && SafeList(ss, lib, known)
    ensures ReadyList(OptList(ss, lib, known), lib, known)
    decreases Size(ss), 2
  {
    LoopReady(ss, lib, known);
    var loop := OptLoop(ss, lib, known);
    forall s | s in RemoveNops(loop) ensures SafeStmt(s, lib, known) && PlainStmt(s, lib, known) {
      RemoveNopsKeeps(loop, s);
    }
  }

  // ----- the result means what the original means -----

  ghost predicate Valid<M(!new)>(sem: Sem<M>, lib: Lib) {
    ValidLib(lib) && ValidSearch(lib) && ValidSem(sem, lib)
  }

  lemma AlwaysPasses(mask: Mask, fac: nat, sev: nat)
    requires AlwaysTrue(mask) && fac < ENTRIES && sev < 8
    ensures Passes(mask, fac, sev)
  {
    BitNot(0, sev);
    PassesIsBit(mask, fac, sev);
  }

  lemma {:induction false} CondExec<M(!new)>(cond: Expr, sem: Sem<M>, lib: Lib, m: M)
    requires Valid(sem, lib) && Safe(cond, false, lib)
    ensures Condition(Eval(Ref, Optimize(cond, lib).expr, lib, sem.env(m))) == Condition(Eval(Ref, cond, lib, sem.env(m)))
  {
    OptimizePreserves(cond, false, lib, sem.env(m));
  }

  lemma {:induction false} BitCondition(b: bool)
    ensures Condition(Bit(b)) == b
  {
    Trunc32Id(0);
    Trunc32Id(1);
  }

  ghost predicate SameRun<M(!new)>(a: seq<Stmt>, b: seq<Stmt>, sem: Sem<M>, lib: Lib, m: M)
    requires ValidSem(sem, lib)
  {
    Exec(Ref, a, sem, lib, m) == Exec(Ref, b, sem, lib, m)
  }

  /** An if-statement with an equivalent condition and equivalent branches, in all the forms the optimizer gives it. */
  lemma {:induction false} IfExec<M(!new)>(s: Stmt, c: Expr, t: seq<Stmt>, e: seq<Stmt>, sem: Sem<M>, lib: Lib, m: M)
    requires ValidSem(sem, lib) && s.If?
    requires Condition(Eval(Ref, c, lib, sem.env(m))) == Condition(Eval(Ref, s.cond, lib, sem.env(m)))
    requires SameRun(t, s.thn, sem, lib, m) && SameRun(e, s.els, sem, lib, m)
    ensures ExecOne(Ref, If(c, t, e, s.elseIf), sem, lib, m) == ExecOne(Ref, s, sem, lib, m)
    ensures c.Prifilt? ==> ExecOne(Ref, PriFilt(c.mask, t, e), sem, lib, m) == ExecOne(Ref, s, sem, lib, m)
    ensures t == [] && e == [] ==> ExecOne(Ref, s, sem, lib, m) == Out(m, [], false)
    ensures c == NumLit(0) && e == [] ==> ExecOne(Ref, s, sem, lib, m) == Out(m, [], false)
  {
    if c.Prifilt? {
      BitCondition(Passes(c.mask, sem.env(m).fac, sem.env(m).sev));
    }
    BitCondition(false);
  }

  lemma {:induction false} OneExec<M(!new)>(s: Stmt, sem: Sem<M>, lib: Lib, m: M)
    requires Valid(sem, lib) && SafeStmt(s, lib, sem.known)
    ensures Exec(Ref, OptOne(s, lib, sem.known), sem, lib, m) == ExecOne(Ref, s, sem, lib, m)
    decreases SizeOne(s), 0
  {
    match s
    case If(cond, thn, els, elseIf) =>
      ListExec(thn, sem, lib, m);
      ListExec(els, sem, lib, m);
      var c := Optimize(cond, lib).expr;
      var t, e := OptList(thn, lib, sem.known), OptList(els, lib, sem.known);
      CondExec(cond, sem, lib, m);
      IfExec(s, c, t, e, sem, lib, m);
      ListReady(thn, lib, sem.known);
      if !(t == [] && e == []) && !(c.NumLit? && c.n == 0 && e == []) && !elseIf && c.Prifilt? {
        PriExec(c.mask, t, e, sem, lib, m);
      } else {
        ExecSingle(Ref, OptOne(s, lib, sem.known)[0], sem, lib, m);
      }
    case PriFilt(mask, thn, els) => PriExec(mask, thn, els, sem, lib, m);
    case PropFilt(id, thn) =>
      ListExec(thn, sem, lib, m);
      ExecSingle(Ref, PropFilt(id, OptList(thn, lib, sem.known)), sem, lib, m);
    case Foreach(v, coll, body) => ForeachExec(s, sem, lib, m);
    case Set(v, e) => ValueExec(e, sem, lib, m); ExecSingle(Ref, Set(v, Optimize(e, lib).expr), sem, lib, m);
    case CallIndirect(e) => ValueExec(e, sem, lib, m); ExecSingle(Ref, CallIndirect(Optimize(e, lib).expr), sem, lib, m);
    case _ => ExecSingle(Ref, OptOne(s, lib, sem.known)[0], sem, lib, m);
  }

  lemma {:induction false} ValueExec<M(!new)>(e: Expr, sem: Sem<M>, lib: Lib, m: M)
    requires Valid(sem, lib) && Safe(e, true, lib)
    ensures Eval(Ref, Optimize(e, lib).expr, lib, sem.env(m)) == Eval(Ref, e, lib, sem.env(m))
  {
    OptimizePreserves(e, true, lib, sem.env(m));
  }

  lemma {:induction false} ForeachExec<M(!new)>(s: Stmt, sem: Sem<M>, lib: Lib, m: M)
    requires Valid(sem, lib) && SafeStmt(s, lib, sem.known) && s.Foreach?
    ensures Exec(Ref, OptOne(s, lib, sem.known), sem, lib, m) == ExecOne(Ref, s, sem, lib, m)
    decreases Size(s.body), 5
  {
    ValueExec(s.coll, sem, lib, m);
    ItemsExec(s.v, sem.items(Eval(Ref, s.coll, lib, sem.env(m))), s.body, sem, lib, m);
    ExecSingle(Ref, Foreach(s.v, Optimize(s.coll, lib).expr, OptList(s.body, lib, sem.known)), sem, lib, m);
  }

  lemma {:induction false} ItemsExec<M(!new)>(v: string, items: seq<Value>, body: seq<Stmt>, sem: Sem<M>, lib: Lib, m: M)
    requires Valid(sem, lib) && SafeList(body, lib, sem.known)
    ensures ExecItems(Ref, v, items, OptList(body, lib, sem.known), sem, lib, m) == ExecItems(Ref, v, items, body, sem, lib, m)
    decreases Size(body), 4, |items|
  {
    if items != [] {
      var m' := sem.assign(v, items[0], m);
      ListExec(body, sem, lib, m');
      var o := Exec(Ref, body, sem, lib, m');
      if !o.stopped {
        ItemsExec(v, items[1..], body, sem, lib, o.msg);
      }
    }
  }

  lemma {:induction false} PriExec<M(!new)>(mask: Mask, thn: seq<Stmt>, els: seq<Stmt>, sem: Sem<M>, lib: Lib, m: M)
    requires Valid(sem, lib) && SafeList(thn, lib, sem.known)
    ensures Exec(Ref, OptPri(mask, thn, els, lib, sem.known), sem, lib, m) == ExecOne(Ref, PriFilt(mask, thn, els), sem, lib, m)
    decreases Size(thn), 3
  {
    var t := OptList(thn, lib, sem.known);
    ListExec(thn, sem, lib, m);
    if AlwaysTrue(mask) {
      AlwaysPasses(mask, sem.env(m).fac, sem.env(m).sev);
      ExecSingle(Ref, Nop, sem, lib, m);
    } else {
      ExecSingle(Ref, PriFilt(mask, t, els), sem, lib, m);
    }
  }

  /** Replacing the head of a list by statements that run alike. */
  lemma {:induction false} ReplaceHead<M(!new)>(o: seq<Stmt>, ss: seq<Stmt>, sem: Sem<M>, lib: Lib, m: M)
    requires ValidSem(sem, lib) && ss != []
    requires Exec(Ref, o, sem, lib, m) == ExecOne(Ref, ss[0], sem, lib, m)
    ensures Exec(Ref, o + ss[1..], sem, lib, m) == Exec(Ref, ss, sem, lib, m)
  {
    ExecAppend(Ref, o, ss[1..], sem, lib, m);
  }

  lemma {:induction false} LoopExec<M(!new)>(ss: seq<Stmt>, sem: Sem<M>, lib: Lib, m: M)
    requires Valid(sem, lib) && SafeList(ss, lib, sem.known)
    ensures Exec(Ref, OptLoop(ss, lib, sem.known), sem, lib, m) == Exec(Ref, ss, sem, lib, m)
    decreases Size(ss), 1
  {
    if ss != [] {
      var o := OptOne(ss[0], lib, sem.known);
      var todo := o[1..] + ss[1..];
      OneExec(ss[0], sem, lib, m);
      TodoSafe(ss, lib, sem.known);
      var first := ExecOne(Ref, o[0], sem, lib, m);
      if !first.stopped {
        LoopExec(todo, sem, lib, first.msg);
      }
      LoopStep(o, ss, OptLoop(todo, lib, sem.known), sem, lib, m);
    }
  }

  /** One step of the loop: the head is optimized, and what is left runs like its optimized form. */
  lemma {:induction false} LoopStep<M(!new)>(o: seq<Stmt>, ss: seq<Stmt>, rest: seq<Stmt>, sem: Sem<M>, lib: Lib, m: M)
    requires ValidSem(sem, lib) && ss != [] && o != []
    requires Exec(Ref, o, sem, lib, m) == ExecOne(Ref, ss[0], sem, lib, m)
    requires var first := ExecOne(Ref, o[0], sem, lib, m);
             first.stopped || Exec(Ref, o[1..] + ss[1..], sem, lib, first.msg) == Exec(Ref, rest, sem, lib, first.msg)
    ensures Exec(Ref, [o[0]] + rest, sem, lib, m) == Exec(Ref, ss, sem, lib, m)
  {
    ReplaceHead(o, ss, sem, lib, m);
    assert o + ss[1..] == [o[0]] + (o[1..] + ss[1..]);
    ConsExec(o[0], o[1..] + ss[1..], rest, sem, lib, m);
  }

  /** What the loop still has to visit is smaller and as safe as the list was. */
  lemma TodoSafe(ss: seq<Stmt>, lib: Lib, known: Known)
    requires ValidSearch(lib) && SafeList(ss, lib, known) && ss != []
    ensures var todo := OptOne(ss[0], lib, known)[1..] + ss[1..];
            SafeList(todo, lib, known) && Size(todo) < Size(ss)
  {
    OneReady(ss[0], lib, known);
    SizeAppend(OptOne(ss[0], lib, known)[1..], ss[1..]);
  }

  lemma {:induction false} ConsExec<M(!new)>(s: Stmt, a: seq<Stmt>, b: seq<Stmt>, sem: Sem<M>, lib: Lib, m: M)
    requires ValidSem(sem, lib)
    requires var o := ExecOne(Ref, s, sem, lib, m);
             o.stopped || Exec(Ref, a, sem, lib, o.msg) == Exec(Ref, b, sem, lib, o.msg)
    ensures Exec(Ref, [s] + a, sem, lib, m) == Exec(Ref, [s] + b, sem, lib, m)
  {
    assert ([s] + a)[1..] == a && ([s] + b)[1..] == b;
  }

  lemma {:induction false} ListExec<M(!new)>(ss: seq<Stmt>, sem: Sem<M>, lib: Lib, m: M)
    requires Valid(sem, lib) && SafeList(ss, lib, sem.known)
    ensures Exec(Ref, OptList(ss, lib, sem.known), sem, lib, m) == Exec(Ref, ss, sem, lib, m)
    decreases Size(ss), 2
  {
    LoopExec(ss, sem, lib, m);
    RemoveNopsExec(OptLoop(ss, lib, sem.known), sem, lib, m);
  }

  /** Running the optimized script on any message runs the actions the original script asks for,
      in the same order and on the same message contents, and stops where the original stops. */
  lemma OptimizedScriptRunsAsWritten<M(!new)>(ss: seq<Stmt>, sem: Sem<M>, lib: Lib, m: M)
    requires Valid(sem, lib) && SafeList(ss, lib, sem.known)
    ensures Exec(Run, OptList(ss, lib, sem.known), sem, lib, m) == Exec(Ref, ss, sem, lib, m)
  {
    ListReady(ss, lib, sem.known);
    ListExec(ss, sem, lib, m);
    RunPlain(OptList(ss, lib, sem.known), sem, lib, m);
  }
}
