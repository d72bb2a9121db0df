/** What running a script means (runtime/ruleset.c: scriptExec): a machine with a stack of unfinished blocks that takes
    one statement at a time, and the laws of the single statements. */
module StmtLaws {
  import opened Values
  import opened PriMask
  import opened Script
  import opened Statements

  // ----- a machine for scripts -----

  /** An unfinished block: the rest of a statement list, or the items a loop has still to visit. */
  datatype Block = Rest(ss: seq<Stmt>) | Loop(v: string, items: seq<Value>, body: seq<Stmt>)

  datatype Stack = Done | Push(top: Block, below: Stack)

  datatype Machine<M> = Machine(stack: Stack, out: Out<M>)

  /** The outcome of a finished piece of work; a stop drops every unfinished block. */
  function Resume<M>(out: Out<M>, o: Out<M>, below: Stack): Machine<M> {
    Machine(if o.stopped then Done else below, Then(out, o))
  }

  function Step<M(!new)>(mode: Mode, c: Machine<M>, sem: Sem<M>, lib: Lib): Machine<M>
    requires ValidSem(sem, lib) && c.stack.Push?
  {
    var below := c.stack.below;
    match c.stack.top
    case Rest(ss) =>
      if ss == [] then c.(stack := below) else StepOne(mode, ss[0], Push(Rest(ss[1..]), below), c.out, sem, lib)
    case Loop(v, items, body) =>
      if items == [] then Machine(below, c.out.(msg := sem.unset(v, c.out.msg)))
      else
        var rest := Push(Loop(v, items[1..], body), below);
        Machine(Push(Rest(body), rest), c.out.(msg := sem.assign(v, items[0], c.out.msg)))
  }

  /** A statement that holds others puts the chosen block on the stack; any other one is run. */
  function StepOne<M(!new)>(mode: Mode, s: Stmt, below: Stack, out: Out<M>, sem: Sem<M>, lib: Lib): Machine<M>
    requires ValidSem(sem, lib)
  {
    var env := sem.env(out.msg);
    match s
    case If(cond, thn, els, _) =>
      Machine(Push(Rest(if Condition(Eval(mode, cond, lib, env)) then thn else els), below), out)
    case PriFilt(mask, thn, els) => Machine(Push(Rest(if Passes(mask, env.fac, env.sev) then thn else els), below), out)
    case PropFilt(id, thn) => Machine(if sem.propFilt(id, out.msg) then Push(Rest(thn), below) else below, out)
    case Foreach(v, coll, body) =>
      var items := sem.items(Eval(mode, coll, lib, env));
      Machine(if items == [] then below else Push(Loop(v, items, body), below), out)
    case Stop => Machine(Done, out.(stopped := true))
    case _ => Resume(out, ExecOne(mode, s, sem, lib, out.msg), below)
  }

  function Steps<M(!new)>(mode: Mode, n: nat, c: Machine<M>, sem: Sem<M>, lib: Lib): Machine<M>
    requires ValidSem(sem, lib)
  {
    if n == 0 || c.stack.Done? then c else Steps(mode, n - 1, Step(mode, c, sem, lib), sem, lib)
  }

  lemma {:induction false} StepsAdd<M(!new)>(mode: Mode, a: nat, b: nat, c: Machine<M>, sem: Sem<M>, lib: Lib)
    requires ValidSem(sem, lib)
    ensures Steps(mode, a + b, c, sem, lib) == Steps(mode, b, Steps(mode, a, c, sem, lib), sem, lib)
  {
    if a > 0 && c.stack.Push? {
      StepsAdd(mode, a - 1, b, Step(mode, c, sem, lib), sem, lib);
    }
  }

  /** The machine works off a list in whatever stands around it. */
  lemma {:induction false} ListSteps<M(!new)>(mode: Mode, ss: seq<Stmt>, below: Stack, out: Out<M>, sem: Sem<M>, lib: Lib)
      returns (n: nat)
    requires ValidSem(sem, lib) && !out.stopped
    ensures Steps(mode, n, Machine(Push(Rest(ss), below), out), sem, lib)
         == Resume(out, Exec(mode, ss, sem, lib, out.msg), below)
    decreases ss, 1
  {
    if ss == [] {
      n := 1;
    } else {
      var o := ExecOne(mode, ss[0], sem, lib, out.msg);
      var rest := Push(Rest(ss[1..]), below);
      var first := OneSteps(mode, ss[0], rest, out, sem, lib);
      n := first + 1;
      if !o.stopped {
        var more := ListSteps(mode, ss[1..], below, Then(out, o), sem, lib);
        var p := Exec(mode, ss[1..], sem, lib, o.msg);
        ThenAssoc(out, o, p);
        StepsAdd(mode, first, more, StepOne(mode, ss[0], rest, out, sem, lib), sem, lib);
        n := n + more;
      }
    }
  }

  /** The steps behind one statement, the first of them taken. */
  lemma {:induction false} OneSteps<M(!new)>(mode: Mode, s: Stmt, below: Stack, out: Out<M>, sem: Sem<M>, lib: Lib)
      returns (n: nat)
    requires ValidSem(sem, lib) && !out.stopped
    ensures Steps(mode, n, StepOne(mode, s, below, out, sem, lib), sem, lib)
         == Resume(out, ExecOne(mode, s, sem, lib, out.msg), below)
    decreases s, 1
  {
    var env := sem.env(out.msg);
    match s
    case If(cond, thn, els, _) =>
      if Condition(Eval(mode, cond, lib, env)) {
        n := ListSteps(mode, thn, below, out, sem, lib);
      } else {
        n := ListSteps(mode, els, below, out, sem, lib);
      }
    case PriFilt(mask, thn, els) =>
      if Passes(mask, env.fac, env.sev) {
        n := ListSteps(mode, thn, below, out, sem, lib);
      } else {
        n := ListSteps(mode, els, below, out, sem, lib);
      }
    case PropFilt(id, thn) =>
      if sem.propFilt(id, out.msg) {
        n := ListSteps(mode, thn, below, out, sem, lib);
      } else {
        n := 0;
      }
    case Foreach(v, coll, body) =>
      var items := sem.items(Eval(mode, coll, lib, env));
      if items == [] {
        n := 0;
      } else {
        n := LoopSteps(mode, v, items, body, below, out, sem, lib);
      }
    case _ => n := 0;
  }

  lemma {:induction false} LoopSteps<M(!new)>(mode: Mode, v: string, items: seq<Value>, body: seq<Stmt>, below: Stack,
                                              out: Out<M>, sem: Sem<M>, lib: Lib)
      returns (n: nat)
    requires ValidSem(sem, lib) && !out.stopped
    ensures var o := ExecItems(mode, v, items, body, sem, lib, out.msg);
            Resume(out, if o.stopped then o else o.(msg := sem.unset(v, o.msg)), below)
            == Steps(mode, n, Machine(Push(Loop(v, items, body), below), out), sem, lib)
    decreases body, |items| + 2
  {
    if items == [] {
      n := 1;
    } else {
      var start := out.(msg := sem.assign(v, items[0], out.msg));
      var o := Exec(mode, body, sem, lib, start.msg);
      var rest := Push(Loop(v, items[1..], body), below);
      var first := ListSteps(mode, body, rest, start, sem, lib);
      n := first + 1;
      if !o.stopped {
        var more := LoopSteps(mode, v, items[1..], body, below, Then(out, o), sem, lib);
        ThenAssoc(out, o, ExecItems(mode, v, items[1..], body, sem, lib, o.msg));
        StepsAdd(mode, first, more, Machine(Push(Rest(body), rest), start), sem, lib);
        n := n + more;
      }
    }
  }

  /** Running a script statement by statement, every stop dropping all unfinished blocks, gives the outcome of Exec. */
  lemma ScriptRunsToItsEnd<M(!new)>(mode: Mode, ss: seq<Stmt>, sem: Sem<M>, lib: Lib, m: M)
    requires ValidSem(sem, lib)
    ensures exists n: nat :: Steps(mode, n, Machine(Push(Rest(ss), Done), Out(m, [], false)), sem, lib)
                          == Machine(Done, Exec(mode, ss, sem, lib, m))
  {
    var n := ListSteps(mode, ss, Done, Out(m, [], false), sem, lib);
  }

  // ----- stop and discard -----

  /** Nothing after a stop runs. */
  lemma NothingAfterStop<M(!new)>(mode: Mode, a: seq<Stmt>, b: seq<Stmt>, sem: Sem<M>, lib: Lib, m: M)
    requires ValidSem(sem, lib)
    ensures Exec(mode, a + [Stop] + b, sem, lib, m) == Exec(mode, a + [Stop], sem, lib, m)
    ensures Exec(mode, a + [Stop], sem, lib, m) == Exec(mode, a, sem, lib, m).(stopped := true)
  {
    ExecAppend(mode, a + [Stop], b, sem, lib, m);
    ExecAppend(mode, a, [Stop], sem, lib, m);
  }

  /** The statement runs this block of its own, once, on the message. */
  ghost predicate Enters<M(!new)>(mode: Mode, s: Stmt, block: seq<Stmt>, sem: Sem<M>, lib: Lib, m: M)
    requires ValidSem(sem, lib)
  {
    var env := sem.env(m);
    || (s.If? && s.thn == block && Condition(Eval(mode, s.cond, lib, env)))
    || (s.If? && s.els == block && !Condition(Eval(mode, s.cond, lib, env)))
    || (s.PriFilt? && s.thn == block && HasBit(s.mask[env.fac], env.sev))
    || (s.PriFilt? && s.els == block && !HasBit(s.mask[env.fac], env.sev))
    || (s.PropFilt? && s.thn == block && sem.propFilt(s.id, m))
  }

  /** A conditional statement is the block its condition chooses, and a property filter that does not match is none. */
  lemma BlockChosen<M(!new)>(mode: Mode, s: Stmt, block: seq<Stmt>, sem: Sem<M>, lib: Lib, m: M)
    requires ValidSem(sem, lib)
    ensures Enters(mode, s, block, sem, lib, m) ==> ExecOne(mode, s, sem, lib, m) == Exec(mode, block, sem, lib, m)
    ensures s.PropFilt? && !sem.propFilt(s.id, m) ==> ExecOne(mode, s, sem, lib, m) == Out(m, [], false)
  {
    if s.PriFilt? {
      PassesIsBit(s.mask, sem.env(m).fac, sem.env(m).sev);
    }
  }

  /** A stop inside a block that is entered ends the statements around it as well. */
  lemma StopLeavesBlocks<M(!new)>(mode: Mode, before: seq<Stmt>, s: Stmt, after: seq<Stmt>, a: seq<Stmt>, b: seq<Stmt>,
                                  sem: Sem<M>, lib: Lib, m: M)
    requires ValidSem(sem, lib)
    requires var o := Exec(mode, before, sem, lib, m);
             !o.stopped && Enters(mode, s, a + [Stop] + b, sem, lib, o.msg)
    ensures Exec(mode, before + [s] + after, sem, lib, m) == Exec(mode, before + a + [Stop], sem, lib, m)
    ensures Exec(mode, before + [s] + after, sem, lib, m).stopped
  {
    var o := Exec(mode, before, sem, lib, m);
    BlockChosen(mode, s, a + [Stop] + b, sem, lib, o.msg);
    NothingAfterStop(mode, a, b, sem, lib, o.msg);
    Around(mode, before, s, after, a + [Stop], sem, lib, m);
    ExecAppend(mode, before, a + [Stop], sem, lib, m);
    assert before + a + [Stop] == before + (a + [Stop]);
  }

  lemma Around<M(!new)>(mode: Mode, before: seq<Stmt>, s: Stmt, after: seq<Stmt>, block: seq<Stmt>,
                        sem: Sem<M>, lib: Lib, m: M)
    requires ValidSem(sem, lib)
    requires var o := Exec(mode, before, sem, lib, m);
             !o.stopped && ExecOne(mode, s, sem, lib, o.msg) == Exec(mode, block, sem, lib, o.msg)
             && Exec(mode, block, sem, lib, o.msg).stopped
    ensures Exec(mode, before + [s] + after, sem, lib, m) == Exec(mode, before + block, sem, lib, m)
  {
    var o := Exec(mode, before, sem, lib, m);
    ExecAppend(mode, before + [s], after, sem, lib, m);
    ExecAppend(mode, before, [s], sem, lib, m);
    ExecSingle(mode, s, sem, lib, o.msg);
    ExecAppend(mode, before, block, sem, lib, m);
  }

  /** A stop in the body of a loop ends it with the first item, its variable left set, and the script with it. */
  lemma StopLeavesLoop<M(!new)>(mode: Mode, v: string, coll: Expr, a: seq<Stmt>, b: seq<Stmt>, after: seq<Stmt>,
                                sem: Sem<M>, lib: Lib, m: M)
    requires ValidSem(sem, lib)
    ensures var items := sem.items(Eval(mode, coll, lib, sem.env(m)));
            Exec(mode, [Foreach(v, coll, a + [Stop] + b)] + after, sem, lib, m)
            == if items == [] then Exec(mode, after, sem, lib, m)
               else Exec(mode, a, sem, lib, sem.assign(v, items[0], m)).(stopped := true)
  {
    var items := sem.items(Eval(mode, coll, lib, sem.env(m)));
    var s := Foreach(v, coll, a + [Stop] + b);
    ExecAppend(mode, [s], after, sem, lib, m);
    ExecSingle(mode, s, sem, lib, m);
    if items != [] {
      NothingAfterStop(mode, a, b, sem, lib, sem.assign(v, items[0], m));
    }
  }

  /** A loop visits the items in order, one body run for each, and then unsets its variable. */
  lemma {:induction false} LoopUnrolls<M(!new)>(mode: Mode, v: string, items: seq<Value>, x: Value, body: seq<Stmt>,
                                                sem: Sem<M>, lib: Lib, m: M)
    requires ValidSem(sem, lib)
    ensures var o := ExecItems(mode, v, items, body, sem, lib, m);
            ExecItems(mode, v, items + [x], body, sem, lib, m)
            == if o.stopped then o else Then(o, Exec(mode, body, sem, lib, sem.assign(v, x, o.msg)))
    decreases |items|
  {
    if items == [] {
      assert (items + [x])[1..] == [];
    } else {
      assert (items + [x])[1..] == items[1..] + [x];
      var o := Exec(mode, body, sem, lib, sem.assign(v, items[0], m));
      if !o.stopped {
        LoopUnrolls(mode, v, items[1..], x, body, sem, lib, o.msg);
        var p := ExecItems(mode, v, items[1..], body, sem, lib, o.msg);
        ThenAssoc(o, p, Exec(mode, body, sem, lib, sem.assign(v, x, p.msg)));
      }
    }
  }

  /** An action that is reached runs, once, on the message as the statements before it left it. */
  lemma ActionRuns<M(!new)>(mode: Mode, a: seq<Stmt>, id: nat, sem: Sem<M>, lib: Lib, m: M)
    requires ValidSem(sem, lib)
    ensures var o := Exec(mode, a, sem, lib, m);
            Exec(mode, a + [Act(id, false)], sem, lib, m)
            == if o.stopped then o else Out(sem.act(id, o.msg), o.trace + [Ran(id, o.msg)], false)
  {
    ExecAppend(mode, a, [Act(id, false)], sem, lib, m);
    ExecSingle(mode, Act(id, false), sem, lib, Exec(mode, a, sem, lib, m).msg);
  }

  /** An omdiscard action ends processing like a stop. */
  lemma DiscardIsStop<M(!new)>(a: seq<Stmt>, id: nat, b: seq<Stmt>, sem: Sem<M>, lib: Lib, m: M)
    requires ValidSem(sem, lib)
    ensures Exec(Ref, a + [Act(id, true)] + b, sem, lib, m) == Exec(Ref, a, sem, lib, m).(stopped := true)
  {
    ExecAppend(Ref, a + [Act(id, true)], b, sem, lib, m);
    ExecAppend(Ref, a, [Act(id, true)], sem, lib, m);
  }
}
