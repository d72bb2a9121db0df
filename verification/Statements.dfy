/** Script statements and their execution (runtime/ruleset.c: scriptExec and the exec* helpers). */
module Statements {
  import opened Values
  import opened PriMask
  import opened Script

  datatype Stmt =
    | Nop
    | Stop
    | Act(id: nat, discard: bool)        // discard: an omdiscard action
    | Set(v: string, e: Expr)
    | Other(id: nat)                     // unset, or reload_lookup_table, which may end the script
    | Call(name: string)
    | CallIndirect(e: Expr)
    | If(cond: Expr, thn: seq<Stmt>, els: seq<Stmt>, elseIf: bool)
    | PriFilt(mask: Mask, thn: seq<Stmt>, els: seq<Stmt>)
    | PropFilt(id: nat, thn: seq<Stmt>)
    | Foreach(v: string, coll: Expr, body: seq<Stmt>)

  /** An action that ran, with the message it saw. */
  datatype Event<M> = Ran(id: nat, msg: M)

  /** The message afterwards, the actions that ran in order, and whether processing of the message has ended. */
  datatype Out<M> = Out(msg: M, trace: seq<Event<M>>, stopped: bool)

  /** What the primitive statements do to a message of type M. */
  datatype Sem<!M> = Sem(
    env: M -> Env,
    act: (nat, M) -> M,
    assign: (string, Value, M) -> M,
    unset: (string, M) -> M,
    other: (nat, M) -> Out<M>,
    call: (string, M) -> Out<M>,
    callIndirect: (Value, M) -> Out<M>,
    propFilt: (nat, M) -> bool,
    items: Value -> seq<Value>,
    known: string -> bool)               // rulesets that exist

  ghost predicate ValidSem<M(!new)>(sem: Sem<M>, lib: Lib) {
    forall m :: ValidEnv(lib, sem.env(m))
  }

  function Then<M>(o: Out<M>, next: Out<M>): Out<M> {
    Out(next.msg, o.trace + next.trace, next.stopped)
  }

  /** A statement list runs in order; a stop ends all enclosing lists. In mode Ref an omdiscard
      action ends processing and a call of an unknown ruleset does nothing. */
  function Exec<M(!new)>(mode: Mode, ss: seq<Stmt>, sem: Sem<M>, lib: Lib, m: M): Out<M>
    requires ValidSem(sem, lib)
    decreases ss, 0
  {
    if ss == [] then Out(m, [], false)
    else
      var o := ExecOne(mode, ss[0], sem, lib, m);
      if o.stopped then o else Then(o, Exec(mode, ss[1..], sem, lib, o.msg))
  }

  function ExecOne<M(!new)>(mode: Mode, s: Stmt, sem: Sem<M>, lib: Lib, m: M): Out<M>
    requires ValidSem(sem, lib)
    decreases s, 0
  {
    var env := sem.env(m);
    match s
    case Nop => Out(m, [], false)
    case Stop => Out(m, [], true)
    case Act(id, discard) => if discard && mode == Ref then Out(m, [], true) else Out(sem.act(id, m), [Ran(id, m)], false)
    case Set(v, e) => Out(sem.assign(v, Eval(mode, e, lib, env), m), [], false)
    case Other(id) => sem.other(id, m)
    case Call(name) => if !sem.known(name) && mode == Ref then Out(m, [], false) else sem.call(name, m)
    case CallIndirect(e) => sem.callIndirect(Eval(mode, e, lib, env), m)
    case If(cond, thn, els, _) =>
      if Condition(Eval(mode, cond, lib, env)) then Exec(mode, thn, sem, lib, m) else Exec(mode, els, sem, lib, m)
    case PriFilt(mask, thn, els) =>
      if Passes(mask, env.fac, env.sev) then Exec(mode, thn, sem, lib, m) else Exec(mode, els, sem, lib, m)
    case PropFilt(id, thn) => if sem.propFilt(id, m) then Exec(mode, thn, sem, lib, m) else Out(m, [], false)
    case Foreach(v, coll, body) =>
      var items := sem.items(Eval(mode, coll, lib, env));
      if items == [] then Out(m, [], false)
      else
        var o := ExecItems(mode, v, items, body, sem, lib, m);
        if o.stopped then o else o.(msg := sem.unset(v, o.msg))
  }

  function ExecItems<M(!new)>(mode: Mode, v: string, items: seq<Value>, body: seq<Stmt>, sem: Sem<M>, lib: Lib, m: M): Out<M>
    requires ValidSem(sem, lib)
    decreases body, |items| + 1
  {
    if items == [] then Out(m, [], false)
    else
      var o := Exec(mode, body, sem, lib, sem.assign(v, items[0], m));
      if o.stopped then o else Then(o, ExecItems(mode, v, items[1..], body, sem, lib, o.msg))
  }

  lemma {:induction false} ExecAppend<M(!new)>(mode: Mode, a: seq<Stmt>, b: seq<Stmt>, sem: Sem<M>, lib: Lib, m: M)
    requires ValidSem(sem, lib)
    ensures var o := Exec(mode, a, sem, lib, m);
            Exec(mode, a + b, sem, lib, m) == if o.stopped then o else Then(o, Exec(mode, b, sem, lib, o.msg))
  {
    if a == [] {
      assert a + b == b;
    } else {
      assert (a + b)[1..] == a[1..] + b;
      var o := ExecOne(mode, a[0], sem, lib, m);
      if !o.stopped {
        ExecAppend(mode, a[1..], b, sem, lib, o.msg);
        var p := Exec(mode, a[1..], sem, lib, o.msg);
        ThenAssoc(o, p, Exec(mode, b, sem, lib, p.msg));
      }
    }
  }

  lemma ThenAssoc<M>(a: Out<M>, b: Out<M>, c: Out<M>)
    ensures Then(Then(a, b), c) == Then(a, Then(b, c))
  {}

  lemma ExecSingle<M(!new)>(mode: Mode, s: Stmt, sem: Sem<M>, lib: Lib, m: M)
    requires ValidSem(sem, lib)
    ensures Exec(mode, [s], sem, lib, m) == ExecOne(mode, s, sem, lib, m)
  {
    assert [s][1..] == [];
  }
}
