/** What the statement optimizer leaves behind (grammar/rainerscript.c: cnfstmtOptimize): no statement it knows to be
    superfluous, at any depth. */
module StmtNormal {
  import opened PriMask
  import opened Script
  import opened Optimizer
  import opened Statements
  import opened StmtOptimizer

  /** The else-branch of a priority filter, which the parser leaves empty, is not visited. */
  ghost predicate NormalStmt(s: Stmt, known: string -> bool)
    decreases s, 0
  {
    match s
    case Nop => false
    case If(cond, thn, els, elseIf) =>
      && !(thn == [] && els == []) && !(cond == NumLit(0) && els == [])
      && !(cond.Prifilt? && !elseIf)
      && Normal(thn, known) && Normal(els, known)
    case PriFilt(mask, thn, _) => (exists i :: 0 <= i < 26 && mask[i] != 255) && Normal(thn, known)
    case PropFilt(_, thn) => Normal(thn, known)
    case Foreach(_, _, body) => Normal(body, known)
    case Act(_, discard) => !discard
    case Call(name) => known(name)
    case _ => true
  }

  ghost predicate Normal(ss: seq<Stmt>, known: string -> bool)
    decreases ss, 0
  {
    forall s :: s in ss ==> NormalStmt(s, known)
  }

  ghost predicate NormalOrNop(s: Stmt, known: string -> bool) { s.Nop? || NormalStmt(s, known) }

  lemma {:induction false} OneNormal(s: Stmt, lib: Lib, known: string -> bool)
    ensures forall r :: r in OptOne(s, lib, known) ==> NormalOrNop(r, known)
    decreases SizeOne(s), 0
  {
    match s
    case If(cond, thn, els, elseIf) =>
      ListNormal(thn, lib, known);
      ListNormal(els, lib, known);
      var c := Optimize(cond, lib).expr;
      if !elseIf && c.Prifilt? {
        PriNormal(c.mask, OptList(thn, lib, known), OptList(els, lib, known), lib, known);
      }
    case PriFilt(mask, thn, els) => PriNormal(mask, thn, els, lib, known);
    case PropFilt(_, thn) => ListNormal(thn, lib, known);
    case Foreach(_, _, body) => ListNormal(body, lib, known);
    case _ =>
  }

  lemma {:induction false} PriNormal(mask: Mask, thn: seq<Stmt>, els: seq<Stmt>, lib: Lib, known: string -> bool)
    ensures forall r :: r in OptPri(mask, thn, els, lib, known) ==> NormalOrNop(r, known)
    decreases Size(thn), 3
  {
    ListNormal(thn, lib, known);
  }

  lemma {:induction false} LoopNormal(ss: seq<Stmt>, lib: Lib, known: string -> bool)
    ensures forall r :: r in OptLoop(ss, lib, known) ==> NormalOrNop(r, known)
    decreases Size(ss), 1
  {
    if ss != [] {
      var o := OptOne(ss[0], lib, known);
      OneNormal(ss[0], lib, known);
      SizeAppend(o[1..], ss[1..]);
      LoopNormal(o[1..] + ss[1..], lib, known);
    }
  }

  lemma {:induction false} NopsGone(ss: seq<Stmt>, s: Stmt)
    ensures s in RemoveNops(ss) <==> s in ss && !s.Nop?
  {
    if ss != [] {
      NopsGone(ss[1..], s);
    }
  }

  /** An optimized script holds no NOP, no if without branches or with a constant false condition, no if that only tests
      a priority, no filter that lets everything pass, no discard and no call of an unknown ruleset. */
  lemma {:induction false} ListNormal(ss: seq<Stmt>, lib: Lib, known: string -> bool)
    ensures Normal(OptList(ss, lib, known), known)
    decreases Size(ss), 2
  {
    LoopNormal(ss, lib, known);
    forall s | s in OptList(ss, lib, known) ensures NormalStmt(s, known) {
      NopsGone(OptLoop(ss, lib, known), s);
    }
  }

  /** The optimizer takes a filter for always true exactly when it lets every message pass. */
  lemma AlwaysTrueMeans(mask: Mask)
    ensures AlwaysTrue(mask) <==> forall fac: nat, sev: nat :: fac < 26 && sev < 8 ==> Passes(mask, fac, sev)
  {
    forall i | 0 <= i < 26 ensures mask[i] == 0xff <==> forall sev: nat :: sev < 8 ==> Passes(mask, i, sev) {
      ByteFull(mask, i);
    }
    if AlwaysTrue(mask) {
      forall fac: nat, sev: nat | fac < 26 && sev < 8 ensures Passes(mask, fac, sev) {
        assert mask[fac] == 0xff;
      }
    }
  }

  lemma ByteFull(mask: Mask, i: nat)
    requires i < 26
    ensures mask[i] == 0xff <==> forall sev: nat :: sev < 8 ==> Passes(mask, i, sev)
  {
    AllBits(mask[i]);
    forall sev: nat | sev < 8 ensures Passes(mask, i, sev) == HasBit(mask[i], sev) {
      PassesIsBit(mask, i, sev);
    }
  }

  lemma AllBits(b: bv8)
    ensures b == 0xff <==> forall sev: nat :: sev < 8 ==> HasBit(b, sev)
  {
    if forall sev: nat :: sev < 8 ==> HasBit(b, sev) {
      EightBits(b);
    }
  }

  lemma EightBits(b: bv8)
    requires forall sev: nat :: sev < 8 ==> HasBit(b, sev)
    ensures b == 0xff
  {
    assert HasBit(b, 0) && HasBit(b, 1) && HasBit(b, 2) && HasBit(b, 3);
    assert HasBit(b, 4) && HasBit(b, 5) && HasBit(b, 6) && HasBit(b, 7);
  }
}
