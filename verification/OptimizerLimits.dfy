/** Where the optimizer changes meaning, and exactly when. */
module OptimizerLimits {
  import opened Values
  import opened PriMask
  import opened Script
  import opened Optimizer
  import opened OptimizerSound
  import SortSearch

  // ----- numbers compared with a severity or facility -----

  /** Rewriting a severity comparison to a mask keeps its value for every severity exactly when
      the literal of an == or <> comparison survives the narrowing to an int. */
  lemma SeverityRewriteExactly(n: int, op: CmpOp, lib: Lib)
    requires PriLiteral(SEVERITY, n)
    ensures (forall sev: nat :: sev <= 7 ==>
               CmpVals(lib, op, Str(NumText(sev)), Num(n)) == Bit(Passes(PriMaskFor(SEVERITY, n, op), 0, sev)))
            <==> LiteralOk(SEVERITY, n, op)
  {
    var t := Trunc32(n);
    if LiteralOk(SEVERITY, n, op) {
      forall sev: nat | sev <= 7
        ensures CmpVals(lib, op, Str(NumText(sev)), Num(n)) == Bit(Passes(PriMaskFor(SEVERITY, n, op), 0, sev))
      {
        NumeralCmp(sev, n, op, lib);
        SeverityMaskMeans(t, op, 0, sev);
      }
    } else {
      NumberRoundTrip(t);
      SeverityMaskMeans(t, op, 0, t);
      assert CmpVals(lib, op, Str(NumText(t)), Num(n)) != Bit(Passes(PriMaskFor(SEVERITY, n, op), 0, t));
    }
  }

  ghost predicate FacilityAgrees(n: int, op: CmpOp, lib: Lib, fac: nat)
    requires PriLiteral(FACILITY, n) && fac <= 24
  {
    Agree(false, CmpVals(lib, op, Str(FacilityText(fac)), Num(n)), Bit(Passes(PriMaskFor(FACILITY, n, op), fac, 0)))
  }

  /** Rewriting a facility comparison to a mask keeps its truth value for every facility exactly when the
      literal of an == or <> survives the narrowing, and one that narrows to 24 is compared with < or >=:
      facility 24 reads as "invld". */
  lemma FacilityRewriteExactly(n: int, op: CmpOp, lib: Lib)
    requires ValidLib(lib) && PriLiteral(FACILITY, n)
    ensures (forall fac: nat :: fac <= 24 ==> FacilityAgrees(n, op, lib, fac)) <==> LiteralOk(FACILITY, n, op)
  {
    var t := Trunc32(n);
    if LiteralOk(FACILITY, n, op) {
      forall fac: nat | fac <= 24 ensures FacilityAgrees(n, op, lib, fac) {
        FacilityMeans(n, op, false, lib, fac, 0);
      }
    } else if t == 24 {
      FacilityMaskMeans(24, op, 24, 0);
      InvalidFacilityCmp(n, op, lib);
      FlagAgrees(lib.cmp("invld", NumText(n)));
      assert !FacilityAgrees(n, op, lib, 24);
    } else {
      NumberRoundTrip(t);
      FacilityMaskMeans(t, op, t, 0);
      assert !FacilityAgrees(n, op, lib, t);
    }
  }

  // ----- names compared with a severity or facility -----

  ghost predicate NameAgrees(name: string, s: string, code: nat, op: CmpOp, lib: Lib, fac: nat, sev: nat)
    requires fac <= 24
  {
    Agree(false, CmpVals(lib, op, Str(NameText(name, fac, sev)), Str(s)), Bit(Passes(NameMask(name, code, op), fac, sev)))
  }

  /** Rewriting a comparison with a name keeps its truth value for every message exactly when the name is the one
      that messages with its code read as. Aliases, upper case and numbers are not. */
  lemma NameRewriteExactly(name: string, s: string, code: nat, op: CmpOp, lib: Lib)
    requires ValidLib(lib) && IsEqOp(op) && (name == SEVERITY_TEXT || name == FACILITY_TEXT)
    ensures (forall fac: nat, sev: nat :: fac <= 24 && sev <= 7 ==> NameAgrees(name, s, code, op, lib, fac, sev))
            <==> CanonicalName(name, s, code)
  {
    if CanonicalName(name, s, code) {
      forall fac: nat, sev: nat | fac <= 24 && sev <= 7 ensures NameAgrees(name, s, code, op, lib, fac, sev) {
        NameMeans(name, s, code, op, false, lib, fac, sev);
      }
    } else if name == SEVERITY_TEXT {
      var sev: nat :| sev <= 7 && (if code <= 7 then sev == code else s == SeverityName(sev));
      OneSeverityMeans(code, op, 0, sev);
      FlagAgrees(lib.cmp(SeverityName(sev), s));
      assert !NameAgrees(name, s, code, op, lib, 0, sev);
    } else {
      var fac: nat :| fac <= 24 && (if code / 8 <= 24 then fac == code / 8 else s == FacilityName(fac));
      OneFacilityMeans(code, fac, 0);
      FlagAgrees(lib.cmp(FacilityName(fac), s));
      assert !NameAgrees(name, s, code, op, lib, fac, 0);
    }
  }

  // ----- arrays the optimizer does not reach -----

  /** Arguments of a function are not optimized: an array comparison there searches the array as written. */
  lemma ArgumentSearched(f: string, op: CmpOp, v: Expr, a: seq<string>, lib: Lib, env: Env, mode: Mode)
    requires v.Var? && IsEqOp(op) && env.fac < ENTRIES && !env.read(v.prop).Num?
    ensures var arg := Cmp(op, v, ArrLit(a));
            && Optimize(Func(f, [arg]), lib).expr == Func(f, [arg])
            && EvalAll(mode, [arg], lib, env) == [Bit(Member(mode, lib, a, ToText(env.read(v.prop))) == (op == EQ))]
  {
    var arg := Cmp(op, v, ArrLit(a));
    assert Eval(mode, arg, lib, env) == ArrayCmp(mode, lib, op, env.read(v.prop), a);
    assert [arg][1..] == [];
  }

  ghost predicate SearchIsMembership(a: seq<string>, lib: Lib) {
    forall t :: Member(Run, lib, a, t) == Member(Ref, lib, a, t)
  }

  /** Binary search of an array as written decides membership exactly when each of its elements occurs at a place
      that lies on its side of every element the search looks at before; without repeats, when the array is sorted. */
  lemma UnsortedArgumentExactly(a: seq<string>, lib: Lib)
    requires TotalOrder(lib.cmp)
    requires forall key :: lib.find(a, key) == SortSearch.Bsearch(lib.cmp, a, key, 0, |a|)
    ensures SearchIsMembership(a, lib)
            <==> forall k :: 0 <= k < |a| ==> SortSearch.Placed(lib.cmp, a, a[k], 0, |a|)
    ensures SortSearch.Distinct(a) ==> (SearchIsMembership(a, lib) <==> Sorted(lib.cmp, a))
  {
    forall t ensures lib.find(a, t) <==> SortSearch.Placed(lib.cmp, a, t, 0, |a|) {
      SortSearch.BsearchExactly(lib.cmp, a, t, 0, |a|);
    }
    if SearchIsMembership(a, lib) {
      forall k | 0 <= k < |a| ensures lib.find(a, a[k]) {
        assert Member(Run, lib, a, a[k]) == Member(Ref, lib, a, a[k]);
      }
    }
    if SortSearch.Distinct(a) {
      DistinctSearch(a, lib);
    }
  }

  lemma DistinctSearch(a: seq<string>, lib: Lib)
    requires TotalOrder(lib.cmp) && SortSearch.Distinct(a)
    requires forall key :: lib.find(a, key) == SortSearch.Bsearch(lib.cmp, a, key, 0, |a|)
    ensures SearchIsMembership(a, lib) <==> Sorted(lib.cmp, a)
  {
    if Sorted(lib.cmp, a) {
      forall t ensures lib.find(a, t) <==> t in a {
        SortSearch.BsearchCorrect(lib.cmp, a, t);
      }
    }
    if SearchIsMembership(a, lib) {
      forall k | 0 <= k < |a| ensures SortSearch.Bsearch(lib.cmp, a, a[k], 0, |a|) {
        assert Member(Run, lib, a, a[k]) == Member(Ref, lib, a, a[k]);
      }
      SortSearch.FindsAllAscends(lib.cmp, a, 0, |a|);
      SortSearch.AscendingSorted(lib.cmp, a, 0);
      assert a[0..] == a;
    }
  }

  /** Such an array: the search misses a member. */
  lemma UnsortedArgument(lib: Lib)
    requires TotalOrder(lib.cmp) && lib.cmp("a", "b") < 0
    ensures "b" in ["b", "a"] && !SortSearch.Bsearch(lib.cmp, ["b", "a"], "b", 0, 2)
  {
    var a := ["b", "a"];
    assert a[0] == "b" && a[1] == "a";
    assert lib.cmp("b", "a") > 0;
    assert !SortSearch.Bsearch(lib.cmp, a, "b", 2, 2);
  }

  // ----- numbers compared with an array -----

  /** Running the optimized comparison of a number with an array compares it with the first sorted element only. */
  lemma NumberAgainstArray(op: CmpOp, l: Expr, a: seq<string>, n: int, lib: Lib, env: Env)
    requires ValidEnv(lib, env) && IsEqOp(op)
    requires Eval(Ref, l, lib, env) == Eval(Run, Optimize(l, lib).expr, lib, env) == Num(n)
    ensures var e := Cmp(op, l, ArrLit(a));
            && Eval(Ref, e, lib, env) == Bit((NumText(n) in a) == (op == EQ))
            && Eval(Run, Optimize(e, lib).expr, lib, env) == CmpVals(lib, op, Num(n), Str(First(lib.sort(a))))
  {
    var l', sorted := Optimize(l, lib).expr, ArrLit(lib.sort(a));
    assert !l'.ArrLit? && !l'.Var?;
    assert Optimize(Cmp(op, l, ArrLit(a)), lib).expr == Cmp(op, l', sorted);
    assert Eval(Run, sorted, lib, env) == Str(First(lib.sort(a)));
  }

  ghost predicate NumberAgrees(op: CmpOp, n: int, a: seq<string>, lib: Lib) {
    Agree(false, CmpVals(lib, op, Num(n), Str(First(lib.sort(a)))), Bit((NumText(n) in a) == (op == EQ)))
  }

  lemma NumberAgreesIff(op: CmpOp, n: int, a: seq<string>, lib: Lib)
    requires ValidLib(lib) && IsEqOp(op)
    ensures NumberAgrees(op, n, a, lib) <==> (EqVals(lib, Num(n), Str(First(lib.sort(a)))) <==> NumText(n) in a)
  {
    FlagAgrees(NeVals(lib, Num(n), Str(First(lib.sort(a)))));
  }

  /** Sorting puts the least element first. */
  lemma LeastIsFirst(a: seq<string>, g: string, lib: Lib)
    requires ValidLib(lib) && ValidSearch(lib) && a != []
    ensures lib.sort(a) != []
    ensures Least(g, a, lib) <==> g == lib.sort(a)[0]
  {
    var s := lib.sort(a);
    forall t ensures t in s <==> t in a { SortKeeps(a, t, lib); }
    assert a[0] in s;
    FirstIsLeast(s, lib);
  }

  lemma NumberOkIff(a: seq<string>, lib: Lib)
    requires ValidLib(lib) && ValidSearch(lib)
    ensures NumberOk(false, a, lib) <==> OneNumeral(a, First(lib.sort(a)))
  {
    if a != [] {
      forall g ensures Least(g, a, lib) <==> g == First(lib.sort(a)) { LeastIsFirst(a, g, lib); }
    } else {
      assert |lib.sort(a)| == |multiset(lib.sort(a))| == |multiset(a)| == 0;
      assert lib.sort(a) == [];
      assert NumText(0) !in a;
    }
  }

  /** That keeps the truth value for every number exactly when the decimal texts in the array are just that of the
      number its first sorted element reads as. */
  lemma NumberAgainstArrayExactly(op: CmpOp, a: seq<string>, lib: Lib)
    requires ValidLib(lib) && ValidSearch(lib) && IsEqOp(op)
    ensures (forall n :: NumberAgrees(op, n, a, lib)) <==> NumberOk(false, a, lib)
  {
    NumberOkIff(a, lib);
    OneNumeralExactly(a, First(lib.sort(a)), lib);
    AllAgreeIff(op, a, lib);
  }

  lemma AllAgreeIff(op: CmpOp, a: seq<string>, lib: Lib)
    requires ValidLib(lib) && IsEqOp(op)
    ensures (forall n :: NumberAgrees(op, n, a, lib)) <==> MembershipByFirst(a, First(lib.sort(a)), lib)
  {
    var first := First(lib.sort(a));
    if forall n :: NumberAgrees(op, n, a, lib) {
      forall n ensures EqVals(lib, Num(n), Str(first)) <==> NumText(n) in a {
        assert NumberAgrees(op, n, a, lib);
        NumberAgreesIff(op, n, a, lib);
      }
    }
    if MembershipByFirst(a, first, lib) {
      forall n ensures NumberAgrees(op, n, a, lib) {
        NumberAgreesIff(op, n, a, lib);
      }
    }
  }

  /** Such an array: sorting changes the element a number is compared with. */
  lemma NumberAgainstPair(lib: Lib)
    requires ValidLib(lib) && ValidSearch(lib) && lib.cmp("9", "8") > 0
    ensures !NumberOk(false, ["9", "8"], lib)
  {
    var a := ["9", "8"];
    assert a[0] == "9" && a[1] == "8";
    assert Least("8", a, lib);
    assert NumText(9) == "9" && NumText(8) == "8";
    NumberRoundTrip(8);
  }
}
