/** The laws of the expression evaluator (grammar/rainerscript.c: cnfexprEval and its helpers), over all operand
    expressions. */
module ScriptLaws {
  import opened Values
  import opened PriMask
  import opened Script

  predicate Holding(mode: Mode, e: Expr, lib: Lib, env: Env)
    requires env.fac < ENTRIES
  {
    Truthy(Eval(mode, e, lib, env))
  }

  // ----- arithmetic -----

  /** Arithmetic works on the numbers of its operands, and negation is a difference from zero. */
  lemma Calculation(mode: Mode, op: ArithOp, l: Expr, r: Expr, lib: Lib, env: Env, x: int, y: int)
    requires env.fac < ENTRIES && x == ToNum(Eval(mode, l, lib, env)) && y == ToNum(Eval(mode, r, lib, env))
    ensures Eval(mode, Arith(op, l, r), lib, env) == Num(ArithVals(op, x, y))
    ensures Eval(mode, Neg(r), lib, env) == Num(ArithVals(Sub, 0, y))
  {}

  /**
   * Sums, differences and products are those of the integers. Quotient and remainder put the dividend together again;
   * the remainder is smaller than the divisor and has the sign of the dividend. Dividing by zero gives zero.
   */
  lemma Arithmetic(x: int, y: int)
    ensures ArithVals(Add, x, y) == x + y && ArithVals(Sub, x, y) == x - y && ArithVals(Mul, x, y) == x * y
    ensures var quot, rem := ArithVals(Div, x, y), ArithVals(Mod, x, y);
            if y == 0 then quot == 0 && rem == 0
            else
              && x == quot * y + rem && -Abs(y) < rem < Abs(y)
              && (x >= 0 ==> rem >= 0) && (x <= 0 ==> rem <= 0)
  {
    if y != 0 {
      Truncating(x, y);
    }
  }

  function Abs(x: int): int { if x < 0 then -x else x }

  lemma Truncating(x: int, y: int)
    requires y != 0
    ensures x == CDiv(x, y) * y + CMod(x, y) && -Abs(y) < CMod(x, y) < Abs(y)
    ensures (x >= 0 ==> CMod(x, y) >= 0) && (x <= 0 ==> CMod(x, y) <= 0)
  {
    if x >= 0 {
      assert x == (x / y) * y + x % y;
    } else {
      assert -x == ((-x) / y) * y + (-x) % y;
    }
  }

  /** Taking away what was added gives the number back, and the other way round. */
  lemma Undone(mode: Mode, l: Expr, r: Expr, lib: Lib, env: Env, x: int, y: int)
    requires env.fac < ENTRIES && x == ToNum(Eval(mode, l, lib, env)) && y == ToNum(Eval(mode, r, lib, env))
    ensures Eval(mode, Arith(Sub, Arith(Add, l, r), r), lib, env) == Num(x)
    ensures Eval(mode, Arith(Add, Arith(Sub, l, r), r), lib, env) == Num(x)
  {
    Calculation(mode, Add, l, r, lib, env, x, y);
    Calculation(mode, Sub, l, r, lib, env, x, y);
    Calculation(mode, Sub, Arith(Add, l, r), r, lib, env, x + y, y);
    Calculation(mode, Add, Arith(Sub, l, r), r, lib, env, x - y, y);
  }

  /** So does putting a quotient and a remainder together. */
  lemma Reassembled(mode: Mode, l: Expr, r: Expr, lib: Lib, env: Env, x: int, y: int)
    requires env.fac < ENTRIES && x == ToNum(Eval(mode, l, lib, env)) && y == ToNum(Eval(mode, r, lib, env)) && y != 0
    ensures Eval(mode, Arith(Add, Arith(Mul, Arith(Div, l, r), r), Arith(Mod, l, r)), lib, env) == Num(x)
  {
    var quot, rem := ArithVals(Div, x, y), ArithVals(Mod, x, y);
    Calculation(mode, Div, l, r, lib, env, x, y);
    Calculation(mode, Mod, l, r, lib, env, x, y);
    Calculation(mode, Mul, Arith(Div, l, r), r, lib, env, quot, y);
    Calculation(mode, Add, Arith(Mul, Arith(Div, l, r), r), Arith(Mod, l, r), lib, env, quot * y, rem);
    Arithmetic(x, y);
  }

  // ----- comparisons -----

  /** A comparison is one of the values of its operands, unless == or <> meets an array. */
  lemma Comparison(mode: Mode, op: CmpOp, l: Expr, r: Expr, lib: Lib, env: Env, x: Value, y: Value)
    requires env.fac < ENTRIES && (op == EQ || op == NE ==> !l.ArrLit? && !r.ArrLit?)
    requires x == Eval(mode, l, lib, env) && y == Eval(mode, r, lib, env)
    ensures Eval(mode, Cmp(op, l, r), lib, env) == CmpVals(lib, op, x, y)
  {}

  /** Equality looks at texts if a text meets a text, JSON on the left meets one, or a text is no number. */
  predicate ByText(l: Value, r: Value) {
    || (l.Str? && r.Str?) || (l.Json? && r.Str?)
    || (l.Str? && !TextNumber(l.s).1) || (r.Str? && !TextNumber(r.s).1)
  }

  /** == compares texts or numbers, and <> is its negation. */
  lemma Equality(lib: Lib, l: Value, r: Value)
    requires ValidLib(lib)
    ensures Truthy(CmpVals(lib, EQ, l, r)) <==> if ByText(l, r) then ToText(l) == ToText(r) else ToNum(l) == ToNum(r)
    ensures Truthy(CmpVals(lib, NE, l, r)) <==> !Truthy(CmpVals(lib, EQ, l, r))
  {}

  /** The four order comparisons say of two values what they say of these integers. */
  predicate OrderedAs(lib: Lib, l: Value, r: Value, x: int, y: int) {
    && (Truthy(CmpVals(lib, LT, l, r)) <==> x < y)
    && (Truthy(CmpVals(lib, LE, l, r)) <==> x <= y)
    && (Truthy(CmpVals(lib, GE, l, r)) <==> x >= y)
    && (Truthy(CmpVals(lib, GT, l, r)) <==> x > y)
  }

  /** Operands of which one is no number are compared as texts. */
  lemma TextOrder(lib: Lib, l: Value, r: Value)
    requires !ConvOk(l) || !ConvOk(r)
    ensures OrderedAs(lib, l, r, lib.cmp(ToText(l), ToText(r)), 0)
  {
    assert OrderVals(lib, l, r) == lib.cmp(ToText(l), ToText(r));
  }

  /** A number that keeps its sign as a C int: zero, or a positive one with a low word below 2^31, or a negative one with
      a low word from 2^31 on. */
  predicate SignSafe(d: int) {
    var low := d % 0x1_0000_0000;
    d == 0 || (d > 0 && 0 < low < 0x8000_0000) || (d < 0 && low >= 0x8000_0000)
  }

  lemma SignKept(d: int)
    ensures (d < 0 <==> Trunc32(d) < 0) && (d > 0 <==> Trunc32(d) > 0) <==> SignSafe(d)
    ensures -0x1_0000_0000 < d < 0x1_0000_0000 ==> (SignSafe(d) <==> -0x8000_0000 <= d < 0x8000_0000)
  {
    if -0x1_0000_0000 < d < 0 {
      assert d % 0x1_0000_0000 == d + 0x1_0000_0000;
    }
  }

  /** Numbers are ordered as integers exactly when their difference keeps its sign as a C int; for a difference below
      2^32 that is when it is an int itself. */
  lemma NumberOrder(lib: Lib, l: Value, r: Value)
    requires ConvOk(l) && ConvOk(r)
    ensures var d := ToNum(l) - ToNum(r);
            && (OrderedAs(lib, l, r, ToNum(l), ToNum(r)) <==> SignSafe(d))
            && (-0x1_0000_0000 < d < 0x1_0000_0000 ==> (SignSafe(d) <==> -0x8000_0000 <= d < 0x8000_0000))
  {
    assert OrderVals(lib, l, r) == Trunc32(ToNum(l) - ToNum(r));
    SignKept(ToNum(l) - ToNum(r));
  }

  /** 2^31 - 1 comes out as smaller than -1. */
  lemma OrderFails(lib: Lib)
    ensures Truthy(CmpVals(lib, LT, Num(0x7fff_ffff), Num(-1)))
  {
    assert OrderVals(lib, Num(0x7fff_ffff), Num(-1)) == -0x8000_0000;
  }

  /** An array on the right stands for its elements: == asks whether some element is the text of the left operand. */
  lemma Membership(l: Expr, a: seq<string>, lib: Lib, env: Env)
    requires env.fac < ENTRIES
    ensures var t := ToText(Eval(Ref, l, lib, env));
            Holding(Ref, Cmp(EQ, l, ArrLit(a)), lib, env) <==> exists i :: 0 <= i < |a| && a[i] == t
    ensures Holding(Ref, Cmp(NE, l, ArrLit(a)), lib, env) <==> !Holding(Ref, Cmp(EQ, l, ArrLit(a)), lib, env)
  {
    assert Eval(Ref, Cmp(EQ, l, ArrLit(a)), lib, env) == ArrayCmp(Ref, lib, EQ, Eval(Ref, l, lib, env), a);
    assert Eval(Ref, Cmp(NE, l, ArrLit(a)), lib, env) == ArrayCmp(Ref, lib, NE, Eval(Ref, l, lib, env), a);
  }

  /** A text test looks at the texts of its operands. */
  lemma TextTest(mode: Mode, op: TextOp, l: Expr, r: Expr, lib: Lib, env: Env)
    requires env.fac < ENTRIES && !r.ArrLit?
    ensures Holding(mode, Text(op, l, r), lib, env)
       <==> lib.test(op, ToText(Eval(mode, l, lib, env)), ToText(Eval(mode, r, lib, env)))
  {}

  lemma ArrayTest(mode: Mode, op: TextOp, l: Expr, a: seq<string>, lib: Lib, env: Env)
    requires env.fac < ENTRIES
    ensures Holding(mode, Text(op, l, ArrLit(a)), lib, env)
       <==> exists i :: 0 <= i < |a| && lib.test(op, ToText(Eval(mode, l, lib, env)), a[i])
  {}

  /** Against an array it holds when it holds against some element. */
  lemma SomeElement(mode: Mode, op: TextOp, l: Expr, a: seq<string>, lib: Lib, env: Env)
    requires env.fac < ENTRIES
    ensures Holding(mode, Text(op, l, ArrLit(a)), lib, env)
       <==> exists i :: 0 <= i < |a| && Holding(mode, Text(op, l, StrLit(a[i])), lib, env)
  {
    ArrayTest(mode, op, l, a, lib, env);
    forall i | 0 <= i < |a|
      ensures Holding(mode, Text(op, l, StrLit(a[i])), lib, env) <==> lib.test(op, ToText(Eval(mode, l, lib, env)), a[i])
    {
      TextTest(mode, op, l, StrLit(a[i]), lib, env);
    }
  }

  // ----- logic -----

  /** The connectives are those of logic, and their results are 0 or 1. */
  lemma Logic(mode: Mode, l: Expr, r: Expr, lib: Lib, env: Env, p: bool, q: bool)
    requires env.fac < ENTRIES && p == Holding(mode, l, lib, env) && q == Holding(mode, r, lib, env)
    ensures Eval(mode, And(l, r), lib, env) == Num(if p && q then 1 else 0)
    ensures Eval(mode, Or(l, r), lib, env) == Num(if p || q then 1 else 0)
    ensures Eval(mode, Not(l), lib, env) == Num(if p then 0 else 1)
  {}

  /** Negation turns conjunctions into disjunctions. */
  lemma DeMorgan(mode: Mode, l: Expr, r: Expr, lib: Lib, env: Env, p: bool, q: bool)
    requires env.fac < ENTRIES && p == Holding(mode, l, lib, env) && q == Holding(mode, r, lib, env)
    ensures Eval(mode, Not(And(l, r)), lib, env) == Eval(mode, Or(Not(l), Not(r)), lib, env)
  {
    Logic(mode, l, r, lib, env, p, q);
    Logic(mode, r, l, lib, env, q, p);
    Logic(mode, And(l, r), l, lib, env, p && q, p);
    Logic(mode, Not(l), Not(r), lib, env, !p, !q);
  }

  /** A condition holds unless the low 32 bits of its number are all zero. */
  lemma ConditionMeans(v: Value)
    ensures Condition(v) <==> ToNum(v) % 0x1_0000_0000 != 0
  {}

  /** & joins the texts of its operands. */
  lemma Joining(mode: Mode, a: Expr, b: Expr, lib: Lib, env: Env, x: string, y: string)
    requires env.fac < ENTRIES && x == ToText(Eval(mode, a, lib, env)) && y == ToText(Eval(mode, b, lib, env))
    ensures Eval(mode, Concat(a, b), lib, env) == Str(x + y)
  {}

  // ----- numbers as texts -----

  /** Narrowing to an int keeps a number modulo 2^32, and there is only one int that does. */
  lemma NarrowingIsUnique(x: int, r: int)
    ensures (-0x8000_0000 <= r < 0x8000_0000 && (x - r) % 0x1_0000_0000 == 0) <==> r == Trunc32(x)
  {
    Trunc32Sub(x, r);
    if -0x8000_0000 <= r < 0x8000_0000 && (x - r) % 0x1_0000_0000 == 0 {
      var k := (x - r) / 0x1_0000_0000;
      assert x == r + k * 0x1_0000_0000;
      ModShift(x, k);
      Trunc32Id(r);
    }
  }

  /** Digits without a leading zero. */
  predicate Numeral(s: string) {
    && s != "" && (forall k :: 0 <= k < |s| ==> '0' <= s[k] <= '9')
    && (s[0] == '0' ==> |s| == 1)
  }

  /** Every numeral is the text of its number: there is no other way to write a number. */
  lemma {:induction false} NumeralIsText(s: string)
    requires Numeral(s)
    ensures ScanDigits(s, 0, 0).0 >= 0 && ScanDigits(s, 0, 0).1 == |s| && s == NatText(ScanDigits(s, 0, 0).0)
    ensures ScanDigits(s, 0, 0).0 == 0 <==> s == "0"
  {
    var front := s[..|s| - 1];
    var last := s[|s| - 1];
    assert s == front + [last];
    ScanAppend(front, 0, 0, last);
    if front == "" {
      assert ScanDigits(front, 0, 0) == (0, 0);
    } else {
      NumeralIsText(front);
      var n := ScanDigits(front, 0, 0).0;
      assert (n * 10 + DigitVal(last)) / 10 == n && (n * 10 + DigitVal(last)) % 10 == DigitVal(last);
    }
  }

  /** The text of a natural number is such a numeral. */
  lemma {:induction false} TextIsNumeral(n: nat)
    ensures Numeral(NatText(n)) && (NatText(n)[0] == '0' <==> n == 0)
  {
    if n >= 10 {
      TextIsNumeral(n / 10);
    }
  }

  /** What follows the digits of a number ends it and makes it no number. */
  lemma NumberThenText(n: nat, rest: string)
    requires rest != "" && !('0' <= rest[0] <= '9')
    ensures TextNumber(NatText(n) + rest) == (n, false)
    ensures var (k, whole) := TextNumber("-" + NatText(n) + rest); k + n == 0 && !whole
  {
    TextIsNumeral(n);
    ScanThen(NatText(n), rest, 0, 0);
    ScanNatText(n);
    ScanPrefix("-", NatText(n) + rest, 0, 0);
    assert "-" + NatText(n) + rest == "-" + (NatText(n) + rest);
  }

  lemma {:induction false} ScanThen(s: string, rest: string, i: nat, acc: int)
    requires i <= |s| && (forall k :: 0 <= k < |s| ==> IsDigit(s[k])) && rest != "" && !IsDigit(rest[0])
    ensures ScanDigits(s + rest, i, acc) == ScanDigits(s, i, acc)
    decreases |s| - i
  {
    if i < |s| {
      assert (s + rest)[i] == s[i];
      ScanThen(s, rest, i + 1, acc * 10 + DigitVal(s[i]));
    } else {
      assert (s + rest)[i] == rest[0];
    }
  }
}
