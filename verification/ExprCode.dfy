/** The expression objects: code and constants appended in place, the pass that assigns destinations, and the loop
    that evaluates; and the builder that fills them from an expression tree. */
module ExprCode {
  import opened Wrappers
  import opened Sequences
  import opened ExprLang
  import opened ExprCompile
  import opened ExprRun
  import opened ExprBuild

  // ---------------------------------------------------------------- relocation

  /** An operation moved into a pool that already holds `k` constants. */
  function Relocated(op: Op, k: nat): Op
  {
    match op
    case LoadConst(o) => LoadConst(o + k)
    case _ => op
  }

  function Relocate(ops: seq<Op>, k: nat): seq<Op>
  {
    if ops == [] then [] else Relocate(ops[..|ops| - 1], k) + [Relocated(ops[|ops| - 1], k)]
  }

  lemma {:induction false} RelocateConcat(x: seq<Op>, y: seq<Op>, k: nat)
    ensures Relocate(x + y, k) == Relocate(x, k) + Relocate(y, k)
    decreases |y|
  {
    if y == [] {
      assert x + y == x;
    } else {
      RelocateConcat(x, y[..|y| - 1], k);
      assert (x + y)[..|x + y| - 1] == x + y[..|y| - 1];
    }
  }

  lemma {:induction false} RelocateLength(x: seq<Op>, k: nat)
    ensures |Relocate(x, k)| == |x|
    decreases |x|
  {
    if x != [] { RelocateLength(x[..|x| - 1], k); }
  }

  lemma RelocateOne(op: Op, k: nat)
    ensures Relocate([op], k) == [Relocated(op, k)]
  {
    assert [op][..0] == [];
    assert Relocate([op][..0], k) == [];
  }

  /** Jump distances survive relocation. */
  lemma RelocateBranches(yes: seq<Op>, no: seq<Op>, k: nat)
    ensures Relocate(Branches(yes, no), k) == Branches(Relocate(yes, k), Relocate(no, k))
  {
    RelocateLength(yes, k);
    RelocateLength(no, k);
    RelocateOne(TernaryOp, k);
    RelocateOne(Skip(|yes| + 1), k);
    RelocateOne(Skip(|no|), k);
    RelocateConcat([Skip(|no|)], no, k);
    RelocateConcat(yes, [Skip(|no|)] + no, k);
    RelocateConcat([Skip(|yes| + 1)], yes + ([Skip(|no|)] + no), k);
    RelocateConcat([TernaryOp], [Skip(|yes| + 1)] + (yes + ([Skip(|no|)] + no)), k);
  }

  lemma {:induction false} EmitMovesCond(c: Core, t: Core, e: Core, base: nat, k: nat)
    ensures Relocate(Emit(Cond(c, t, e), base), k) == Emit(Cond(c, t, e), base + k)
    decreases Cond(c, t, e), 0
  {
    hide Emit, Consts, Relocate, Branches;
    var b1, b2 := base + |Consts(c)|, base + |Consts(c)| + |Consts(t)|;
    EmitMoves(c, base, k);
    EmitMoves(t, b1, k);
    EmitMoves(e, b2, k);
    CondEmits(c, t, e, base);
    CondEmits(c, t, e, base + k);
    RelocateBranches(Emit(t, b1), Emit(e, b2), k);
    RelocateConcat(Emit(c, base), Branches(Emit(t, b1), Emit(e, b2)), k);
    assert b1 + k == base + k + |Consts(c)| && b2 + k == base + k + |Consts(c)| + |Consts(t)|;
  }

  lemma {:induction false} EmitMovesNode2(f: Fun, y: Core, z: Core, base: nat, k: nat)
    ensures Relocate(Emit(Node2(f, y, z), base), k) == Emit(Node2(f, y, z), base + k)
    decreases Node2(f, y, z), 0
  {
    hide Emit, Consts, Relocate;
    var b1 := base + |Consts(y)|;
    EmitMoves(y, base, k);
    EmitMoves(z, b1, k);
    Node2Emits(f, y, z, base);
    Node2Emits(f, y, z, base + k);
    RelocateOne(Compute(f, 0), k);
    RelocateConcat(Emit(y, base), Emit(z, b1), k);
    RelocateConcat(Emit(y, base) + Emit(z, b1), [Compute(f, 0)], k);
    assert b1 + k == base + k + |Consts(y)|;
  }

  /** Relocating the code of an expression is emitting it for the later place in the pool. */
  lemma {:induction false} EmitMoves(x: Core, base: nat, k: nat)
    ensures Relocate(Emit(x, base), k) == Emit(x, base + k)
    decreases x, 1
  {
    match x
    case Leaf(l) => RelocateOne(Load(l), k);
    case Const(_) => RelocateOne(LoadConst(base), k);
    case Node1(f, y) =>
      EmitMoves(y, base, k);
      RelocateOne(Compute(f, 0), k);
      RelocateConcat(Emit(y, base), [Compute(f, 0)], k);
    case Node2(f, y, z) => EmitMovesNode2(f, y, z, base, k);
    case Cond(c, t, e) => EmitMovesCond(c, t, e, base, k);
  }

  // ---------------------------------------------------------------- evaluation as a function

  function Pad(temps: seq<int>, n: int): (r: seq<int>)
    ensures |r| >= n && |r| >= |temps|
    decreases n - |temps|
  {
    if |temps| >= n then temps else Pad(temps + [0], n)
  }

  /** What evaluating code gives: the operand on top of the stack asked for. */
  function Evaluate(ops: seq<Op>, consts: seq<int>, registers: int, k: Kind, leftover: seq<int>, env: Env): Option<Value>
  {
    if ops == [] then Some(if k.KBool? then VBool(false) else VData(0))
    else
      match Run(ops, 0, State(NoStacks, Pad(leftover, registers)), env, consts)
      case None => None
      case Some(st) =>
        match Pop(st, k)
        case None => None
        case Some((v, _)) => Some(v)
  }

  /** The finished code of an expression. */
  function Finished(e: Expr): Assigned
    requires TypeOf(e).Some?
  {
    Assign(Emit(Desugar(e), 0), NoOperands, TheRules)
  }

  /** Finished code computes what the expression means, whatever earlier evaluations left in the temporaries, and leaves
      nothing else on the stacks. */
  lemma FinishedMeans(e: Expr, k: Kind, leftover: seq<int>, env: Env)
    requires TypeOf(e).Some? && KindOfTy(TypeOf(e).value) == Some(k)
    ensures Evaluate(Finished(e).ops, Consts(Desugar(e)), Finished(e).peak, k, leftover, env) == Some(Meaning(e, env))
    ensures exists st, c {:trigger NoStacks.Push(k, c), st.stacks} ::
              Run(Finished(e).ops, 0, State(NoStacks, Pad(leftover, Finished(e).peak)), env, Consts(Desugar(e))) == Some(st) &&
              st.stacks == NoStacks.Push(k, c)
  {
    var x, s := Desugar(e), Finished(e);
    var cs := Consts(x);
    DesugarOk(e);
    DesugarMeans(e, env);
    TheRulesAreLawful();
    CompileIsAssign(x, 0, NoOperands, TheRules);
    var st := State(NoStacks, Pad(leftover, s.peak));
    assert s.ops[0..0 + |s.ops|] == s.ops;
    assert cs[0..0 + |cs|] == cs;
    hide Compile, Emit, Assign, Consts, Denote, Desugar, TypeOf, Meaning, Lawful;
    var st', c := Simulate(s.ops, 0, x, 0, NoOperands, TheRules, st, env, cs);
    PopPushed(NoStacks, st'.temps, k, c, Meaning(e, env));
    assert st' == State(NoStacks.Push(k, c), st'.temps);
  }

  // ---------------------------------------------------------------- the objects

  class Expression {
    var ops: seq<Op>
    var consts: seq<int>
    var registers: int
    var built: bool

    constructor ()
      ensures ops == [] && consts == [] && registers == 0 && built
    {
      ops, consts, registers, built := [], [], 0, true;
    }

    method PushBackLoad(l: ExprLang.Leaf)
      modifies this`ops
      ensures ops == old(ops) + [Load(l)]
    {
      ops := ops + [Load(l)];
    }

    method PushBackLoadConst(v: int)
      modifies this`ops, this`consts
      ensures ops == old(ops) + [LoadConst(|old(consts)|)] && consts == old(consts) + [v]
    {
      consts := consts + [v];
      ops := ops + [LoadConst(|consts| - 1)];
    }

    method PushBackOp(f: Fun)
      modifies this`ops
      ensures ops == old(ops) + [Compute(f, 0)]
    {
      ops := ops + [Compute(f, 0)];
    }

    /** Append another expression, moving its constants behind the ones already here. */
    method AppendExpression(e: Expression)
      requires e != this
      modifies this`ops, this`consts
      ensures ops == old(ops) + Relocate(e.ops, |old(consts)|) && consts == old(consts) + e.consts
    {
      var offsetConsts := |consts|;
      var i := 0;
      while i < |e.ops|
        invariant 0 <= i <= |e.ops| && consts == old(consts)
        invariant ops == old(ops) + Relocate(e.ops[..i], offsetConsts)
      {
        assert e.ops[..i + 1][..i] == e.ops[..i];
        ops := ops + [e.ops[i]];
        if e.ops[i].LoadConst? {
          ops := ops[|ops| - 1 := LoadConst(e.ops[i].offset + offsetConsts)];
        }
        i := i + 1;
      }
      assert e.ops[..i] == e.ops;
      consts := consts + e.consts;
    }

    /** The condition's code is already here; lay out both branches behind it. */
    method PushBackTernaryOp(e1: Expression, e2: Expression)
      requires e1 != this && e2 != this
      modifies this`ops, this`consts
      ensures ops == old(ops) + Branches(Relocate(e1.ops, |old(consts)|), Relocate(e2.ops, |old(consts)| + |e1.consts|))
      ensures consts == old(consts) + e1.consts + e2.consts
    {
      RelocateLength(e1.ops, |consts|);
      RelocateLength(e2.ops, |consts| + |e1.consts|);
      ops := ops + [TernaryOp];
      ops := ops + [Skip(|e1.ops| + 1)];
      AppendExpression(e1);
      ops := ops + [Skip(|e2.ops|)];
      AppendExpression(e2);
    }

    /** Assign destinations and count temporaries. */
    method Build()
      modifies this`ops, this`registers, this`built
      ensures built && ops == Assign(old(ops), NoOperands, TheRules).ops
      ensures registers == Assign(old(ops), NoOperands, TheRules).peak
    {
      var count, a, i := 0, NoOperands, 0;
      ghost var was := ops;
      while i < |ops|
        invariant 0 <= i <= |ops| == |was| && ops[i..] == was[i..]
        invariant Assign(was[..i], NoOperands, TheRules) == Assigned(ops[..i], a, count)
      {
        AssignConcat(was[..i], [was[i]], NoOperands, TheRules);
        AssignSingle(was[i], a, TheRules);
        assert was[..i] + [was[i]] == was[..i + 1];
        assert ops[i] == ops[i..][0] == was[i..][0];
        var (op, b) := AssignOne(ops[i], a);
        ops := ops[i := op];
        a := b;
        count := if count < a.curr then a.curr else count;
        i := i + 1;
        assert ops[..i] == ops[..i - 1] + [op];
      }
      assert was[..i] == was && ops[..i] == ops;
      registers := count;
      built := true;
    }

    /** Run the code on empty stacks. `leftover` is what earlier evaluations left in the shared temporaries. */
    method Eval(k: Kind, leftover: seq<int>, env: Env) returns (r: Option<Value>)
      requires built && (k == KData || k == KBool)
      ensures r == Evaluate(ops, consts, registers, k, leftover, env)
    {
      if ops == [] {
        return Some(if k.KBool? then VBool(false) else VData(0));
      }
      var temps := leftover;
      while |temps| < registers
        invariant Pad(temps, registers) == Pad(leftover, registers)
        decreases registers - |temps|
      {
        temps := temps + [0];
      }
      var st, i := State(NoStacks, temps), 0;
      while i < |ops|
        invariant i >= 0
        invariant Run(ops, i, st, env, consts) == Run(ops, 0, State(NoStacks, Pad(leftover, registers)), env, consts)
      {
        match Step(ops[i], i, st, env, consts)
        case None => return None;
        case Some((j, s)) => i, st := j, s;
      }
      match Pop(st, k)
      case None => return None;
      case Some((v, _)) => return Some(v);
    }
  }

  // ---------------------------------------------------------------- the builder

  /** The code and constants of a well-typed expression stand behind what was there. */
  ghost predicate Appended(e: Expr, ops: seq<Op>, consts: seq<int>, ops': seq<Op>, consts': seq<int>)
  {
    TypeOf(e).Some? ==>
      ops' == ops + Emit(Desugar(e), |consts|) && consts' == consts + Consts(Desugar(e))
  }

  lemma AppendedTernary(c: Expr, l: Expr, r: Expr, ops: seq<Op>, consts: seq<int>, ops1: seq<Op>, consts1: seq<int>,
                        opsL: seq<Op>, constsL: seq<int>, opsR: seq<Op>, constsR: seq<int>)
    requires Appended(c, ops, consts, ops1, consts1)
    requires Appended(l, [], [], opsL, constsL) && Appended(r, [], [], opsR, constsR)
    ensures Appended(Ternary(c, l, r), ops, consts,
      ops1 + Branches(Relocate(opsL, |consts1|), Relocate(opsR, |consts1| + |constsL|)), consts1 + constsL + constsR)
  {
    hide *;
    if TypeOf(Ternary(c, l, r)).Some? {
      TernaryShape(c, l, r);
      AppendedAre(c, ops, consts, ops1, consts1);
      BranchMoves(l, opsL, constsL, |consts1|);
      BranchMoves(r, opsR, constsR, |consts1| + |constsL|);
      CondAppends(Desugar(c), Desugar(l), Desugar(r), ops, consts);
      assert |consts1| == |consts| + |Consts(Desugar(c))|;
    }
    AppendedIf(Ternary(c, l, r), ops, consts,
               ops1 + Branches(Relocate(opsL, |consts1|), Relocate(opsR, |consts1| + |constsL|)), consts1 + constsL + constsR);
  }

  lemma AppendedAre(e: Expr, ops: seq<Op>, consts: seq<int>, ops1: seq<Op>, consts1: seq<int>)
    requires TypeOf(e).Some? && Appended(e, ops, consts, ops1, consts1)
    ensures ops1 == ops + Emit(Desugar(e), |consts|) && consts1 == consts + Consts(Desugar(e))
  {
  }

  lemma AppendedIf(e: Expr, ops: seq<Op>, consts: seq<int>, ops1: seq<Op>, consts1: seq<int>)
    requires TypeOf(e).Some? ==> ops1 == ops + Emit(Desugar(e), |consts|) && consts1 == consts + Consts(Desugar(e))
    ensures Appended(e, ops, consts, ops1, consts1)
  {
  }

  /** A branch built on its own, moved into place. */
  lemma BranchMoves(e: Expr, ops: seq<Op>, consts: seq<int>, k: nat)
    requires TypeOf(e).Some? && Appended(e, [], [], ops, consts)
    ensures Relocate(ops, k) == Emit(Desugar(e), k) && consts == Consts(Desugar(e))
  {
    hide Emit, Consts, Relocate, TypeOf, Desugar;
    EmitMoves(Desugar(e), 0, k);
    assert [] + Emit(Desugar(e), 0) == Emit(Desugar(e), 0);
  }

  lemma CondAppends(c: Core, t: Core, e: Core, ops: seq<Op>, consts: seq<int>)
    ensures var b1, b2 := |consts| + |Consts(c)|, |consts| + |Consts(c)| + |Consts(t)|;
      ops + Emit(c, |consts|) + Branches(Emit(t, b1), Emit(e, b2)) == ops + Emit(Cond(c, t, e), |consts|)
    ensures consts + Consts(c) + Consts(t) + Consts(e) == consts + Consts(Cond(c, t, e))
  {
    hide Emit, Consts, Branches;
    var b1, b2 := |consts| + |Consts(c)|, |consts| + |Consts(c)| + |Consts(t)|;
    CondEmits(c, t, e, |consts|);
    CondConsts(c, t, e);
    Regroup(ops, Emit(c, |consts|), Branches(Emit(t, b1), Emit(e, b2)));
    Regroup(consts, Consts(c), Consts(t));
    Regroup(consts, Consts(c) + Consts(t), Consts(e));
  }

  lemma TernaryShape(c: Expr, l: Expr, r: Expr)
    requires TypeOf(Ternary(c, l, r)).Some?
    ensures TypeOf(c).Some? && TypeOf(l).Some? && TypeOf(r).Some?
    ensures Desugar(Ternary(c, l, r)) == Cond(Desugar(c), Desugar(l), Desugar(r))
  {
  }

  lemma CondConsts(c: Core, t: Core, e: Core)
    ensures Consts(Cond(c, t, e)) == Consts(c) + Consts(t) + Consts(e)
  {
  }

  lemma AppendedBinary(e: Expr, l: Expr, r: Expr, f: Fun, ops: seq<Op>, consts: seq<int>, ops1: seq<Op>, consts1: seq<int>,
                       ops2: seq<Op>, consts2: seq<int>)
    requires TypeOf(e).Some? ==>
      TypeOf(l).Some? && TypeOf(r).Some? && Desugar(e) == Node2(f, Desugar(l), Desugar(r))
    requires Appended(l, ops, consts, ops1, consts1) && Appended(r, ops1, consts1, ops2, consts2)
    ensures Appended(e, ops, consts, ops2 + [Compute(f, 0)], consts2)
  {
    hide Emit, Consts, TypeOf, Desugar;
    if TypeOf(e).Some? {
      var x, y := Desugar(l), Desugar(r);
      Node2Emits(f, x, y, |consts|);
      Node2Consts(f, x, y);
      assert |consts1| == |consts| + |Consts(x)|;
    }
  }

  lemma Node2Consts(f: Fun, x: Core, y: Core)
    ensures Consts(Node2(f, x, y)) == Consts(x) + Consts(y)
  {
  }

  lemma AppendedUnary(e: Expr, i: Expr, f: Fun, ops: seq<Op>, consts: seq<int>, ops1: seq<Op>, consts1: seq<int>)
    requires TypeOf(e).Some? ==> TypeOf(i).Some? && Desugar(e) == Node1(f, Desugar(i))
    requires Appended(i, ops, consts, ops1, consts1)
    ensures Appended(e, ops, consts, ops1 + [Compute(f, 0)], consts1)
  {
    hide TypeOf, Desugar;
    if TypeOf(e).Some? {
      var x := Desugar(i);
      assert Emit(Node1(f, x), |consts|) == Emit(x, |consts|) + [Compute(f, 0)];
    }
  }

  /** How an operation's operands are filled in. */
  lemma ApplyShape(f: Fun, l: Expr, r: Expr)
    requires TypeOf(Apply(f, l, r)).Some?
    ensures TypeOf(r).Some? && (!l.Null? ==> TypeOf(l).Some?) && TypeOf(Hex(0)).Some?
    ensures Desugar(Apply(f, l, r)) ==
            if !l.Null? then Node2(f, Desugar(l), Desugar(r))
            else if PlusOrMinus(f) then Node2(f, Desugar(Hex(0)), Desugar(r))
            else Node1(f, Desugar(r))
  {
  }

  lemma CompareShape(q: bool, l: Expr, r: Expr, f: Fun)
    requires TypeOf(Compare(q, l, r)).Some?
    requires Reported(l).Some? && Reported(l) != Some(UNKNOWN) && CompareOp(Reported(l).value, q) == Some(f)
    ensures TypeOf(l).Some? && TypeOf(r).Some? && Desugar(Compare(q, l, r)) == Node2(f, Desugar(l), Desugar(r))
  {
    BuildsIff(l);
  }

  lemma UnaryShapes(a: int, i: Expr, o: int)
    ensures TypeOf(RegisterAt(a, i)).Some? && !i.Hex? ==>
              TypeOf(i).Some? && Desugar(RegisterAt(a, i)) == Node1(FRegisterGen(a), Desugar(i))
    ensures TypeOf(AccessField(i, o)).Some? ==>
              TypeOf(i).Some? && Desugar(AccessField(i, o)) == Node1(FAccessField(o), Desugar(i))
  {
  }

  lemma AppendedLeaf(e: Expr, ops: seq<Op>, consts: seq<int>)
    ensures e.Atom? ==> Appended(e, ops, consts, ops + [Load(e.leaf)], consts)
    ensures e.Hex? ==> Appended(e, ops, consts, ops + [LoadConst(|consts|)], consts + [e.v])
    ensures e.RegisterAt? && e.index.Hex? ==>
              Reported(e) == Some(DATA) && Appended(e, ops, consts, ops + [Load(LRegisterRef(e.regs, e.index.v))], consts)
  {
  }

  /** Build an expression behind what `expr` already holds; `None` where an assertion of the builder fails. */
  method BuildExpression(e: Expr, expr: Expression) returns (ty: Option<Ty>)
    modifies expr`ops, expr`consts
    ensures ty == Reported(e)
    ensures ty.Some? ==> Appended(e, old(expr.ops), old(expr.consts), expr.ops, expr.consts)
    ensures e.Null? ==> expr.ops == old(expr.ops) && expr.consts == old(expr.consts)
    decreases e, 1
  {
    ghost var ops, consts := expr.ops, expr.consts;
    match e
    case Null =>
      ty := Some(UNKNOWN);
    case Atom(l) =>
      AppendedLeaf(e, ops, consts);
      expr.PushBackLoad(l);
      ty := Some(LeafTy(l));
    case Hex(v) =>
      AppendedLeaf(e, ops, consts);
      expr.PushBackLoadConst(v);
      ty := Some(DATA);
    case RegisterAt(a, i) =>
      hide Emit, Consts, TypeOf, Desugar, Appended;
      AppendedLeaf(e, ops, consts);
      if i.Hex? {
        expr.PushBackLoad(LRegisterRef(a, i.v));
        return Some(DATA);
      }
      ty := BuildExpression(i, expr);
      if ty.None? { return; }
      UnaryShapes(a, i, 0);
      AppendedUnary(e, i, FRegisterGen(a), ops, consts, expr.ops, expr.consts);
      expr.PushBackOp(FRegisterGen(a));
      ty := Some(DATA);
    case AccessField(l, o) =>
      hide Emit, Consts, TypeOf, Desugar, Appended;
      ty := BuildExpression(l, expr);
      if ty.None? { return; }
      UnaryShapes(0, l, o);
      AppendedUnary(e, l, FAccessField(o), ops, consts, expr.ops, expr.consts);
      expr.PushBackOp(FAccessField(o));
      ty := Some(UNKNOWN);
    case Apply(_, _, _) => ty := BuildApply(e, expr);
    case Compare(_, _, _) => ty := BuildCompare(e, expr);
    case Ternary(_, _, _) => ty := BuildTernary(e, expr);
  }

  method BuildApply(e: Expr, expr: Expression) returns (ty: Option<Ty>)
    requires e.Apply?
    modifies expr`ops, expr`consts
    ensures ty == Reported(e)
    ensures ty.Some? ==> Appended(e, old(expr.ops), old(expr.consts), expr.ops, expr.consts)
    decreases e, 0
  {
    ghost var ops, consts := expr.ops, expr.consts;
    var f, l, r := e.f, e.l, e.r;
    if PlusOrMinus(f) && l.Null? {
      AppendedLeaf(Hex(0), ops, consts);
      expr.PushBackLoadConst(0);
    } else {
      ty := BuildExpression(l, expr);
      if ty.None? { return; }
    }
    hide Emit, Consts, TypeOf, Desugar, Appended;
    ghost var ops1, consts1 := expr.ops, expr.consts;
    ty := BuildExpression(r, expr);
    if ty.None? { return; }
    if TypeOf(e).Some? { ApplyShape(f, l, r); }
    if !l.Null? {
      AppendedBinary(e, l, r, f, ops, consts, ops1, consts1, expr.ops, expr.consts);
    } else if PlusOrMinus(f) {
      AppendedBinary(e, Hex(0), r, f, ops, consts, ops1, consts1, expr.ops, expr.consts);
    } else {
      AppendedUnary(e, r, f, ops, consts, expr.ops, expr.consts);
    }
    expr.PushBackOp(f);
    ty := Some(OpcodeTy(f));
  }

  method BuildCompare(e: Expr, expr: Expression) returns (ty: Option<Ty>)
    requires e.Compare?
    modifies expr`ops, expr`consts
    ensures ty == Reported(e)
    ensures ty.Some? ==> Appended(e, old(expr.ops), old(expr.consts), expr.ops, expr.consts)
    decreases e, 0
  {
    hide Emit, Consts, TypeOf, Desugar, Appended;
    ghost var ops, consts := expr.ops, expr.consts;
    var q, l, r := e.equal, e.l, e.r;
    ty := BuildExpression(l, expr);
    if ty.None? { return; }
    ghost var ops1, consts1 := expr.ops, expr.consts;
    var tyR := BuildExpression(r, expr);
    if tyR.None? || ty != tyR || ty == Some(UNKNOWN) { return None; }
    var op := CompareOp(ty.value, q);
    if op.None? { return None; }
    if TypeOf(e).Some? { CompareShape(q, l, r, op.value); }
    AppendedBinary(e, l, r, op.value, ops, consts, ops1, consts1, expr.ops, expr.consts);
    expr.PushBackOp(op.value);
    ty := Some(BOOL);
  }

  method BuildTernary(e: Expr, expr: Expression) returns (ty: Option<Ty>)
    requires e.Ternary?
    modifies expr`ops, expr`consts
    ensures ty == Reported(e)
    ensures ty.Some? ==> Appended(e, old(expr.ops), old(expr.consts), expr.ops, expr.consts)
    decreases e, 0
  {
    hide Emit, Consts, TypeOf, Desugar, Appended, Branches, Relocate;
    ghost var ops, consts := expr.ops, expr.consts;
    ty := BuildExpression(e.c, expr);
    if ty.None? { return; }
    ghost var ops1, consts1 := expr.ops, expr.consts;
    var e1 := new Expression();
    var e2 := new Expression();
    ty := BuildExpression(e.l, e1);
    if ty.None? { return; }
    var tyR := BuildExpression(e.r, e2);
    if tyR.None? || ty != tyR { return None; }
    expr.PushBackTernaryOp(e1, e2);
    AppendedTernary(e.c, e.l, e.r, ops, consts, ops1, consts1, e1.ops, e1.consts, e2.ops, e2.consts);
  }

  /** End to end: build a well-typed expression, assign its destinations, evaluate it. When it builds, the result is what
      the expression means and the reported type is its type, or unknown for a field access. */
  method BuildAndEvaluate(e: Expr, k: Kind, leftover: seq<int>, env: Env) returns (ty: Option<Ty>, r: Option<Value>)
    requires TypeOf(e).Some? && KindOfTy(TypeOf(e).value) == Some(k) && (k == KData || k == KBool)
    ensures ty.Some? <==> Buildable(e)
    ensures Buildable(e) ==> r == Some(Meaning(e, env))
    ensures Buildable(e) ==> ty == if Untyped(e) then Some(UNKNOWN) else TypeOf(e)
    ensures Buildable(e) && e.Apply? && e.l.Null? && e.f == FNot ==> r == Some(VBool(!Meaning(e.r, env).b))
    ensures Buildable(e) && e.Apply? && !e.l.Null? ==>
      var x, y := Meaning(e.l, env), Meaning(e.r, env);
      && (e.f == FAnd ==> r == Some(VBool(x.b && y.b))) && (e.f == FOr ==> r == Some(VBool(x.b || y.b)))
      && (e.f == FCmp(GT) ==> r == Some(VBool(x.d > y.d))) && (e.f == FCmp(LT) ==> r == Some(VBool(x.d < y.d)))
      && (e.f == FCmp(GE) ==> r == Some(VBool(x.d >= y.d))) && (e.f == FCmp(LE) ==> r == Some(VBool(x.d <= y.d)))
  {
    if e.Apply? && !e.l.Null? { BinaryMeans(e.f, e.l, e.r, env); }
    if e.Apply? && e.l.Null? { UnaryMeans(e.f, e.r, env); }
    hide Meaning;
    BuildsIff(e);
    var expr := new Expression();
    ty := BuildExpression(e, expr);
    if ty.None? { return None, None; }
    assert expr.ops == Emit(Desugar(e), 0) && expr.consts == Consts(Desugar(e));
    expr.Build();
    FinishedMeans(e, k, leftover, env);
    r := expr.Eval(k, leftover, env);
  }
}
