/** Running flat expression code: the allocator the code uses, and the proof that compiled code moves one operand,
    whose value is what the tree means, onto the stack of its kind. */
module ExprRun {
  import opened Wrappers
  import opened ExprLang
  import opened ExprCompile

  // ---------------------------------------------------------------- the allocator

  function PopRegs(a: Alloc, n: nat): Alloc
    decreases n
  {
    if n == 0 || a.regs == [] then a
    else PopRegs(Alloc(a.curr - (if a.regs[|a.regs| - 1] then 1 else 0), a.regs[..|a.regs| - 1]), n - 1)
  }

  /** The operands whose temporaries an opcode gives back. */
  function Frees(f: Fun): nat
  {
    match f
    case FArith(_) | FCmp(_) => 2
    case FNeg | FDataToBool | FDerefHeaderStack | FDerefUnionStack | FRegisterGen(_) => 1
    case _ => 0
  }

  /** What the result of an opcode adds: a temporary of its own, a borrowed operand, or nothing. */
  function Adds(f: Fun): seq<bool>
  {
    if UsesTemp(f) then [true] else if ResultKind(f) == KData then [false] else []
  }

  function LeafAdds(l: ExprLang.Leaf): seq<bool> { if LeafKind(l) == KData then [false] else [] }

  function AssignOne(op: Op, a: Alloc): (Op, Alloc)
  {
    match op
    case Compute(f, dest) =>
      var b := PopRegs(a, Frees(f));
      (Compute(f, if UsesTemp(f) then b.curr else dest), Plus(b, Adds(f)))
    case Load(l) => (op, Plus(a, LeafAdds(l)))
    case LoadConst(_) => (op, Plus(a, [false]))
    case _ => (op, a)
  }

  function DropLast(e: seq<bool>, n: nat): seq<bool> { if n <= |e| then e[..|e| - n] else [] }

  /** What an opcode leaves of the operands `e` on the allocator's stack. */
  function Reduce(f: Fun, e: seq<bool>): seq<bool> { DropLast(e, Frees(f)) + Adds(f) }

  const TheRules := Rules(AssignOne, Frees, Reduce, LeafAdds)

  lemma {:induction false} PopPlus(a: Alloc, e: seq<bool>, n: nat)
    requires n <= |e|
    ensures PopRegs(Plus(a, e), n) == Plus(a, DropLast(e, n))
    decreases n
  {
    var b := Plus(a, e);
    if n > 0 {
      var d := e[..|e| - 1];
      assert b.regs[..|b.regs| - 1] == a.regs + d;
      PopPlus(a, d, n - 1);
      assert DropLast(d, n - 1) == DropLast(e, n);
    } else {
      assert DropLast(e, 0) == e;
    }
  }

  /** The allocator's table agrees with what the evaluator pops. */
  lemma FreesWhatItPops(f: Fun)
    ensures Frees(f) == HeldAll(Args(f))
  {
    assert HeldAll([KData]) == 1 && HeldAll([KBool]) == 0 && HeldAll([KHeader]) == 0 && HeldAll([KUnion]) == 0;
    assert HeldAll([KStack]) == 0;
    var ks := Args(f);
    assert |ks| == 2 ==> ks[..1] == [ks[0]];
  }

  lemma SumOne()
    ensures Sum([true]) == 1
  {
  }

  lemma ComputePlus(f: Fun, a: Alloc, e: seq<bool>)
    ensures FunLaw(TheRules, f, a, e)
  {
    hide PopRegs, Sum;
    FreesWhatItPops(f);
    assert UsesTemp(f) ==> ResultKind(f) == KData;
    hide ResultKind, Args, HeldAll, Frees;
    if a.curr >= 0 && |e| >= Frees(f) {
      var d := DropLast(e, Frees(f));
      PopPlus(a, e, Frees(f));
      PlusPlus(a, d, Adds(f));
      SumOne();
    }
  }

  /** The code's allocator follows the rules that the proofs ask for. */
  lemma TheRulesAreLawful()
    ensures Lawful(TheRules)
  {
    forall f, a, e ensures FunLaw(TheRules, f, a, e) { ComputePlus(f, a, e); }
  }

  // ---------------------------------------------------------------- programs

  ghost predicate At(prog: seq<Op>, p: nat, code: seq<Op>)
  {
    p + |code| <= |prog| && prog[p..p + |code|] == code
  }

  lemma AtConcat(prog: seq<Op>, p: nat, x: seq<Op>, y: seq<Op>)
    requires At(prog, p, x + y)
    ensures At(prog, p, x) && At(prog, p + |x|, y)
  {
    assert prog[p..p + |x + y|][..|x|] == x;
    assert prog[p..p + |x + y|][|x|..] == y;
  }

  lemma AtOne(prog: seq<Op>, p: nat, op: Op)
    requires At(prog, p, [op])
    ensures p < |prog| && prog[p] == op
  {
    assert prog[p..p + 1][0] == op;
  }

  /** Constants `cs` are in the pool from `base` on. */
  ghost predicate Pooled(consts: seq<int>, base: nat, cs: seq<int>)
  {
    base + |cs| <= |consts| && consts[base..base + |cs|] == cs
  }

  lemma PooledConcat(consts: seq<int>, base: nat, x: seq<int>, y: seq<int>)
    requires Pooled(consts, base, x + y)
    ensures Pooled(consts, base, x) && Pooled(consts, base + |x|, y)
  {
    assert consts[base..base + |x + y|][..|x|] == x;
    assert consts[base..base + |x + y|][|x|..] == y;
  }

  // ---------------------------------------------------------------- single steps

  lemma PopPushed(s: Stacks, temps: seq<int>, k: Kind, c: Cell, v: Value)
    requires Deref(c, temps) == Some(v) && KindOf(v) == k
    ensures Pop(State(s.Push(k, c), temps), k) == Some((v, State(s, temps)))
  {
    var t := s.Push(k, c);
    assert t.Get(k)[..|t.Get(k)| - 1] == s.Get(k);
    assert t.Set(k, s.Get(k)) == s;
  }

  lemma PopArgs1(s: Stacks, temps: seq<int>, k: Kind, c: Cell, v: Value)
    requires Deref(c, temps) == Some(v) && KindOf(v) == k
    ensures PopArgs(State(s.Push(k, c), temps), [k]) == Some(([v], State(s, temps)))
  {
    PopPushed(s, temps, k, c, v);
    assert [k][..0] == [];
    assert [] + [v] == [v];
  }

  lemma PopArgs2(s: Stacks, temps: seq<int>, j: Kind, b: Cell, u: Value, k: Kind, c: Cell, v: Value)
    requires Deref(b, temps) == Some(u) && KindOf(u) == j
    requires Deref(c, temps) == Some(v) && KindOf(v) == k
    ensures PopArgs(State(s.Push(j, b).Push(k, c), temps), [j, k]) == Some(([u, v], State(s, temps)))
  {
    PopPushed(s.Push(j, b), temps, k, c, v);
    PopArgs1(s, temps, j, b, u);
    assert [j, k][..1] == [j];
    assert [u] + [v] == [u, v];
  }

  /** One operand more on its stack; the temporaries below `mark` are kept. */
  ghost predicate Pushed(st: State, st': State, k: Kind, c: Cell, v: Value, mark: int, limit: int)
  {
    && st'.stacks == st.stacks.Push(k, c)
    && Deref(c, st'.temps) == Some(v) && KindOf(v) == k
    && (c.Temp? ==> k == KData && c.i < limit)
    && |st'.temps| == |st.temps|
    && forall j | 0 <= j < mark && j < |st.temps| :: st'.temps[j] == st.temps[j]
  }

  /** Executing an opcode whose operands are on top: the result is on its stack, and only its destination changed. */
  lemma ExecPushes(f: Fun, a: Alloc, e: seq<bool>, r: Rules, s: Stacks, st: State, vs: seq<Value>, env: Env)
    returns (st': State, c: Cell)
    requires Lawful(r) && Fit(vs, Args(f)) && PopArgs(st, Args(f)) == Some((vs, State(s, st.temps)))
    requires a.curr >= 0 && |e| >= r.need(f) && Plus(a, r.left(f, e)).curr <= |st.temps|
    ensures r.one(Compute(f, 0), Plus(a, e)).0.Compute?
    ensures Exec(f, r.one(Compute(f, 0), Plus(a, e)).0.dest, st, env) == Some(st')
    ensures Pushed(State(s, st.temps), st', ResultKind(f), c, Result(f, vs, env), a.curr, Plus(a, r.left(f, e)).curr)
  {
    assert FunLaw(r, f, a, e);
    var v := Result(f, vs, env);
    if UsesTemp(f) {
      var dest := r.one(Compute(f, 0), Plus(a, e)).0.dest;
      c := Temp(dest);
      st' := State(s.Push(KData, c), st.temps[dest := v.d]);
    } else {
      c := Ext(v);
      st' := State(s.Push(KindOf(v), c), st.temps);
    }
  }

  /** Running from `p` in `st` is running from `q` in `st'`. */
  ghost predicate Moves(prog: seq<Op>, p: nat, st: State, q: nat, st': State, env: Env, consts: seq<int>)
  {
    Run(prog, p, st, env, consts) == Run(prog, q, st', env, consts)
  }

  lemma MovesOne(prog: seq<Op>, p: nat, st: State, q: nat, st': State, env: Env, consts: seq<int>)
    requires p < |prog| && Step(prog[p], p, st, env, consts) == Some((q, st'))
    ensures Moves(prog, p, st, q, st', env, consts)
  {
  }

  /** The code of an expression moves its value onto the stack of its kind. */
  ghost predicate Simulates(prog: seq<Op>, p: nat, q: nat, mark: int, limit: int, st: State, st': State, k: Kind, c: Cell,
                            v: Value, env: Env, consts: seq<int>)
  {
    Moves(prog, p, st, q, st', env, consts) && Pushed(st, st', k, c, v, mark, limit)
  }

  /** An opcode with its operands on top runs. */
  lemma RunCompute(prog: seq<Op>, p: nat, f: Fun, a: Alloc, e: seq<bool>, r: Rules, s: Stacks, st: State, vs: seq<Value>,
                   env: Env, consts: seq<int>)
    returns (st': State, c: Cell)
    requires Lawful(r) && At(prog, p, [r.one(Compute(f, 0), Plus(a, e)).0])
    requires Fit(vs, Args(f)) && PopArgs(st, Args(f)) == Some((vs, State(s, st.temps)))
    requires a.curr >= 0 && |e| >= r.need(f) && Plus(a, r.left(f, e)).curr <= |st.temps|
    ensures Moves(prog, p, st, p + 1, st', env, consts)
    ensures Pushed(State(s, st.temps), st', ResultKind(f), c, Result(f, vs, env), a.curr, Plus(a, r.left(f, e)).curr)
  {
    st', c := ExecPushes(f, a, e, r, s, st, vs, env);
    assert FunLaw(r, f, a, e);
    AtOne(prog, p, r.one(Compute(f, 0), Plus(a, e)).0);
    MovesOne(prog, p, st, p + 1, st', env, consts);
  }

  lemma Sim1(prog: seq<Op>, p: nat, q: nat, f: Fun, a: Alloc, e: seq<bool>, r: Rules, st: State, st1: State,
             k: Kind, c1: Cell, v1: Value, env: Env, consts: seq<int>)
    returns (st': State, c: Cell)
    requires Args(f) == [k] && Simulates(prog, p, q, a.curr, Plus(a, e).curr, st, st1, k, c1, v1, env, consts)
    requires Lawful(r) && At(prog, q, [r.one(Compute(f, 0), Plus(a, e)).0])
    requires a.curr >= 0 && |e| >= r.need(f) && Plus(a, r.left(f, e)).curr <= |st.temps|
    ensures Simulates(prog, p, q + 1, a.curr, Plus(a, r.left(f, e)).curr, st, st', ResultKind(f), c, Result(f, [v1], env), env, consts)
  {
    PopArgs1(st.stacks, st1.temps, k, c1, v1);
    st', c := RunCompute(prog, q, f, a, e, r, st.stacks, st1, [v1], env, consts);
  }

  lemma Sim2(prog: seq<Op>, p: nat, m: nat, q: nat, f: Fun, a: Alloc, d: seq<bool>, e: seq<bool>, r: Rules,
             st: State, st1: State, st2: State, j: Kind, c1: Cell, v1: Value, k: Kind, c2: Cell, v2: Value,
             env: Env, consts: seq<int>)
    returns (st': State, c: Cell)
    requires Args(f) == [j, k] && Simulates(prog, p, m, a.curr, Plus(a, d).curr, st, st1, j, c1, v1, env, consts)
    requires Simulates(prog, m, q, Plus(a, d).curr, Plus(a, d + e).curr, st1, st2, k, c2, v2, env, consts)
    requires Lawful(r) && At(prog, q, [r.one(Compute(f, 0), Plus(a, d + e)).0])
    requires a.curr >= 0 && |d + e| >= r.need(f) && Plus(a, r.left(f, d + e)).curr <= |st.temps|
    ensures Simulates(prog, p, q + 1, a.curr, Plus(a, r.left(f, d + e)).curr, st, st', ResultKind(f), c,
                      Result(f, [v1, v2], env), env, consts)
  {
    assert Deref(c1, st2.temps) == Some(v1);
    PopArgs2(st.stacks, st2.temps, j, c1, v1, k, c2, v2);
    st', c := RunCompute(prog, q, f, a, d + e, r, st.stacks, st2, [v1, v2], env, consts);
  }

  // ---------------------------------------------------------------- conditionals

  /** Where the two branches are. */
  lemma BranchesAt(prog: seq<Op>, p: nat, yes: seq<Op>, no: seq<Op>)
    requires At(prog, p, Branches(yes, no))
    ensures At(prog, p, [TernaryOp]) && At(prog, p + 1, [Skip(|yes| + 1)]) && At(prog, p + 2, yes)
    ensures At(prog, p + 2 + |yes|, [Skip(|no|)]) && At(prog, p + 3 + |yes|, no)
    ensures |Branches(yes, no)| == 3 + |yes| + |no|
  {
    AtConcat(prog, p, [TernaryOp], [Skip(|yes| + 1)] + (yes + ([Skip(|no|)] + no)));
    AtConcat(prog, p + 1, [Skip(|yes| + 1)], yes + ([Skip(|no|)] + no));
    AtConcat(prog, p + 2, yes, [Skip(|no|)] + no);
    AtConcat(prog, p + 2 + |yes|, [Skip(|no|)], no);
  }

  /** After the condition: into the branch it chose. */
  lemma Choose(prog: seq<Op>, p: nat, q: nat, yes: seq<Op>, no: seq<Op>, mark: int, limit: int, st: State, st1: State, c1: Cell,
               v: Value, env: Env, consts: seq<int>)
    requires Simulates(prog, p, q, mark, limit, st, st1, KBool, c1, v, env, consts) && At(prog, q, Branches(yes, no))
    ensures Moves(prog, p, st, if v.b then q + 2 else q + 3 + |yes|, State(st.stacks, st1.temps), env, consts)
  {
    BranchesAt(prog, q, yes, no);
    AtOne(prog, q, TernaryOp);
    PopPushed(st.stacks, st1.temps, KBool, c1, v);
    var s := State(st.stacks, st1.temps);
    MovesOne(prog, q, st1, if v.b then q + 2 else q + 1, s, env, consts);
    if !v.b {
      AtOne(prog, q + 1, Skip(|yes| + 1));
      MovesOne(prog, q + 1, s, q + 3 + |yes|, s, env, consts);
    }
  }

  /** After the chosen branch: past the other one, to the end. */
  lemma Join(prog: seq<Op>, p: nat, q: nat, yes: seq<Op>, no: seq<Op>, chosen: bool, mark: int, mark': int, limit: int,
             limit': int, st: State, st1: State, st': State, k: Kind, c: Cell, v: Value, env: Env, consts: seq<int>)
    requires At(prog, q, Branches(yes, no)) && |st1.temps| == |st.temps|
    requires forall j | 0 <= j < mark && j < |st.temps| :: st1.temps[j] == st.temps[j]
    requires var s := State(st.stacks, st1.temps);
      && Moves(prog, p, st, if chosen then q + 2 else q + 3 + |yes|, s, env, consts)
      && Simulates(prog, if chosen then q + 2 else q + 3 + |yes|, if chosen then q + 2 + |yes| else q + 3 + |yes| + |no|,
                   mark', limit', s, st', k, c, v, env, consts)
    requires mark <= mark' && limit' <= limit
    ensures Simulates(prog, p, q + |Branches(yes, no)|, mark, limit, st, st', k, c, v, env, consts)
  {
    hide At, Branches, Deref, Run, Exec, Pop, PopArgs, LeafValue;
    BranchesAt(prog, q, yes, no);
    if chosen {
      AtOne(prog, q + 2 + |yes|, Skip(|no|));
      MovesOne(prog, q + 2 + |yes|, st', q + 3 + |yes| + |no|, st', env, consts);
    }
  }

  // ---------------------------------------------------------------- the simulation

  /** The assigned code of an expression and its constants are in place, and there are enough temporaries. */
  ghost predicate Placed(prog: seq<Op>, p: nat, x: Core, base: nat, a: Alloc, r: Rules, consts: seq<int>, room: nat)
  {
    && Ok(x) && a.curr >= 0
    && At(prog, p, Compile(x, base, a, r).ops) && Pooled(consts, base, Consts(x))
    && Compile(x, base, a, r).peak <= room
  }

  lemma SimLeaf(prog: seq<Op>, p: nat, l: ExprLang.Leaf, base: nat, a: Alloc, r: Rules, st: State, env: Env, consts: seq<int>)
    returns (st': State, c: Cell)
    requires Lawful(r) && Placed(prog, p, Leaf(l), base, a, r, consts, |st.temps|)
    ensures Simulates(prog, p, p + 1, a.curr, Plus(a, Extra(Leaf(l), r)).curr, st, st', LeafKind(l), c, LeafValue(l, env), env, consts)
  {
    assert LoadLaw(r, l, base, a);
    AtOne(prog, p, Load(l));
    c := Ext(LeafValue(l, env));
    st' := st.(stacks := st.stacks.Push(LeafKind(l), c));
    MovesOne(prog, p, st, p + 1, st', env, consts);
  }

  lemma SimConst(prog: seq<Op>, p: nat, n: int, base: nat, a: Alloc, r: Rules, st: State, env: Env, consts: seq<int>)
    returns (st': State, c: Cell)
    requires Lawful(r) && Placed(prog, p, Const(n), base, a, r, consts, |st.temps|)
    ensures Simulates(prog, p, p + 1, a.curr, Plus(a, Extra(Const(n), r)).curr, st, st', KData, c, VData(n), env, consts)
  {
    assert LoadLaw(r, LBool(true), base, a);
    AtOne(prog, p, LoadConst(base));
    assert consts[base..base + 1][0] == n;
    c := Ext(VData(n));
    st' := st.(stacks := st.stacks.Push(KData, c));
    MovesOne(prog, p, st, p + 1, st', env, consts);
  }

  /** A node's operand is placed, and its opcode follows it. */
  lemma Placed1(prog: seq<Op>, p: nat, f: Fun, y: Core, base: nat, a: Alloc, r: Rules, consts: seq<int>, room: nat, s: Assigned)
    requires Placed(prog, p, Node1(f, y), base, a, r, consts, room) && Lawful(r) && s == Compile(y, base, a, r)
    ensures Placed(prog, p, y, base, a, r, consts, room) && Args(f) == [KindOfCore(y)]
    ensures s.alloc == Plus(a, Extra(y, r)) && |Extra(y, r)| >= r.need(f)
    ensures At(prog, p + |s.ops|, [r.one(Compute(f, 0), s.alloc).0])
    ensures Plus(a, r.left(f, Extra(y, r))).curr <= room
    ensures |Compile(Node1(f, y), base, a, r).ops| == |s.ops| + 1
  {
    var o := r.one(Compute(f, 0), s.alloc);
    assert Compile(Node1(f, y), base, a, r) == Then(s, Single(Compute(f, 0), s.alloc, r));
    AtConcat(prog, p, s.ops, [o.0]);
    CompilePlus(y, base, a, r);
    ExtraEnough(Node1(f, y), r);
    assert FunLaw(r, f, a, Extra(y, r));
  }

  lemma Parts2(prog: seq<Op>, p: nat, f: Fun, y: Core, z: Core, base: nat, a: Alloc, r: Rules, consts: seq<int>, room: nat,
                s: Assigned, t: Assigned)
    requires Placed(prog, p, Node2(f, y, z), base, a, r, consts, room) && Lawful(r)
    requires s == Compile(y, base, a, r) && t == Compile(z, base + |Consts(y)|, s.alloc, r)
    ensures At(prog, p, s.ops) && At(prog, p + |s.ops|, t.ops)
    ensures At(prog, p + |s.ops| + |t.ops|, [r.one(Compute(f, 0), t.alloc).0])
    ensures Pooled(consts, base, Consts(y)) && Pooled(consts, base + |Consts(y)|, Consts(z))
    ensures s.peak <= room && t.peak <= room && r.one(Compute(f, 0), t.alloc).1.curr <= room
    ensures |Compile(Node2(f, y, z), base, a, r).ops| == |s.ops| + |t.ops| + 1
  {
    hide At, Pooled, Lawful, Compile;
    Node2Unfolds(f, y, z, base, a, r, s, t);
    var o := r.one(Compute(f, 0), t.alloc);
    AtConcat(prog, p, s.ops + t.ops, [o.0]);
    AtConcat(prog, p, s.ops, t.ops);
    PooledConcat(consts, base, Consts(y), Consts(z));
  }

  lemma PartsCond(prog: seq<Op>, p: nat, c: Core, t: Core, e: Core, base: nat, a: Alloc, r: Rules, consts: seq<int>, room: nat,
                   sc: Assigned, sy: Assigned, sn: Assigned)
    requires Placed(prog, p, Cond(c, t, e), base, a, r, consts, room)
    requires sc == Compile(c, base, a, r) && sy == Compile(t, base + |Consts(c)|, sc.alloc, r)
    requires sn == Compile(e, base + |Consts(c)| + |Consts(t)|, sy.alloc, r)
    ensures At(prog, p, sc.ops) && At(prog, p + |sc.ops|, Branches(sy.ops, sn.ops))
    ensures Pooled(consts, base, Consts(c)) && Pooled(consts, base + |Consts(c)|, Consts(t))
    ensures Pooled(consts, base + |Consts(c)| + |Consts(t)|, Consts(e))
    ensures sc.peak <= room && sy.peak <= room && sn.peak <= room
    ensures |Compile(Cond(c, t, e), base, a, r).ops| == |sc.ops| + |Branches(sy.ops, sn.ops)|
  {
    hide At, Pooled, Compile;
    CondUnfolds(c, t, e, base, a, r, sc, sy, sn);
    AtConcat(prog, p, sc.ops, Branches(sy.ops, sn.ops));
    PooledConcat(consts, base, Consts(c) + Consts(t), Consts(e));
    PooledConcat(consts, base, Consts(c), Consts(t));
  }

  lemma Placed2(prog: seq<Op>, p: nat, f: Fun, y: Core, z: Core, base: nat, a: Alloc, r: Rules, consts: seq<int>, room: nat,
                s: Assigned, t: Assigned)
    requires Placed(prog, p, Node2(f, y, z), base, a, r, consts, room) && Lawful(r)
    requires s == Compile(y, base, a, r) && t == Compile(z, base + |Consts(y)|, s.alloc, r)
    ensures Placed(prog, p, y, base, a, r, consts, room) && Args(f) == [KindOfCore(y), KindOfCore(z)]
    ensures Placed(prog, p + |s.ops|, z, base + |Consts(y)|, s.alloc, r, consts, room)
    ensures s.alloc == Plus(a, Extra(y, r)) && t.alloc == Plus(a, Extra(y, r) + Extra(z, r))
    ensures At(prog, p + |s.ops| + |t.ops|, [r.one(Compute(f, 0), t.alloc).0])
    ensures |Extra(y, r) + Extra(z, r)| >= r.need(f) && Plus(a, r.left(f, Extra(y, r) + Extra(z, r))).curr <= room
    ensures |Compile(Node2(f, y, z), base, a, r).ops| == |s.ops| + |t.ops| + 1
  {
    hide Compile, Consts, Extra, Sum, At, Pooled, ResultKind, Args, Result;
    Parts2(prog, p, f, y, z, base, a, r, consts, room, s, t);
    CompilePlus(y, base, a, r);
    CompilePlus(z, base + |Consts(y)|, s.alloc, r);
    PlusPlus(a, Extra(y, r), Extra(z, r));
    ExtraEnough(Node2(f, y, z), r);
    assert FunLaw(r, f, a, Extra(y, r) + Extra(z, r));
  }

  lemma PlacedCond(prog: seq<Op>, p: nat, c: Core, t: Core, e: Core, base: nat, a: Alloc, r: Rules, consts: seq<int>, room: nat,
                   sc: Assigned, sy: Assigned, sn: Assigned)
    requires Placed(prog, p, Cond(c, t, e), base, a, r, consts, room) && Lawful(r)
    requires sc == Compile(c, base, a, r) && sy == Compile(t, base + |Consts(c)|, sc.alloc, r)
    requires sn == Compile(e, base + |Consts(c)| + |Consts(t)|, sy.alloc, r)
    ensures var q := p + |sc.ops|;
      && Placed(prog, p, c, base, a, r, consts, room) && At(prog, q, Branches(sy.ops, sn.ops))
      && Placed(prog, q + 2, t, base + |Consts(c)|, sc.alloc, r, consts, room)
      && Placed(prog, q + 3 + |sy.ops|, e, base + |Consts(c)| + |Consts(t)|, sy.alloc, r, consts, room)
    ensures sc.alloc == Plus(a, Extra(c, r)) && sy.alloc == Plus(sc.alloc, Extra(t, r)) && sn.alloc == Plus(sy.alloc, Extra(e, r))
    ensures a.curr <= sc.alloc.curr <= sy.alloc.curr <= sn.alloc.curr
    ensures sn.alloc == Plus(a, Extra(Cond(c, t, e), r))
    ensures |Compile(Cond(c, t, e), base, a, r).ops| == |sc.ops| + |Branches(sy.ops, sn.ops)|
  {
    hide Compile, Consts, Extra, Sum, At, Pooled, Branches, Lawful;
    PartsCond(prog, p, c, t, e, base, a, r, consts, room, sc, sy, sn);
    BranchesAt(prog, p + |sc.ops|, sy.ops, sn.ops);
    CompilePlus(c, base, a, r);
    CompilePlus(t, base + |Consts(c)|, sc.alloc, r);
    CompilePlus(e, base + |Consts(c)| + |Consts(t)|, sy.alloc, r);
    ExtraCond(c, t, e, r);
    PlusPlus(a, Extra(c, r), Extra(t, r));
    PlusPlus(a, Extra(c, r) + Extra(t, r), Extra(e, r));
  }

  lemma ExtraCond(c: Core, t: Core, e: Core, r: Rules)
    ensures Extra(Cond(c, t, e), r) == Extra(c, r) + Extra(t, r) + Extra(e, r)
  {
  }

  /** Running the code of an expression placed at `p` arrives at its end with its value pushed. */
  ghost predicate Arrives(prog: seq<Op>, p: nat, x: Core, base: nat, a: Alloc, r: Rules, st: State, st': State, c: Cell,
                          env: Env, consts: seq<int>)
    requires Ok(x)
  {
    Simulates(prog, p, p + |Compile(x, base, a, r).ops|, a.curr, Plus(a, Extra(x, r)).curr, st, st',
              KindOfCore(x), c, Denote(x, env), env, consts)
  }

  lemma Extra1(f: Fun, y: Core, r: Rules)
    ensures Extra(Node1(f, y), r) == r.left(f, Extra(y, r))
  {
  }

  lemma Extra2(f: Fun, y: Core, z: Core, r: Rules)
    ensures Extra(Node2(f, y, z), r) == r.left(f, Extra(y, r) + Extra(z, r))
  {
  }

  lemma PushedKeepsRoom(prog: seq<Op>, p: nat, q: nat, mark: int, limit: int, st: State, st': State, k: Kind, c: Cell,
                        v: Value, env: Env, consts: seq<int>)
    requires Simulates(prog, p, q, mark, limit, st, st', k, c, v, env, consts)
    ensures |st'.temps| == |st.temps|
    ensures forall j | 0 <= j < mark && j < |st.temps| :: st'.temps[j] == st.temps[j]
  {
  }

  lemma {:induction false} SimNode1(prog: seq<Op>, p: nat, f: Fun, y: Core, base: nat, a: Alloc, r: Rules, st: State,
                                    env: Env, consts: seq<int>)
    returns (st': State, c: Cell)
    requires Lawful(r) && Placed(prog, p, Node1(f, y), base, a, r, consts, |st.temps|)
    ensures Arrives(prog, p, Node1(f, y), base, a, r, st, st', c, env, consts)
    decreases Node1(f, y), 0
  {
    hide Compile, Extra, Consts, Emit, Sum, Assign, Simulates, Lawful, Result, ResultKind, Args;
    var s, e := Compile(y, base, a, r), Extra(y, r);
    Placed1(prog, p, f, y, base, a, r, consts, |st.temps|, s);
    var st1, c1 := Simulate(prog, p, y, base, a, r, st, env, consts);
    st', c := Sim1(prog, p, p + |s.ops|, f, a, e, r, st, st1, KindOfCore(y), c1, Denote(y, env), env, consts);
    assert Extra(Node1(f, y), r) == r.left(f, e) by { Extra1(f, y, r); }
  }

  lemma {:induction false} SimNode2(prog: seq<Op>, p: nat, f: Fun, y: Core, z: Core, base: nat, a: Alloc, r: Rules, st: State,
                                    env: Env, consts: seq<int>)
    returns (st': State, c: Cell)
    requires Lawful(r) && Placed(prog, p, Node2(f, y, z), base, a, r, consts, |st.temps|)
    ensures Arrives(prog, p, Node2(f, y, z), base, a, r, st, st', c, env, consts)
    decreases Node2(f, y, z), 0
  {
    hide At, Pooled, Compile, Extra, Consts, Emit, Sum, Assign, Simulates, Lawful, Result, ResultKind, Args;
    var b1 := base + |Consts(y)|;
    var s, d, e := Compile(y, base, a, r), Extra(y, r), Extra(z, r);
    var t := Compile(z, b1, s.alloc, r);
    Placed2(prog, p, f, y, z, base, a, r, consts, |st.temps|, s, t);
    var st1, c1 := Simulate(prog, p, y, base, a, r, st, env, consts);
    PushedKeepsRoom(prog, p, p + |s.ops|, a.curr, Plus(a, d).curr, st, st1, KindOfCore(y), c1, Denote(y, env), env, consts);
    var st2, c2 := Simulate(prog, p + |s.ops|, z, b1, s.alloc, r, st1, env, consts);
    PlusPlus(a, d, e);
    st', c := Sim2(prog, p, p + |s.ops|, p + |s.ops| + |t.ops|, f, a, d, e, r, st, st1, st2, KindOfCore(y), c1, Denote(y, env),
                   KindOfCore(z), c2, Denote(z, env), env, consts);
    Extra2(f, y, z, r);
  }

  lemma {:induction false} SimCond(prog: seq<Op>, p: nat, x: Core, t: Core, e: Core, base: nat, a: Alloc, r: Rules, st: State,
                                   env: Env, consts: seq<int>)
    returns (st': State, c: Cell)
    requires Lawful(r) && Placed(prog, p, Cond(x, t, e), base, a, r, consts, |st.temps|)
    ensures Arrives(prog, p, Cond(x, t, e), base, a, r, st, st', c, env, consts)
    decreases Cond(x, t, e), 0
  {
    hide Compile, Extra, Consts, Emit, Sum, Assign, Simulates, Lawful, Result, ResultKind, Args, Branches, Moves;
    var b1, b2 := base + |Consts(x)|, base + |Consts(x)| + |Consts(t)|;
    var sc := Compile(x, base, a, r);
    var sy := Compile(t, b1, sc.alloc, r);
    var sn := Compile(e, b2, sy.alloc, r);
    PlacedCond(prog, p, x, t, e, base, a, r, consts, |st.temps|, sc, sy, sn);
    var st1, c1 := Simulate(prog, p, x, base, a, r, st, env, consts);
    var q := p + |sc.ops|;
    var v := Denote(x, env);
    PushedKeepsRoom(prog, p, q, a.curr, sc.alloc.curr, st, st1, KBool, c1, v, env, consts);
    Choose(prog, p, q, sy.ops, sn.ops, a.curr, sc.alloc.curr, st, st1, c1, v, env, consts);
    BranchesAt(prog, q, sy.ops, sn.ops);
    var s := State(st.stacks, st1.temps);
    if v.b {
      st', c := Simulate(prog, q + 2, t, b1, sc.alloc, r, s, env, consts);
      Join(prog, p, q, sy.ops, sn.ops, true, a.curr, sc.alloc.curr, sn.alloc.curr, sy.alloc.curr, st, st1, st',
           KindOfCore(t), c, Denote(t, env), env, consts);
    } else {
      st', c := Simulate(prog, q + 3 + |sy.ops|, e, b2, sy.alloc, r, s, env, consts);
      Join(prog, p, q, sy.ops, sn.ops, false, a.curr, sy.alloc.curr, sn.alloc.curr, sn.alloc.curr, st, st1, st',
           KindOfCore(e), c, Denote(e, env), env, consts);
    }
  }

  /** The main result: wherever the assigned code of a well-formed expression stands, running it moves exactly one operand
      onto the stack of its kind, whose value is what the expression means; temporaries below the allocator's mark, which
      the operands already on the stacks may use, are kept. */
  lemma {:induction false} Simulate(prog: seq<Op>, p: nat, x: Core, base: nat, a: Alloc, r: Rules, st: State, env: Env,
                                    consts: seq<int>)
    returns (st': State, c: Cell)
    requires Lawful(r) && Placed(prog, p, x, base, a, r, consts, |st.temps|)
    ensures Arrives(prog, p, x, base, a, r, st, st', c, env, consts)
    decreases x, 1
  {
    match x
    case Leaf(l) => st', c := SimLeaf(prog, p, l, base, a, r, st, env, consts);
    case Const(n) => st', c := SimConst(prog, p, n, base, a, r, st, env, consts);
    case Node1(f, y) => st', c := SimNode1(prog, p, f, y, base, a, r, st, env, consts);
    case Node2(f, y, z) => st', c := SimNode2(prog, p, f, y, z, base, a, r, st, env, consts);
    case Cond(b, t, e) => st', c := SimCond(prog, p, b, t, e, base, a, r, st, env, consts);
  }
}
