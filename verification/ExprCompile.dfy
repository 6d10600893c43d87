/** From expression trees to flat code: postfix order, skips around conditional branches, one pool of constants, and
    the allocation of temporaries. The flat code, run on the evaluator, computes what the tree means. */
module ExprCompile {
  import opened ExprLang

  /** Expressions with every operand in place. */
  datatype Core =
    | Leaf(leaf: ExprLang.Leaf) | Const(v: int)
    | Node1(f: Fun, a: Core) | Node2(f: Fun, a: Core, b: Core)
    | Cond(c: Core, t: Core, e: Core)

  function LeafKind(l: ExprLang.Leaf): Kind
  {
    match l
    case LField(_, _) | LLastStackField(_, _) | LLocal(_) | LRegisterRef(_, _) => KData
    case LBool(_) => KBool
    case LHeader(_) => KHeader
    case LHeaderStack(_) | LUnionStack(_) => KStack
    case LUnion(_) => KUnion
  }

  function KindOfCore(x: Core): Kind
  {
    match x
    case Leaf(l) => LeafKind(l)
    case Const(_) => KData
    case Node1(f, _) => ResultKind(f)
    case Node2(f, _, _) => ResultKind(f)
    case Cond(_, t, _) => KindOfCore(t)
  }

  /** Every operand is of the kind its opcode pops. */
  predicate Ok(x: Core)
  {
    match x
    case Leaf(_) | Const(_) => true
    case Node1(f, a) => Args(f) == [KindOfCore(a)] && Ok(a)
    case Node2(f, a, b) => Args(f) == [KindOfCore(a), KindOfCore(b)] && Ok(a) && Ok(b)
    case Cond(c, t, e) => KindOfCore(c) == KBool && KindOfCore(t) == KindOfCore(e) && Ok(c) && Ok(t) && Ok(e)
  }

  /** Direct evaluation; only the chosen branch of a conditional counts. */
  function Denote(x: Core, env: Env): (v: Value)
    requires Ok(x)
    ensures KindOf(v) == KindOfCore(x)
  {
    match x
    case Leaf(l) => LeafValue(l, env)
    case Const(v) => VData(v)
    case Node1(f, a) => Result(f, [Denote(a, env)], env)
    case Node2(f, a, b) => Result(f, [Denote(a, env), Denote(b, env)], env)
    case Cond(c, t, e) => if Denote(c, env).b then Denote(t, env) else Denote(e, env)
  }

  // ---------------------------------------------------------------- code

  function Consts(x: Core): seq<int>
  {
    match x
    case Leaf(_) => []
    case Const(v) => [v]
    case Node1(_, a) => Consts(a)
    case Node2(_, a, b) => Consts(a) + Consts(b)
    case Cond(c, t, e) => Consts(c) + Consts(t) + Consts(e)
  }

  /** The code of a conditional after its condition. */
  function Branches(yes: seq<Op>, no: seq<Op>): seq<Op>
  {
    [TernaryOp] + ([Skip(|yes| + 1)] + (yes + ([Skip(|no|)] + no)))
  }

  /** The code for a tree whose constants start at `base` in the pool. */
  function Emit(x: Core, base: nat): (ops: seq<Op>)
    ensures |ops| > 0
  {
    match x
    case Leaf(l) => [Load(l)]
    case Const(_) => [LoadConst(base)]
    case Node1(f, a) => Emit(a, base) + [Compute(f, 0)]
    case Node2(f, a, b) => Emit(a, base) + Emit(b, base + |Consts(a)|) + [Compute(f, 0)]
    case Cond(c, t, e) =>
      var yes := Emit(t, base + |Consts(c)|);
      var no := Emit(e, base + |Consts(c)| + |Consts(t)|);
      Emit(c, base) + Branches(yes, no)
  }

  // ---------------------------------------------------------------- temporaries

  /** The allocator: the next free temporary, and for each data operand how many temporaries it holds. */
  datatype Alloc = Alloc(curr: int, regs: seq<bool>)

  const NoOperands := Alloc(0, [])

  function Sum(s: seq<bool>): nat { if s == [] then 0 else Sum(s[..|s| - 1]) + (if s[|s| - 1] then 1 else 0) }

  /** The allocator after pushing the operands `e`. */
  function Plus(a: Alloc, e: seq<bool>): Alloc { Alloc(a.curr + Sum(e), a.regs + e) }

  lemma {:induction false} SumConcat(d: seq<bool>, e: seq<bool>)
    ensures Sum(d + e) == Sum(d) + Sum(e)
  {
    if e == [] {
      assert d + e == d;
    } else {
      SumConcat(d, e[..|e| - 1]);
      assert (d + e)[..|d + e| - 1] == d + e[..|e| - 1];
    }
  }

  lemma PlusPlus(a: Alloc, d: seq<bool>, e: seq<bool>)
    ensures Plus(Plus(a, d), e) == Plus(a, d + e)
  {
    SumConcat(d, e);
    assert a.regs + d + e == a.regs + (d + e);
  }

  function Held(k: Kind): nat { if k == KData then 1 else 0 }

  function HeldAll(ks: seq<Kind>): nat { if ks == [] then 0 else HeldAll(ks[..|ks| - 1]) + Held(ks[|ks| - 1]) }

  lemma Pair(j: Kind, k: Kind)
    ensures HeldAll([j]) == Held(j) && HeldAll([j, k]) == Held(j) + Held(k)
  {
    assert [j][..0] == [];
    assert [j, k][..1] == [j];
    assert HeldAll([j]) == Held(j);
  }

  /** The per-opcode rules of an allocator: the step itself, how many data operands it takes, what it leaves of them,
      and what a load adds. */
  datatype Rules = Rules(one: (Op, Alloc) -> (Op, Alloc), need: Fun -> nat, left: (Fun, seq<bool>) -> seq<bool>,
                         leaf: ExprLang.Leaf -> seq<bool>)

  ghost predicate FunLaw(r: Rules, f: Fun, a: Alloc, e: seq<bool>)
  {
    r.need(f) == HeldAll(Args(f)) &&
    (a.curr >= 0 && |e| >= r.need(f) ==>
       var o := r.one(Compute(f, 0), Plus(a, e));
       && o.1 == Plus(a, r.left(f, e)) && |r.left(f, e)| >= Held(ResultKind(f))
       && o.0.Compute? && o.0.f == f
       && (UsesTemp(f) ==> a.curr <= o.0.dest && o.0.dest + 1 == o.1.curr))
  }

  ghost predicate LoadLaw(r: Rules, l: ExprLang.Leaf, b: nat, a: Alloc)
  {
    && r.one(Load(l), a) == (Load(l), Plus(a, r.leaf(l))) && |r.leaf(l)| >= Held(LeafKind(l))
    && r.one(LoadConst(b), a) == (LoadConst(b), Plus(a, [false]))
  }

  ghost predicate JumpLaw(r: Rules, op: Op, a: Alloc)
  {
    op.Skip? || op.TernaryOp? ==> r.one(op, a) == (op, a)
  }

  ghost predicate Lawful(r: Rules)
  {
    && (forall f, a, e {:trigger FunLaw(r, f, a, e)} :: FunLaw(r, f, a, e))
    && (forall l, b, a {:trigger LoadLaw(r, l, b, a)} :: LoadLaw(r, l, b, a))
    && (forall op, a {:trigger JumpLaw(r, op, a)} :: JumpLaw(r, op, a))
  }

  datatype Assigned = Assigned(ops: seq<Op>, alloc: Alloc, peak: int)

  function Max(a: int, b: int): int { if a < b then b else a }

  /** Give every opcode its destination; `peak` is the largest number of temporaries in use on the way. */
  function Assign(ops: seq<Op>, a: Alloc, r: Rules): (s: Assigned)
    ensures |s.ops| == |ops| && s.peak >= a.curr && s.peak >= s.alloc.curr
    decreases |ops|
  {
    if ops == [] then Assigned([], a, a.curr)
    else
      var (op, b) := r.one(ops[0], a);
      var rest := Assign(ops[1..], b, r);
      Assigned([op] + rest.ops, rest.alloc, Max(a.curr, rest.peak))
  }

  /** Joining pieces of assigned code. */
  function Then(s: Assigned, t: Assigned): Assigned { Assigned(s.ops + t.ops, t.alloc, Max(s.peak, t.peak)) }

  function Single(op: Op, a: Alloc, r: Rules): Assigned
  {
    var o := r.one(op, a);
    Assigned([o.0], o.1, Max(a.curr, o.1.curr))
  }

  lemma {:induction false} AssignConcat(x: seq<Op>, y: seq<Op>, a: Alloc, r: Rules)
    ensures Assign(x + y, a, r) == Then(Assign(x, a, r), Assign(y, Assign(x, a, r).alloc, r))
    decreases |x|
  {
    if x == [] {
      assert x + y == y;
    } else {
      var (op, b) := r.one(x[0], a);
      AssignConcat(x[1..], y, b, r);
      assert (x + y)[1..] == x[1..] + y;
      var s, t := Assign(x[1..], b, r), Assign(y, Assign(x[1..], b, r).alloc, r);
      assert [op] + (s.ops + t.ops) == [op] + s.ops + t.ops;
    }
  }

  lemma AssignSingle(op: Op, a: Alloc, r: Rules)
    ensures Assign([op], a, r) == Single(op, a, r)
  {
  }

  lemma JumpFront(op: Op, code: seq<Op>, a: Alloc, r: Rules)
    requires (op.Skip? || op.TernaryOp?) && Lawful(r)
    ensures var s := Assign(code, a, r); Assign([op] + code, a, r) == Assigned([op] + s.ops, s.alloc, s.peak)
  {
    assert JumpLaw(r, op, a);
    assert ([op] + code)[1..] == code;
  }

  /** The allocator passes through both branches; the skips and the conditional itself leave it alone. */
  lemma BranchesAssign(yes: seq<Op>, no: seq<Op>, a: Alloc, r: Rules)
    requires Lawful(r)
    ensures var s := Assign(yes, a, r); Assign(Branches(yes, no), a, r) == Either(s, Assign(no, s.alloc, r))
  {
    hide Assign, Lawful;
    var s := Assign(yes, a, r);
    JumpFront(Skip(|no|), no, s.alloc, r);
    AssignConcat(yes, [Skip(|no|)] + no, a, r);
    JumpFront(Skip(|yes| + 1), yes + ([Skip(|no|)] + no), a, r);
    JumpFront(TernaryOp, [Skip(|yes| + 1)] + (yes + ([Skip(|no|)] + no)), a, r);
  }

  function Either(y: Assigned, n: Assigned): Assigned
  {
    Assigned(Branches(y.ops, n.ops), n.alloc, Max(y.peak, n.peak))
  }

  // ---------------------------------------------------------------- one pass over the tree

  /** Code and destinations in one pass over the tree. */
  function Compile(x: Core, base: nat, a: Alloc, r: Rules): Assigned
  {
    match x
    case Leaf(l) => Single(Load(l), a, r)
    case Const(_) => Single(LoadConst(base), a, r)
    case Node1(f, y) =>
      var s := Compile(y, base, a, r);
      Then(s, Single(Compute(f, 0), s.alloc, r))
    case Node2(f, y, z) =>
      var s := Compile(y, base, a, r);
      var t := Compile(z, base + |Consts(y)|, s.alloc, r);
      Then(Then(s, t), Single(Compute(f, 0), t.alloc, r))
    case Cond(c, t, e) =>
      var s := Compile(c, base, a, r);
      var y := Compile(t, base + |Consts(c)|, s.alloc, r);
      Then(s, Either(y, Compile(e, base + |Consts(c)| + |Consts(t)|, y.alloc, r)))
  }

  lemma AssignThree(x: seq<Op>, y: seq<Op>, op: Op, a: Alloc, r: Rules)
    ensures var s := Assign(x, a, r);
      var t := Assign(y, s.alloc, r);
      Assign(x + y + [op], a, r) == Then(Then(s, t), Single(op, t.alloc, r))
  {
    AssignConcat(x, y, a, r);
    AssignConcat(x + y, [op], a, r);
    AssignSingle(op, Assign(x + y, a, r).alloc, r);
  }

  lemma AssignCond(cond: seq<Op>, yes: seq<Op>, no: seq<Op>, a: Alloc, r: Rules)
    requires Lawful(r)
    ensures var s := Assign(cond, a, r);
      var t := Assign(yes, s.alloc, r);
      Assign(cond + Branches(yes, no), a, r) == Then(s, Either(t, Assign(no, t.alloc, r)))
  {
    BranchesAssign(yes, no, Assign(cond, a, r).alloc, r);
    AssignConcat(cond, Branches(yes, no), a, r);
  }

  lemma CondUnfolds(c: Core, t: Core, e: Core, base: nat, a: Alloc, r: Rules, sc: Assigned, sy: Assigned, sn: Assigned)
    requires sc == Compile(c, base, a, r) && sy == Compile(t, base + |Consts(c)|, sc.alloc, r)
    requires sn == Compile(e, base + |Consts(c)| + |Consts(t)|, sy.alloc, r)
    ensures Compile(Cond(c, t, e), base, a, r) == Then(sc, Either(sy, sn))
  {
    hide Then, Either;
  }

  lemma CondEmits(c: Core, t: Core, e: Core, base: nat)
    ensures Emit(Cond(c, t, e), base) ==
            Emit(c, base) + Branches(Emit(t, base + |Consts(c)|), Emit(e, base + |Consts(c)| + |Consts(t)|))
  {
  }

  lemma {:induction false} CondIsAssign(c: Core, t: Core, e: Core, base: nat, a: Alloc, r: Rules)
    requires Lawful(r)
    ensures Assign(Emit(Cond(c, t, e), base), a, r) == Compile(Cond(c, t, e), base, a, r)
    decreases Cond(c, t, e), 0
  {
    hide Emit, Compile, Assign, Consts;
    var b1, b2 := base + |Consts(c)|, base + |Consts(c)| + |Consts(t)|;
    CompileIsAssign(c, base, a, r);
    var sc := Compile(c, base, a, r);
    CompileIsAssign(t, b1, sc.alloc, r);
    var sy := Compile(t, b1, sc.alloc, r);
    CompileIsAssign(e, b2, sy.alloc, r);
    AssignCond(Emit(c, base), Emit(t, b1), Emit(e, b2), a, r);
    CondUnfolds(c, t, e, base, a, r, sc, sy, Compile(e, b2, sy.alloc, r));
    CondEmits(c, t, e, base);
  }

  lemma Node2Unfolds(f: Fun, y: Core, z: Core, base: nat, a: Alloc, r: Rules, s: Assigned, t: Assigned)
    requires s == Compile(y, base, a, r) && t == Compile(z, base + |Consts(y)|, s.alloc, r)
    ensures Compile(Node2(f, y, z), base, a, r) == Then(Then(s, t), Single(Compute(f, 0), t.alloc, r))
  {
  }

  lemma Node2Emits(f: Fun, y: Core, z: Core, base: nat)
    ensures Emit(Node2(f, y, z), base) == Emit(y, base) + Emit(z, base + |Consts(y)|) + [Compute(f, 0)]
  {
  }

  lemma {:induction false} Node2IsAssign(f: Fun, y: Core, z: Core, base: nat, a: Alloc, r: Rules)
    requires Lawful(r)
    ensures Assign(Emit(Node2(f, y, z), base), a, r) == Compile(Node2(f, y, z), base, a, r)
    decreases Node2(f, y, z), 0
  {
    hide Emit, Compile, Assign, Consts;
    var b1 := base + |Consts(y)|;
    CompileIsAssign(y, base, a, r);
    var s := Compile(y, base, a, r);
    CompileIsAssign(z, b1, s.alloc, r);
    AssignThree(Emit(y, base), Emit(z, b1), Compute(f, 0), a, r);
    Node2Unfolds(f, y, z, base, a, r, s, Compile(z, b1, s.alloc, r));
    Node2Emits(f, y, z, base);
  }

  /** Assigning destinations after emitting, as the code does, is the same. */
  lemma {:induction false} CompileIsAssign(x: Core, base: nat, a: Alloc, r: Rules)
    requires Lawful(r)
    ensures Assign(Emit(x, base), a, r) == Compile(x, base, a, r)
    decreases x, 1
  {
    match x
    case Leaf(l) => AssignSingle(Load(l), a, r);
    case Const(_) => AssignSingle(LoadConst(base), a, r);
    case Node1(f, y) =>
      CompileIsAssign(y, base, a, r);
      AssignConcat(Emit(y, base), [Compute(f, 0)], a, r);
      AssignSingle(Compute(f, 0), Compile(y, base, a, r).alloc, r);
    case Node2(f, y, z) =>
      Node2IsAssign(f, y, z, base, a, r);
    case Cond(c, t, e) =>
      CondIsAssign(c, t, e, base, a, r);
  }

  /** What compiling an expression pushes on the allocator's stack; a conditional leaves both branches' entries. */
  function Extra(x: Core, r: Rules): seq<bool>
  {
    match x
    case Leaf(l) => r.leaf(l)
    case Const(_) => [false]
    case Node1(f, y) => r.left(f, Extra(y, r))
    case Node2(f, y, z) => r.left(f, Extra(y, r) + Extra(z, r))
    case Cond(c, t, e) => Extra(c, r) + Extra(t, r) + Extra(e, r)
  }

  /** There are always enough entries for the consumer: at least one for data. */
  lemma {:induction false} ExtraEnough(x: Core, r: Rules)
    requires Ok(x) && Lawful(r)
    ensures |Extra(x, r)| >= Held(KindOfCore(x))
    ensures x.Node1? ==> |Extra(x.a, r)| >= r.need(x.f)
    ensures x.Node2? ==> |Extra(x.a, r) + Extra(x.b, r)| >= r.need(x.f)
    decreases x
  {
    match x
    case Leaf(l) => assert LoadLaw(r, l, 0, NoOperands);
    case Const(_) =>
    case Node1(f, y) =>
      ExtraEnough(y, r);
      assert FunLaw(r, f, NoOperands, Extra(y, r));
      Pair(KindOfCore(y), KindOfCore(y));
    case Node2(f, y, z) =>
      ExtraEnough(y, r);
      ExtraEnough(z, r);
      assert FunLaw(r, f, NoOperands, Extra(y, r) + Extra(z, r));
      Pair(KindOfCore(y), KindOfCore(z));
    case Cond(c, t, e) =>
      ExtraEnough(t, r);
  }

  lemma {:induction false} CondPlus(c: Core, t: Core, e: Core, base: nat, a: Alloc, r: Rules)
    requires Ok(Cond(c, t, e)) && a.curr >= 0 && Lawful(r)
    ensures Compile(Cond(c, t, e), base, a, r).alloc == Plus(a, Extra(Cond(c, t, e), r))
    decreases Cond(c, t, e), 0
  {
    hide *;
    CondParts(c, t, e, r);
    var b1, b2 := base + |Consts(c)|, base + |Consts(c)| + |Consts(t)|;
    var ec, et, ee := Extra(c, r), Extra(t, r), Extra(e, r);
    CompilePlus(c, base, a, r);
    PlusFits(a, ec);
    CompilePlus(t, b1, Plus(a, ec), r);
    PlusPlus(a, ec, et);
    PlusFits(a, ec + et);
    CompilePlus(e, b2, Plus(a, ec + et), r);
    PlusPlus(a, ec + et, ee);
    var sc, sy := Compile(c, base, a, r), Compile(t, b1, Plus(a, ec), r);
    CondUnfolds(c, t, e, base, a, r, sc, sy, Compile(e, b2, sy.alloc, r));
    LastAlloc(sc, sy, Compile(e, b2, sy.alloc, r));
  }

  lemma LastAlloc(x: Assigned, y: Assigned, z: Assigned)
    ensures Then(x, Either(y, z)).alloc == z.alloc
  {
  }

  lemma PlusFits(a: Alloc, e: seq<bool>)
    requires a.curr >= 0
    ensures Plus(a, e).curr >= 0
  {
  }

  lemma CondParts(c: Core, t: Core, e: Core, r: Rules)
    requires Ok(Cond(c, t, e))
    ensures Ok(c) && Ok(t) && Ok(e) && Extra(Cond(c, t, e), r) == Extra(c, r) + Extra(t, r) + Extra(e, r)
  {
  }

  lemma {:induction false} Node2Plus(f: Fun, y: Core, z: Core, base: nat, a: Alloc, r: Rules)
    requires Ok(Node2(f, y, z)) && Ok(y) && Ok(z) && a.curr >= 0 && Lawful(r)
    ensures Compile(Node2(f, y, z), base, a, r).alloc == Plus(a, r.left(f, Extra(y, r) + Extra(z, r)))
    decreases Node2(f, y, z), 0
  {
    hide Ok, Compile, Extra, Consts, Emit, Sum;
    CompilePlus(y, base, a, r);
    var s := Compile(y, base, a, r);
    CompilePlus(z, base + |Consts(y)|, s.alloc, r);
    PlusPlus(a, Extra(y, r), Extra(z, r));
    ExtraEnough(Node2(f, y, z), r);
    assert FunLaw(r, f, a, Extra(y, r) + Extra(z, r));
    Node2Unfolds(f, y, z, base, a, r, s, Compile(z, base + |Consts(y)|, s.alloc, r));
  }

  /** The allocator's state after an expression depends on the expression only by what it adds. */
  lemma {:induction false} CompilePlus(x: Core, base: nat, a: Alloc, r: Rules)
    requires Ok(x) && a.curr >= 0 && Lawful(r)
    ensures Compile(x, base, a, r).alloc == Plus(a, Extra(x, r))
    decreases x, 1
  {
    ExtraEnough(x, r);
    match x
    case Leaf(l) => assert LoadLaw(r, l, base, a);
    case Const(_) => assert LoadLaw(r, LBool(true), base, a);
    case Node1(f, y) =>
      CompilePlus(y, base, a, r);
      assert FunLaw(r, f, a, Extra(y, r));
    case Node2(f, y, z) =>
      Node2Plus(f, y, z, base, a, r);
    case Cond(c, t, e) =>
      CondPlus(c, t, e, base, a, r);
  }
}
