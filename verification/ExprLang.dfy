/** The expression engine: opcodes, the evaluator with its five operand stacks and its temporaries, and what an
    expression means. Arithmetic and the packet state are parameters. */
module ExprLang {
  import opened Wrappers

  datatype Kind = KData | KBool | KHeader | KStack | KUnion

  datatype Value = VData(d: int) | VBool(b: bool) | VHeader(h: int) | VStack(s: int) | VUnion(u: int)

  function KindOf(v: Value): Kind
  {
    match v
    case VData(_) => KData
    case VBool(_) => KBool
    case VHeader(_) => KHeader
    case VStack(_) => KStack
    case VUnion(_) => KUnion
  }

  datatype ArithOp =
    ADD | SUB | MOD | DIV | MUL | SHIFT_LEFT | SHIFT_RIGHT | BIT_AND | BIT_OR | BIT_XOR | TWO_COMP_MOD

  datatype CmpOp = EQ | NEQ | GT | LT | GE | LE

  /** The opcodes that take operands. */
  datatype Fun =
    | FArith(op: ArithOp) | FNeg
    | FCmp(cmp: CmpOp) | FCmpHeader(equal: bool) | FCmpUnion(equal: bool) | FCmpBool(equal: bool)
    | FAnd | FOr | FNot | FValidHeader | FValidUnion
    | FDataToBool | FBoolToData
    | FDerefHeaderStack | FDerefUnionStack | FLastStackIndex | FSizeStack
    | FAccessField(off: int) | FRegisterGen(array: int)

  /** The opcodes that load something from outside. */
  datatype Leaf =
    | LField(header: int, off: int) | LLastStackField(stack: int, off: int)
    | LLocal(off: int) | LRegisterRef(array: int, idx: int)
    | LBool(b: bool) | LHeader(header: int) | LHeaderStack(stack: int)
    | LUnion(union: int) | LUnionStack(stack: int)

  datatype Op =
    | Load(leaf: Leaf) | LoadConst(offset: nat) | Compute(f: Fun, dest: int)
    | TernaryOp | Skip(skip: nat)

  /** Packet state, action data and arithmetic. */
  datatype Env = Env(
    field: (int, int) -> int, lastStackField: (int, int) -> int, local: int -> int, register: (int, int) -> int,
    arith: (ArithOp, int, int) -> int, neg: int -> int,
    sameHeader: (int, int) -> bool, sameUnion: (int, int) -> bool,
    validHeader: int -> bool, validUnion: int -> bool,
    headerAt: (int, int) -> int, unionAt: (int, int) -> int, count: int -> int)

  function LeafValue(l: Leaf, env: Env): Value
  {
    match l
    case LField(h, o) => VData(env.field(h, o))
    case LLastStackField(s, o) => VData(env.lastStackField(s, o))
    case LLocal(o) => VData(env.local(o))
    case LRegisterRef(a, i) => VData(env.register(a, i))
    case LBool(b) => VBool(b)
    case LHeader(h) => VHeader(h)
    case LHeaderStack(s) => VStack(s)
    case LUnion(u) => VUnion(u)
    case LUnionStack(s) => VStack(s)
  }

  /** The stacks an opcode pops, first operand first. */
  function Args(f: Fun): (ks: seq<Kind>)
    ensures 1 <= |ks| <= 2
  {
    match f
    case FArith(_) | FCmp(_) => [KData, KData]
    case FNeg | FDataToBool | FRegisterGen(_) => [KData]
    case FCmpHeader(_) => [KHeader, KHeader]
    case FCmpUnion(_) => [KUnion, KUnion]
    case FCmpBool(_) | FAnd | FOr => [KBool, KBool]
    case FNot | FBoolToData => [KBool]
    case FValidHeader | FAccessField(_) => [KHeader]
    case FValidUnion => [KUnion]
    case FDerefHeaderStack | FDerefUnionStack => [KStack, KData]
    case FLastStackIndex | FSizeStack => [KStack]
  }

  function Compare(c: CmpOp, a: int, b: int): bool
  {
    match c
    case EQ => a == b
    case NEQ => a != b
    case GT => a > b
    case LT => a < b
    case GE => a >= b
    case LE => a <= b
  }

  predicate Fit(vs: seq<Value>, ks: seq<Kind>)
  {
    |vs| == |ks| && forall i | 0 <= i < |vs| :: KindOf(vs[i]) == ks[i]
  }

  /** What an opcode computes from its operands. */
  function Result(f: Fun, a: seq<Value>, env: Env): (v: Value)
    requires Fit(a, Args(f))
    ensures KindOf(v) == ResultKind(f)
  {
    match f
    case FArith(op) => VData(env.arith(op, a[0].d, a[1].d))
    case FNeg => VData(env.neg(a[0].d))
    case FCmp(c) => VBool(Compare(c, a[0].d, a[1].d))
    case FCmpHeader(e) => VBool(env.sameHeader(a[0].h, a[1].h) == e)
    case FCmpUnion(e) => VBool(env.sameUnion(a[0].u, a[1].u) == e)
    case FCmpBool(e) => VBool((a[0].b == a[1].b) == e)
    case FAnd => VBool(a[0].b && a[1].b)
    case FOr => VBool(a[0].b || a[1].b)
    case FNot => VBool(!a[0].b)
    case FValidHeader => VBool(env.validHeader(a[0].h))
    case FValidUnion => VBool(env.validUnion(a[0].u))
    case FDataToBool => VBool(a[0].d != 0)
    case FBoolToData => VData(if a[0].b then 1 else 0)
    case FDerefHeaderStack => VHeader(env.headerAt(a[0].s, a[1].d))
    case FDerefUnionStack => VUnion(env.unionAt(a[0].s, a[1].d))
    case FLastStackIndex => VData(env.count(a[0].s) - 1)
    case FSizeStack => VData(env.count(a[0].s))
    case FAccessField(o) => VData(env.field(a[0].h, o))
    case FRegisterGen(r) => VData(env.register(r, a[0].d))
  }

  function ResultKind(f: Fun): Kind
  {
    match f
    case FArith(_) | FNeg | FBoolToData | FLastStackIndex | FSizeStack | FAccessField(_) | FRegisterGen(_) => KData
    case FDerefHeaderStack => KHeader
    case FDerefUnionStack => KUnion
    case _ => KBool
  }

  // ---------------------------------------------------------------- the evaluator

  /** An operand: a value that lives outside, or a pointer to one of the evaluator's temporaries. */
  datatype Cell = Ext(v: Value) | Temp(i: nat)

  datatype Stacks = Stacks(data: seq<Cell>, bools: seq<Cell>, headers: seq<Cell>, stks: seq<Cell>, unions: seq<Cell>)
  {
    function Get(k: Kind): seq<Cell>
    {
      match k
      case KData => data
      case KBool => bools
      case KHeader => headers
      case KStack => stks
      case KUnion => unions
    }

    function Set(k: Kind, s: seq<Cell>): (r: Stacks)
      ensures r.Get(k) == s && forall j | j != k :: r.Get(j) == Get(j)
    {
      match k
      case KData => this.(data := s)
      case KBool => this.(bools := s)
      case KHeader => this.(headers := s)
      case KStack => this.(stks := s)
      case KUnion => this.(unions := s)
    }

    function Push(k: Kind, c: Cell): (r: Stacks)
      ensures r.Get(k) == Get(k) + [c] && forall j | j != k :: r.Get(j) == Get(j)
    {
      Set(k, Get(k) + [c])
    }
  }

  const NoStacks := Stacks([], [], [], [], [])

  datatype State = State(stacks: Stacks, temps: seq<int>)

  /** The value an operand has now; a temporary that does not exist has none. */
  function Deref(c: Cell, temps: seq<int>): Option<Value>
  {
    match c
    case Ext(v) => Some(v)
    case Temp(i) => if i < |temps| then Some(VData(temps[i])) else None
  }

  /** Pop one operand of a kind; an empty stack is undefined behaviour. */
  function Pop(st: State, k: Kind): Option<(Value, State)>
  {
    var s := st.stacks.Get(k);
    if s == [] then None
    else
      match Deref(s[|s| - 1], st.temps)
      case None => None
      case Some(v) => if KindOf(v) == k then Some((v, st.(stacks := st.stacks.Set(k, s[..|s| - 1])))) else None
  }

  /** Pop the operands, last one first. */
  function PopArgs(st: State, ks: seq<Kind>): (r: Option<(seq<Value>, State)>)
    ensures r.Some? ==> Fit(r.value.0, ks)
    decreases |ks|
  {
    if ks == [] then Some(([], st))
    else
      match Pop(st, ks[|ks| - 1])
      case None => None
      case Some((v, st1)) =>
        match PopArgs(st1, ks[..|ks| - 1])
        case None => None
        case Some((vs, st2)) => Some((vs + [v], st2))
  }

  /** Does the opcode write its result to a temporary? */
  predicate UsesTemp(f: Fun)
  {
    f.FArith? || f.FNeg? || f.FBoolToData? || f.FLastStackIndex? || f.FSizeStack?
  }

  function Exec(f: Fun, dest: int, st: State, env: Env): Option<State>
  {
    match PopArgs(st, Args(f))
    case None => None
    case Some((vs, st1)) =>
      var v := Result(f, vs, env);
      if !UsesTemp(f) then Some(st1.(stacks := st1.stacks.Push(KindOf(v), Ext(v))))
      else if 0 <= dest < |st1.temps| then Some(State(st1.stacks.Push(KData, Temp(dest)), st1.temps[dest := v.d]))
      else None
  }

  /** One operation: where to go on and in which state. `TERNARY_OP` jumps over the skip that follows it when the
      condition holds. */
  function Step(op: Op, i: nat, st: State, env: Env, consts: seq<int>): (r: Option<(nat, State)>)
    ensures r.Some? ==> r.value.0 > i
  {
    match op
    case Load(l) => Some((i + 1, st.(stacks := st.stacks.Push(KindOf(LeafValue(l, env)), Ext(LeafValue(l, env))))))
    case LoadConst(o) =>
      if o < |consts| then Some((i + 1, st.(stacks := st.stacks.Push(KData, Ext(VData(consts[o])))))) else None
    case Compute(f, dest) =>
      (match Exec(f, dest, st, env)
       case None => None
       case Some(s) => Some((i + 1, s)))
    case TernaryOp =>
      (match Pop(st, KBool)
       case None => None
       case Some((v, s)) => Some((if v.b then i + 2 else i + 1, s)))
    case Skip(n) => Some((i + 1 + n, st))
  }

  function Run(ops: seq<Op>, i: nat, st: State, env: Env, consts: seq<int>): Option<State>
    decreases |ops| - i
  {
    if i >= |ops| then Some(st)
    else
      match Step(ops[i], i, st, env, consts)
      case None => None
      case Some((j, s)) => Run(ops, j, s, env, consts)
  }
}
