/** Expressions as the JSON input gives them: what they mean, the type the builder reports, and the code it emits. */
module ExprBuild {
  import opened Wrappers
  import opened ExprLang
  import opened ExprCompile

  datatype Ty = UNKNOWN | DATA | HEADER | HEADER_STACK | BOOL | UNION | UNION_STACK

  datatype Expr =
    | Null
    | Atom(leaf: ExprLang.Leaf) | Hex(v: int)
    | RegisterAt(regs: int, index: Expr)
    | Apply(f: Fun, l: Expr, r: Expr)
    | Compare(equal: bool, l: Expr, r: Expr)
    | AccessField(l: Expr, off: int)
    | Ternary(c: Expr, l: Expr, r: Expr)

  function KindOfTy(t: Ty): Option<Kind>
  {
    match t
    case UNKNOWN => None
    case DATA => Some(KData)
    case HEADER => Some(KHeader)
    case HEADER_STACK | UNION_STACK => Some(KStack)
    case BOOL => Some(KBool)
    case UNION => Some(KUnion)
  }

  function LeafTy(l: ExprLang.Leaf): Ty
  {
    match l
    case LField(_, _) | LLastStackField(_, _) | LLocal(_) | LRegisterRef(_, _) => DATA
    case LBool(_) => BOOL
    case LHeader(_) => HEADER
    case LHeaderStack(_) => HEADER_STACK
    case LUnion(_) => UNION
    case LUnionStack(_) => UNION_STACK
  }

  /** The type an opcode reports for its result. */
  function OpcodeTy(f: Fun): Ty
  {
    match f
    case FArith(_) | FNeg | FBoolToData | FLastStackIndex | FSizeStack | FAccessField(_) | FRegisterGen(_) => DATA
    case FDerefHeaderStack => HEADER
    case FDerefUnionStack => UNION
    case _ => BOOL
  }

  /** The comparison opcode for a type, if it has one. */
  function CompareOp(t: Ty, equal: bool): Option<Fun>
  {
    match t
    case DATA => Some(FCmp(if equal then EQ else NEQ))
    case HEADER => Some(FCmpHeader(equal))
    case BOOL => Some(FCmpBool(equal))
    case UNION => Some(FCmpUnion(equal))
    case _ => None
  }

  predicate PlusOrMinus(f: Fun) { f == FArith(ADD) || f == FArith(SUB) }

  /** Opcodes that a JSON operation names; the others are emitted for a JSON construct of their own. */
  predicate Named(f: Fun) { !f.FAccessField? && !f.FRegisterGen? && f != FCmp(EQ) && f != FCmp(NEQ) }

  /** Operand `t` of an opcode: of the kind it pops, and of the right sort of stack where it matters. */
  predicate Takes(f: Fun, i: nat, t: Ty)
    requires i < |Args(f)|
  {
    && KindOfTy(t) == Some(Args(f)[i])
    && (f == FDerefHeaderStack ==> t != UNION_STACK) && (f == FDerefUnionStack ==> t != HEADER_STACK)
  }

  // ---------------------------------------------------------------- what an expression is and means

  /** The type of a well-typed expression. */
  function TypeOf(e: Expr): (r: Option<Ty>)
    ensures r != Some(UNKNOWN)
  {
    match e
    case Null => None
    case Atom(l) => Some(LeafTy(l))
    case Hex(_) => Some(DATA)
    case RegisterAt(_, i) => if TypeOf(i) == Some(DATA) then Some(DATA) else None
    case Apply(f, l, r) =>
      var tr := TypeOf(r);
      if !Named(f) || tr.None? then None
      else if l.Null? then
        if PlusOrMinus(f) then (if tr == Some(DATA) then Some(DATA) else None)
        else if |Args(f)| == 1 && Takes(f, 0, tr.value) then Some(OpcodeTy(f)) else None
      else
        var tl := TypeOf(l);
        if tl.Some? && |Args(f)| == 2 && Takes(f, 0, tl.value) && Takes(f, 1, tr.value) then Some(OpcodeTy(f)) else None
    case Compare(q, l, r) =>
      var t := TypeOf(l);
      if t.Some? && t == TypeOf(r) && CompareOp(t.value, q).Some? then Some(BOOL) else None
    case AccessField(l, _) => if TypeOf(l) == Some(HEADER) then Some(DATA) else None
    case Ternary(c, l, r) => if TypeOf(c) == Some(BOOL) && TypeOf(l) == TypeOf(r) then TypeOf(l) else None
  }

  predicate HasTy(v: Value, t: Option<Ty>) { t.Some? && KindOfTy(t.value) == Some(KindOf(v)) }

  /** Equality of two values of one type. */
  function Same(a: Value, b: Value, env: Env): bool
  {
    match (a, b)
    case (VData(x), VData(y)) => x == y
    case (VBool(x), VBool(y)) => x == y
    case (VHeader(x), VHeader(y)) => env.sameHeader(x, y)
    case (VUnion(x), VUnion(y)) => env.sameUnion(x, y)
    case _ => false
  }

  lemma LeafHasTy(l: ExprLang.Leaf, env: Env)
    ensures HasTy(LeafValue(l, env), Some(LeafTy(l)))
  {
  }

  lemma ResultHasTy(f: Fun)
    ensures KindOfTy(OpcodeTy(f)) == Some(ResultKind(f))
  {
  }

  /** Direct evaluation of a well-typed expression. */
  function Meaning(e: Expr, env: Env): (v: Value)
    requires TypeOf(e).Some?
    ensures HasTy(v, TypeOf(e))
  {
    match e
    case Atom(l) => LeafHasTy(l, env); LeafValue(l, env)
    case Hex(v) => VData(v)
    case RegisterAt(a, i) => VData(env.register(a, Meaning(i, env).d))
    case Apply(f, l, r) =>
      ResultHasTy(f);
      if !l.Null? then Result(f, [Meaning(l, env), Meaning(r, env)], env)
      else if f == FArith(ADD) then VData(env.arith(ADD, 0, Meaning(r, env).d))
      else if f == FArith(SUB) then VData(env.arith(SUB, 0, Meaning(r, env).d))
      else Result(f, [Meaning(r, env)], env)
    case Compare(q, l, r) => VBool(Same(Meaning(l, env), Meaning(r, env), env) == q)
    case AccessField(l, o) => VData(env.field(Meaning(l, env).h, o))
    case Ternary(c, l, r) => if Meaning(c, env).b then Meaning(l, env) else Meaning(r, env)
  }

  // ---------------------------------------------------------------- what every construct means, spelled out

  /** Operations with two operands. */
  lemma BinaryMeans(f: Fun, l: Expr, r: Expr, env: Env)
    requires TypeOf(Apply(f, l, r)).Some? && !l.Null?
    ensures TypeOf(l).Some? && TypeOf(r).Some?
    ensures var x, y, v := Meaning(l, env), Meaning(r, env), Meaning(Apply(f, l, r), env);
      && (f.FArith? ==> x.VData? && y.VData? && v == VData(env.arith(f.op, x.d, y.d)))
      && (f == FCmp(GT) ==> x.VData? && y.VData? && v == VBool(x.d > y.d))
      && (f == FCmp(LT) ==> x.VData? && y.VData? && v == VBool(x.d < y.d))
      && (f == FCmp(GE) ==> x.VData? && y.VData? && v == VBool(x.d >= y.d))
      && (f == FCmp(LE) ==> x.VData? && y.VData? && v == VBool(x.d <= y.d))
      && (f == FAnd ==> x.VBool? && y.VBool? && v == VBool(x.b && y.b))
      && (f == FOr ==> x.VBool? && y.VBool? && v == VBool(x.b || y.b))
      && (f.FCmpBool? ==> x.VBool? && y.VBool? && v == VBool((x == y) == f.equal))
      && (f.FCmpHeader? ==> x.VHeader? && y.VHeader? && v == VBool(env.sameHeader(x.h, y.h) == f.equal))
      && (f.FCmpUnion? ==> x.VUnion? && y.VUnion? && v == VBool(env.sameUnion(x.u, y.u) == f.equal))
      && (f == FDerefHeaderStack ==> x.VStack? && y.VData? && v == VHeader(env.headerAt(x.s, y.d)))
      && (f == FDerefUnionStack ==> x.VStack? && y.VData? && v == VUnion(env.unionAt(x.s, y.d)))
  {
  }

  /** Operations with one operand, and the two signs. */
  lemma UnaryMeans(f: Fun, r: Expr, env: Env)
    requires TypeOf(Apply(f, Null, r)).Some?
    ensures TypeOf(r).Some?
    ensures var x, v := Meaning(r, env), Meaning(Apply(f, Null, r), env);
      && (f == FArith(ADD) || f == FArith(SUB) ==> x.VData? && v == VData(env.arith(f.op, 0, x.d)))
      && (f == FNeg ==> x.VData? && v == VData(env.neg(x.d)))
      && (f == FNot ==> x.VBool? && v == VBool(!x.b))
      && (f == FValidHeader ==> x.VHeader? && v == VBool(env.validHeader(x.h)))
      && (f == FValidUnion ==> x.VUnion? && v == VBool(env.validUnion(x.u)))
      && (f == FDataToBool ==> x.VData? && (v == VBool(false) <==> x.d == 0))
      && (f == FBoolToData ==> x.VBool? && (x.b ==> v == VData(1)) && (!x.b ==> v == VData(0)))
      && (f == FSizeStack ==> x.VStack? && v == VData(env.count(x.s)))
      && (f == FLastStackIndex ==> x.VStack? && v == VData(env.count(x.s) - 1))
  {
  }

  /** The constructs that are no operation. */
  lemma IndexedMeans(a: int, o: int, i: Expr, env: Env)
    ensures Meaning(Hex(o), env) == VData(o)
    ensures TypeOf(RegisterAt(a, i)).Some? ==>
              Meaning(i, env).VData? && Meaning(RegisterAt(a, i), env) == VData(env.register(a, Meaning(i, env).d))
    ensures TypeOf(AccessField(i, o)).Some? ==>
              Meaning(i, env).VHeader? && Meaning(AccessField(i, o), env) == VData(env.field(Meaning(i, env).h, o))
  {
  }

  lemma TernaryMeans(c: Expr, l: Expr, r: Expr, env: Env)
    requires TypeOf(Ternary(c, l, r)).Some?
    ensures Meaning(c, env).VBool?
    ensures Meaning(c, env) == VBool(true) ==> Meaning(Ternary(c, l, r), env) == Meaning(l, env)
    ensures Meaning(c, env) == VBool(false) ==> Meaning(Ternary(c, l, r), env) == Meaning(r, env)
  {
  }

  lemma CompareMeans(q: bool, l: Expr, r: Expr, env: Env)
    requires TypeOf(Compare(q, l, r)).Some?
    ensures TypeOf(l).Some? && TypeOf(r).Some?
    ensures var x, y, v := Meaning(l, env), Meaning(r, env), Meaning(Compare(q, l, r), env);
      && !x.VStack?
      && (x.VData? || x.VBool? ==> v == VBool((x == y) == q))
      && (x.VHeader? ==> y.VHeader? && v == VBool(env.sameHeader(x.h, y.h) == q))
      && (x.VUnion? ==> y.VUnion? && v == VBool(env.sameUnion(x.u, y.u) == q))
  {
    hide OpcodeTy, LeafTy, Takes, Named, Result;
  }

  /** What is loaded from outside. */
  lemma AtomMeans(x: int, o: int, b: bool, env: Env)
    ensures Meaning(Atom(LField(x, o)), env) == VData(env.field(x, o))
    ensures Meaning(Atom(LLastStackField(x, o)), env) == VData(env.lastStackField(x, o))
    ensures Meaning(Atom(LLocal(o)), env) == VData(env.local(o))
    ensures Meaning(Atom(LRegisterRef(x, o)), env) == VData(env.register(x, o))
    ensures Meaning(Atom(LBool(b)), env) == VBool(b)
    ensures Meaning(Atom(LHeader(x)), env) == VHeader(x) && Meaning(Atom(LUnion(x)), env) == VUnion(x)
    ensures Meaning(Atom(LHeaderStack(x)), env) == VStack(x) && Meaning(Atom(LUnionStack(x)), env) == VStack(x)
  {
  }

  /** The types of what is loaded, and of what operations give. */
  lemma AtomTypes(x: int, o: int, b: bool)
    ensures TypeOf(Hex(o)) == TypeOf(Atom(LField(x, o))) == TypeOf(Atom(LLastStackField(x, o))) == Some(DATA)
    ensures TypeOf(Atom(LLocal(o))) == TypeOf(Atom(LRegisterRef(x, o))) == Some(DATA) && TypeOf(Atom(LBool(b))) == Some(BOOL)
    ensures TypeOf(Atom(LHeader(x))) == Some(HEADER) && TypeOf(Atom(LHeaderStack(x))) == Some(HEADER_STACK)
    ensures TypeOf(Atom(LUnion(x))) == Some(UNION) && TypeOf(Atom(LUnionStack(x))) == Some(UNION_STACK)
  {
  }

  lemma OperationTypes(f: Fun, l: Expr, r: Expr)
    requires TypeOf(Apply(f, l, r)).Some?
    ensures f == FDerefHeaderStack ==> TypeOf(l) == Some(HEADER_STACK) && TypeOf(Apply(f, l, r)) == Some(HEADER)
    ensures f == FDerefUnionStack ==> TypeOf(l) == Some(UNION_STACK) && TypeOf(Apply(f, l, r)) == Some(UNION)
    ensures f.FArith? || f in {FNeg, FBoolToData, FLastStackIndex, FSizeStack} ==> TypeOf(Apply(f, l, r)) == Some(DATA)
    ensures f.FCmp? || f.FCmpBool? || f.FCmpHeader? || f.FCmpUnion? ==> TypeOf(Apply(f, l, r)) == Some(BOOL)
    ensures f in {FAnd, FOr, FNot, FValidHeader, FValidUnion, FDataToBool} ==> TypeOf(Apply(f, l, r)) == Some(BOOL)
  {
  }

  // ---------------------------------------------------------------- the type the builder reports

  /** The type the builder reports; `None` where one of its assertions fails. */
  function Reported(e: Expr): Option<Ty>
  {
    match e
    case Null => Some(UNKNOWN)
    case Atom(l) => Some(LeafTy(l))
    case Hex(_) => Some(DATA)
    case RegisterAt(_, i) => if Reported(i).Some? then Some(DATA) else None
    case Apply(f, l, r) => if Reported(l).Some? && Reported(r).Some? then Some(OpcodeTy(f)) else None
    case Compare(q, l, r) =>
      var t := Reported(l);
      if t.Some? && t == Reported(r) && t != Some(UNKNOWN) && CompareOp(t.value, q).Some? then Some(BOOL) else None
    case AccessField(l, _) => if Reported(l).Some? then Some(UNKNOWN) else None
    case Ternary(c, l, r) =>
      if Reported(c).Some? && Reported(l).Some? && Reported(l) == Reported(r) then Reported(l) else None
  }

  /** A field access, or a conditional that ends in one: the builder does not know its type. */
  predicate Untyped(e: Expr)
  {
    e.AccessField? || (e.Ternary? && Untyped(e.l))
  }

  /** No comparison has an untyped operand, and no conditional has one untyped branch. */
  predicate Buildable(e: Expr)
  {
    match e
    case Null | Atom(_) | Hex(_) => true
    case RegisterAt(_, i) => Buildable(i)
    case Apply(_, l, r) => Buildable(l) && Buildable(r)
    case Compare(_, l, r) => Buildable(l) && Buildable(r) && !Untyped(l) && !Untyped(r)
    case AccessField(l, _) => Buildable(l)
    case Ternary(c, l, r) => Buildable(c) && Buildable(l) && Buildable(r) && (Untyped(l) <==> Untyped(r))
  }

  /** When a well-typed expression builds, and what type is then reported for it. */
  lemma {:induction false} BuildsIff(e: Expr)
    requires TypeOf(e).Some?
    ensures Reported(e).Some? <==> Buildable(e)
    ensures Buildable(e) ==> Reported(e) == if Untyped(e) then Some(UNKNOWN) else TypeOf(e)
  {
    match e
    case Atom(_) | Hex(_) =>
    case RegisterAt(_, i) => BuildsIff(i);
    case Apply(f, l, r) => if !l.Null? { BuildsIff(l); } BuildsIff(r);
    case Compare(_, l, r) => BuildsIff(l); BuildsIff(r);
    case AccessField(l, _) => BuildsIff(l);
    case Ternary(c, l, r) => BuildsIff(c); BuildsIff(l); BuildsIff(r);
  }

  /** A field reached through a header expression cannot be compared: the builder's assertion fails. */
  lemma FieldAccessCannotBeCompared(h: int, off: int, v: int)
    ensures var e := Compare(true, AccessField(Atom(LHeader(h)), off), Hex(v));
      TypeOf(e) == Some(BOOL) && Reported(e) == None
  {
    var l := AccessField(Atom(LHeader(h)), off);
    assert TypeOf(Atom(LHeader(h))) == Reported(Atom(LHeader(h))) == Some(HEADER);
    assert TypeOf(l) == Some(DATA) && Reported(l) == Some(UNKNOWN);
  }

  // ---------------------------------------------------------------- filling in the operands

  /** The same expression with every operand in place, which is what the emitted code follows. A register at a constant
      index is loaded directly. */
  function Desugar(e: Expr): (x: Core)
    requires TypeOf(e).Some?
  {
    match e
    case Atom(l) => Leaf(l)
    case Hex(v) => Const(v)
    case RegisterAt(a, i) => if i.Hex? then Leaf(LRegisterRef(a, i.v)) else Node1(FRegisterGen(a), Desugar(i))
    case Apply(f, l, r) =>
      if !l.Null? then Node2(f, Desugar(l), Desugar(r))
      else if PlusOrMinus(f) then Node2(f, Const(0), Desugar(r))
      else Node1(f, Desugar(r))
    case Compare(q, l, r) => Node2(CompareOp(TypeOf(l).value, q).value, Desugar(l), Desugar(r))
    case AccessField(l, o) => Node1(FAccessField(o), Desugar(l))
    case Ternary(c, l, r) => Cond(Desugar(c), Desugar(l), Desugar(r))
  }

  lemma LeafKinds(l: ExprLang.Leaf)
    ensures KindOfTy(LeafTy(l)) == Some(LeafKind(l))
  {
  }

  /** Operands are of the kinds the opcodes pop. */
  lemma {:induction false} DesugarOk(e: Expr)
    requires TypeOf(e).Some?
    ensures Ok(Desugar(e)) && KindOfTy(TypeOf(e).value) == Some(KindOfCore(Desugar(e)))
  {
    match e
    case Atom(l) => LeafKinds(l);
    case Hex(_) =>
    case RegisterAt(_, i) => DesugarOk(i);
    case Apply(f, l, r) => if !l.Null? { DesugarOk(l); } DesugarOk(r); ResultHasTy(f);
    case Compare(_, l, r) => DesugarOk(l); DesugarOk(r);
    case AccessField(l, _) => DesugarOk(l);
    case Ternary(c, l, r) => DesugarOk(c); DesugarOk(l); DesugarOk(r);
  }

  /** The code for an expression stands for what the expression means. */
  ghost predicate Follows(e: Expr, env: Env)
    requires TypeOf(e).Some?
  {
    Ok(Desugar(e)) && Denote(Desugar(e), env) == Meaning(e, env)
  }

  lemma ApplyFollows(f: Fun, l: Expr, r: Expr, env: Env)
    requires TypeOf(Apply(f, l, r)).Some? && Ok(Desugar(Apply(f, l, r)))
    requires (!l.Null? ==> Follows(l, env)) && Follows(r, env)
    ensures Follows(Apply(f, l, r), env)
  {
    hide Takes, OpcodeTy;
    if l.Null? && PlusOrMinus(f) {
      assert Desugar(Apply(f, l, r)) == Node2(f, Const(0), Desugar(r));
      assert Denote(Const(0), env) == VData(0);
    }
  }

  lemma CompareFollows(q: bool, l: Expr, r: Expr, env: Env)
    requires TypeOf(Compare(q, l, r)).Some? && Ok(Desugar(Compare(q, l, r)))
    requires Follows(l, env) && Follows(r, env)
    ensures Follows(Compare(q, l, r), env)
  {
    hide OpcodeTy, Takes, Named, LeafTy;
  }

  lemma UnaryFollows(a: int, i: Expr, o: int, env: Env)
    requires TypeOf(i).Some? && Follows(i, env)
    ensures TypeOf(RegisterAt(a, i)).Some? && Ok(Desugar(RegisterAt(a, i))) ==> Follows(RegisterAt(a, i), env)
    ensures TypeOf(AccessField(i, o)).Some? && Ok(Desugar(AccessField(i, o))) ==> Follows(AccessField(i, o), env)
  {
  }

  lemma TernaryFollows(c: Expr, l: Expr, r: Expr, env: Env)
    requires TypeOf(Ternary(c, l, r)).Some? && Ok(Desugar(Ternary(c, l, r)))
    requires Follows(c, env) && Follows(l, env) && Follows(r, env)
    ensures Follows(Ternary(c, l, r), env)
  {
  }

  lemma LeafFollows(e: Expr, env: Env)
    requires e.Atom? || e.Hex?
    ensures Follows(e, env)
  {
  }

  lemma PartsTyped(e: Expr)
    requires TypeOf(e).Some?
    ensures e.RegisterAt? ==> TypeOf(e.index).Some?
    ensures e.Apply? || e.Compare? || e.Ternary? ==> (!e.l.Null? ==> TypeOf(e.l).Some?) && TypeOf(e.r).Some?
    ensures e.Compare? || e.AccessField? || e.Ternary? ==> TypeOf(e.l).Some?
    ensures e.Ternary? ==> TypeOf(e.c).Some?
    ensures !e.Null?
  {
  }

  lemma {:induction false} DesugarFollows(e: Expr, env: Env)
    requires TypeOf(e).Some?
    ensures Follows(e, env)
  {
    hide *;
    PartsTyped(e);
    DesugarOk(e);
    match e
    case Null =>
    case Atom(_) | Hex(_) => LeafFollows(e, env);
    case RegisterAt(a, i) => DesugarFollows(i, env); UnaryFollows(a, i, 0, env);
    case Apply(f, l, r) => if !l.Null? { DesugarFollows(l, env); } DesugarFollows(r, env); ApplyFollows(f, l, r, env);
    case Compare(q, l, r) => DesugarFollows(l, env); DesugarFollows(r, env); CompareFollows(q, l, r, env);
    case AccessField(l, o) => DesugarFollows(l, env); UnaryFollows(0, l, o, env);
    case Ternary(c, l, r) =>
      DesugarFollows(c, env); DesugarFollows(l, env); DesugarFollows(r, env);
      TernaryFollows(c, l, r, env);
  }

  /** Filling in the operands keeps the meaning. */
  lemma DesugarMeans(e: Expr, env: Env)
    requires TypeOf(e).Some? && Ok(Desugar(e))
    ensures Denote(Desugar(e), env) == Meaning(e, env)
  {
    DesugarFollows(e, env);
  }
}
