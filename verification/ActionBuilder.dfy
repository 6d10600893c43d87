/** Building an action: primitives in order, all their parameters in one vector, with constants, strings and expression
    temporaries on the side; and running it, where primitives may jump. */
module ActionBuilder {
  import opened Sequences

  /** A parameter as the configuration gives it. */
  datatype Cfg =
    | CConst(v: int) | CActionData(off: nat) | CExpression(e: int) | CRegisterGen(array: int, e: int)
    | CString(s: string) | CPlain(tag: int, a: int, b: int)   // fields, headers, stacks, registers, externs, ...

  /** A parameter as the action stores it. Strings are pointers into a vector, valid until that vector is reallocated:
      the generation tells when. Expressions carry the temporary that receives their value. */
  datatype Param =
    | Const(off: nat) | ActionData(off: nat) | Expression(temp: nat, e: int) | RegisterGen(array: int, e: int)
    | Str(generation: nat, idx: nat) | Plain(tag: int, a: int, b: int)

  datatype Prim = Prim(op: int, offset: nat, num: nat)

  datatype Code = OK | WRONG_NUMBER | BAD_RUNTIME_DATA

  function CountExpr(cs: seq<Cfg>): nat
  {
    if cs == [] then 0 else CountExpr(cs[..|cs| - 1]) + if cs[|cs| - 1].CExpression? then 1 else 0
  }

  function CountStr(cs: seq<Cfg>): nat
  {
    if cs == [] then 0 else CountStr(cs[..|cs| - 1]) + if cs[|cs| - 1].CString? then 1 else 0
  }

  lemma {:induction false} CountsGrow(cs: seq<Cfg>, i: nat)
    requires i <= |cs|
    ensures CountExpr(cs[..i]) <= CountExpr(cs) && CountStr(cs[..i]) <= CountStr(cs)
    decreases |cs|
  {
    if i < |cs| {
      CountsGrow(cs[..|cs| - 1], i);
      assert cs[..|cs| - 1][..i] == cs[..i];
    } else {
      assert cs[..i] == cs;
    }
  }

  /** What a stored parameter stands for; a stale pointer stands for nothing. */
  function Resolve(p: Param, consts: seq<int>, strings: seq<string>, generation: nat): (r: seq<Cfg>)
    ensures |r| <= 1
  {
    match p
    case Const(off) => if off < |consts| then [CConst(consts[off])] else []
    case ActionData(off) => [CActionData(off)]
    case Expression(_, e) => [CExpression(e)]
    case RegisterGen(a, e) => [CRegisterGen(a, e)]
    case Str(g, i) => if g == generation && i < |strings| then [CString(strings[i])] else []
    case Plain(t, a, b) => [CPlain(t, a, b)]
  }

  /** Stored parameter `p` is the configured `c`, the last of `before + [c]`. */
  ghost predicate Stored(p: Param, before: seq<Cfg>, c: Cfg, consts: seq<int>, strings: seq<string>, generation: nat)
  {
    && Resolve(p, consts, strings, generation) == [c]
    && (p.Expression? ==> p.temp == CountExpr(before) + 1)
    && (p.Str? ==> p.idx == CountStr(before))
  }

  ghost predicate AllStored(params: seq<Param>, flat: seq<Cfg>, consts: seq<int>, strings: seq<string>, generation: nat)
  {
    && |params| == |flat|
    && forall j | 0 <= j < |flat| :: Stored(params[j], flat[..j], flat[j], consts, strings, generation)
  }

  lemma StoredPush(params: seq<Param>, flat: seq<Cfg>, p: Param, c: Cfg, consts: seq<int>, strings: seq<string>, generation: nat)
    requires AllStored(params, flat, consts, strings, generation) && Stored(p, flat, c, consts, strings, generation)
    ensures AllStored(params + [p], flat + [c], consts, strings, generation)
    ensures CountExpr(flat + [c]) == CountExpr(flat) + (if c.CExpression? then 1 else 0)
    ensures CountStr(flat + [c]) == CountStr(flat) + (if c.CString? then 1 else 0)
  {
    var f := flat + [c];
    assert f[..|flat|] == flat;
    forall j | 0 <= j < |f| ensures Stored((params + [p])[j], f[..j], f[j], consts, strings, generation) {
      if j < |flat| {
        assert f[..j] == flat[..j];
        assert Stored(params[j], flat[..j], flat[j], consts, strings, generation);
      }
    }
  }

  lemma StoredMoreConsts(params: seq<Param>, flat: seq<Cfg>, consts: seq<int>, v: int, strings: seq<string>, generation: nat)
    requires AllStored(params, flat, consts, strings, generation)
    ensures AllStored(params, flat, consts + [v], strings, generation)
  {
    forall j | 0 <= j < |flat| ensures Stored(params[j], flat[..j], flat[j], consts + [v], strings, generation) {
      assert Stored(params[j], flat[..j], flat[j], consts, strings, generation);
    }
  }

  /** A string pointer after the strings have moved. */
  function Moved(p: Param, generation: nat): Param { if p.Str? then Str(generation, p.idx) else p }

  lemma StoredMoved(params: seq<Param>, params': seq<Param>, flat: seq<Cfg>, consts: seq<int>, strings: seq<string>, s: string,
                    g: nat, g': nat)
    requires AllStored(params, flat, consts, strings, g)
    requires |params'| == |params| && forall j | 0 <= j < |params| :: params'[j] == Moved(params[j], g')
    ensures AllStored(params', flat, consts, strings + [s], g')
  {
    forall j | 0 <= j < |flat| ensures Stored(params'[j], flat[..j], flat[j], consts, strings + [s], g') {
      assert Stored(params[j], flat[..j], flat[j], consts, strings, g);
    }
  }

  lemma {:induction false} CountIs(flat: seq<Cfg>, i: nat)
    requires i <= |flat|
    ensures CountExpr(flat[..i]) == |set j | 0 <= j < i && flat[j].CExpression?|
  {
    if i > 0 {
      CountIs(flat, i - 1);
      CountNext(flat, i - 1);
      var before := set j | 0 <= j < i - 1 && flat[j].CExpression?;
      assert (set j | 0 <= j < i && flat[j].CExpression?) == if flat[i - 1].CExpression? then before + {i - 1} else before;
    }
  }

  lemma CountNext(flat: seq<Cfg>, i: nat)
    requires i < |flat|
    ensures CountExpr(flat[..i + 1]) == CountExpr(flat[..i]) + (if flat[i].CExpression? then 1 else 0)
    ensures CountStr(flat[..i + 1]) == CountStr(flat[..i]) + (if flat[i].CString? then 1 else 0)
  {
    assert flat[..i + 1][..i] == flat[..i];
  }

  /** The counter of temporaries, shared by all actions. */
  class Temporaries {
    var count: nat

    constructor ()
      ensures count == 1
    {
      count := 1;
    }
  }

  class ActionFn {
    const numRuntime: nat
    const temps: Temporaries
    var params: seq<Param>
    var prims: seq<Prim>
    var consts: seq<int>
    var strings: seq<string>
    var generation: nat
    ghost var flat: seq<Cfg>         // what the parameters were configured as
    ghost var given: seq<seq<Cfg>>   // the same, primitive by primitive

    constructor (numRuntime: nat, temps: Temporaries)
      requires temps.count >= 1
      ensures Whole() && given == [] && prims == [] && this.temps == temps && this.numRuntime == numRuntime
    {
      this.numRuntime, this.temps := numRuntime, temps;
      params, prims, consts, strings, generation := [], [], [], [], 0;
      flat, given := [], [];
    }

    ghost predicate Valid()
      reads this, temps
    {
      && AllStored(params, flat, consts, strings, generation)
      && |strings| == CountStr(flat)
      && CountExpr(flat) < temps.count
      && forall j | 0 <= j < |flat| && flat[j].CActionData? :: flat[j].off < numRuntime
    }

    /** No primitive is half-built: the windows of the primitives are the parameters given to each, in order. */
    ghost predicate Whole()
      reads this, temps
    {
      && Valid() && |prims| == |given| && flat == Flatten(given)
      && forall i | 0 <= i < |prims| :: prims[i].offset == |Flatten(given[..i])| && prims[i].num == |given[i]|
    }

    method PushBackPrimitive(op: int, num: nat)
      modifies this`prims
      ensures prims == old(prims) +
        [Prim(op, if old(prims) == [] then 0 else old(prims)[|old(prims)| - 1].offset + old(prims)[|old(prims)| - 1].num, num)]
    {
      var offset := 0;
      if prims != [] {
        offset := prims[|prims| - 1].offset;
        offset := offset + prims[|prims| - 1].num;
      }
      prims := prims + [Prim(op, offset, num)];
    }

    /** Parameters that need nothing on the side. */
    method PushPlain(c: Cfg, p: Param)
      requires Valid() && Resolve(p, consts, strings, generation) == [c] && !p.Expression? && !p.Str?
      requires c.CActionData? ==> c.off < numRuntime
      modifies this`params, this`flat
      ensures Valid() && flat == old(flat) + [c]
    {
      StoredPush(params, flat, p, c, consts, strings, generation);
      params := params + [p];
      flat := flat + [c];
    }

    method PushConst(v: int)
      requires Valid()
      modifies this`params, this`consts, this`flat
      ensures Valid() && flat == old(flat) + [CConst(v)]
    {
      StoredMoreConsts(params, flat, consts, v, strings, generation);
      consts := consts + [v];
      PushPlain(CConst(v), Const(|consts| - 1));
    }

    /** The temporary after those of the action's other expressions; the shared counter keeps up. The assertion on the
        counter cannot fail. */
    method PushExpression(e: int)
      requires Valid()
      modifies this`params, this`flat, temps
      ensures Valid() && flat == old(flat) + [CExpression(e)] && temps.count >= old(temps.count)
    {
      hide CountExpr, CountStr;
      EmptyCounts();
      var n: nat := 1;
      var i := 0;
      assert flat[..0] == [];
      while i < |params|
        invariant Valid() && flat == old(flat) && temps.count == old(temps.count)
        invariant 0 <= i <= |params| && n == CountExpr(flat[..i]) + 1
      {
        CountNext(flat, i);
        assert Stored(params[i], flat[..i], flat[i], consts, strings, generation);
        if params[i].Expression? { n := n + 1; }
        i := i + 1;
      }
      assert flat[..i] == flat;
      assert n <= temps.count;
      if n == temps.count { temps.count := temps.count + 1; }
      StoredPush(params, flat, Expression(n, e), CExpression(e), consts, strings, generation);
      params := params + [Expression(n, e)];
      flat := flat + [CExpression(e)];
    }

    /** Growing the vector of strings moves them all, so every string parameter is pointed at its string again. */
    method PushString(s: string)
      requires Valid()
      modifies this`params, this`strings, this`generation, this`flat
      ensures Valid() && flat == old(flat) + [CString(s)]
    {
      hide CountExpr, CountStr;
      EmptyCounts();
      strings := strings + [s];
      generation := generation + 1;
      var idx: nat, i := 0, 0;
      assert flat[..0] == [];
      while i < |params|
        invariant flat == old(flat) && strings == old(strings) + [s] && generation == old(generation) + 1
        invariant 0 <= i <= |params| == |old(params)| == |flat| && idx == CountStr(flat[..i])
        invariant forall j | i <= j < |params| :: params[j] == old(params)[j]
        invariant forall j | 0 <= j < i :: params[j] == Moved(old(params)[j], generation)
      {
        CountNext(flat, i);
        assert Stored(old(params)[i], flat[..i], flat[i], consts, old(strings), old(generation));
        if params[i].Str? {
          params := params[i := Str(generation, idx)];
          idx := idx + 1;
        }
        i := i + 1;
      }
      assert flat[..i] == flat;
      assert |strings| - 1 == idx;
      StoredMoved(old(params), params, flat, consts, old(strings), s, old(generation), generation);
      StoredPush(params, flat, Str(generation, |strings| - 1), CString(s), consts, strings, generation);
      params := params + [Str(generation, |strings| - 1)];
      flat := flat + [CString(s)];
    }

    method PushCfg(c: Cfg) returns (ok: bool)
      requires Valid()
      modifies this`params, this`consts, this`strings, this`generation, this`flat, temps
      ensures ok <==> !BadRuntime(c, numRuntime)
      ensures ok ==> Valid() && flat == old(flat) + [c]
      ensures temps.count >= old(temps.count)
    {
      hide AllStored, CountExpr, CountStr;
      ok := true;
      match c
      case CConst(v) => PushConst(v);
      case CActionData(off) =>
        if off >= numRuntime { return false; }
        PushPlain(c, ActionData(off));
      case CExpression(e) => PushExpression(e);
      case CRegisterGen(a, e) => PushPlain(c, RegisterGen(a, e));
      case CString(s) => PushString(s);
      case CPlain(t, a, b) => PushPlain(c, Plain(t, a, b));
    }

    /** Add one primitive with its configured parameters. The action is whole afterwards exactly when the number of
        parameters is the primitive's own and every reference to runtime data is in range; otherwise an exception ends
        the loading of the configuration. */
    method AddPrimitive(op: int, num: nat, cfgs: seq<Cfg>) returns (rc: Code)
      requires Whole()
      modifies this, temps
      ensures rc == Check(num, cfgs, numRuntime)
      ensures rc == OK <==> num == |cfgs| && forall j | 0 <= j < |cfgs| && cfgs[j].CActionData? :: cfgs[j].off < numRuntime
      ensures rc == WRONG_NUMBER <==> num != |cfgs|
      ensures rc == OK ==> Whole() && given == old(given) + [cfgs] && prims[..|old(prims)|] == old(prims) && prims[|old(prims)|].op == op
      ensures temps.count >= old(temps.count)
    {
      hide AllStored, Flatten, CountExpr, CountStr;
      NextOffset(prims, given);
      PushBackPrimitive(op, num);
      if num != |cfgs| { return WRONG_NUMBER; }
      var i := 0;
      while i < |cfgs|
        invariant 0 <= i <= |cfgs| && Valid() && flat == old(flat) + cfgs[..i]
        invariant temps.count >= old(temps.count)
        invariant prims == old(prims) + [Prim(op, |old(flat)|, num)] && given == old(given)
        invariant forall j | 0 <= j < i :: !BadRuntime(cfgs[j], numRuntime)
      {
        var ok := PushCfg(cfgs[i]);
        if !ok { return BAD_RUNTIME_DATA; }
        assert cfgs[..i + 1] == cfgs[..i] + [cfgs[i]];
        i := i + 1;
      }
      assert cfgs[..i] == cfgs;
      FlattenPush(given, cfgs);
      given := given + [cfgs];
      forall k | 0 <= k < |prims| ensures prims[k].offset == |Flatten(given[..k])| && prims[k].num == |given[k]| {
        assert given[..k] == old(given)[..k];
      }
      rc := OK;
    }

    /** The parameters a primitive sees are those it was given. */
    lemma WindowIs(i: nat, j: nat)
      requires Whole() && i < |prims| && j < prims[i].num
      ensures prims[i].offset + prims[i].num <= |params|
      ensures Resolve(params[prims[i].offset + j], consts, strings, generation) == [given[i][j]]
    {
      hide Flatten;
      FlattenSlice(given, i);
      var k := prims[i].offset + j;
      assert flat[k] == flat[prims[i].offset..prims[i].offset + |given[i]|][j];
      assert Stored(params[k], flat[..k], flat[k], consts, strings, generation);
    }

    /** Run the action for at most `steps` primitives. `next` says where a primitive wants to go on, which may be a jump, forwards
        or backwards; a target that is no primitive ends the action.
        Whatever the jumps, every primitive sees exactly the parameters it was given. */
    method Execute(next: (int, int) -> int, steps: nat) returns (path: seq<int>, seen: seq<seq<Cfg>>)
      requires Whole()
      ensures |path| <= steps && Traced(path, seen, given, next)
      ensures |path| < steps ==> !(0 <= From(path, next, |path|) < |prims|)
      ensures forall k, j | 0 <= k < |seen| && 0 <= j < |seen[k]| && seen[k][j].CActionData? :: seen[k][j].off < numRuntime
    {
      assert |prims| == |given|;
      RuntimeInRange();
      hide *;
      path, seen := [], [];
      NothingTraced(given, next);
      var idx := 0;
      while |path| < steps && 0 <= idx < |prims|
        invariant |path| <= steps && idx == From(path, next, |path|) && Traced(path, seen, given, next)
        invariant forall k, j | 0 <= k < |seen| && 0 <= j < |seen[k]| && seen[k][j].CActionData? :: seen[k][j].off < numRuntime
        decreases steps - |path|
      {
        var window := ReadWindow(idx);
        TracedPush(path, seen, given, next, idx);
        path, seen := path + [idx], seen + [window];
        idx := next(|path| - 1, idx);
      }
    }

    /** No primitive is given a piece of runtime data that a table entry does not have. */
    lemma RuntimeInRange()
      requires Whole()
      ensures forall i, j | 0 <= i < |given| && 0 <= j < |given[i]| && given[i][j].CActionData? :: given[i][j].off < numRuntime
    {
      hide Flatten, AllStored, CountExpr, CountStr;
      forall i, j | 0 <= i < |given| && 0 <= j < |given[i]| && given[i][j].CActionData? ensures given[i][j].off < numRuntime {
        FlattenSlice(given, i);
        assert given[i][j] == Flatten(given)[|Flatten(given[..i])| + j];
      }
    }

    /** A primitive reads the parameters of its own window. */
    method ReadWindow(i: nat) returns (window: seq<Cfg>)
      requires Whole() && i < |prims|
      ensures window == given[i]
    {
      hide Valid, Flatten, Resolve;
      window := [];
      while |window| < prims[i].num
        invariant |window| <= prims[i].num && window == given[i][..|window|]
      {
        WindowIs(i, |window|);
        window := window + Resolve(params[prims[i].offset + |window|], consts, strings, generation);
      }
    }

    /** Within an action, expressions have distinct temporaries, none of them the reserved one, all below the shared
        counter. */
    lemma TemporariesDistinct(i: nat, j: nat)
      requires Valid() && i < j < |params| && params[i].Expression? && params[j].Expression?
      ensures 0 < params[i].temp < params[j].temp < temps.count
    {
      hide CountExpr, CountStr;
      assert Stored(params[i], flat[..i], flat[i], consts, strings, generation);
      assert Stored(params[j], flat[..j], flat[j], consts, strings, generation);
      CountNext(flat, i);
      CountNext(flat, j);
      CountsGrow(flat, j + 1);
      CountsGrow(flat[..j], i + 1);
      assert flat[..j][..i + 1] == flat[..i + 1];
    }

    /** An expression's temporary is one more than the number of expressions before it in the action. */
    lemma TemporaryIs(i: nat)
      requires Valid() && i < |params| && params[i].Expression?
      ensures params[i].temp == 1 + |set j | 0 <= j < i && params[j].Expression?|
    {
      hide CountExpr, CountStr;
      assert Stored(params[i], flat[..i], flat[i], consts, strings, generation);
      CountIs(flat, i);
      forall j | 0 <= j < i ensures params[j].Expression? <==> flat[j].CExpression? {
        assert Stored(params[j], flat[..j], flat[j], consts, strings, generation);
      }
      assert (set j | 0 <= j < i && params[j].Expression?) == set j | 0 <= j < i && flat[j].CExpression?;
    }

    /** The windows tile the vector: every parameter is in the window of exactly one primitive. */
    lemma WindowsTile(j: nat)
      requires Whole() && j < |params|
      ensures exists i :: 0 <= i < |prims| && InWindow(prims[i], j) && forall k | 0 <= k < |prims| && InWindow(prims[k], j) :: k == i
    {
      assert |params| == |flat|;
      hide Flatten, AllStored;
      var i := Locate(given, j);
      assert InWindow(prims[i], j);
      forall k | 0 <= k < |prims| && InWindow(prims[k], j) ensures k == i {
        if k < i { OffsetsGrow(given, k, i); } else if i < k { OffsetsGrow(given, i, k); }
      }
    }
  }

  /** Where step `k` of an execution path starts: at the first primitive, or where the one before wants to go on. */
  function From(path: seq<int>, next: (int, int) -> int, k: nat): int
    requires k <= |path|
  {
    if k == 0 then 0 else next(k - 1, path[k - 1])
  }

  /** A path through the action: every step follows from the one before, and saw the parameters given to its primitive. */
  ghost predicate Traced(path: seq<int>, seen: seq<seq<Cfg>>, given: seq<seq<Cfg>>, next: (int, int) -> int)
  {
    && |seen| == |path|
    && forall k | 0 <= k < |path| :: path[k] == From(path, next, k) && 0 <= path[k] < |given| && seen[k] == given[path[k]]
  }

  lemma NothingTraced(given: seq<seq<Cfg>>, next: (int, int) -> int)
    ensures Traced([], [], given, next) && From([], next, 0) == 0
  {
  }

  lemma TracedPush(path: seq<int>, seen: seq<seq<Cfg>>, given: seq<seq<Cfg>>, next: (int, int) -> int, idx: int)
    requires Traced(path, seen, given, next) && idx == From(path, next, |path|) && 0 <= idx < |given|
    ensures Traced(path + [idx], seen + [given[idx]], given, next)
    ensures From(path + [idx], next, |path| + 1) == next(|path|, idx)
  {
    var p := path + [idx];
    forall k: nat | k <= |path| ensures From(p, next, k) == From(path, next, k) { }
    assert From(p, next, |path| + 1) == next(|path|, idx);
    hide From;
    forall k | 0 <= k < |p| ensures p[k] == From(p, next, k) && 0 <= p[k] < |given| && (seen + [given[idx]])[k] == given[p[k]] {
      if k < |path| { assert path[k] == From(path, next, k); }
    }
  }

  predicate InWindow(p: Prim, j: nat) { p.offset <= j < p.offset + p.num }

  lemma {:induction false} Locate<T>(ss: seq<seq<T>>, j: nat) returns (i: nat)
    requires j < |Flatten(ss)|
    ensures i < |ss| && |Flatten(ss[..i])| <= j < |Flatten(ss[..i])| + |ss[i]|
    decreases |ss|
  {
    var t := ss[..|ss| - 1];
    if j < |Flatten(t)| {
      i := Locate(t, j);
      assert t[..i] == ss[..i];
    } else {
      i := |ss| - 1;
    }
  }

  lemma {:induction false} OffsetsGrow<T>(ss: seq<seq<T>>, i: nat, k: nat)
    requires i < k <= |ss|
    ensures |Flatten(ss[..i])| + |ss[i]| <= |Flatten(ss[..k])|
    decreases k
  {
    assert ss[..k][..k - 1] == ss[..k - 1];
    if i < k - 1 { OffsetsGrow(ss, i, k - 1); }
  }

  datatype Addition = Addition(action: nat, op: int, num: nat, cfgs: seq<Cfg>)

  /** An action is not disturbed when the counter of temporaries grows. */
  twostate lemma StaysWhole(f: ActionFn)
    requires old(f.Whole()) && unchanged(f) && f.temps.count >= old(f.temps.count)
    ensures f.Whole()
  {
    hide AllStored, Flatten, CountExpr, CountStr;
  }

  /** Any number of actions, built in any interleaving: as long as no addition is refused, all of them are whole. */
  method BuildActions(fns: seq<ActionFn>, temps: Temporaries, todo: seq<Addition>) returns (ok: bool)
    requires forall i | 0 <= i < |fns| :: fns[i].temps == temps && fns[i].Whole()
    requires forall k | 0 <= k < |todo| :: todo[k].action < |fns|
    modifies fns, temps
    ensures ok <==> forall k | 0 <= k < |todo| ::
      Check(todo[k].num, todo[k].cfgs, fns[todo[k].action].numRuntime) == OK
    ensures ok ==> forall i | 0 <= i < |fns| :: fns[i].Whole()
  {
    hide *;
    var k := 0;
    while k < |todo|
      invariant 0 <= k <= |todo|
      invariant forall i | 0 <= i < |fns| :: fns[i].Whole()
      invariant forall j | 0 <= j < k :: Check(todo[j].num, todo[j].cfgs, fns[todo[j].action].numRuntime) == OK
    {
      var f := fns[todo[k].action];
      label before:
      var rc := f.AddPrimitive(todo[k].op, todo[k].num, todo[k].cfgs);
      if rc != OK { return false; }
      forall i | 0 <= i < |fns| ensures fns[i].Whole() {
        if fns[i] != f { StaysWhole@before(fns[i]); }
      }
      k := k + 1;
    }
    ok := true;
  }

  predicate BadRuntime(c: Cfg, numRuntime: nat) { c.CActionData? && c.off >= numRuntime }

  function Check(num: nat, cfgs: seq<Cfg>, numRuntime: nat): Code
  {
    if num != |cfgs| then WRONG_NUMBER
    else if exists j :: 0 <= j < |cfgs| && BadRuntime(cfgs[j], numRuntime) then BAD_RUNTIME_DATA
    else OK
  }

  lemma EmptyCounts()
    ensures CountExpr([]) == 0 && CountStr([]) == 0
  {
  }

  /** The next primitive's window starts at the end of the vector. */
  lemma NextOffset(prims: seq<Prim>, given: seq<seq<Cfg>>)
    requires |prims| == |given|
    requires forall i | 0 <= i < |prims| :: prims[i].offset == |Flatten(given[..i])| && prims[i].num == |given[i]|
    ensures (if prims == [] then 0 else prims[|prims| - 1].offset + prims[|prims| - 1].num) == |Flatten(given)|
  {
  }
}
