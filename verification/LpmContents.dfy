/** What the trie promises its callers, in bits: a map from bit prefixes to values, over whole runs. */
module LpmContents {
  import opened Bytes
  import opened Bits
  import opened LpmNodes
  import opened LpmKeys
  import opened LpmTree
  import opened LpmDelete

  ghost function Contents(t: Tree): map<BitString, Value> { InBits(Slots(t)) }

  lemma PlaceBits(bytes: seq<Byte>, length: nat)
    requires length <= 8 * |bytes|
    ensures WellFormedKey(Place(bytes, length).key)
    ensures Join(Place(bytes, length)) == PrefixBits(bytes, length)
  {
    Located(bytes, length);
  }

  /** A slot holds something exactly when the map has the bit prefix, and then the same value. */
  ghost predicate HoldsAt(t: Tree, x: Slot, c: map<BitString, Value>, s: BitString)
  {
    (Stores(t, x) <==> s in c) && (Stores(t, x) ==> c[s] == t[x.at].prefixes[x.key])
  }

  /** Looking in a prefix's slot answers whether the prefix is stored, and with which value. */
  lemma PlaceContents(t: Tree, bytes: seq<Byte>, length: nat)
    requires length <= 8 * |bytes|
    ensures HoldsAt(t, Place(bytes, length), Contents(t), PrefixBits(bytes, length))
  {
    PlaceBits(bytes, length);
    SlotOf(Slots(t), Place(bytes, length));
  }

  // ---------------------------------------------------------------- single operations

  /** Delete, as the code performs it. */
  function Delete(t: Tree, bytes: seq<Byte>, length: nat): Tree
    requires WF(t) && length <= 8 * |bytes|
  {
    if Stores(t, Place(bytes, length)) then Remove(t, Place(bytes, length)) else t
  }

  /** Insert is map update on the leading bits: bits past the length do not matter. */
  lemma InsertRefinesMapUpdate(t: Tree, bytes: seq<Byte>, length: nat, v: Value)
    requires WF(t) && length <= 8 * |bytes|
    ensures WF(Insert(t, bytes, length, v))
    ensures GoodSlots(Slots(t)) ==> GoodSlots(Slots(Insert(t, bytes, length, v)))
    ensures Contents(Insert(t, bytes, length, v)) == Contents(t)[PrefixBits(bytes, length) := v]
  {
    InsertSlots(t, bytes, length, v);
    PlaceBits(bytes, length);
    UpdateBits(Slots(t), Place(bytes, length), v);
  }

  predicate OverwritesZero(t: Tree, bytes: seq<Byte>, length: nat)
    requires length <= 8 * |bytes|
  {
    var x := Place(bytes, length);
    Stores(t, x) && t[x.at].prefixes[x.key] == 0
  }

  /** The prefix is its node's last one, and the node has all 256 branches. */
  predicate HidesBranches(t: Tree, bytes: seq<Byte>, length: nat)
    requires length <= 8 * |bytes|
  {
    Stores(t, Place(bytes, length)) && CounterWraps(t, Place(bytes, length))
  }

  /** An insert keeps the counters equal to the map sizes exactly when it does not overwrite a stored 0. */
  lemma InsertKeepsCountersIff(t: Tree, bytes: seq<Byte>, length: nat, v: Value)
    requires Inv(t) && length <= 8 * |bytes|
    ensures Inv(Insert(t, bytes, length, v)) <==>
            !(PrefixBits(bytes, length) in Contents(t) && Contents(t)[PrefixBits(bytes, length)] == 0)
    ensures OverwritesZero(t, bytes, length) <==>
            PrefixBits(bytes, length) in Contents(t) && Contents(t)[PrefixBits(bytes, length)] == 0
  {
    PlaceContents(t, bytes, length);
    InsertKeepsInvIff(t, bytes, length, v);
  }

  // ---------------------------------------------------------------- delete, for every trie

  /** The other prefixes that a delete takes along: those stored at or below a node that it frees. */
  ghost function Lost(t: Tree, bytes: seq<Byte>, length: nat): (lost: set<BitString>)
    requires length <= 8 * |bytes|
    ensures lost <= Contents(t).Keys
  {
    var x := Place(bytes, length);
    if !Stores(t, x) then {}
    else set s | s in Contents(t) && s != PrefixBits(bytes, length) && Swept(t, x, SplitSlot(s).at)
  }

  /** What a swept slot holds is lost. */
  lemma SweptIsLost(t: Tree, bytes: seq<Byte>, length: nat, y: Slot)
    requires length <= 8 * |bytes| && Stores(t, Place(bytes, length)) && WellFormedKey(y.key)
    requires Stores(t, y) && y != Place(bytes, length) && Swept(t, Place(bytes, length), y.at)
    ensures Join(y) in Lost(t, bytes, length)
  {
    assert y in Slots(t);
    SlotsAreBits();
    SlotOf(Slots(t), y);
    PlaceBits(bytes, length);
  }

  lemma LostAt(t: Tree, bytes: seq<Byte>, length: nat, s: BitString)
    requires WF(t) && length <= 8 * |bytes| && Stores(t, Place(bytes, length))
    ensures s in Contents(Delete(t, bytes, length)) <==>
            s in Contents(t) && s != PrefixBits(bytes, length) && s !in Lost(t, bytes, length)
  {
    var x, y := Place(bytes, length), SplitSlot(s);
    PlaceBits(bytes, length);
    SlotsAreBits();
    assert y == x <==> s == PrefixBits(bytes, length);
    RemoveExact(t, x, y);
    BitsOf(Slots(t), s);
    BitsOf(Slots(Delete(t, bytes, length)), s);
  }

  /** Whatever state the counters are in: delete removes its prefix and exactly the prefixes that it takes along. */
  lemma DeleteExact(t: Tree, bytes: seq<Byte>, length: nat)
    requires WF(t) && length <= 8 * |bytes|
    ensures WF(Delete(t, bytes, length))
    ensures Contents(Delete(t, bytes, length)) == Contents(t) - {PrefixBits(bytes, length)} - Lost(t, bytes, length)
  {
    hide Delete, Lost, Contents, PrefixBits, Slots, WF, Place;
    DeleteOnlyRemoves(t, bytes, length);
    var c, d, p := Contents(t), Contents(Delete(t, bytes, length)), PrefixBits(bytes, length);
    forall s ensures s in d <==> s in c && s != p && s !in Lost(t, bytes, length) {
      if Stores(t, Place(bytes, length)) { LostAt(t, bytes, length, s); } else { NothingStored(t, bytes, length); }
    }
    assert d == c - {p} - Lost(t, bytes, length);
  }

  lemma NothingStored(t: Tree, bytes: seq<Byte>, length: nat)
    requires WF(t) && length <= 8 * |bytes| && !Stores(t, Place(bytes, length))
    ensures Delete(t, bytes, length) == t && Lost(t, bytes, length) == {} && PrefixBits(bytes, length) !in Contents(t)
  {
    PlaceContents(t, bytes, length);
  }

  lemma MinusIff<K, V>(m: map<K, V>, s: set<K>)
    requires s <= m.Keys
    ensures m - s == m <==> s == {}
  {
    if k :| k in s { assert k in m && k !in m - s; }
  }

  /** Delete is map removal exactly when it takes no other prefix along. */
  lemma DeleteRefinesMapRemovalIff(t: Tree, bytes: seq<Byte>, length: nat)
    requires WF(t) && length <= 8 * |bytes|
    ensures Contents(Delete(t, bytes, length)) == Contents(t) - {PrefixBits(bytes, length)} <==> Lost(t, bytes, length) == {}
  {
    DeleteExact(t, bytes, length);
    if !Stores(t, Place(bytes, length)) { NothingStored(t, bytes, length); }
    MinusIff(Contents(t) - {PrefixBits(bytes, length)}, Lost(t, bytes, length));
  }

  lemma LostIffLoses(t: Tree, bytes: seq<Byte>, length: nat)
    requires GoodSlots(Slots(t)) && length <= 8 * |bytes| && Stores(t, Place(bytes, length))
    ensures Lost(t, bytes, length) == {} <==> !LosesOthers(t, Place(bytes, length))
  {
    var x := Place(bytes, length);
    PlaceBits(bytes, length);
    if y: Slot :| Stores(t, y) && y != x && Swept(t, x, y.at) {
      assert y in Slots(t);
      SweptIsLost(t, bytes, length, y);
    }
    if s :| s in Lost(t, bytes, length) {
      SlotsAreBits();
      BitsOf(Slots(t), s);
      assert Stores(t, SplitSlot(s)) && SplitSlot(s) != x;
    }
  }

  /** Without useless nodes it is enough to look at the nodes on the way up: something is taken along exactly when one
      that the loop frees, all below it reading empty, has another prefix or another branch. */
  lemma LostIffFreedNodeHolds(t: Tree, bytes: seq<Byte>, length: nat)
    requires WF(t) && Tidy(t) && GoodSlots(Slots(t)) && length <= 8 * |bytes| && Stores(t, Place(bytes, length))
    ensures var x := Place(bytes, length);
      Lost(t, bytes, length) != {} <==> exists q :: Frees(t, x, q) && HoldsMore(t, x, q)
  {
    LostIffLoses(t, bytes, length);
    LosesIffFreedNodeHolds(t, Place(bytes, length));
  }

  /** With exact counters nothing is taken along, unless the prefix is the last of a node with all 256 branches. */
  lemma LostWithExactCountersIff(t: Tree, bytes: seq<Byte>, length: nat)
    requires Inv(t) && length <= 8 * |bytes|
    ensures Inv(Delete(t, bytes, length))
    ensures Lost(t, bytes, length) == {} <==> !HidesBranches(t, bytes, length)
  {
    var x := Place(bytes, length);
    if Stores(t, x) {
      RemoveShape(t, x);
      ExactCountersIff(t, x);
      LostIffLoses(t, bytes, length);
    }
  }

  /** From `t` to `u` the prefix and the lost ones are gone, nothing else changed, and a well-kept trie stays well kept. */
  ghost predicate RemovesAndLoses(t: Tree, u: Tree, bytes: seq<Byte>, length: nat)
    requires length <= 8 * |bytes|
  {
    && Contents(u) == Contents(t) - {PrefixBits(bytes, length)} - Lost(t, bytes, length)
    && (Inv(t) ==> Inv(u))
  }

  lemma DeleteActs(t: Tree, bytes: seq<Byte>, length: nat)
    requires WF(t) && length <= 8 * |bytes|
    ensures RemovesAndLoses(t, Delete(t, bytes, length), bytes, length)
  {
    DeleteExact(t, bytes, length);
    if Inv(t) { LostWithExactCountersIff(t, bytes, length); }
  }

  /** Whatever state the counters are in, delete removes the prefix and invents nothing. */
  lemma DeleteOnlyRemoves(t: Tree, bytes: seq<Byte>, length: nat)
    requires WF(t) && length <= 8 * |bytes|
    ensures WF(Delete(t, bytes, length))
    ensures GoodSlots(Slots(t)) ==> GoodSlots(Slots(Delete(t, bytes, length)))
    ensures PrefixBits(bytes, length) !in Contents(Delete(t, bytes, length))
    ensures forall s | s in Contents(Delete(t, bytes, length)) ::
      s in Contents(t) && Contents(Delete(t, bytes, length))[s] == Contents(t)[s]
  {
    var u := Delete(t, bytes, length);
    if Stores(t, Place(bytes, length)) {
      RemoveShape(t, Place(bytes, length));
    }
    PlaceContents(u, bytes, length);
    forall s | s in Contents(u) ensures s in Contents(t) && Contents(u)[s] == Contents(t)[s] {
      BitsOf(Slots(u), s);
      BitsOf(Slots(t), s);
    }
  }

  // ---------------------------------------------------------------- runs

  datatype Op = InsertOp(bytes: seq<Byte>, length: nat, v: Value) | DeleteOp(bytes: seq<Byte>, length: nat)

  predicate Sane(op: Op) { op.length <= 8 * |op.bytes| }

  function Apply(t: Tree, op: Op): Tree
    requires WF(t) && Sane(op)
  {
    match op
    case InsertOp(bytes, length, v) => Insert(t, bytes, length, v)
    case DeleteOp(bytes, length) => Delete(t, bytes, length)
  }

  function ApplyToMap(m: map<BitString, Value>, op: Op): map<BitString, Value>
    requires Sane(op)
  {
    match op
    case InsertOp(bytes, length, v) => m[PrefixBits(bytes, length) := v]
    case DeleteOp(bytes, length) => m - {PrefixBits(bytes, length)}
  }

  lemma ApplyWF(t: Tree, op: Op)
    requires WF(t) && Sane(op)
    ensures WF(Apply(t, op))
  {
    match op
    case InsertOp(bytes, length, v) => InsertSlots(t, bytes, length, v);
    case DeleteOp(bytes, length) => DeleteOnlyRemoves(t, bytes, length);
  }

  ghost function LostBy(t: Tree, op: Op): set<BitString>
    requires Sane(op)
  {
    if op.DeleteOp? then Lost(t, op.bytes, op.length) else {}
  }

  /** One step acts as the map does exactly when it is not a delete that takes other prefixes along. */
  lemma StepRefinesIff(t: Tree, op: Op)
    requires WF(t) && Sane(op)
    ensures WF(Apply(t, op))
    ensures Contents(Apply(t, op)) == ApplyToMap(Contents(t), op) <==> LostBy(t, op) == {}
  {
    match op
    case InsertOp(bytes, length, v) => InsertRefinesMapUpdate(t, bytes, length, v);
    case DeleteOp(bytes, length) =>
      DeleteExact(t, bytes, length);
      DeleteRefinesMapRemovalIff(t, bytes, length);
  }

  function Run(t: Tree, ops: seq<Op>): (u: Tree)
    requires WF(t) && forall op | op in ops :: Sane(op)
    ensures WF(u)
  {
    if ops == [] then t
    else
      var before := Run(t, ops[..|ops| - 1]);
      ApplyWF(before, ops[|ops| - 1]);
      Apply(before, ops[|ops| - 1])
  }

  function RunMap(m: map<BitString, Value>, ops: seq<Op>): map<BitString, Value>
    requires forall op | op in ops :: Sane(op)
  {
    if ops == [] then m else ApplyToMap(RunMap(m, ops[..|ops| - 1]), ops[|ops| - 1])
  }

  /** The prefixes that a run has lost: taken along by some delete, and neither stored nor deleted since. */
  ghost function Missing(ops: seq<Op>): set<BitString>
    requires forall op | op in ops :: Sane(op)
  {
    if ops == [] then {}
    else
      var front, op := ops[..|ops| - 1], ops[|ops| - 1];
      Missing(front) + LostBy(Run(Empty(), front), op) - {PrefixBits(op.bytes, op.length)}
  }

  lemma EmptyContents()
    ensures Contents(Empty()) == map[]
  {
    forall s ensures s !in Contents(Empty()) { BitsOf(Slots(Empty()), s); }
  }

  /** Taking keys out of a map before and after one operation on it. */
  lemma StepWithout(c: map<BitString, Value>, m: map<BitString, Value>, missing: set<BitString>, lost: set<BitString>, op: Op)
    requires Sane(op) && c == m - missing && (op.InsertOp? ==> lost == {})
    ensures ApplyToMap(c, op) - lost == ApplyToMap(m, op) - (missing + lost - {PrefixBits(op.bytes, op.length)})
  {
  }

  /** Every run of inserts and deletes from the empty trie, in any order and with any values: the trie is the plain map
      without the prefixes the run has lost. */
  lemma {:induction false} RunContents(ops: seq<Op>)
    requires forall op | op in ops :: Sane(op)
    ensures Contents(Run(Empty(), ops)) == RunMap(map[], ops) - Missing(ops) && Missing(ops) <= RunMap(map[], ops).Keys
    decreases |ops|
  {
    if ops == [] {
      EmptyContents();
    } else {
      var front, op := ops[..|ops| - 1], ops[|ops| - 1];
      var t := Run(Empty(), front);
      RunContents(front);
      StepContents(t, op);
      StepWithout(Contents(t), RunMap(map[], front), Missing(front), LostBy(t, op), op);
      assert LostBy(t, op) <= Contents(t).Keys;
    }
  }

  lemma StepContents(t: Tree, op: Op)
    requires WF(t) && Sane(op)
    ensures WF(Apply(t, op)) && Contents(Apply(t, op)) == ApplyToMap(Contents(t), op) - LostBy(t, op)
  {
    hide Inv, Slots, Lost;
    match op
    case InsertOp(bytes, length, v) => InsertRefinesMapUpdate(t, bytes, length, v);
    case DeleteOp(bytes, length) => DeleteExact(t, bytes, length);
  }

  /** The trie is the plain map exactly when the run has lost nothing. */
  lemma RunRefinesMapIff(ops: seq<Op>)
    requires forall op | op in ops :: Sane(op)
    ensures Contents(Run(Empty(), ops)) == RunMap(map[], ops) <==> Missing(ops) == {}
  {
    RunContents(ops);
    MinusIff(RunMap(map[], ops), Missing(ops));
  }

  predicate Overwrites(t: Tree, op: Op) { op.InsertOp? && Sane(op) && OverwritesZero(t, op.bytes, op.length) }

  /** No insert of the run overwrites a stored 0. */
  ghost predicate NoZeroOverwritten(ops: seq<Op>)
    requires forall op | op in ops :: Sane(op)
  {
    forall i | 0 <= i < |ops| :: !Overwrites(Run(Empty(), ops[..i]), ops[i])
  }

  ghost predicate AlwaysKept(ops: seq<Op>)
    requires forall op | op in ops :: Sane(op)
  {
    forall i | 0 <= i <= |ops| :: Inv(Run(Empty(), ops[..i]))
  }

  /** The shape invariants with exact counters hold throughout a run exactly when no stored 0 is overwritten. */
  lemma {:induction false} RunKeepsShapeIff(ops: seq<Op>)
    requires forall op | op in ops :: Sane(op)
    ensures AlwaysKept(ops) <==> NoZeroOverwritten(ops)
    decreases |ops|
  {
    hide Inv, Overwrites, Run, AlwaysKept, NoZeroOverwritten;
    if ops == [] {
      ShapeAtFirst();
    } else {
      var n := |ops| - 1;
      var front := ops[..n];
      RunKeepsShapeIff(front);
      if AlwaysKept(front) { KeptAtTheEnd(front); }
      if Inv(Run(Empty(), front)) { StepKeepsShapeIff(Run(Empty(), front), ops[n]); }
      RunLast(ops, n);
      ShapeNext(ops, front, n);
    }
  }

  lemma ShapeAtFirst()
    ensures AlwaysKept([]) && NoZeroOverwritten([])
  {
    EmptyInv();
    var none: seq<Op> := [];
    assert forall i | 0 <= i <= |none| :: none[..i] == [];
  }

  lemma KeptAtTheEnd(ops: seq<Op>)
    requires (forall op | op in ops :: Sane(op)) && AlwaysKept(ops)
    ensures Inv(Run(Empty(), ops))
  {
    assert ops[..|ops|] == ops;
  }

  lemma RunLast(ops: seq<Op>, n: nat)
    requires (forall op | op in ops :: Sane(op)) && |ops| == n + 1
    ensures Run(Empty(), ops) == (ApplyWF(Run(Empty(), ops[..n]), ops[n]); Apply(Run(Empty(), ops[..n]), ops[n]))
  {
  }

  lemma ShapeNext(ops: seq<Op>, front: seq<Op>, n: nat)
    requires (forall op | op in ops :: Sane(op)) && |ops| == n + 1 && front == ops[..n]
    ensures AlwaysKept(ops) <==> AlwaysKept(front) && Inv(Run(Empty(), ops))
    ensures NoZeroOverwritten(ops) <==> NoZeroOverwritten(front) && !Overwrites(Run(Empty(), front), ops[n])
  {
    hide Inv, Overwrites, Run, Sane;
    assert forall i | 0 <= i <= n :: front[..i] == ops[..i];
    assert ops[..n + 1] == ops;
    assert AlwaysKept(front) && Inv(Run(Empty(), ops)) ==> AlwaysKept(ops);
    if AlwaysKept(ops) {
      assert Inv(Run(Empty(), ops[..n + 1]));
      forall i | 0 <= i <= n ensures Inv(Run(Empty(), front[..i])) { assert Inv(Run(Empty(), ops[..i])); }
    }
    assert NoZeroOverwritten(front) && !Overwrites(Run(Empty(), front), ops[n]) ==> NoZeroOverwritten(ops);
    if NoZeroOverwritten(ops) {
      assert !Overwrites(Run(Empty(), ops[..n]), ops[n]);
      forall i | 0 <= i < n ensures !Overwrites(Run(Empty(), front[..i]), front[i]) {
        assert !Overwrites(Run(Empty(), ops[..i]), ops[i]);
      }
    }
  }

  lemma StepKeepsShapeIff(t: Tree, op: Op)
    requires Inv(t) && Sane(op)
    ensures WF(Apply(t, op))
    ensures Inv(Apply(t, op)) <==> !Overwrites(t, op)
  {
    ApplyWF(t, op);
    match op
    case InsertOp(bytes, length, v) => InsertKeepsCountersIff(t, bytes, length, v);
    case DeleteOp(bytes, length) => LostWithExactCountersIff(t, bytes, length);
  }

  // ---------------------------------------------------------------- the wrapped counter is reachable

  /** Store the one-byte prefix 0 and the first `n` two-byte prefixes below it. */
  function Fill(n: nat): seq<Op>
    requires n <= 256
  {
    if n == 0 then [InsertOp([0], 8, 1)] else Fill(n - 1) + [InsertOp([0, n - 1], 16, 1)]
  }

  lemma {:induction false} FillSane(n: nat)
    requires n <= 256
    ensures forall op | op in Fill(n) :: Sane(op)
  {
    if n > 0 {
      FillSane(n - 1);
    }
  }

  const ZERO: Path := Step(Root, 0)

  ghost predicate Filled(t: Tree, n: nat)
    requires n <= 256
  {
    && Inv(t)
    && 0 in t[Root].kids && ZERO in t
    && t[ZERO].prefixes == map[0 := 1] && t[ZERO].kids == FirstBytes(n)
  }

  function FirstBytes(n: nat): (s: set<Byte>)
    requires n <= 256
    ensures |s| == n && forall b | b in s :: b < n
  {
    if n == 0 then {} else FirstBytes(n - 1) + {n - 1}
  }

  lemma FillBase()
    ensures Filled(Insert(Empty(), [0], 8, 1), 0)
  {
    InsertKeepsInvIff(Empty(), [0], 8, 1);
    assert Walk([0], 1) == ZERO;
    assert Grow(Empty(), [0], 1) == Descend(Empty(), Root, 0);
    assert Place([0], 8) == Slot(ZERO, 0);
  }

  lemma FillGrow(t: Tree, n: nat, bytes: seq<Byte>)
    requires n < 256 && WF(t) && ZERO in t && 0 in t[Root].kids && bytes == [0, n]
    ensures Grow(t, bytes, 2) == Descend(t, ZERO, n) && Walk(bytes, 2) == Step(ZERO, n)
  {
    assert Walk(bytes, 1) == ZERO;
    assert Grow(t, bytes, 0) == t;
    assert Grow(t, bytes, 1) == t;
  }

  lemma FillStep(t: Tree, n: nat, bytes: seq<Byte>, length: nat)
    requires n < 256 && Filled(t, n) && bytes == [0, n] && length == 16
    ensures Filled(Insert(t, bytes, length, 1), n + 1)
  {
    FillGrow(t, n, bytes);
    assert !Stores(t, Place(bytes, length)) by { NewChild(t, ZERO, n); }
    InsertFreshKeepsInv(t, bytes, length, 1);
    FillNodes(t, n, Insert(t, bytes, length, 1));
  }

  lemma FillNodes(t: Tree, n: nat, u: Tree)
    requires n < 256 && Root in t && ZERO in t && 0 in t[Root].kids && n !in t[ZERO].kids
    requires u == SetPrefix(Descend(t, ZERO, n), Slot(Step(ZERO, n), 0), 1)
    ensures Root in u && 0 in u[Root].kids
    ensures ZERO in u && u[ZERO].prefixes == t[ZERO].prefixes && u[ZERO].kids == t[ZERO].kids + {n}
  {
  }

  lemma InsertFreshKeepsInv(t: Tree, bytes: seq<Byte>, length: nat, v: Value)
    requires Inv(t) && length <= 8 * |bytes| && !Stores(t, Place(bytes, length))
    ensures Inv(Insert(t, bytes, length, v))
  {
    InsertKeepsInvIff(t, bytes, length, v);
  }

  lemma RunStep(t: Tree, ops: seq<Op>, op: Op)
    requires WF(t) && (forall o | o in ops :: Sane(o)) && Sane(op)
    ensures Run(t, ops + [op]) == (ApplyWF(Run(t, ops), op); Apply(Run(t, ops), op))
  {
    assert (ops + [op])[..|ops + [op]| - 1] == ops;
  }

  lemma {:induction false} FillNode(n: nat)
    requires n <= 256
    ensures forall op | op in Fill(n) :: Sane(op)
    ensures Filled(Run(Empty(), Fill(n)), n)
  {
    FillSane(n);
    if n == 0 {
      FillBase();
      RunStep(Empty(), [], InsertOp([0], 8, 1));
      assert [] + [InsertOp([0], 8, 1)] == Fill(0);
    } else {
      FillNode(n - 1);
      FillStep(Run(Empty(), Fill(n - 1)), n - 1, [0, n - 1], 16);
      RunStep(Empty(), Fill(n - 1), InsertOp([0, n - 1], 16, 1));
    }
  }

  /** A run of plain inserts of distinct prefixes after which deleting one prefix also loses others. */
  lemma DeleteLosesAFullNode(bytes: seq<Byte>, n: nat)
    requires bytes == [0] && n == 256
    ensures forall op | op in Fill(n) :: Sane(op)
    ensures Inv(Run(Empty(), Fill(n))) && PrefixBits(bytes, 8) in Contents(Run(Empty(), Fill(n)))
    ensures Contents(Delete(Run(Empty(), Fill(n)), bytes, 8)) !=
            Contents(Run(Empty(), Fill(n))) - {PrefixBits(bytes, 8)}
  {
    FillNode(n);
    FullNodeLoses(Run(Empty(), Fill(n)), n, bytes, 8);
  }

  lemma FullNodeLoses(t: Tree, n: nat, bytes: seq<Byte>, length: nat)
    requires n == 256 && Filled(t, n) && bytes == [0] && length == 8
    ensures PrefixBits(bytes, length) in Contents(t)
    ensures Contents(Delete(t, bytes, length)) != Contents(t) - {PrefixBits(bytes, length)}
  {
    var x := Slot(ZERO, 0);
    assert Place(bytes, length) == x by { PlaceZero(bytes, length); }
    assert Stores(t, x) && CounterWraps(t, x);
    PlaceContents(t, bytes, length);
    LostWithExactCountersIff(t, bytes, length);
    DeleteRefinesMapRemovalIff(t, bytes, length);
  }

  lemma PlaceZero(bytes: seq<Byte>, length: nat)
    requires bytes == [0] && length == 8
    ensures Place(bytes, length) == Slot(ZERO, 0)
  {
    assert Walk(bytes, 1) == ZERO;
  }

  // ---------------------------------------------------------------- the other counter is off after overwriting a 0

  /** Store 0 under the one-byte prefix 0, `n` times over. */
  function Zeroes(n: nat): seq<Op>
  {
    if n == 0 then [] else Zeroes(n - 1) + [InsertOp([0], 8, 0)]
  }

  lemma {:induction false} ZeroesSane(n: nat)
    ensures forall op | op in Zeroes(n) :: Sane(op)
  {
    if n > 0 { ZeroesSane(n - 1); }
  }

  /** One prefix in the node, and a counter that went up at every store. */
  ghost predicate Overcounted(t: Tree, n: nat)
  {
    WF(t) && ZERO in t && t[ZERO] == Node(map[0 := 0], {}, n % 256, 0) && 0 in t[Root].kids
  }

  lemma ZeroAgain(t: Tree, bytes: seq<Byte>, length: nat, n: nat)
    requires bytes == [0] && length == 8 && WF(t)
    requires if n == 0 then t == Empty() else Overcounted(t, n)
    ensures Overcounted(Insert(t, bytes, length, 0), n + 1)
  {
    PlaceZero(bytes, length);
    InsertSlots(t, bytes, length, 0);
    GrowOne(t, bytes);
    if n > 0 { assert Descend(t, Root, 0) == t; }
  }

  lemma GrowOne(t: Tree, bytes: seq<Byte>)
    requires WF(t) && |bytes| > 0
    ensures Grow(t, bytes, 1) == Descend(t, Root, bytes[0]) && Walk(bytes, 1) == Step(Root, bytes[0])
  {
    assert Walk(bytes, 0) == Root && Grow(t, bytes, 0) == t;
  }

  lemma {:induction false} ZeroesCount(n: nat, bytes: seq<Byte>, length: nat)
    requires n > 0 && bytes == [0] && length == 8
    ensures forall op | op in Zeroes(n) :: Sane(op)
    ensures Overcounted(Run(Empty(), Zeroes(n)), n)
    decreases n
  {
    hide *;
    ZeroesSane(n);
    ZeroesSane(n - 1);
    ZeroesNext(n - 1, bytes, length);
    if n > 1 { ZeroesCount(n - 1, bytes, length); }
    ZeroStep(Zeroes(n - 1), n - 1, bytes, length);
  }

  lemma ZeroesNext(n: nat, bytes: seq<Byte>, length: nat)
    requires bytes == [0] && length == 8
    ensures Zeroes(n + 1) == Zeroes(n) + [InsertOp(bytes, length, 0)] && (n == 0 ==> Zeroes(n) == [])
  {
  }

  lemma ZeroStep(ops: seq<Op>, n: nat, bytes: seq<Byte>, length: nat)
    requires bytes == [0] && length == 8 && forall op | op in ops :: Sane(op)
    requires if n == 0 then ops == [] else Overcounted(Run(Empty(), ops), n)
    ensures Sane(InsertOp(bytes, length, 0))
    ensures Overcounted(Run(Empty(), ops + [InsertOp(bytes, length, 0)]), n + 1)
  {
    ZeroAgain(Run(Empty(), ops), bytes, length, n);
    RunStep(Empty(), ops, InsertOp(bytes, length, 0));
  }

  /** Store 0 under one prefix 256 times, so that its node reads no prefixes; store a longer prefix in the same node and
      delete that one: the node has no branches at all, and the first prefix is lost. */
  lemma DeleteLosesAnOverwrittenZero(n: nat, bytes: seq<Byte>, length: nat)
    requires n == 256 && bytes == [0, 128] && length == 9
    ensures forall op | op in Zeroes(n) :: Sane(op)
    ensures var t := Insert(Run(Empty(), Zeroes(n)), bytes, length, 1);
      && WF(t) && Contents(Delete(t, bytes, length)) != Contents(t) - {PrefixBits(bytes, length)}
      && PrefixBits([0], 8) in Lost(t, bytes, length) && !HidesBranches(t, bytes, length)
  {
    hide Run, Insert, Contents, PrefixBits, Lost, HidesBranches, Zeroes, WF, Delete, Place;
    ZeroesCount(n, [0], 8);
    OvercountedLoses(Run(Empty(), Zeroes(n)), n, bytes, length, [0], 8);
    DeleteRefinesMapRemovalIff(Insert(Run(Empty(), Zeroes(n)), bytes, length, 1), bytes, length);
  }

  lemma OvercountedLoses(t: Tree, n: nat, bytes: seq<Byte>, length: nat, zero: seq<Byte>, eight: nat)
    requires Overcounted(t, n) && n == 256 && bytes == [0, 128] && length == 9 && zero == [0] && eight == 8
    ensures WF(Insert(t, bytes, length, 1))
    ensures PrefixBits(zero, eight) in Lost(Insert(t, bytes, length, 1), bytes, length)
    ensures !HidesBranches(Insert(t, bytes, length, 1), bytes, length)
  {
    hide PrefixBits, Join, Lost;
    var x, y := Place(bytes, length), Place(zero, eight);
    var u := Insert(t, bytes, length, 1);
    OvercountedInsert(t, bytes, length);
    PlaceZero(zero, eight);
    PlaceBits(zero, eight);
    assert Frees(u, x, ZERO) && Under(ZERO, y.at);
    SweptIsLost(u, bytes, length, y);
  }

  lemma OvercountedInsert(t: Tree, bytes: seq<Byte>, length: nat)
    requires Overcounted(t, 256) && bytes == [0, 128] && length == 9
    ensures var x, u := Place(bytes, length), Insert(t, bytes, length, 1);
      && WF(u) && x.at == ZERO && x.key != 0
      && ZERO in u && u[ZERO] == Node(map[0 := 0, x.key := 1], {}, 1, 0)
  {
    InsertSlots(t, bytes, length, 1);
    GrowOne(t, bytes);
    assert Descend(t, Root, 0) == t;
    assert TailKey(bytes, length) == GetPrefixKey(1, bytes[1]);
    KeyNotZero(1, bytes[1]);
  }

  lemma KeyNotZero(length: nat, byte: Byte)
    requires 0 < length < 8
    ensures GetPrefixKey(length, byte) != 0
  {
  }

  // ---------------------------------------------------------------- size

  function SumBytes(entries: seq<BitString>): nat
  {
    if entries == [] then 0 else SumBytes(entries[..|entries| - 1]) + |entries[|entries| - 1]| / 8
  }

  /** The nodes from `p` up, without the root. */
  function Ancestors(p: Path): (a: set<Path>)
    ensures |a| <= Depth(p)
  {
    if p.Root? then {} else Ancestors(p.up) + {p}
  }

  lemma {:induction false} AncestorsUnder(p: Path, q: Path)
    requires Under(p, q) && p.Step?
    ensures p in Ancestors(q)
  {
    if q != p {
      AncestorsUnder(p, q.up);
    }
  }

  lemma {:induction false} DepthBits(p: Path)
    ensures |PathBits(p)| == 8 * Depth(p)
  {
    if p.Step? {
      DepthBits(p.up);
    }
  }

  function Cover(entries: seq<BitString>): (c: set<Path>)
    ensures |c| <= SumBytes(entries)
  {
    if entries == [] then {}
    else
      var s := entries[|entries| - 1];
      DepthBits(SplitPath(s));
      Cover(entries[..|entries| - 1]) + Ancestors(SplitPath(s))
  }

  lemma {:induction false} CoverHas(entries: seq<BitString>, s: BitString, p: Path)
    requires s in entries && p in Ancestors(SplitPath(s))
    ensures p in Cover(entries)
  {
    if s != entries[|entries| - 1] {
      CoverHas(entries[..|entries| - 1], s, p);
    }
  }

  /** The trie has at most one node more than the whole bytes of the prefixes it stores. */
  lemma NodesBounded(t: Tree, entries: seq<BitString>)
    requires Inv(t) && forall s | s in Contents(t) :: s in entries
    ensures |t| <= 1 + SumBytes(entries)
  {
    forall p | p in t && p.Step? ensures p in Cover(entries) {
      var x := SomethingBelow(t, p, t.Keys);
      assert x in Slots(t);
      SlotOf(Slots(t), x);
      SplitEntry(x.at, x.key);
      AncestorsUnder(p, x.at);
      CoverHas(entries, Join(x), p);
    }
    assert t.Keys <= Cover(entries) + {Root};
    Subset(t.Keys, Cover(entries) + {Root});
  }

  lemma {:induction false} Subset<T>(a: set<T>, b: set<T>)
    requires a <= b
    ensures |a| <= |b|
  {
    if x :| x in a {
      Subset(a - {x}, b - {x});
    }
  }
}
