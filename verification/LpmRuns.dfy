/** Runs of the trie whose condition can be read off the plain map: no 0 overwritten, and no full node emptied. */
module LpmRuns {
  import opened Bytes
  import opened Bits
  import opened LpmNodes
  import opened LpmKeys
  import opened LpmTree
  import opened LpmDelete
  import opened LpmContents

  // ---------------------------------------------------------------- the conditions, on the plain map

  /** The step stores under a prefix whose value is 0. */
  predicate OverwritesZeroIn(m: map<BitString, Value>, op: Op)
    requires Sane(op)
  {
    op.InsertOp? && PrefixBits(op.bytes, op.length) in m && m[PrefixBits(op.bytes, op.length)] == 0
  }

  /** `s` has a whole byte, it is the only stored prefix with its whole bytes, and all 256 next bytes begin another. */
  ghost predicate FullAt(m: map<BitString, Value>, s: BitString)
  {
    && s in m && |s| >= 8
    && (forall r | r in m && WholeBytes(r) == WholeBytes(s) :: r == s)
    && forall b: Byte :: Continued(m, WholeBytes(s) + ToBits(b, 8))
  }

  ghost predicate Continued(m: map<BitString, Value>, p: BitString) { exists r :: r in m && p <= r }

  /** The step deletes such a prefix. */
  ghost predicate EmptiesFullNodeIn(m: map<BitString, Value>, op: Op)
    requires Sane(op)
  {
    op.DeleteOp? && FullAt(m, PrefixBits(op.bytes, op.length))
  }

  // ---------------------------------------------------------------- paths and their bits

  lemma {:induction false} UnderBits(p: Path, q: Path)
    requires Under(p, q)
    ensures PathBits(p) <= PathBits(q)
    decreases q
  {
    if p != q { UnderBits(p, q.up); }
  }

  lemma {:induction false} BitsUnder(p: Path, q: Path)
    requires PathBits(p) <= PathBits(q)
    ensures Under(p, q)
    decreases q
  {
    DepthBits(p);
    DepthBits(q);
    if Depth(p) == Depth(q) {
      assert PathBits(p) == PathBits(q);
      PathBitsInjective(p, q);
    } else {
      DepthBits(q.up);
      assert PathBits(q.up) == PathBits(q)[..8 * Depth(q.up)];
      assert PathBits(p) <= PathBits(q.up);
      BitsUnder(p, q.up);
    }
  }

  lemma {:induction false} UpInTree(t: Tree, p: Path, q: Path)
    requires WF(t) && q in t && Under(p, q)
    ensures p in t
    decreases q
  {
    if p != q {
      assert NodeOk(t, q);
      UpInTree(t, p, q.up);
    }
  }

  lemma StoredBits(t: Tree, y: Slot)
    requires GoodSlots(Slots(t)) && Stores(t, y)
    ensures WellFormedKey(y.key) && Join(y) in Contents(t) && WholeBytes(Join(y)) == PathBits(y.at) && SplitSlot(Join(y)) == y
  {
    assert y in Slots(t);
    SlotOf(Slots(t), y);
    BitsOfKey(y.key);
    WholeAndLeftOver(PathBits(y.at), KeyBits(y.key));
    SplitEntry(y.at, y.key);
  }

  lemma BitsStored(t: Tree, r: BitString)
    requires r in Contents(t)
    ensures Stores(t, SplitSlot(r)) && Join(SplitSlot(r)) == r && PathBits(SplitPath(r)) == WholeBytes(r)
  {
    BitsOf(Slots(t), r);
    EntrySplit(r);
  }

  // ---------------------------------------------------------------- a node's prefixes and branches, in the map

  /** A node has a branch for a byte exactly when some stored prefix goes on with that byte. */
  lemma BranchIff(t: Tree, p: Path, b: Byte)
    requires Inv(t) && p in t
    ensures b in t[p].kids <==> Continued(Contents(t), PathBits(p) + ToBits(b, 8))
  {
    assert PathBits(Step(p, b)) == PathBits(p) + ToBits(b, 8);
    if b in t[p].kids { BranchContinues(t, p, b); }
    if Continued(Contents(t), PathBits(p) + ToBits(b, 8)) { ContinuedBranches(t, p, b); }
  }

  lemma BranchContinues(t: Tree, p: Path, b: Byte)
    requires Inv(t) && p in t && b in t[p].kids
    ensures Continued(Contents(t), PathBits(Step(p, b)))
  {
    hide PathBits, Contents, Slots, Join, WholeBytes, KeyBits, GoodSlots, Honest, Tidy;
    var c := Step(p, b);
    assert NodeOk(t, p);
    var y := SomethingBelow(t, c, t.Keys);
    StoredBits(t, y);
    UnderBits(c, y.at);
    PathBegins(y);
  }

  lemma PathBegins(y: Slot)
    ensures PathBits(y.at) <= Join(y)
  {
  }

  lemma Kept(t: Tree)
    requires Inv(t)
    ensures WF(t) && Honest(t) && Tidy(t) && GoodSlots(Slots(t))
  {
  }

  lemma ContinuedBranches(t: Tree, p: Path, b: Byte)
    requires WF(t) && p in t && Continued(Contents(t), PathBits(Step(p, b)))
    ensures b in t[p].kids
  {
    hide Contents, PathBits, WholeBytes, SplitPath;
    var c := Step(p, b);
    var r :| r in Contents(t) && PathBits(c) <= r;
    BitsStored(t, r);
    WholePrefix(PathBits(c), r);
    BitsUnder(c, SplitPath(r));
    UpInTree(t, c, SplitPath(r));
    assert NodeOk(t, c);
  }

  lemma WholePrefix(w: BitString, r: BitString)
    requires |w| % 8 == 0 && w <= r
    ensures w <= WholeBytes(r)
  {
    assert |w| <= |r| - |r| % 8;
  }

  /** A prefix is the only one in its node exactly when no other stored prefix has the same whole bytes. */
  lemma AloneIff(t: Tree, x: Slot, s: BitString)
    requires GoodSlots(Slots(t)) && Stores(t, x) && s == Join(x)
    ensures t[x.at].prefixes.Keys == {x.key} <==>
            forall r | r in Contents(t) && WholeBytes(r) == WholeBytes(s) :: r == s
  {
    StoredBits(t, x);
    if t[x.at].prefixes.Keys == {x.key} {
      forall r | r in Contents(t) && WholeBytes(r) == WholeBytes(s) ensures r == s {
        BitsStored(t, r);
        PathBitsInjective(SplitPath(r), x.at);
        assert SplitSlot(r).key in t[x.at].prefixes.Keys;
      }
    }
    if forall r | r in Contents(t) && WholeBytes(r) == WholeBytes(s) :: r == s {
      forall k | k in t[x.at].prefixes ensures k == x.key {
        StoredBits(t, Slot(x.at, k));
      }
      assert x.key in t[x.at].prefixes.Keys;
    }
  }

  lemma AllBytesIff(kids: set<Byte>)
    ensures |kids| == 256 <==> forall b: Byte :: b in kids
  {
    if b: Byte :| b !in kids {
      BytesBelow(kids + {b}, 256);
    }
    if forall b: Byte :: b in kids { AllBytes(kids, 256); }
    BytesBelow(kids, 256);
  }

  lemma {:induction false} AllBytes(kids: set<Byte>, n: nat)
    requires n <= 256 && forall b: Byte | b < n :: b in kids
    ensures |kids| >= n
    decreases n
  {
    if n > 0 {
      var last: Byte := n - 1;
      assert last in kids;
      AllBytes(kids - {last}, n - 1);
    }
  }

  /** With exact counters: the prefix is the last of a node with all 256 branches exactly when the plain map says so. */
  lemma FullIff(t: Tree, bytes: seq<Byte>, length: nat)
    requires Inv(t) && length <= 8 * |bytes|
    ensures HidesBranches(t, bytes, length) <==> FullAt(Contents(t), PrefixBits(bytes, length))
  {
    var x, s := Place(bytes, length), PrefixBits(bytes, length);
    PlaceContents(t, bytes, length);
    PlaceBits(bytes, length);
    hide PrefixBits, Place, Contents, Inv, WholeBytes, PathBits;
    if Stores(t, x) { FullSlotIff(t, x, s); }
  }

  lemma StepIff(p: Path, s: BitString)
    requires WholeBytes(s) == PathBits(p)
    ensures p.Step? <==> |s| >= 8
  {
    DepthBits(p);
    assert |WholeBytes(s)| == |s| - |s| % 8;
  }

  lemma FullSlotIff(t: Tree, x: Slot, s: BitString)
    requires Inv(t) && Stores(t, x) && s == Join(x)
    ensures CounterWraps(t, x) <==> FullAt(Contents(t), s)
  {
    hide Inv, Contents, Join, WholeBytes, PathBits, ToBits, Continued, Slots, GoodSlots;
    Kept(t);
    StoredBits(t, x);
    AloneIff(t, x, s);
    AllBytesIff(t[x.at].kids);
    StepIff(x.at, s);
    forall b: Byte ensures b in t[x.at].kids <==> Continued(Contents(t), WholeBytes(s) + ToBits(b, 8)) { BranchIff(t, x.at, b); }
  }

  // ---------------------------------------------------------------- runs

  predicate AllSane(ops: seq<Op>) { forall op | op in ops :: Sane(op) }

  /** After every step the trie is the plain map. */
  ghost predicate RefinesThroughout(ops: seq<Op>)
    requires AllSane(ops)
  {
    forall i | 0 <= i <= |ops| :: Contents(Run(Empty(), ops[..i])) == RunMap(map[], ops[..i])
  }

  /** No step of the run stores under a prefix whose value is 0. */
  ghost predicate NoZeroIn(ops: seq<Op>)
    requires AllSane(ops)
  {
    forall i | 0 <= i < |ops| :: !OverwritesZeroIn(RunMap(map[], ops[..i]), ops[i])
  }

  /** No step of the run deletes the last prefix of a full node. */
  ghost predicate NoFullIn(ops: seq<Op>)
    requires AllSane(ops)
  {
    forall i | 0 <= i < |ops| :: !EmptiesFullNodeIn(RunMap(map[], ops[..i]), ops[i])
  }

  /** One step from a well-kept trie. */
  lemma StepPlainIff(t: Tree, op: Op)
    requires Inv(t) && Sane(op)
    ensures WF(Apply(t, op))
    ensures Contents(Apply(t, op)) == ApplyToMap(Contents(t), op) <==> !EmptiesFullNodeIn(Contents(t), op)
    ensures Inv(Apply(t, op)) <==> !OverwritesZeroIn(Contents(t), op)
  {
    hide Inv, Contents, Apply, FullAt, Lost, HidesBranches, PrefixBits;
    Kept(t);
    StepRefinesIff(t, op);
    StepKeepsShapeIff(t, op);
    match op
    case InsertOp(bytes, length, v) => InsertKeepsCountersIff(t, bytes, length, v);
    case DeleteOp(bytes, length) =>
      LostWithExactCountersIff(t, bytes, length);
      FullIff(t, bytes, length);
  }

  /** Runs in which no stored 0 is overwritten: the trie is the plain map after every step exactly when no step deletes the
      last prefix of a node all of whose 256 branches exist. Both conditions are about the plain map alone. */
  lemma {:induction false} RunRefinesPlainIff(ops: seq<Op>)
    requires AllSane(ops) && NoZeroIn(ops)
    ensures RefinesThroughout(ops) <==> NoFullIn(ops)
    ensures RefinesThroughout(ops) ==> Inv(Run(Empty(), ops))
    decreases |ops|
  {
    hide Inv, Run, RunMap, Contents, RefinesThroughout, NoZeroIn, NoFullIn, OverwritesZeroIn, EmptiesFullNodeIn;
    if ops == [] {
      AtFirst(ops);
    } else {
      var n := |ops| - 1;
      var front, op := ops[..n], ops[n];
      PlainNext(ops, front, n);
      RunRefinesPlainIff(front);
      if RefinesThroughout(front) { StepPlainIff(Run(Empty(), front), op); }
    }
  }

  lemma AtFirst(ops: seq<Op>)
    requires ops == []
    ensures RefinesThroughout(ops) && NoFullIn(ops) && Inv(Run(Empty(), ops))
  {
    EmptyInv();
    EmptyContents();
    assert forall i | 0 <= i <= |ops| :: ops[..i] == [];
  }

  lemma PlainNext(ops: seq<Op>, front: seq<Op>, n: nat)
    requires AllSane(ops) && |ops| == n + 1 && front == ops[..n]
    ensures AllSane(front) && Sane(ops[n])
    ensures WF(Apply(Run(Empty(), front), ops[n])) && Run(Empty(), ops) == Apply(Run(Empty(), front), ops[n])
    ensures RunMap(map[], ops) == ApplyToMap(RunMap(map[], front), ops[n])
    ensures NoZeroIn(ops) <==> NoZeroIn(front) && !OverwritesZeroIn(RunMap(map[], front), ops[n])
    ensures NoFullIn(ops) <==> NoFullIn(front) && !EmptiesFullNodeIn(RunMap(map[], front), ops[n])
    ensures RefinesThroughout(ops) <==> RefinesThroughout(front) && Contents(Run(Empty(), ops)) == RunMap(map[], ops)
    ensures RefinesThroughout(front) ==> Contents(Run(Empty(), front)) == RunMap(map[], front)
  {
    ApplyWF(Run(Empty(), front), ops[n]);
    hide Contents, WF, OverwritesZeroIn, EmptiesFullNodeIn, Sane, Apply, ApplyToMap;
    assert ops[..n + 1] == ops && front[..n] == front;
    assert forall i | 0 <= i <= n :: front[..i] == ops[..i];
    RefinesNext(ops, front, n);
    ZeroNext(ops, front, n);
    FullNext(ops, front, n);
  }

  lemma RefinesNext(ops: seq<Op>, front: seq<Op>, n: nat)
    requires AllSane(ops) && AllSane(front) && |ops| == n + 1 && front == ops[..n]
    ensures RefinesThroughout(ops) <==> RefinesThroughout(front) && Contents(Run(Empty(), ops)) == RunMap(map[], ops)
    ensures RefinesThroughout(front) ==> Contents(Run(Empty(), front)) == RunMap(map[], front)
  {
    hide Contents, Run, RunMap, Sane;
    assert ops[..n + 1] == ops && front[..n] == front;
    assert forall i | 0 <= i <= n :: front[..i] == ops[..i];
    if RefinesThroughout(ops) {
      assert Contents(Run(Empty(), ops[..n + 1])) == RunMap(map[], ops[..n + 1]);
      forall i | 0 <= i <= n ensures Contents(Run(Empty(), front[..i])) == RunMap(map[], front[..i]) {
        assert Contents(Run(Empty(), ops[..i])) == RunMap(map[], ops[..i]);
      }
    }
  }

  lemma ZeroNext(ops: seq<Op>, front: seq<Op>, n: nat)
    requires AllSane(ops) && AllSane(front) && |ops| == n + 1 && front == ops[..n]
    ensures NoZeroIn(ops) <==> NoZeroIn(front) && !OverwritesZeroIn(RunMap(map[], front), ops[n])
  {
    hide OverwritesZeroIn, RunMap, Sane;
    assert forall i | 0 <= i <= n :: front[..i] == ops[..i];
    if NoZeroIn(ops) {
      assert !OverwritesZeroIn(RunMap(map[], ops[..n]), ops[n]);
      forall i | 0 <= i < n ensures !OverwritesZeroIn(RunMap(map[], front[..i]), front[i]) {
        assert !OverwritesZeroIn(RunMap(map[], ops[..i]), ops[i]);
      }
    }
  }

  lemma FullNext(ops: seq<Op>, front: seq<Op>, n: nat)
    requires AllSane(ops) && AllSane(front) && |ops| == n + 1 && front == ops[..n]
    ensures NoFullIn(ops) <==> NoFullIn(front) && !EmptiesFullNodeIn(RunMap(map[], front), ops[n])
  {
    hide EmptiesFullNodeIn, RunMap, Sane;
    assert forall i | 0 <= i <= n :: front[..i] == ops[..i];
    if NoFullIn(ops) {
      assert !EmptiesFullNodeIn(RunMap(map[], ops[..n]), ops[n]);
      forall i | 0 <= i < n ensures !EmptiesFullNodeIn(RunMap(map[], front[..i]), front[i]) {
        assert !EmptiesFullNodeIn(RunMap(map[], ops[..i]), ops[i]);
      }
    }
  }
}
