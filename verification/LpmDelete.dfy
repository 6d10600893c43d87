/** What delete takes away, for every trie: the prefix, and whatever is stored below a node that its upward loop frees.
    The loop trusts two 8-bit counters, which may read 0 on a node that still holds something. */
module LpmDelete {
  import opened LpmNodes
  import opened LpmTree

  // ---------------------------------------------------------------- the nodes that the loop frees

  /** From `p` up to `q`, no node is the root and all read no prefixes and one branch, which the loop takes away. */
  predicate Chain(t: Tree, p: Path, q: Path)
    decreases p
  {
    p.Step? && p in t && t[p].prefNum == 0 && t[p].branchNum == 1 && (p == q || Chain(t, p.up, q))
  }

  /** Started at `p`, the loop frees the node at `q`. */
  predicate PruneFrees(t: Tree, p: Path, q: Path)
    requires p in t
  {
    p.Step? && LooksEmpty(t, p) && (p == q || Chain(t, p.up, q))
  }

  /** Deleting what is in slot `x` frees the node at `q`: the slot's node reads one prefix and no branch, and so on up. */
  predicate Frees(t: Tree, x: Slot, q: Path)
    requires x.at in t
  {
    x.at.Step? && t[x.at].prefNum == 1 && t[x.at].branchNum == 0 && (x.at == q || Chain(t, x.at.up, q))
  }

  /** The place `q` is at or below a node that deleting `x` frees. */
  ghost predicate Swept(t: Tree, x: Slot, q: Path)
    requires x.at in t
  {
    exists p :: Frees(t, x, p) && Under(p, q)
  }

  ghost predicate PruneSwept(t: Tree, p: Path, q: Path)
    requires p in t
  {
    exists r :: PruneFrees(t, p, r) && Under(r, q)
  }

  /** Nodes nearer to the root than the one changed make up the same chains. */
  lemma {:induction false} ChainFrame(t: Tree, u: Tree, n: nat, p: Path, q: Path)
    requires Depth(p) < n
    requires forall r | Depth(r) < n :: (r in t <==> r in u) && (r in t ==> u[r] == t[r])
    ensures Chain(t, p, q) <==> Chain(u, p, q)
    decreases p
  {
    if p.Step? { ChainFrame(t, u, n, p.up, q); }
  }

  /** One turn of the loop: what it frees is the node itself and what the next turn frees. */
  lemma FreesNext(t: Tree, p: Path, r: Path)
    requires WF(t) && p in t && p.Step? && p.up in t && LooksEmpty(t, p)
    ensures p.up in Unlink(t, p)
    ensures PruneFrees(t, p, r) <==> r == p || PruneFrees(Unlink(t, p), p.up, r)
  {
    var u := Unlink(t, p);
    UnlinkWF(t, p);
    assert u[p.up] == DropKid(t, p.up, p.id)[p.up];
    assert LooksEmpty(u, p.up) <==> t[p.up].prefNum == 0 && t[p.up].branchNum == 1;
    if p.up.Step? {
      forall q | Depth(q) < Depth(p.up) ensures (q in t <==> q in u) && (q in t ==> u[q] == t[q]) {
        if Under(p, q) { UnderDepth(p, q); }
      }
      ChainFrame(t, u, Depth(p.up), p.up.up, r);
    }
  }

  lemma SweptNext(t: Tree, p: Path, q: Path)
    requires WF(t) && p in t && p.Step? && p.up in t && LooksEmpty(t, p)
    ensures p.up in Unlink(t, p)
    ensures PruneSwept(t, p, q) <==> Under(p, q) || PruneSwept(Unlink(t, p), p.up, q)
  {
    FreesNext(t, p, p);
    var u := Unlink(t, p);
    if PruneSwept(t, p, q) {
      var r :| PruneFrees(t, p, r) && Under(r, q);
      FreesNext(t, p, r);
    }
    if PruneSwept(u, p.up, q) {
      var r :| PruneFrees(u, p.up, r) && Under(r, q);
      FreesNext(t, p, r);
    }
  }

  /** The loop takes away exactly what is stored at or below the nodes it frees. */
  lemma {:induction false} PruneExact(t: Tree, p: Path, y: Slot)
    requires WF(t) && p in t
    ensures y in Slots(Prune(t, p)) <==> y in Slots(t) && !PruneSwept(t, p, y.at)
    decreases p
  {
    if LooksEmpty(t, p) && p.Step? {
      assert NodeOk(t, p);
      UnlinkWF(t, p);
      UnlinkSlots(t, p);
      SweptNext(t, p, y.at);
      PruneExact(Unlink(t, p), p.up, y);
    }
  }

  lemma FreesAfterDrop(t: Tree, x: Slot, q: Path)
    requires x.at in t
    ensures PruneFrees(DropPrefix(t, x), x.at, q) <==> Frees(t, x, q)
  {
    if x.at.Step? { ChainFrame(t, DropPrefix(t, x), Depth(x.at), x.at.up, q); }
  }

  /** Delete takes away the prefix and exactly what is stored at or below the nodes it frees. */
  lemma RemoveExact(t: Tree, x: Slot, y: Slot)
    requires WF(t) && Stores(t, x)
    ensures y in Slots(Remove(t, x)) <==> y in Slots(t) && y != x && !Swept(t, x, y.at)
  {
    var d := DropPrefix(t, x);
    DropSlots(t, x);
    PruneExact(d, x.at, y);
    forall q ensures PruneFrees(d, x.at, q) <==> Frees(t, x, q) { FreesAfterDrop(t, x, q); }
  }

  /** Some freed node has another prefix stored at or below it. */
  ghost predicate LosesOthers(t: Tree, x: Slot)
    requires x.at in t
  {
    exists y: Slot :: Stores(t, y) && y != x && Swept(t, x, y.at)
  }

  /** Whatever the counters say: delete empties its slot and no other exactly when no freed node has another prefix
      stored at or below it. */
  lemma RemoveSlotsIff(t: Tree, x: Slot)
    requires WF(t) && Stores(t, x)
    ensures Slots(Remove(t, x)) == Slots(t) - {x} <==> !LosesOthers(t, x)
  {
    var u := Remove(t, x);
    RemoveShape(t, x);
    if LosesOthers(t, x) {
      var y: Slot :| Stores(t, y) && y != x && Swept(t, x, y.at);
      RemoveExact(t, x, y);
      assert y in Slots(t) - {x};
    } else {
      forall y ensures y in Slots(u) <==> y in Slots(t) - {x} { RemoveExact(t, x, y); }
    }
  }

  // ---------------------------------------------------------------- the same, node by node

  lemma {:induction false} BelowLeaf(t: Tree, p: Path, q: Path)
    requires WF(t) && p in t && q in t && Under(p, q)
    ensures q == p || (exists b :: b in t[p].kids && Under(Step(p, b), q))
    decreases q
  {
    if q != p {
      assert NodeOk(t, q);
      BelowLeaf(t, p, q.up);
      if q.up == p {
        assert Under(Step(p, q.id), q);
      } else {
        var b :| b in t[p].kids && Under(Step(p, b), q.up);
        assert Under(Step(p, b), q);
      }
    }
  }

  lemma {:induction false} UnderBoth(p: Path, q: Path)
    requires Under(p, q) && Under(q, p)
    ensures p == q
  {
    UnderDepth(p, q);
    UnderDepth(q, p);
    if p != q { UnderDepth(p, q.up); }
  }

  lemma {:induction false} ChainBelow(t: Tree, p: Path, q: Path, r: Path)
    requires Chain(t, p, q) && Under(r, p) && Under(q, r)
    ensures Chain(t, p, r)
    decreases p
  {
    if p == q { UnderBoth(p, r); }
    if p != r { ChainBelow(t, p.up, q, r); }
  }

  lemma FreesBelow(t: Tree, x: Slot, q: Path, r: Path)
    requires x.at in t && Frees(t, x, q) && Under(r, x.at) && Under(q, r)
    ensures Frees(t, x, r)
  {
    if q == x.at { UnderBoth(q, r); }
    if r != x.at { ChainBelow(t, x.at.up, q, r); }
  }

  /** Besides `x` and the way down to it, the node at `q` has a prefix or a branch. */
  predicate HoldsMore(t: Tree, x: Slot, q: Path)
  {
    q in t && ((exists k :: k in t[q].prefixes && Slot(q, k) != x) || (exists b :: b in t[q].kids && !Under(Step(q, b), x.at)))
  }

  lemma {:induction false} SweptHolds(t: Tree, x: Slot, q: Path, y: Slot) returns (r: Path)
    requires WF(t) && x.at in t && Frees(t, x, q) && q in t && Under(q, x.at)
    requires Stores(t, y) && y != x && Under(q, y.at)
    ensures Frees(t, x, r) && HoldsMore(t, x, r)
    decreases Depth(x.at) - Depth(q)
  {
    r := q;
    if y.at != q && !HoldsMore(t, x, q) {
      BelowLeaf(t, q, y.at);
      var b :| b in t[q].kids && Under(Step(q, b), y.at);
      assert NodeOk(t, q) && Under(q, Step(q, b));
      UnderDepth(Step(q, b), x.at);
      FreesBelow(t, x, q, Step(q, b));
      r := SweptHolds(t, x, Step(q, b), y);
    }
  }

  lemma {:induction false} ChainUnder(t: Tree, p: Path, q: Path)
    requires WF(t) && Chain(t, p, q)
    ensures q in t && Under(q, p)
    decreases p
  {
    if p != q { ChainUnder(t, p.up, q); }
  }

  /** In a tidy trie a look at the freed nodes themselves is enough. */
  lemma LosesIffFreedNodeHolds(t: Tree, x: Slot)
    requires WF(t) && Tidy(t) && Stores(t, x)
    ensures LosesOthers(t, x) <==> exists q :: Frees(t, x, q) && HoldsMore(t, x, q)
  {
    if LosesOthers(t, x) {
      var y: Slot :| Stores(t, y) && y != x && Swept(t, x, y.at);
      var q :| Frees(t, x, q) && Under(q, y.at);
      if q != x.at { ChainUnder(t, x.at.up, q); }
      var r := SweptHolds(t, x, q, y);
    }
    if q :| Frees(t, x, q) && HoldsMore(t, x, q) {
      HeldIsLost(t, x, q);
    }
  }

  lemma HeldIsLost(t: Tree, x: Slot, q: Path)
    requires WF(t) && Tidy(t) && x.at in t && Frees(t, x, q) && HoldsMore(t, x, q)
    ensures LosesOthers(t, x)
  {
    if k :| k in t[q].prefixes && Slot(q, k) != x {
      assert Stores(t, Slot(q, k)) && Swept(t, x, q);
    } else {
      var b :| b in t[q].kids && !Under(Step(q, b), x.at);
      assert NodeOk(t, q) && Under(q, Step(q, b));
      var y := SomethingBelow(t, Step(q, b), t.Keys);
      UnderTrans(q, Step(q, b), y.at);
      assert Swept(t, x, y.at);
    }
  }

  // ---------------------------------------------------------------- with exact counters

  /** If the counters tell the truth along the way up, only empty nodes are freed. */
  lemma {:induction false} PruneLossless(t: Tree, p: Path)
    requires WF(t) && Honest(t) && p in t
    requires p.Step? && t[p].prefixes == map[] ==> |t[p].kids| < 256
    ensures Slots(Prune(t, p)) == Slots(t)
    decreases p
  {
    if LooksEmpty(t, p) && p.Step? {
      EmptyLeafGoes(t, p);
      PruneLossless(Unlink(t, p), p.up);
    }
  }

  /** Freeing a node that is empty, and not only looks so, loses nothing. */
  lemma EmptyLeafGoes(t: Tree, p: Path)
    requires WF(t) && Honest(t) && p in t && p.Step? && LooksEmpty(t, p)
    requires t[p].prefixes == map[] ==> |t[p].kids| < 256
    ensures p.up in t && p.up in Unlink(t, p) && WF(Unlink(t, p)) && Honest(Unlink(t, p))
    ensures Slots(Unlink(t, p)) == Slots(t) && |Unlink(t, p)[p.up].kids| < 256
  {
    assert NodeOk(t, p);
    assert t[p].kids == {} && t[p].prefixes == map[];
    UnlinkWF(t, p);
    UnlinkSlots(t, p);
    UnlinkHonest(t, p);
    AtMost256Kids(t, p.up);
    hide Unlink, Slots, NodeOk, Honest;
    var u := Unlink(t, p);
    forall x | x in Slots(t) ensures x in Slots(u) {
      if Under(p, x.at) { BelowLeaf(t, p, x.at); }
    }
    assert Slots(u) == Slots(t);
  }

  /** The one family of calls on which delete loses other prefixes: the node is not the root, holds nothing
      but the prefix being deleted, and all 256 of its branches exist, so that `branch_num` reads 0. */
  predicate CounterWraps(t: Tree, x: Slot)
    requires x.at in t
  {
    x.at.Step? && t[x.at].prefixes.Keys == {x.key} && |t[x.at].kids| == 256
  }

  /** A wrapped counter hides what is below the node. */
  lemma WrapLoses(t: Tree, x: Slot)
    requires Inv(t) && Stores(t, x) && CounterWraps(t, x)
    ensures LosesOthers(t, x)
  {
    var p := x.at;
    assert NodeOk(t, p);
    assert |t[p].prefixes| == |t[p].prefixes.Keys| == 1;
    assert Frees(t, x, p);
    var b :| b in t[p].kids;
    var y := SomethingBelow(t, Step(p, b), t.Keys);
    UnderDepth(Step(p, b), y.at);
    UnderTrans(p, Step(p, b), y.at);
    assert Swept(t, x, y.at);
  }

  lemma NoWrapLosesNothing(t: Tree, x: Slot)
    requires Inv(t) && Stores(t, x) && !CounterWraps(t, x)
    ensures Slots(Remove(t, x)) == Slots(t) - {x}
  {
    var d, p := DropPrefix(t, x), x.at;
    DropSlots(t, x);
    DropKeeps(t, x);
    if d[p].prefixes == map[] {
      assert t[p].prefixes.Keys == {x.key} by {
        assert forall j | j in t[p].prefixes :: j == x.key || j in d[p].prefixes;
      }
    }
    AtMost256Kids(t, p);
    PruneLossless(d, p);
  }

  /** When the counters are exact, other prefixes are lost exactly when all 256 branches exist and the prefix is the
      node's last. */
  lemma ExactCountersIff(t: Tree, x: Slot)
    requires Inv(t) && Stores(t, x)
    ensures LosesOthers(t, x) <==> CounterWraps(t, x)
  {
    RemoveSlotsIff(t, x);
    if CounterWraps(t, x) { WrapLoses(t, x); } else { NoWrapLosesNothing(t, x); }
  }
}
