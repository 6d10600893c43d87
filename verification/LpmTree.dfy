/** The longest-prefix-match trie as a value: what each node holds, addressed by its path from the root.
    The heap version in `LpmTrie` keeps exactly such a value up to date. */
module LpmTree {
  import opened Bytes
  import opened Bits
  import opened LpmNodes
  import opened LpmKeys

  const EmptyTree: Tree := map[Root := EmptyNode]

  /** The values held in the nodes, by node and key. */
  ghost function Slots(t: Tree): (m: map<Slot, Value>)
    ensures forall x :: x in m <==> Stores(t, x)
    ensures forall x | x in m :: Stores(t, x) && m[x] == t[x.at].prefixes[x.key]
  {
    map x | x in (set p, k | p in t && k in t[p].prefixes :: Slot(p, k)) :: t[x.at].prefixes[x.key]
  }

  // ---------------------------------------------------------------- invariants

  /** A node's parent lists it, the children it lists exist, its branch counter is right modulo 256. */
  ghost predicate NodeOk(t: Tree, p: Path)
  {
    && p in t
    && (p.Step? ==> p.up in t && p.id in t[p.up].kids)
    && (forall b | b in t[p].kids :: Step(p, b) in t)
    && t[p].branchNum == |t[p].kids| % 256
  }

  ghost predicate WF(t: Tree)
  {
    Root in t && forall p {:trigger NodeOk(t, p)} | p in t :: NodeOk(t, p)
  }

  /** The prefix counters are the true numbers of prefixes. */
  ghost predicate Honest(t: Tree)
  {
    forall p | p in t :: t[p].prefNum == |t[p].prefixes|
  }

  predicate Useful(t: Tree, p: Path)
    requires p in t
  {
    p.Root? || t[p].kids != {} || t[p].prefixes != map[]
  }

  ghost predicate TidyExcept(t: Tree, gap: Path)
  {
    forall p | p in t && p != gap :: Useful(t, p)
  }

  /** Every node but the root has a branch or carries a prefix. */
  ghost predicate Tidy(t: Tree)
  {
    forall p | p in t :: Useful(t, p)
  }

  ghost predicate Inv(t: Tree)
  {
    WF(t) && Honest(t) && Tidy(t) && GoodSlots(Slots(t))
  }

  lemma EmptyInv()
    ensures Inv(EmptyTree) && Slots(EmptyTree) == map[]
  {
    assert forall p :: p in EmptyTree <==> p == Root;
    assert forall x :: !Stores(EmptyTree, x);
  }

  function Empty(): (t: Tree)
    ensures Inv(t) && Slots(t) == map[]
  {
    EmptyInv();
    EmptyTree
  }

  // ---------------------------------------------------------------- how many things a node can hold

  function KeyIndex(k: nat): nat { Pow2(k / 256) - 1 + k % 256 }

  lemma KeyIndexInjective(j: nat, k: nat)
    requires WellFormedKey(j) && WellFormedKey(k)
    ensures KeyIndex(j) < 255
    ensures KeyIndex(j) == KeyIndex(k) ==> j == k
  {
    Pow2Small();
    var a, b := j / 256, k / 256;
    assert Pow2(0) == 1;
    assert a < b ==> 2 * Pow2(a) <= Pow2(b);
    assert b < a ==> 2 * Pow2(b) <= Pow2(a);
  }

  lemma {:induction false} KeysBelow(keys: set<nat>, n: nat)
    requires forall k | k in keys :: WellFormedKey(k) && KeyIndex(k) < n
    ensures |keys| <= n
  {
    if k :| k in keys && KeyIndex(k) == n - 1 {
      forall j | j in keys - {k} ensures KeyIndex(j) < n - 1 {
        KeyIndexInjective(j, k);
      }
      KeysBelow(keys - {k}, n - 1);
    } else if n > 0 {
      KeysBelow(keys, n - 1);
    } else {
      assert keys == {};
    }
  }

  /** 1 + 2 + ... + 128: the prefix counter of a node never needs to exceed 255. */
  lemma AtMost255(t: Tree, p: Path)
    requires GoodSlots(Slots(t)) && p in t
    ensures |t[p].prefixes| <= 255
  {
    var keys := t[p].prefixes.Keys;
    forall k | k in keys ensures WellFormedKey(k) && KeyIndex(k) < 255 {
      assert Slot(p, k) in Slots(t);
      KeyIndexInjective(k, k);
    }
    KeysBelow(keys, 255);
  }

  lemma {:induction false} BytesBelow(kids: set<Byte>, n: nat)
    requires forall b | b in kids :: b < n
    ensures |kids| <= n
  {
    if n == 0 {
      assert kids == {};
    } else if n - 1 in kids {
      BytesBelow(kids - {n - 1}, n - 1);
    } else {
      BytesBelow(kids, n - 1);
    }
  }

  lemma AtMost256Kids(t: Tree, p: Path)
    requires p in t
    ensures |t[p].kids| <= 256
  {
    BytesBelow(t[p].kids, 256);
  }

  // ---------------------------------------------------------------- insert

  /** Make the nodes for the first `n` bytes. */
  function Grow(t: Tree, bytes: seq<Byte>, n: nat): (g: Tree)
    requires WF(t) && n <= |bytes|
    ensures WF(g) && Walk(bytes, n) in g
  {
    if n == 0 then t
    else
      var g := Grow(t, bytes, n - 1);
      DescendWF(g, Walk(bytes, n - 1), bytes[n - 1]);
      Descend(g, Walk(bytes, n - 1), bytes[n - 1])
  }

  /** The slot a prefix of `length` bits lives in. */
  function Place(bytes: seq<Byte>, length: nat): Slot
    requires length <= 8 * |bytes|
  {
    Slot(Walk(bytes, length / 8), TailKey(bytes, length))
  }

  function Insert(t: Tree, bytes: seq<Byte>, length: nat, v: Value): Tree
    requires WF(t) && length <= 8 * |bytes|
  {
    SetPrefix(Grow(t, bytes, length / 8), Place(bytes, length), v)
  }

  lemma NewChild(t: Tree, p: Path, b: Byte)
    requires WF(t) && p in t && b !in t[p].kids
    ensures Step(p, b) !in t
  {
    assert Step(p, b) in t ==> NodeOk(t, Step(p, b));
  }

  lemma DescendWF(t: Tree, p: Path, b: Byte)
    requires WF(t) && p in t
    ensures WF(Descend(t, p, b)) && Step(p, b) in Descend(t, p, b)
  {
    var d := Descend(t, p, b);
    if b !in t[p].kids {
      NewChild(t, p, b);
      assert |t[p].kids + {b}| == |t[p].kids| + 1;
      forall q | q in d ensures NodeOk(d, q) {
        assert q in t ==> NodeOk(t, q);
        assert q == Step(p, b) ==> d[q] == EmptyNode;
      }
    } else {
      assert NodeOk(t, p);
    }
  }

  lemma DescendKeeps(t: Tree, p: Path, b: Byte)
    requires WF(t) && p in t
    ensures Slots(Descend(t, p, b)) == Slots(t)
    ensures Honest(t) ==> Honest(Descend(t, p, b))
    ensures TidyExcept(t, p) ==> TidyExcept(Descend(t, p, b), Step(p, b))
  {
    var d := Descend(t, p, b);
    if b !in t[p].kids {
      NewChild(t, p, b);
      hide NodeOk, WF;
      assert forall x :: Stores(d, x) <==> Stores(t, x);
    }
  }

  lemma {:induction false} GrowSlots(t: Tree, bytes: seq<Byte>, n: nat)
    requires WF(t) && n <= |bytes|
    ensures Slots(Grow(t, bytes, n)) == Slots(t)
  {
    if n > 0 {
      GrowSlots(t, bytes, n - 1);
      DescendKeeps(Grow(t, bytes, n - 1), Walk(bytes, n - 1), bytes[n - 1]);
    }
  }

  lemma {:induction false} GrowTidy(t: Tree, bytes: seq<Byte>, n: nat)
    requires Inv(t) && n <= |bytes|
    ensures Honest(Grow(t, bytes, n)) && TidyExcept(Grow(t, bytes, n), Walk(bytes, n))
  {
    if n > 0 {
      GrowTidy(t, bytes, n - 1);
      DescendKeeps(Grow(t, bytes, n - 1), Walk(bytes, n - 1), bytes[n - 1]);
    }
  }

  /** Replacing what a node stores, not its branches, keeps the shape. */
  lemma ReplaceWF(t: Tree, p: Path, n: Node)
    requires WF(t) && p in t && n.kids == t[p].kids && n.branchNum == t[p].branchNum
    ensures WF(t[p := n])
  {
    var u := t[p := n];
    forall q | q in u ensures NodeOk(u, q) {
      assert NodeOk(t, q);
    }
  }

  lemma SetSlots(t: Tree, x: Slot, v: Value)
    requires WF(t) && x.at in t
    ensures WF(SetPrefix(t, x, v)) && Slots(SetPrefix(t, x, v)) == Slots(t)[x := v]
  {
    var u := SetPrefix(t, x, v);
    ReplaceWF(t, x.at, u[x.at]);
    assert forall y :: Stores(u, y) <==> Stores(t, y) || y == x;
  }

  /** Insert stores the value in the prefix's slot and changes no other. */
  lemma InsertSlots(t: Tree, bytes: seq<Byte>, length: nat, v: Value)
    requires WF(t) && length <= 8 * |bytes|
    ensures WF(Insert(t, bytes, length, v))
    ensures Slots(Insert(t, bytes, length, v)) == Slots(t)[Place(bytes, length) := v]
  {
    GrowSlots(t, bytes, length / 8);
    SetSlots(Grow(t, bytes, length / 8), Place(bytes, length), v);
  }

  lemma CountAfterSet(before: map<nat, Value>, k: nat, v: Value, count: Byte)
    requires count == |before| && |before[k := v]| <= 255
    ensures (if k in before && before[k] != 0 then count else Inc(count)) == |before[k := v]|
            <==> !(k in before && before[k] == 0)
  {
    assert Inc(count) == if count == 255 then 0 else count + 1;
    var after := before[k := v];
    if k in before {
      assert after.Keys == before.Keys;
      assert |after| == |after.Keys| == |before|;
    } else {
      assert after.Keys == before.Keys + {k};
      assert |after| == |after.Keys| == |before| + 1;
    }
  }

  lemma SetKeepsHonestIff(t: Tree, x: Slot, v: Value)
    requires WF(t) && Honest(t) && x.at in t && GoodSlots(Slots(t)[x := v])
    ensures Honest(SetPrefix(t, x, v)) <==> !(Stores(t, x) && t[x.at].prefixes[x.key] == 0)
  {
    var u := SetPrefix(t, x, v);
    SetSlots(t, x, v);
    AtMost255(u, x.at);
    CountAfterSet(t[x.at].prefixes, x.key, v, t[x.at].prefNum);
    assert forall q | q in t && q != x.at :: u[q] == t[q];
  }

  /** The counters stay right exactly when no stored 0 is overwritten. */
  lemma InsertKeepsInvIff(t: Tree, bytes: seq<Byte>, length: nat, v: Value)
    requires Inv(t) && length <= 8 * |bytes|
    ensures Inv(Insert(t, bytes, length, v)) <==>
            !(Place(bytes, length) in Slots(t) && Slots(t)[Place(bytes, length)] == 0)
  {
    var g, x := Grow(t, bytes, length / 8), Place(bytes, length);
    Located(bytes, length);
    GrowSlots(t, bytes, length / 8);
    GrowTidy(t, bytes, length / 8);
    SetSlots(g, x, v);
    SetKeepsHonestIff(g, x, v);
    var u := SetPrefix(g, x, v);
    forall q | q in u ensures Useful(u, q) {
      assert q != x.at ==> u[q] == g[q] && Useful(g, q);
    }
    assert Stores(g, x) <==> x in Slots(t);
  }

  // ---------------------------------------------------------------- delete

  function Depth(p: Path): nat
  {
    if p.Root? then 0 else 1 + Depth(p.up)
  }

  lemma UnderDepth(p: Path, q: Path)
    requires Under(p, q)
    ensures Depth(p) <= Depth(q)
  {
  }

  lemma {:induction false} UnderTrans(p: Path, q: Path, r: Path)
    requires Under(p, q) && Under(q, r)
    ensures Under(p, r)
    decreases r
  {
    if r != q {
      UnderTrans(p, q, r.up);
    }
  }

  /** The upward loop of delete: free nodes that look empty, stopping at the root. */
  function Prune(t: Tree, p: Path): Tree
    requires WF(t) && p in t
    decreases p
  {
    if !LooksEmpty(t, p) || p.Root? then t
    else
      assert NodeOk(t, p);
      UnlinkWF(t, p);
      Prune(Unlink(t, p), p.up)
  }

  function Remove(t: Tree, x: Slot): Tree
    requires WF(t) && Stores(t, x)
  {
    DropSlots(t, x);
    Prune(DropPrefix(t, x), x.at)
  }

  lemma DropSlots(t: Tree, x: Slot)
    requires WF(t) && Stores(t, x)
    ensures WF(DropPrefix(t, x)) && Slots(DropPrefix(t, x)) == Slots(t) - {x}
  {
    var d := DropPrefix(t, x);
    ReplaceWF(t, x.at, d[x.at]);
    assert forall y :: Stores(d, y) <==> Stores(t, y) && y != x;
  }

  lemma DropKeeps(t: Tree, x: Slot)
    requires Inv(t) && Stores(t, x)
    ensures Honest(DropPrefix(t, x)) && TidyExcept(DropPrefix(t, x), x.at)
  {
    var d := DropPrefix(t, x);
    var before, after := t[x.at].prefixes, d[x.at].prefixes;
    assert after.Keys == before.Keys - {x.key};
    assert |after| == |after.Keys| == |before.Keys| - 1;
    AtMost255(t, x.at);
    assert d[x.at].prefNum == |after|;
    forall q | q in d && q != x.at ensures d[q].prefNum == |d[q].prefixes| && Useful(d, q) {
      assert Useful(t, q);
    }
  }

  lemma UnlinkDomain(t: Tree, p: Path)
    requires WF(t) && p in t && p.Step? && p.up in t
    ensures forall q :: q in Unlink(t, p) <==> q in t && !Under(p, q)
    ensures forall q | q in Unlink(t, p) && q != p.up :: Unlink(t, p)[q] == t[q]
    ensures p.up in Unlink(t, p) && Unlink(t, p)[p.up].kids == t[p.up].kids - {p.id}
  {
    if Under(p, p.up) {
      UnderDepth(p, p.up);
    }
  }

  lemma UnlinkNode(t: Tree, p: Path, q: Path)
    requires WF(t) && p in t && p.Step? && p.up in t && q in Unlink(t, p)
    ensures NodeOk(Unlink(t, p), q)
  {
    var u := Unlink(t, p);
    UnlinkDomain(t, p);
    assert NodeOk(t, p) && NodeOk(t, q);
    assert q == p.up ==> |u[q].kids| == |t[q].kids| - 1;
    assert q.Step? && q.up == p.up && q.id == p.id ==> q == p;
    forall b | b in u[q].kids ensures Step(q, b) in u {
      assert b in t[q].kids;
      assert q == p.up ==> b != p.id;
      assert Step(q, b).up == q && Step(q, b).id == b;
    }
  }

  lemma UnlinkWF(t: Tree, p: Path)
    requires WF(t) && p in t && p.Step? && p.up in t
    ensures WF(Unlink(t, p)) && p.up in Unlink(t, p)
    ensures forall q :: q in Unlink(t, p) <==> q in t && !Under(p, q)
    ensures forall q | q in Unlink(t, p) && q != p.up :: Unlink(t, p)[q] == t[q]
    ensures |Unlink(t, p)[p.up].kids| == |t[p.up].kids| - 1
  {
    UnlinkDomain(t, p);
    var u := Unlink(t, p);
    forall q | q in u ensures NodeOk(u, q) {
      UnlinkNode(t, p, q);
    }
    assert !Under(p, Root);
    assert p.id in t[p.up].kids by { assert NodeOk(t, p); }
  }

  lemma UnlinkSlots(t: Tree, p: Path)
    requires WF(t) && p in t && p.Step? && p.up in t
    ensures forall x :: x in Slots(Unlink(t, p)) <==> x in Slots(t) && !Under(p, x.at)
    ensures forall x | x in Slots(Unlink(t, p)) :: Slots(Unlink(t, p))[x] == Slots(t)[x]
  {
    UnlinkWF(t, p);
    assert Unlink(t, p)[p.up].prefixes == t[p.up].prefixes;
  }

  lemma {:induction false} PruneSlots(t: Tree, p: Path)
    requires WF(t) && p in t
    ensures WF(Prune(t, p))
    ensures forall x | x in Slots(Prune(t, p)) :: x in Slots(t) && Slots(Prune(t, p))[x] == Slots(t)[x]
    decreases p
  {
    if LooksEmpty(t, p) && p.Step? {
      assert NodeOk(t, p);
      UnlinkWF(t, p);
      UnlinkSlots(t, p);
      PruneSlots(Unlink(t, p), p.up);
    }
  }

  lemma UnlinkHonest(t: Tree, p: Path)
    requires WF(t) && Honest(t) && p in t && p.Step? && p.up in t
    ensures Honest(Unlink(t, p))
    ensures TidyExcept(t, p) ==> TidyExcept(Unlink(t, p), p.up)
  {
    UnlinkWF(t, p);
    var u := Unlink(t, p);
    forall q | q in u ensures u[q].prefNum == |u[q].prefixes| {
      assert u[q].prefNum == t[q].prefNum && u[q].prefixes == t[q].prefixes;
    }
    forall q | TidyExcept(t, p) && q in u && q != p.up ensures Useful(u, q) {
      assert q != p;
      assert Useful(t, q);
    }
  }

  lemma {:induction false} PruneTidies(t: Tree, p: Path)
    requires WF(t) && p in t && Honest(t) && TidyExcept(t, p)
    ensures Honest(Prune(t, p)) && Tidy(Prune(t, p))
    decreases p
  {
    assert NodeOk(t, p);
    if LooksEmpty(t, p) && p.Step? {
      UnlinkWF(t, p);
      UnlinkHonest(t, p);
      PruneTidies(Unlink(t, p), p.up);
    } else {
      assert Useful(t, p);
    }
  }

  /** In a tidy tree every node but the root has a stored prefix at or below it. */
  lemma {:induction false} SomethingBelow(t: Tree, p: Path, room: set<Path>) returns (x: Slot)
    requires WF(t) && Tidy(t) && p in t && p.Step?
    requires forall r | r in t && Under(p, r) :: r in room
    ensures Under(p, x.at) && Stores(t, x)
    decreases room
  {
    if t[p].prefixes != map[] {
      var k :| k in t[p].prefixes;
      x := Slot(p, k);
    } else {
      assert Useful(t, p) && NodeOk(t, p);
      var b :| b in t[p].kids;
      var c := Step(p, b);
      forall r | r in t && Under(c, r) ensures r in room - {p} {
        UnderTrans(p, c, r);
        UnderDepth(c, r);
      }
      x := SomethingBelow(t, c, room - {p});
      UnderTrans(p, c, x.at);
    }
  }

  /** Whatever the counters say, delete never changes or invents an entry, and what it leaves is well shaped. */
  lemma RemoveShape(t: Tree, x: Slot)
    requires WF(t) && Stores(t, x)
    ensures WF(Remove(t, x)) && x !in Slots(Remove(t, x))
    ensures forall y | y in Slots(Remove(t, x)) :: y in Slots(t) && Slots(Remove(t, x))[y] == Slots(t)[y]
    ensures Inv(t) ==> Inv(Remove(t, x))
  {
    DropSlots(t, x);
    PruneSlots(DropPrefix(t, x), x.at);
    if Inv(t) {
      DropKeeps(t, x);
      PruneTidies(DropPrefix(t, x), x.at);
    }
  }
}
