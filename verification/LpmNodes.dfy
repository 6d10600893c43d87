/** What a trie node holds, as a value, and the single steps the trie code makes on nodes. */
module LpmNodes {
  import opened Bytes

  type Value = nat

  /** The bytes leading from the root to a node. */
  datatype Path = Root | Step(up: Path, id: Byte)

  /** A place for a value: a node and a key in it. */
  datatype Slot = Slot(at: Path, key: nat)

  /** The two counters of a node are `unsigned char`: they count modulo 256. */
  datatype Node = Node(prefixes: map<nat, Value>, kids: set<Byte>, prefNum: Byte, branchNum: Byte)

  const EmptyNode := Node(map[], {}, 0, 0)

  type Tree = map<Path, Node>

  function Inc(c: Byte): Byte { (c + 1) % 256 }

  function Dec(c: Byte): Byte { (c + 255) % 256 }

  predicate Stores(t: Tree, x: Slot) { x.at in t && x.key in t[x.at].prefixes }

  function AddKid(t: Tree, p: Path, b: Byte): Tree
    requires p in t
  {
    t[p := t[p].(kids := t[p].kids + {b}, branchNum := Inc(t[p].branchNum))]
  }

  /** The child of `p` for byte `b`, made if it is missing. */
  function Descend(t: Tree, p: Path, b: Byte): Tree
    requires p in t
  {
    if b in t[p].kids then t else AddKid(t[Step(p, b) := EmptyNode], p, b)
  }

  /** Storing counts as new when the stored value was 0, present or not. */
  function SetPrefix(t: Tree, x: Slot, v: Value): Tree
    requires x.at in t
  {
    var n := t[x.at];
    var seen := x.key in n.prefixes && n.prefixes[x.key] != 0;
    t[x.at := n.(prefixes := n.prefixes[x.key := v], prefNum := if seen then n.prefNum else Inc(n.prefNum))]
  }

  function DropPrefix(t: Tree, x: Slot): Tree
    requires x.at in t
  {
    var n := t[x.at];
    t[x.at := n.(prefixes := n.prefixes - {x.key}, prefNum := Dec(n.prefNum))]
  }

  /** `q` is `p` or lies below it. */
  predicate Under(p: Path, q: Path)
  {
    q == p || (q.Step? && Under(p, q.up))
  }

  function DropKid(t: Tree, p: Path, b: Byte): Tree
    requires p in t
  {
    t[p := t[p].(kids := t[p].kids - {b}, branchNum := Dec(t[p].branchNum))]
  }

  /** Forget the node at `p` and everything below it. */
  function Free(t: Tree, p: Path): Tree
  {
    map q | q in t && !Under(p, q) :: t[q]
  }

  /** Take the node at `p` out of its parent's branches and free it. */
  function Unlink(t: Tree, p: Path): Tree
    requires p.Step? && p.up in t
  {
    Free(DropKid(t, p.up, p.id), p)
  }

  /** The loop condition of delete: both counters read 0. */
  predicate LooksEmpty(t: Tree, p: Path)
    requires p in t
  {
    t[p].prefNum == 0 && t[p].branchNum == 0
  }
}
