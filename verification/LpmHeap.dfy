/** Trie nodes on the heap: branch and prefix maps, counters and parent links, changed in place one node at a time. */
module LpmHeap {
  import opened Bytes
  import opened LpmNodes

  lemma AddKidIs(t: Tree, p: Path, b: Byte)
    requires p in t
    ensures AddKid(t, p, b).Keys == t.Keys && forall q | q in t && q != p :: AddKid(t, p, b)[q] == t[q]
  {
  }

  class NodeObj {
    var branches: map<Byte, NodeObj>
    var prefixes: map<nat, Value>
    var prefNum: Byte
    var branchNum: Byte
    var parent: NodeObj?
    var childId: Byte
    ghost const path: Path

    constructor (parent: NodeObj?, childId: Byte, ghost path: Path)
      ensures branches == map[] && prefixes == map[] && prefNum == 0 && branchNum == 0
      ensures this.parent == parent && this.childId == childId && this.path == path
    {
      branches, prefixes, prefNum, branchNum := map[], map[], 0, 0;
      this.parent, this.childId, this.path := parent, childId, path;
    }

    ghost predicate Shows(x: Node)
      reads this
    {
      prefixes == x.prefixes && branches.Keys == x.kids && prefNum == x.prefNum && branchNum == x.branchNum
    }
  }

  class TrieObj {
    const keyWidth: nat
    const releaseMemory: bool
    const root: NodeObj
    ghost var repr: set<NodeObj>
    ghost var at: map<Path, NodeObj>
    ghost var tree: Tree

    /** There is one object for each path of the tree. */
    ghost predicate Registered()
      reads this
    {
      && root in repr && root.path == Root
      && at.Keys == tree.Keys
      && (forall n {:trigger n in repr} | n in repr :: n.path in at && at[n.path] == n)
    }

    /** Every object holds what the tree says at its path. */
    ghost predicate Mirrored()
      requires Registered()
      reads this, repr
    {
      forall n {:trigger n in repr} | n in repr :: n.Shows(tree[n.path])
    }

    ghost predicate ParentsOk()
      reads this`repr, repr
    {
      forall n {:trigger n.parent} {:trigger n.childId} | n in repr ::
        if n.path.Root? then n.parent == null
        else n.parent != null && n.parent in repr && n.parent.path == n.path.up && n.childId == n.path.id
    }

    ghost predicate ChildrenOk()
      reads this`repr, repr
    {
      forall n, b {:trigger n.branches[b]} | n in repr && b in n.branches ::
        n.branches[b] in repr && n.branches[b].path == Step(n.path, b)
    }

    ghost predicate Valid()
      reads this, repr
    {
      Registered() && Mirrored() && ParentsOk() && ChildrenOk()
    }

    constructor (keyWidthBytes: nat, autoShrink: bool)
      requires keyWidthBytes <= 64
      ensures Valid() && tree == map[Root := EmptyNode] && keyWidth == keyWidthBytes && releaseMemory == autoShrink
      ensures fresh(repr)
    {
      keyWidth, releaseMemory := keyWidthBytes, autoShrink;
      var r := new NodeObj(null, 0, Root);
      root := r;
      repr, at, tree := {r}, map[Root := r], map[Root := EmptyNode];
    }

    /** Allocate a node and point it at its parent. */
    method Allocate(current: NodeObj, byte: Byte) returns (node: NodeObj)
      requires Valid() && current in repr && Step(current.path, byte) !in tree
      modifies this`repr, this`at, this`tree
      ensures Valid() && tree == old(tree)[Step(current.path, byte) := EmptyNode]
      ensures node.path == Step(current.path, byte)
      ensures repr == old(repr) + {node} && fresh(node)
    {
      node := new NodeObj(current, byte, Step(current.path, byte));
      tree := tree[node.path := EmptyNode];
      repr, at := repr + {node}, at[node.path := node];
    }

    /** The object's own fields, and what they show. */
    method EnterChild(current: NodeObj, byte: Byte, node: NodeObj)
      requires Valid() && current in repr && node in repr && node.path == Step(current.path, byte)
      requires byte !in current.branches
      modifies current
      ensures Registered() && ParentsOk() && ChildrenOk()
      ensures current.path in tree && current.Shows(AddKid(tree, current.path, byte)[current.path])
      ensures forall n {:trigger n in repr} | n in repr && n != current :: n.path in tree && n.path != current.path && n.Shows(tree[n.path])
    {
      current.branches := current.branches[byte := node];
      current.branchNum := Inc(current.branchNum);
      assert current.branches.Keys == old(current.branches).Keys + {byte};
    }

    /** Enter a child into its parent's branches. */
    method SetNextNode(current: NodeObj, byte: Byte, node: NodeObj)
      requires Valid() && current in repr && node in repr && node.path == Step(current.path, byte)
      requires byte !in current.branches
      modifies this`tree, current
      ensures Valid() && tree == AddKid(old(tree), current.path, byte)
    {
      hide AddKid, NodeObj.Shows, ParentsOk, ChildrenOk;
      AddKidIs(tree, current.path, byte);
      EnterChild(current, byte, node);
      tree := AddKid(tree, current.path, byte);
    }

    /** Store a value under a key of a node. */
    method InsertPrefix(current: NodeObj, key: nat, value: Value)
      requires Valid() && current in repr
      modifies this`tree, current
      ensures Valid() && tree == SetPrefix(old(tree), Slot(current.path, key), value)
    {
      var present := key in current.prefixes && current.prefixes[key] != 0;
      current.prefixes := current.prefixes[key := value];
      if !present {
        current.prefNum := Inc(current.prefNum);
      }
      tree := SetPrefix(tree, Slot(current.path, key), value);
    }

    /** Drop a key of a node. */
    method DeletePrefix(current: NodeObj, key: nat)
      requires Valid() && current in repr
      modifies this`tree, current
      ensures Valid() && tree == DropPrefix(old(tree), Slot(current.path, key))
    {
      current.prefixes := current.prefixes - {key};
      current.prefNum := Dec(current.prefNum);
      tree := DropPrefix(tree, Slot(current.path, key));
    }

    /** Take a child out of a node's branches. */
    method DeleteBranch(current: NodeObj, byte: Byte)
      requires Valid() && current in repr
      modifies this`tree, current
      ensures Valid() && tree == DropKid(old(tree), current.path, byte)
      ensures byte !in current.branches
    {
      current.branches := current.branches - {byte};
      current.branchNum := Dec(current.branchNum);
      tree := DropKid(tree, current.path, byte);
      assert current.branches.Keys == tree[current.path].kids;
    }

    /** Release a node that its parent no longer lists; whatever hangs below it is unreachable from then on. */
    ghost method FreeNode(node: NodeObj)
      requires Valid() && node in repr && node.path.Step? && node.path.id !in node.parent.branches
      modifies this`repr, this`at, this`tree
      ensures Valid() && tree == Free(old(tree), node.path)
      ensures forall n :: n in repr <==> n in old(repr) && !Under(node.path, n.path)
    {
      tree := Free(tree, node.path);
      at := map q | q in at && !Under(node.path, q) :: at[q];
      repr := set n | n in repr && !Under(node.path, n.path);
      assert forall n, b {:trigger n.branches[b]} | n in repr && b in n.branches ::
        n.path == node.path.up ==> n == node.parent;
    }
  }
}
