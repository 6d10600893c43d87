/** The operations of the longest-prefix-match trie on heap nodes, proved to act on the stored map of bit prefixes. */
module LpmTrie {
  import opened Bytes
  import opened Bits
  import opened LpmNodes
  import opened LpmKeys
  import opened LpmTree
  import opened LpmHeap
  import C = LpmContents

  ghost predicate Good(trie: TrieObj)
    reads trie, trie.repr
  {
    trie.Valid() && WF(trie.tree)
  }

  /** A missing node on the way means nothing is stored further down. */
  lemma {:induction false} WalkClosed(t: Tree, bytes: seq<Byte>, i: nat, n: nat)
    requires WF(t) && i <= n <= |bytes| && Walk(bytes, i) !in t
    ensures Walk(bytes, n) !in t
  {
    if i < n {
      WalkClosed(t, bytes, i, n - 1);
      assert Walk(bytes, n) in t ==> NodeOk(t, Walk(bytes, n));
    }
  }

  lemma MissingNode(t: Tree, bytes: seq<Byte>, i: nat, length: nat)
    requires WF(t) && length <= 8 * |bytes| && 8 * i + 8 <= length
    requires Walk(bytes, i) in t && bytes[i] !in t[Walk(bytes, i)].kids
    ensures PrefixBits(bytes, length) !in C.Contents(t)
  {
    NewChild(t, Walk(bytes, i), bytes[i]);
    WalkClosed(t, bytes, i + 1, length / 8);
    C.PlaceContents(t, bytes, length);
  }

  /** Go to the child for a byte, making it if it is missing. */
  method NextNode(trie: TrieObj, current: NodeObj, byte: Byte) returns (node: NodeObj)
    requires Good(trie) && current in trie.repr
    modifies trie`repr, trie`at, trie`tree, current
    ensures Good(trie) && (forall n | n in trie.repr :: n in old(trie.repr) || fresh(n))
    ensures trie.tree == Descend(old(trie.tree), current.path, byte)
    ensures node in trie.repr && node.path == Step(current.path, byte)
  {
    DescendWF(trie.tree, current.path, byte);
    if byte in current.branches {
      return current.branches[byte];
    }
    NewChild(trie.tree, current.path, byte);
    node := trie.Allocate(current, byte);
    trie.SetNextNode(current, byte, node);
  }

  /** Walk down the whole bytes of a prefix, making the nodes that are missing. */
  method MakePath(trie: TrieObj, prefix: seq<Byte>, prefixLength: nat) returns (current: NodeObj)
    requires Good(trie) && prefixLength <= 8 * |prefix|
    modifies trie`repr, trie`at, trie`tree, trie.repr
    ensures Good(trie) && (forall n | n in trie.repr :: n in old(trie.repr) || fresh(n))
    ensures trie.tree == Grow(old(trie.tree), prefix, prefixLength / 8)
    ensures current in trie.repr && current.path == Walk(prefix, prefixLength / 8)
  {
    var length, i := prefixLength, 0;
    current := trie.root;
    while length >= 8
      invariant Good(trie) && (forall n | n in trie.repr :: n in old(trie.repr) || fresh(n))
      invariant length == prefixLength - 8 * i && 8 * i <= prefixLength
      invariant current in trie.repr && current.path == Walk(prefix, i)
      invariant trie.tree == Grow(old(trie.tree), prefix, i)
    {
      current := NextNode(trie, current, prefix[i]);
      i, length := i + 1, length - 8;
    }
  }

  method Insert(trie: TrieObj, prefix: seq<Byte>, prefixLength: nat, value: Value)
    requires Good(trie) && prefixLength <= 8 * |prefix|
    modifies trie`repr, trie`at, trie`tree, trie.repr
    ensures Good(trie) && (forall n | n in trie.repr :: n in old(trie.repr) || fresh(n))
    ensures trie.tree == LpmTree.Insert(old(trie.tree), prefix, prefixLength, value)
    ensures C.Contents(trie.tree) == C.Contents(old(trie.tree))[PrefixBits(prefix, prefixLength) := value]
    ensures Inv(old(trie.tree)) ==> (Inv(trie.tree) <==> !C.OverwritesZero(old(trie.tree), prefix, prefixLength))
  {
    C.InsertRefinesMapUpdate(trie.tree, prefix, prefixLength, value);
    if Inv(trie.tree) { C.InsertKeepsCountersIff(trie.tree, prefix, prefixLength, value); }
    hide Inv, C.OverwritesZero, C.Contents;
    var current := MakePath(trie, prefix, prefixLength);
    var key := if prefixLength % 8 == 0 then 0 else GetPrefixKey(prefixLength % 8, prefix[prefixLength / 8]);
    trie.InsertPrefix(current, key, value);
  }

  /** The node for the whole bytes of a prefix, or null if a node on the way is missing. */
  method FindNode(trie: TrieObj, prefix: seq<Byte>, prefixLength: nat) returns (current: NodeObj?)
    requires Good(trie) && prefixLength <= 8 * |prefix|
    ensures current == null ==> PrefixBits(prefix, prefixLength) !in C.Contents(trie.tree)
    ensures current != null ==> current in trie.repr && current.path == Walk(prefix, prefixLength / 8)
  {
    current := trie.root;
    var length, i := prefixLength, 0;
    while length >= 8
      invariant length == prefixLength - 8 * i && 8 * i <= prefixLength
      invariant current != null && current in trie.repr && current.path == Walk(prefix, i)
    {
      if prefix[i] !in current.branches {
        MissingNode(trie.tree, prefix, i, prefixLength);
        return null;
      }
      current := current.branches[prefix[i]];
      i, length := i + 1, length - 8;
    }
  }

  method RetrieveValue(trie: TrieObj, prefix: seq<Byte>, prefixLength: nat) returns (found: bool, value: Value)
    requires Good(trie) && prefixLength <= 8 * |prefix|
    ensures found <==> PrefixBits(prefix, prefixLength) in C.Contents(trie.tree)
    ensures found ==> value == C.Contents(trie.tree)[PrefixBits(prefix, prefixLength)]
  {
    found, value := false, 0;
    var current := FindNode(trie, prefix, prefixLength);
    if current == null { return; }
    var key := if prefixLength % 8 == 0 then 0 else GetPrefixKey(prefixLength % 8, prefix[prefixLength / 8]);
    C.PlaceContents(trie.tree, prefix, prefixLength);
    if key in current.prefixes {
      found, value := true, current.prefixes[key];
    }
  }

  method HasPrefix(trie: TrieObj, prefix: seq<Byte>, prefixLength: nat) returns (found: bool)
    requires Good(trie) && prefixLength <= 8 * |prefix|
    ensures found <==> PrefixBits(prefix, prefixLength) in C.Contents(trie.tree)
  {
    var value;
    found, value := RetrieveValue(trie, prefix, prefixLength);
  }

  /** Delete empties the prefix's place and then frees upwards while the counters read 0; without memory release it
      only reports whether the prefix is stored. */
  method Delete(trie: TrieObj, prefix: seq<Byte>, prefixLength: nat) returns (found: bool)
    requires Good(trie) && prefixLength <= 8 * |prefix|
    modifies trie`repr, trie`at, trie`tree, trie.repr
    ensures Good(trie) && trie.repr <= old(trie.repr)
    ensures found <==> PrefixBits(prefix, prefixLength) in C.Contents(old(trie.tree))
    ensures trie.tree == if trie.releaseMemory then C.Delete(old(trie.tree), prefix, prefixLength) else old(trie.tree)
    ensures trie.releaseMemory ==> C.RemovesAndLoses(old(trie.tree), trie.tree, prefix, prefixLength)
  {
    hide C.RemovesAndLoses, C.Contents, PrefixBits, WF;
    C.DeleteActs(trie.tree, prefix, prefixLength);
    C.PlaceContents(trie.tree, prefix, prefixLength);
    var current := FindNode(trie, prefix, prefixLength);
    if current == null { return false; }
    var key := if prefixLength % 8 == 0 then 0 else GetPrefixKey(prefixLength % 8, prefix[prefixLength / 8]);
    ghost var x := Place(prefix, prefixLength);
    if key !in current.prefixes {
      return false;
    }
    if trie.releaseMemory {
      DropSlots(trie.tree, x);
      trie.DeletePrefix(current, key);
      PruneUp(trie, current);
    }
    return true;
  }

  /** The upward loop of delete. */
  method PruneUp(trie: TrieObj, start: NodeObj)
    requires Good(trie) && start in trie.repr
    modifies trie`repr, trie`at, trie`tree, trie.repr
    ensures Good(trie) && trie.repr <= old(trie.repr)
    ensures trie.tree == Prune(old(trie.tree), start.path)
  {
    hide Prune;
    var current := start;
    while current.prefNum == 0 && current.branchNum == 0
      invariant Good(trie) && trie.repr <= old(trie.repr) && current in trie.repr
      invariant Prune(trie.tree, current.path) == Prune(old(trie.tree), start.path)
      decreases current.path
    {
      var tmp, up := current, current.parent;
      if up == null {
        break;
      }
      PruneOnce(trie.tree, tmp.path);
      UnderDepthStrict(tmp.path);
      current := up;
      trie.DeleteBranch(current, tmp.childId);
      trie.FreeNode(tmp);
    }
    PruneEnds(trie.tree, current.path);
  }

  lemma PruneOnce(t: Tree, p: Path)
    requires WF(t) && p in t && p.Step? && LooksEmpty(t, p)
    ensures p.up in t && WF(Unlink(t, p)) && p.up in Unlink(t, p) && Prune(t, p) == Prune(Unlink(t, p), p.up)
  {
    assert NodeOk(t, p);
    UnlinkWF(t, p);
  }

  lemma PruneEnds(t: Tree, p: Path)
    requires WF(t) && p in t && (p.Root? || !LooksEmpty(t, p))
    ensures Prune(t, p) == t
  {
  }

  lemma UnderDepthStrict(p: Path)
    requires p.Step?
    ensures !Under(p, p.up)
  {
    if Under(p, p.up) {
      UnderDepth(p, p.up);
    }
  }

  // ---------------------------------------------------------------- lookup

  /** `s` is the longest stored prefix of `k`. */
  ghost predicate LongestMatch(c: map<BitString, Value>, k: BitString, s: BitString)
  {
    s in c && s <= k && forall r | r in c && r <= k :: |r| <= |s|
  }

  /** Among the stored prefixes of `k` shorter than `n` bits, the longest has `best` bits, or there is none. */
  ghost predicate BestBelow(c: map<BitString, Value>, k: BitString, n: nat, found: bool, best: nat, value: Value)
    requires n <= |k| + 1
  {
    if found then
      best < n && k[..best] in c && value == c[k[..best]] && forall m | best < m < n :: k[..m] !in c
    else
      forall m | 0 <= m < n :: k[..m] !in c
  }

  /** The same among all stored prefixes of `k`. */
  ghost predicate Best(c: map<BitString, Value>, k: BitString, found: bool, best: nat, value: Value)
  {
    BestBelow(c, k, |k| + 1, found, best, value)
  }

  lemma BestIsLongest(c: map<BitString, Value>, k: BitString, found: bool, best: nat, value: Value)
    requires Best(c, k, found, best, value)
    ensures found ==> LongestMatch(c, k, k[..best]) && value == c[k[..best]]
    ensures !found ==> forall s | s in c :: !(s <= k)
  {
    forall s | s in c && s <= k ensures found && |s| <= best {
      assert s == k[..|s|];
    }
  }

  /** A key for `j` leading bits of the byte is in the node, with this value, and none for more. */
  ghost predicate LongestHere(prefixes: map<nat, Value>, byte: Byte, j: nat, value: Value)
  {
    && 1 <= j <= 7 && GetPrefixKey(j, byte) in prefixes && value == prefixes[GetPrefixKey(j, byte)]
    && forall m | j < m < 8 :: GetPrefixKey(m, byte) !in prefixes
  }

  /** The scan inside one node: 7 leading bits of the byte down to 1. */
  method LongestInNode(current: NodeObj, byte: Byte) returns (hit: bool, value: Value)
    ensures hit ==> exists j: nat :: LongestHere(current.prefixes, byte, j, value)
    ensures !hit ==> forall m | 0 < m < 8 :: GetPrefixKey(m, byte) !in current.prefixes
  {
    hit, value := false, 0;
    var i := 7;
    while i > 0
      invariant 0 <= i <= 7
      invariant forall m | i < m < 8 :: GetPrefixKey(m, byte) !in current.prefixes
    {
      if GetPrefixKey(i, byte) in current.prefixes {
        assert LongestHere(current.prefixes, byte, i, current.prefixes[GetPrefixKey(i, byte)]);
        return true, current.prefixes[GetPrefixKey(i, byte)];
      }
      i := i - 1;
    }
  }

  // ---- the places that lookup visits, against the stored map

  /** The place where the first `8 d + j` bits of the key would be stored. */
  function SlotAt(key: seq<Byte>, d: nat, j: nat): Slot
    requires 8 * d + j <= 8 * |key| && j < 8
  {
    Slot(Walk(key, d), if j == 0 then 0 else GetPrefixKey(j, key[d]))
  }

  ghost predicate AgreesAt(t: Tree, key: seq<Byte>, c: map<BitString, Value>, k: BitString, d: nat, j: nat)
    requires |k| <= 8 * |key| && 8 * d + j <= |k| && j < 8
  {
    C.HoldsAt(t, SlotAt(key, d, j), c, k[..8 * d + j])
  }

  ghost predicate Agrees(t: Tree, key: seq<Byte>, c: map<BitString, Value>, k: BitString)
    requires |k| <= 8 * |key|
  {
    forall d: nat, j: nat {:trigger AgreesAt(t, key, c, k, d, j)} | 8 * d + j <= |k| && j < 8 :: AgreesAt(t, key, c, k, d, j)
  }

  lemma PlaceAt(key: seq<Byte>, d: nat, j: nat, m: nat)
    requires m == 8 * d + j <= 8 * |key| && j < 8
    ensures Place(key, m) == SlotAt(key, d, j)
  {
    assert m / 8 == d && m % 8 == j;
  }

  lemma TreeAgrees(t: Tree, key: seq<Byte>, width: nat)
    requires width <= |key|
    ensures Agrees(t, key, C.Contents(t), PrefixBits(key, 8 * width))
  {
    var c, k := C.Contents(t), PrefixBits(key, 8 * width);
    forall d: nat, j: nat | 8 * d + j <= |k| && j < 8 ensures AgreesAt(t, key, c, k, d, j) {
      C.PlaceContents(t, key, 8 * d + j);
      TakeTake(BytesBits(key), 8 * width, 8 * d + j);
      PlaceAgrees(t, key, c, k, d, j, 8 * d + j);
    }
  }

  lemma PlaceAgrees(t: Tree, key: seq<Byte>, c: map<BitString, Value>, k: BitString, d: nat, j: nat, m: nat)
    requires m == 8 * d + j <= |k| <= 8 * |key| && j < 8
    requires C.HoldsAt(t, Place(key, m), c, k[..m])
    ensures AgreesAt(t, key, c, k, d, j)
  {
    PlaceAt(key, d, j, m);
  }

  lemma TakeTake(s: BitString, a: nat, b: nat)
    requires b <= a <= |s|
    ensures s[..a][..b] == s[..b]
  {
  }

  /** When the next node is missing, no longer prefix of the key is stored. */
  lemma NothingBeyond(t: Tree, key: seq<Byte>, c: map<BitString, Value>, k: BitString, d: nat)
    requires |k| <= 8 * |key| && Agrees(t, key, c, k) && WF(t)
    requires 8 * d + 8 <= |k| && Walk(key, d) in t && key[d] !in t[Walk(key, d)].kids
    ensures forall m | 8 * d + 8 <= m <= |k| :: k[..m] !in c
  {
    NewChild(t, Walk(key, d), key[d]);
    forall m | 8 * d + 8 <= m <= |k| ensures k[..m] !in c {
      assert AgreesAt(t, key, c, k, m / 8, m % 8);
      WalkClosed(t, key, d + 1, m / 8);
    }
  }

  /** The search itself, against any map that agrees with the tree along the key. */
  method Search(trie: TrieObj, key: seq<Byte>, ghost c: map<BitString, Value>, ghost k: BitString)
    returns (found: bool, value: Value)
    requires Good(trie) && |k| == 8 * trie.keyWidth <= 8 * |key| && Agrees(trie.tree, key, c, k)
    ensures exists best: nat :: Best(c, k, found, best, value)
  {
    found, value := false, 0;
    ghost var best: nat := 0;
    var current, left, i := trie.root, trie.keyWidth, 0;
    while true
      invariant 0 <= i <= trie.keyWidth && left == trie.keyWidth - i
      invariant current in trie.repr && current.path == Walk(key, i)
      invariant BestBelow(c, k, 8 * i, found, best, value)
      decreases left
    {
      assert AgreesAt(trie.tree, key, c, k, i, 0);
      if 0 in current.prefixes {
        found, value, best := true, current.prefixes[0], 8 * i;
      }
      if left == 0 {
        assert Best(c, k, found, best, value);
        return;
      }
      var byte := key[i];
      forall m | 8 * i < m < 8 * i + 8
        ensures k[..m] in c <==> GetPrefixKey(m - 8 * i, byte) in current.prefixes
        ensures k[..m] in c ==> c[k[..m]] == current.prefixes[GetPrefixKey(m - 8 * i, byte)]
      {
        assert AgreesAt(trie.tree, key, c, k, i, m - 8 * i);
      }
      var hit, v := LongestInNode(current, byte);
      if hit {
        ghost var j: nat :| LongestHere(current.prefixes, byte, j, v);
        found, value, best := true, v, 8 * i + j;
      }
      assert BestBelow(c, k, 8 * i + 8, found, best, value);
      if byte !in current.branches {
        NothingBeyond(trie.tree, key, c, k, i);
        assert Best(c, k, found, best, value);
        return;
      }
      current := current.branches[byte];
      i, left := i + 1, left - 1;
    }
  }

  /** Lookup finds a stored prefix of the key exactly when there is one, and returns the value of the longest. */
  method Lookup(trie: TrieObj, key: seq<Byte>) returns (found: bool, value: Value)
    requires Good(trie) && trie.keyWidth <= |key|
    ensures found <==> exists s :: s in C.Contents(trie.tree) && s <= PrefixBits(key, 8 * trie.keyWidth)
    ensures found ==> exists s :: LongestMatch(C.Contents(trie.tree), PrefixBits(key, 8 * trie.keyWidth), s)
                                  && value == C.Contents(trie.tree)[s]
  {
    ghost var c, k := C.Contents(trie.tree), PrefixBits(key, 8 * trie.keyWidth);
    TreeAgrees(trie.tree, key, trie.keyWidth);
    found, value := Search(trie, key, c, k);
    ghost var best: nat :| Best(c, k, found, best, value);
    BestIsLongest(c, k, found, best, value);
    if found {
      assert LongestMatch(c, k, k[..best]);
    }
  }
}
