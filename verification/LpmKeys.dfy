/** How the longest-prefix-match trie addresses a bit prefix: the node reached by its whole bytes, and the key of
    the bits left over. */
module LpmKeys {
  import opened Bytes
  import opened Bits
  import opened LpmNodes
  import opened Rekeying

  /** The `length` leading bits of a byte, as a number. */
  function Leading(length: nat, byte: Byte): (v: nat)
    requires 0 < length < 8
    ensures v < Pow2(length) && ToBits(v, length) == ToBits(byte, 8)[..length]
  {
    Pow2Small();
    Pow2Add(8 - length, length);
    DivBelow(byte, Pow2(8 - length), Pow2(length));
    LeadingBits(byte, 8, length);
    byte / Pow2(8 - length)
  }

  /** `get_prefix_key`: the leading bits of a byte, tagged with how many they are. */
  function GetPrefixKey(length: nat, byte: Byte): nat
    requires length < 8
  {
    if length == 0 then 0 else Leading(length, byte) + length * 256
  }

  predicate WellFormedKey(k: nat)
  {
    k / 256 < 8 && k % 256 < Pow2(k / 256)
  }

  function KeyBits(k: nat): BitString
  {
    ToBits(k % 256, k / 256)
  }

  function PathBits(p: Path): (s: BitString)
    ensures |s| % 8 == 0
  {
    match p
    case Root => []
    case Step(up, id) => PathBits(up) + ToBits(id, 8)
  }

  /** The bit prefix that key `k` in the node at `p` stands for. */
  function Entry(p: Path, k: nat): BitString
  {
    PathBits(p) + KeyBits(k)
  }

  /** The path spelled by the first `n` bytes. */
  function Walk(bytes: seq<Byte>, n: nat): Path
    requires n <= |bytes|
  {
    if n == 0 then Root else Step(Walk(bytes, n - 1), bytes[n - 1])
  }

  /** The in-node key for the bits of a prefix that do not fill a byte. */
  function TailKey(bytes: seq<Byte>, length: nat): nat
    requires length <= 8 * |bytes|
  {
    if length % 8 == 0 then 0 else GetPrefixKey(length % 8, bytes[length / 8])
  }

  /** The first `length` bits of a byte string: what a caller means by a prefix. */
  function PrefixBits(bytes: seq<Byte>, length: nat): BitString
    requires length <= 8 * |bytes|
  {
    BytesBits(bytes)[..length]
  }

  /** Bit `i` of a prefix is the bit of byte i / 8 that stands for 128 if i % 8 is 0, for 64 if it is 1, and so on. */
  lemma PrefixBitAt(bytes: seq<Byte>, length: nat, i: nat)
    requires length <= 8 * |bytes| && i < length
    ensures |PrefixBits(bytes, length)| == length
    ensures PrefixBits(bytes, length)[i] == (bytes[i / 8] / Pow2(7 - i % 8) % 2 == 1)
  {
    BytesBitsPrefix(bytes, i / 8);
    var k, j := i / 8, i % 8;
    assert BytesBits(bytes)[8 * k..8 * k + 8][j] == BytesBits(bytes)[i];
    ToBitsAt(bytes[k], 8, j);
  }

  function ByteOf(b: BitString): (v: Byte)
    requires |b| == 8
    ensures ToBits(v, 8) == b
  {
    ToFromBits(b);
    Pow2Small();
    FromBits(b)
  }

  function WholePath(s: BitString): (p: Path)
    requires |s| % 8 == 0
    ensures PathBits(p) == s
  {
    if s == [] then Root
    else
      assert s == s[..|s| - 8] + s[|s| - 8..];
      Step(WholePath(s[..|s| - 8]), ByteOf(s[|s| - 8..]))
  }

  function WholeBytes(s: BitString): (r: BitString)
    ensures |r| % 8 == 0
  {
    s[..|s| - |s| % 8]
  }

  function LeftOver(s: BitString): (r: BitString)
    ensures |r| < 8
  {
    s[|s| - |s| % 8..]
  }

  function KeyOf(b: BitString): nat { 256 * |b| + FromBits(b) }

  /** The node a bit prefix is stored in, and its key there. */
  function SplitPath(s: BitString): Path { WholePath(WholeBytes(s)) }

  function SplitKey(s: BitString): nat { KeyOf(LeftOver(s)) }

  lemma {:induction false} WalkBits(bytes: seq<Byte>, n: nat)
    requires n <= |bytes|
    ensures PathBits(Walk(bytes, n)) == BytesBits(bytes)[..8 * n]
  {
    if n > 0 {
      WalkBits(bytes, n - 1);
      BytesBitsPrefix(bytes, n - 1);
      assert BytesBits(bytes)[..8 * n] == BytesBits(bytes)[..8 * (n - 1)] + BytesBits(bytes)[8 * (n - 1)..8 * (n - 1) + 8];
    }
  }

  lemma KeyShape(length: nat, v: nat)
    requires length < 8 && v < Pow2(length)
    ensures (v + length * 256) / 256 == length && (v + length * 256) % 256 == v
  {
    Pow2Small();
  }

  /** The in-node key carries the length and exactly the leading bits; it is 0 only for length 0. */
  lemma PrefixKeyBits(length: nat, byte: Byte)
    requires length < 8
    ensures WellFormedKey(GetPrefixKey(length, byte))
    ensures KeyBits(GetPrefixKey(length, byte)) == ToBits(byte, 8)[..length]
    ensures GetPrefixKey(length, byte) == 0 <==> length == 0
  {
    if length > 0 {
      KeyOfLeading(length, Leading(length, byte));
    }
  }

  lemma KeyOfLeading(length: nat, v: nat)
    requires 0 < length < 8 && v < Pow2(length)
    ensures WellFormedKey(v + length * 256) && KeyBits(v + length * 256) == ToBits(v, length)
  {
    KeyShape(length, v);
  }

  /** Two in-node keys agree exactly when the lengths and the leading bits do. */
  lemma PrefixKeyInjective(m: nat, b: Byte, n: nat, c: Byte)
    requires m < 8 && n < 8
    ensures GetPrefixKey(m, b) == GetPrefixKey(n, c) <==> m == n && ToBits(b, 8)[..m] == ToBits(c, 8)[..n]
  {
    PrefixKeyBits(m, b);
    PrefixKeyBits(n, c);
    if m == n && ToBits(b, 8)[..m] == ToBits(c, 8)[..n] && m > 0 {
      ToBitsInjective(Leading(m, b), Leading(m, c), m);
    }
  }

  /** Descending whole bytes and keying the rest addresses exactly the prefix's bits. */
  lemma Located(bytes: seq<Byte>, length: nat)
    requires length <= 8 * |bytes|
    ensures WellFormedKey(TailKey(bytes, length))
    ensures Entry(Walk(bytes, length / 8), TailKey(bytes, length)) == PrefixBits(bytes, length)
  {
    var n, r := length / 8, length % 8;
    WalkBits(bytes, n);
    if r > 0 {
      PrefixKeyBits(r, bytes[n]);
      BytesBitsPrefix(bytes, n);
      var all := BytesBits(bytes);
      assert all[..length] == all[..8 * n] + all[8 * n..8 * n + 8][..r];
    } else {
      assert KeyBits(0) == [];
    }
  }

  /** A path is determined by its bits. */
  lemma {:induction false} PathBitsInjective(p: Path, q: Path)
    requires PathBits(p) == PathBits(q)
    ensures p == q
  {
    if p.Step? && q.Step? {
      var a, b := PathBits(p.up), PathBits(q.up);
      assert |a| == |b|;
      assert PathBits(p)[..|a|] == a && PathBits(q)[..|a|] == b;
      assert PathBits(p)[|a|..] == ToBits(p.id, 8) && PathBits(q)[|a|..] == ToBits(q.id, 8);
      PathBitsInjective(p.up, q.up);
      Pow2Small();
      ToBitsInjective(p.id, q.id, 8);
    }
  }

  lemma WholeAndLeftOver(a: BitString, b: BitString)
    requires |a| % 8 == 0 && |b| < 8
    ensures WholeBytes(a + b) == a && LeftOver(a + b) == b
  {
    assert |a + b| % 8 == |b|;
  }

  lemma KeyOfBits(b: BitString)
    requires |b| < 8
    ensures KeyOf(b) / 256 == |b| && KeyOf(b) % 256 == FromBits(b) && FromBits(b) < Pow2(|b|)
  {
    ToFromBits(b);
    KeyShape(|b|, FromBits(b));
  }

  lemma BitsOfKey(k: nat)
    requires WellFormedKey(k)
    ensures |KeyBits(k)| < 8 && KeyOf(KeyBits(k)) == k
  {
    FromToBits(k % 256, k / 256);
  }

  /** Splitting undoes `Entry` ... */
  lemma SplitEntry(p: Path, k: nat)
    requires WellFormedKey(k)
    ensures SplitPath(Entry(p, k)) == p && SplitKey(Entry(p, k)) == k
  {
    BitsOfKey(k);
    WholeAndLeftOver(PathBits(p), KeyBits(k));
    PathBitsInjective(WholePath(PathBits(p)), p);
  }

  /** ... and `Entry` undoes splitting: node addresses and bit prefixes are in bijection. */
  lemma EntrySplit(s: BitString)
    ensures WellFormedKey(SplitKey(s)) && Entry(SplitPath(s), SplitKey(s)) == s
  {
    var a, b := WholeBytes(s), LeftOver(s);
    KeyOfBits(b);
    ToFromBits(b);
    assert s == a + b;
  }

  // ---------------------------------------------------------------- contents in bits

  ghost predicate GoodSlots(m: map<Slot, Value>)
  {
    forall x | x in m :: WellFormedKey(x.key)
  }

  function SplitSlot(s: BitString): Slot { Slot(SplitPath(s), SplitKey(s)) }

  function Join(x: Slot): BitString { Entry(x.at, x.key) }

  /** What a trie means to its callers: a map from bit prefixes to values. */
  ghost function InBits(m: map<Slot, Value>): map<BitString, Value>
  {
    Rekey(m, SplitSlot, Join)
  }

  lemma SlotsAreBits()
    ensures forall x: Slot | WellFormedKey(x.key) :: SplitSlot(Join(x)) == x
    ensures forall s :: Join(SplitSlot(s)) == s && WellFormedKey(SplitSlot(s).key)
  {
    forall x: Slot | WellFormedKey(x.key) ensures SplitSlot(Join(x)) == x {
      SplitEntry(x.at, x.key);
    }
    forall s ensures Join(SplitSlot(s)) == s && WellFormedKey(SplitSlot(s).key) {
      EntrySplit(s);
    }
  }

  lemma BitsOf(m: map<Slot, Value>, s: BitString)
    ensures s in InBits(m) <==> SplitSlot(s) in m
    ensures s in InBits(m) ==> InBits(m)[s] == m[SplitSlot(s)]
  {
    SlotsAreBits();
    RekeyAt(m, SplitSlot, Join, s);
  }

  lemma SlotOf(m: map<Slot, Value>, x: Slot)
    requires WellFormedKey(x.key)
    ensures x in m <==> Join(x) in InBits(m)
    ensures x in m ==> InBits(m)[Join(x)] == m[x]
  {
    SplitEntry(x.at, x.key);
    BitsOf(m, Join(x));
  }

  lemma UpdateBits(m: map<Slot, Value>, x: Slot, v: Value)
    requires WellFormedKey(x.key)
    ensures InBits(m[x := v]) == InBits(m)[Join(x) := v]
  {
    SlotsAreBits();
    RekeyUpdate(m, SplitSlot, Join, x, v);
  }
}
