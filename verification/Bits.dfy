/** The unsigned char of the source. */
module Bytes {
  type Byte = x: int | 0 <= x < 256

  const TWO16 := 0x1_0000
  const TWO32 := 0x1_0000_0000
  const TWO64 := 0x1_0000_0000_0000_0000

  /** The low-order byte. */
  function Low(v: nat): Byte
  {
    var r: int := v % 256;
    r
  }

  /** The least number of bytes that holds so many bits. */
  function BytesFor(bits: nat): (n: nat)
    ensures bits <= 8 * n < bits + 8
  {
    (bits + 7) / 8
  }

  /** How many numbers `n` bytes can spell. */
  function Power(n: nat): nat { if n == 0 then 1 else 256 * Power(n - 1) }

  lemma Power4()
    ensures Power(4) == TWO32
  {
    assert Power(2) == 256 * (256 * Power(0));
    assert Power(4) == 256 * (256 * Power(2));
  }

  /** Numbers in memory, low byte first. */
  function LeBytes(v: nat, n: nat): (b: seq<Byte>)
    ensures |b| == n
  {
    if n == 0 then [] else [Low(v)] + LeBytes(v / 256, n - 1)
  }

  function LeValue(b: seq<Byte>): nat
  {
    if b == [] then 0
    else
      var first: int := b[0];
      first + 256 * LeValue(b[1..])
  }

  /** Four bytes, the first the lowest. */
  lemma LeValueFour(b: seq<Byte>)
    requires |b| == 4
    ensures LeValue(b) == b[0] as int + 0x100 * (b[1] as int) + 0x1_0000 * (b[2] as int) + 0x100_0000 * (b[3] as int)
  {
    assert b[1..][1..] == b[2..] && b[2..][1..] == b[3..] && b[3..][1..] == [];
    assert LeValue(b[3..]) == b[3] && LeValue(b[2..]) == b[2] as int + 256 * LeValue(b[3..]);
    assert LeValue(b[1..]) == b[1] as int + 256 * LeValue(b[2..]);
  }

  /** Byte `i` counts 256 to the power `i`. */
  lemma {:induction false} LeByteAt(v: nat, n: nat, i: nat)
    requires i < n
    ensures Power(i) > 0 && LeBytes(v, n)[i] == v / Power(i) % 256
    decreases n
  {
    if i > 0 {
      LeByteAt(v / 256, n - 1, i - 1);
      DivTwice(v, Power(i - 1));
    }
  }

  lemma DivTwice(v: nat, p: nat)
    requires p > 0
    ensures v / 256 / p == v / (256 * p)
  {
    var q, r, h := v / 256 / p, v / 256 % p, v % 256;
    assert v == 256 * (p * q + r) + h;
    assert v == (256 * p) * q + (256 * r + h);
    DivUnique(v, 256 * p, q, 256 * r + h);
  }

  lemma DivUnique(v: nat, d: nat, q: nat, r: nat)
    requires d > 0 && v == d * q + r && r < d
    ensures v / d == q && v % d == r
  {
    var k := q - v / d;
    assert d * k == v % d - r;
    assert k >= 1 ==> d * k >= d;
    assert k <= -1 ==> d * k + d <= 0;
  }

  lemma {:induction false} LeRoundTrip(v: nat, n: nat)
    requires v < Power(n)
    ensures LeValue(LeBytes(v, n)) == v
    decreases n
  {
    if n > 0 { LeRoundTrip(v / 256, n - 1); }
  }

  lemma LowAndRest(b: Byte, v: nat)
    ensures Low(b + 256 * v) == b && (b + 256 * v) / 256 == v
  {
  }

  lemma {:induction false} LeValueBytes(b: seq<Byte>)
    ensures LeValue(b) < Power(|b|) && LeBytes(LeValue(b), |b|) == b
    decreases b
  {
    hide Low;
    if b != [] {
      LeValueBytes(b[1..]);
      LowAndRest(b[0], LeValue(b[1..]));
      assert b == [b[0]] + b[1..];
    }
  }
}

/** Bit strings, most significant bit first, and their reading as numbers. */
module Bits {
  import opened Bytes

  type BitString = seq<bool>

  function Pow2(n: nat): (r: nat)
    ensures r > 0
  {
    if n == 0 then 1 else 2 * Pow2(n - 1)
  }

  lemma Pow2Small()
    ensures Pow2(1) == 2 && Pow2(2) == 4 && Pow2(3) == 8 && Pow2(4) == 16
    ensures Pow2(5) == 32 && Pow2(6) == 64 && Pow2(7) == 128 && Pow2(8) == 256
  {
    assert Pow2(4) == 16;
    assert Pow2(6) == 64;
  }

  /** The `n` low-order bits of `v`. */
  function ToBits(v: nat, n: nat): (s: BitString)
    ensures |s| == n
  {
    if n == 0 then [] else ToBits(v / 2, n - 1) + [v % 2 == 1]
  }

  function FromBits(s: BitString): nat
  {
    if s == [] then 0 else 2 * FromBits(s[..|s| - 1]) + (if s[|s| - 1] then 1 else 0)
  }

  lemma {:induction false} FromToBits(v: nat, n: nat)
    requires v < Pow2(n)
    ensures FromBits(ToBits(v, n)) == v
  {
    if n > 0 {
      FromToBits(v / 2, n - 1);
      assert ToBits(v, n)[..n - 1] == ToBits(v / 2, n - 1);
    }
  }

  lemma {:induction false} ToFromBits(s: BitString)
    ensures FromBits(s) < Pow2(|s|)
    ensures ToBits(FromBits(s), |s|) == s
  {
    if s != [] {
      var front := s[..|s| - 1];
      ToFromBits(front);
      assert FromBits(s) / 2 == FromBits(front);
      assert s == front + [s[|s| - 1]];
    }
  }

  lemma {:induction false} ToBitsInjective(v: nat, w: nat, n: nat)
    requires v < Pow2(n) && w < Pow2(n) && ToBits(v, n) == ToBits(w, n)
    ensures v == w
  {
    FromToBits(v, n);
    FromToBits(w, n);
  }

  lemma HalfThenDiv(v: nat, d: nat)
    requires d > 0
    ensures (v / 2) / d == v / (2 * d)
  {
    var q, r := (v / 2) / d, (v / 2) % d;
    var h, b := v / 2, v % 2;
    assert h == q * d + r;
    assert v == (2 * d) * q + (2 * r + b);
    DivUnique(v, 2 * d, q, 2 * r + b);
  }

  lemma DivBelow(v: nat, a: nat, b: nat)
    requires a > 0 && v < a * b
    ensures v / a < b
  {
  }

  /** Bit `j`, counting from the most significant. */
  lemma {:induction false} ToBitsAt(v: nat, n: nat, j: nat)
    requires j < n
    ensures ToBits(v, n)[j] == (v / Pow2(n - 1 - j) % 2 == 1)
    decreases n
  {
    if j < n - 1 {
      ToBitsAt(v / 2, n - 1, j);
      HalfThenDiv(v, Pow2(n - 2 - j));
    }
  }

  /** Shifting right keeps the leading bits. */
  lemma {:induction false} LeadingBits(v: nat, n: nat, k: nat)
    requires k <= n
    ensures ToBits(v, n)[..k] == ToBits(v / Pow2(n - k), k)
    decreases n
  {
    if k < n {
      LeadingBits(v / 2, n - 1, k);
      HalfThenDiv(v, Pow2(n - 1 - k));
      assert ToBits(v, n)[..k] == ToBits(v / 2, n - 1)[..k];
    }
  }

  lemma {:induction false} Pow2Add(a: nat, b: nat)
    ensures Pow2(a + b) == Pow2(a) * Pow2(b)
  {
    if a > 0 {
      Pow2Add(a - 1, b);
      assert Pow2(a) * Pow2(b) == 2 * (Pow2(a - 1) * Pow2(b));
    }
  }

  /** All the bits of a byte string. */
  function BytesBits(bytes: seq<Byte>): (s: BitString)
    ensures |s| == 8 * |bytes|
  {
    if bytes == [] then [] else BytesBits(bytes[..|bytes| - 1]) + ToBits(bytes[|bytes| - 1], 8)
  }

  /** Byte `i` contributes bits `8 i` to `8 i + 7`, and a prefix of the bytes gives a prefix of the bits. */
  lemma {:induction false} BytesBitsPrefix(bytes: seq<Byte>, i: nat)
    requires i <= |bytes|
    ensures BytesBits(bytes[..i]) == BytesBits(bytes)[..8 * i]
    ensures i < |bytes| ==> BytesBits(bytes)[8 * i..8 * i + 8] == ToBits(bytes[i], 8)
  {
    if i == |bytes| {
      assert bytes[..i] == bytes;
    } else {
      var front := bytes[..|bytes| - 1];
      if i == |front| {
        assert bytes[..i] == front;
      } else {
        BytesBitsPrefix(front, i);
        assert front[..i] == bytes[..i];
        assert BytesBits(bytes)[..8 * i] == BytesBits(front)[..8 * i];
        assert BytesBits(bytes)[8 * i..8 * i + 8] == BytesBits(front)[8 * i..8 * i + 8];
      }
    }
  }
}
