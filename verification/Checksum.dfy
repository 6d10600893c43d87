/** The Internet checksum: 64-bit little-endian accumulation with end-around carry, folded to 16 bits, against the
    16-bit big-endian ones'-complement sum of sections 1 and 2 of RFC 1071. */
module Checksum {
  import opened Bytes

  // ---------------------------------------------------------------- the specification

  /** Ones'-complement addition of 16-bit words: the carry comes back in at the low end. */
  function OnesAdd(a: nat, b: nat): (r: nat)
    requires a < TWO16 && b < TWO16
    ensures r < TWO16
  {
    if a + b < TWO16 then a + b else a + b - TWO16 + 1
  }

  /** A big-endian 16-bit word. */
  function Word(high: int, low: int): (w: nat)
    requires 0 <= high < 256 && 0 <= low < 256
    ensures w < TWO16
  {
    256 * high + low
  }

  /** The ones'-complement sum of the big-endian words in the first `n` bytes, an odd last byte zero-padded. */
  function OnesSum(buf: seq<Byte>, n: nat): (r: nat)
    requires n <= |buf|
    ensures r < TWO16
  {
    if n == 0 then 0
    else if n % 2 == 1 then OnesAdd(OnesSum(buf, n - 1), Word(buf[n - 1], 0))
    else OnesAdd(OnesSum(buf, n - 2), Word(buf[n - 2], buf[n - 1]))
  }

  function InternetChecksum(buf: seq<Byte>): nat { TWO16 - 1 - OnesSum(buf, |buf|) }

  // ---------------------------------------------------------------- sums modulo 0xFFFF

  /** The plain sum of the big-endian words. */
  function Total(buf: seq<Byte>, n: nat): (r: nat)
    requires n <= |buf|
  {
    if n == 0 then 0 else Total(buf, n - 1) + if n % 2 == 1 then Word(buf[n - 1], 0) else Word(0, buf[n - 1])
  }

  /** What end-around carry leaves of a number: 0 only for 0, otherwise the residue from 1 to 0xFFFF. */
  function Norm(t: nat): (r: nat)
    ensures r < TWO16
  {
    if t == 0 then 0 else 1 + (t - 1) % 65535
  }

  lemma NormSmall(x: nat)
    requires x < TWO16
    ensures Norm(x) == x
  {
  }

  lemma NormAdd(a: nat, b: nat)
    ensures OnesAdd(Norm(a), Norm(b)) == Norm(a + b)
  {
  }

  lemma NormCong(a: nat, b: nat, x: nat, y: nat)
    requires Norm(a) == Norm(x) && Norm(b) == Norm(y)
    ensures Norm(a + b) == Norm(x + y)
  {
    NormAdd(a, b);
    NormAdd(x, y);
  }

  /** Dropping a multiple of 0xFFFF, but not everything, changes nothing. */
  lemma NormShift(x: nat, k: nat)
    requires 65535 * k < x
    ensures Norm(x - 65535 * k) == Norm(x)
  {
    var y := x - 65535 * k - 1;
    assert x - 1 == 65535 * (y / 65535 + k) + y % 65535;
  }

  /** Which representation of zero comes out: 0 only when every byte is 0, otherwise a value from 1 to 0xFFFF. */
  lemma {:induction false} OnesSumClosedForm(buf: seq<Byte>, n: nat)
    requires n <= |buf|
    ensures OnesSum(buf, n) == Norm(Total(buf, n))
  {
    hide Norm, OnesAdd;
    if n == 0 {
      NormSmall(0);
    } else if n % 2 == 1 {
      OnesSumClosedForm(buf, n - 1);
      AddWord(Total(buf, n - 1), Word(buf[n - 1], 0));
    } else {
      OnesSumClosedForm(buf, n - 2);
      AddWord(Total(buf, n - 2), Word(buf[n - 2], buf[n - 1]));
      assert Total(buf, n) == Total(buf, n - 2) + Word(buf[n - 2], 0) + Word(0, buf[n - 1]);
    }
  }

  lemma AddWord(t: nat, w: nat)
    requires w < TWO16
    ensures OnesAdd(Norm(t), w) == Norm(t + w)
  {
    NormSmall(w);
    NormAdd(t, w);
  }

  // ---------------------------------------------------------------- the machine arithmetic

  /** The little-endian number in `n` bytes from offset `i`: what an unaligned load reads. */
  function Load(buf: seq<Byte>, i: nat, n: nat): nat
    requires i + n <= |buf|
    decreases n
  {
    if n == 0 then 0 else buf[i] + 256 * Load(buf, i + 1, n - 1)
  }

  lemma {:induction false} LoadBound(buf: seq<Byte>, i: nat, n: nat, limit: nat)
    requires i + n <= |buf| && limit == Power(n)
    ensures Load(buf, i, n) < limit
    decreases n
  {
    if n > 0 {
      LoadBound(buf, i + 1, n - 1, Power(n - 1));
    }
  }

  /** Multiplying by 2^16 changes nothing: byte pairs may be weighed from either end. */
  lemma NormTimes65536(y: nat)
    ensures Norm(65536 * y) == Norm(y)
  {
    if y > 0 {
      NormShift(65536 * y, y);
    }
  }

  /** A load at an even offset weighs its bytes as big-endian words do, up to one byte swap. */
  lemma {:induction false} LoadNorm(buf: seq<Byte>, i: nat, n: nat)
    requires i + n <= |buf| && i % 2 == 0
    ensures Total(buf, i + n) >= Total(buf, i)
    ensures Norm(256 * Load(buf, i, n)) == Norm(Total(buf, i + n) - Total(buf, i))
    decreases n
  {
    if n == 1 {
      assert Load(buf, i, n) == buf[i];
    } else if n > 1 {
      LoadNorm(buf, i + 2, n - 2);
      assert Load(buf, i, n) == buf[i] + 256 * Load(buf, i + 1, n - 1);
      assert Total(buf, i + 2) == Total(buf, i) + Word(buf[i], 0) + Word(0, buf[i + 1]);
      PairNorm(buf[i], buf[i + 1], Load(buf, i + 2, n - 2), Total(buf, i + n) - Total(buf, i + 2));
    }
  }

  lemma PairNorm(a: nat, b: nat, rest: nat, t: nat)
    requires Norm(256 * rest) == Norm(t)
    ensures Norm(256 * (a + 256 * (b + 256 * rest))) == Norm(256 * a + b + t)
  {
    NormTimes65536(b);
    NormTimes65536(256 * rest);
    NormCong(256 * a, 65536 * b, 256 * a, b);
    NormCong(256 * a + 65536 * b, 65536 * (256 * rest), 256 * a + b, t);
  }

  function Swap16(x: nat): (r: nat)
    requires x < TWO16
    ensures r < TWO16
  {
    x % 256 * 256 + x / 256
  }

  lemma SwapNorm(x: nat)
    requires x < TWO16
    ensures Swap16(x) == Norm(256 * x)
  {
    var h, l := x / 256, x % 256;
    NormTimes65536(h);
    NormCong(65536 * h, 256 * l, h, 256 * l);
    NormSmall(h + 256 * l);
  }

  lemma SwapComplement(x: nat)
    requires x < TWO16
    ensures Swap16(TWO16 - 1 - x) == TWO16 - 1 - Swap16(x)
  {
  }

  /** The accumulator stands for the bytes read so far. */
  ghost predicate Stands(sum: nat, buf: seq<Byte>, i: nat)
    requires i <= |buf|
  {
    Norm(256 * sum) == Norm(Total(buf, i))
  }

  /** `x += y; if (x < y) x++;` in arithmetic of `limit` values is addition with end-around carry. */
  method EndAround(x: nat, y: nat, limit: nat) returns (r: nat)
    requires x < limit && y < limit
    ensures r == if x + y < limit then x + y else x + y - (limit - 1)
  {
    r := Wrap(x + y, limit);
    if r < y {
      r := Wrap(r + 1, limit);
    }
  }

  /** Carrying out of a width whose largest value is a multiple of 0xFFFF loses nothing. */
  lemma CarryNorm(x: nat, y: nat, r: nat, unit: nat)
    requires x <= 65535 * unit && y <= 65535 * unit
    requires r == if x + y <= 65535 * unit then x + y else x + y - 65535 * unit
    ensures Norm(256 * r) == Norm(256 * x + 256 * y)
  {
    if x + y > 65535 * unit {
      NormShift(256 * (x + y), 256 * unit);
    }
  }

  /** Truncation to the machine width. */
  function Wrap(x: nat, limit: nat): (r: nat)
    requires x < 2 * limit
    ensures r == x % limit
  {
    ModOnce(x, limit);
    if x < limit then x else x - limit
  }

  lemma ModOnce(x: nat, limit: nat)
    requires x < 2 * limit
    ensures x % limit == if x < limit then x else x - limit
  {
    if x >= limit {
      var q := x / limit;
      assert x == limit * q + x % limit;
      assert q == 1 by {
        assert q >= 2 ==> limit * q >= 2 * limit;
      }
    }
  }

  /** Add one load to the 64-bit accumulator. */
  method AddCarry(sum: nat, s: nat, ghost buf: seq<Byte>, ghost i: nat, ghost n: nat) returns (r: nat)
    requires sum < TWO64 && s < TWO64
    requires i + n <= |buf| && i % 2 == 0 && s == Load(buf, i, n) && Stands(sum, buf, i)
    ensures r < TWO64 && Stands(r, buf, i + n)
  {
    LoadNorm(buf, i, n);
    r := EndAround(sum, s, TWO64);
    CarryNorm(sum, s, r, 281479271743489);
    NormCong(256 * sum, 256 * s, Total(buf, i), Total(buf, i + n) - Total(buf, i));
  }

  lemma FoldNorm(sum: nat, low: nat, high: nat, unit: nat)
    requires sum == high * (65535 * unit + 1) + low
    ensures Norm(256 * sum) == Norm(256 * low + 256 * high)
  {
    assert high * (65535 * unit + 1) == 65535 * (high * unit) + high;
    if high + low > 0 {
      NormShift(256 * sum, 256 * (high * unit));
    }
  }

  /** Fold 64 bits to 16. */
  method Fold(sum: nat, ghost buf: seq<Byte>) returns (t3: nat)
    requires sum < TWO64 && Stands(sum, buf, |buf|)
    ensures t3 < TWO16 && Stands(t3, buf, |buf|)
  {
    var t1, t2 := sum % TWO32, sum / TWO32;
    ghost var low, high := t1, t2;
    t1 := EndAround(t1, t2, TWO32);
    CarryNorm(low, high, t1, 65537);
    FoldNorm(sum, low, high, 65537);
    var t4;
    t3, t4 := t1 % TWO16, t1 / TWO16;
    low, high := t3, t4;
    t3 := EndAround(t3, t4, TWO16);
    CarryNorm(low, high, t3, 1);
    FoldNorm(t1, low, high, 1);
  }

  /** Load `n` bytes and add them to the accumulator. */
  method LoadAndAdd(sum: nat, buf: seq<Byte>, b: nat, n: nat) returns (r: nat)
    requires sum < TWO64 && n in {1, 2, 4, 8} && b + n <= |buf| && b % 2 == 0 && Stands(sum, buf, b)
    ensures r < TWO64 && Stands(r, buf, b + n)
  {
    LoadBound(buf, b, n, Power(n));
    assert Power(1) < Power(2) < Power(4) < Power(8) == TWO64;
    r := AddCarry(sum, Load(buf, b, n), buf, b, n);
  }

  lemma TailBits(len: nat)
    requires len < 8
    ensures len == len / 4 % 2 * 4 + len / 2 % 2 * 2 + len % 2
  {
  }

  /** The tail of fewer than 8 bytes: 4, 2 and 1 at a time. */
  method AddTail(start: nat, buf: seq<Byte>, offset: nat, len: nat) returns (sum: nat)
    requires start < TWO64 && offset + len == |buf| && len < 8 && offset % 2 == 0 && Stands(start, buf, offset)
    ensures sum < TWO64 && Stands(sum, buf, |buf|)
  {
    var b := offset;
    sum := start;
    TailBits(len);
    if len / 4 % 2 == 1 {
      sum := LoadAndAdd(sum, buf, b, 4);
      b := b + 4;
    }
    if len / 2 % 2 == 1 {
      sum := LoadAndAdd(sum, buf, b, 2);
      b := b + 2;
    }
    if len % 2 == 1 {
      sum := LoadAndAdd(sum, buf, b, 1);
      b := b + 1;
    }
  }

  /** The accumulation loop over 8-byte words, the tail, and the fold. */
  method FoldedSum(buf: seq<Byte>) returns (t3: nat)
    ensures t3 < TWO16 && Swap16(t3) == OnesSum(buf, |buf|)
  {
    var sum: nat, b: nat, len: nat := 0, 0, |buf|;
    while len >= 8
      invariant b + len == |buf| && b % 2 == 0
      invariant sum < TWO64 && Stands(sum, buf, b)
    {
      sum := LoadAndAdd(sum, buf, b, 8);
      b, len := b + 8, len - 8;
    }
    sum := AddTail(sum, buf, b, len);
    t3 := Fold(sum, buf);
    SwappedSum(t3, buf);
  }

  lemma SwappedSum(t3: nat, buf: seq<Byte>)
    requires t3 < TWO16 && Stands(t3, buf, |buf|)
    ensures Swap16(t3) == OnesSum(buf, |buf|)
  {
    OnesSumClosedForm(buf, |buf|);
    SwapNorm(t3);
  }

  /** `cksum16` of the calculations: complement, then `ntohs` on a little-endian host. */
  method Cksum16(buf: seq<Byte>) returns (r: nat)
    ensures r == InternetChecksum(buf)
  {
    var t3 := FoldedSum(buf);
    SwapComplement(t3);
    r := Swap16(TWO16 - 1 - t3);
  }

  // ---------------------------------------------------------------- IPv4 header checksum

  const CKSUM_OFFSET := 10

  function Zeroed(hdr: seq<Byte>): seq<Byte>
    requires |hdr| >= 12
  {
    hdr[CKSUM_OFFSET := 0][CKSUM_OFFSET + 1 := 0]
  }

  function Field(hdr: seq<Byte>): nat
    requires |hdr| >= 12
  {
    Word(hdr[CKSUM_OFFSET], hdr[CKSUM_OFFSET + 1])
  }

  /** The stored field is the checksum of the other words. */
  predicate Accepts(hdr: seq<Byte>)
    requires |hdr| >= 12
  {
    Field(hdr) == InternetChecksum(Zeroed(hdr))
  }

  /** The checksums-file copy returns the complement unswapped; its two bytes in memory are then the big-endian field. */
  method NativeChecksum(buf: seq<Byte>) returns (low: Byte, high: Byte)
    ensures Word(low, high) == InternetChecksum(buf)
  {
    var t3 := FoldedSum(buf);
    SwapComplement(t3);
    var r := TWO16 - 1 - t3;
    low, high := r % 256, r / 256;
  }

  method UpdateChecksum(hdr: array<Byte>, valid: bool)
    requires 12 <= hdr.Length <= 60
    modifies hdr
    ensures !valid ==> hdr[..] == old(hdr[..])
    ensures Zeroed(hdr[..]) == Zeroed(old(hdr[..])) || !valid
    ensures valid ==> Field(hdr[..]) == InternetChecksum(Zeroed(old(hdr[..]))) && Accepts(hdr[..])
    ensures valid ==> OnesSum(hdr[..], hdr.Length) == 0xFFFF
  {
    if !valid {
      return;
    }
    var buffer := hdr[..];
    buffer := buffer[CKSUM_OFFSET := 0];
    buffer := buffer[CKSUM_OFFSET + 1 := 0];
    hdr[CKSUM_OFFSET], hdr[CKSUM_OFFSET + 1] := NativeChecksum(buffer);
    assert Zeroed(hdr[..]) == buffer;
    ReceiverTestIff(hdr[..]);
  }

  method VerifyChecksum(hdr: array<Byte>, valid: bool) returns (ok: bool)
    requires 12 <= hdr.Length <= 60
    ensures ok <==> !valid || Accepts(hdr[..])
  {
    if !valid {
      return true;
    }
    var buffer := hdr[..];
    buffer := buffer[CKSUM_OFFSET := 0];
    buffer := buffer[CKSUM_OFFSET + 1 := 0];
    var low, high := NativeChecksum(buffer);
    ok := low == hdr[CKSUM_OFFSET] && high == hdr[CKSUM_OFFSET + 1];
  }

  lemma {:induction false} TotalUpdate(hdr: seq<Byte>, n: nat)
    requires 12 <= |hdr| && 12 <= n <= |hdr|
    ensures Total(hdr, n) == Total(Zeroed(hdr), n) + Field(hdr)
  {
    if n == 12 {
      TotalPrefix(hdr, Zeroed(hdr), 10);
      assert Total(hdr, 12) == Total(hdr, 10) + Word(hdr[10], 0) + Word(0, hdr[11]);
      assert Total(Zeroed(hdr), 12) == Total(Zeroed(hdr), 10);
    } else {
      TotalUpdate(hdr, n - 1);
    }
  }

  lemma {:induction false} TotalPrefix(a: seq<Byte>, b: seq<Byte>, n: nat)
    requires n <= |a| && n <= |b| && a[..n] == b[..n]
    ensures Total(a, n) == Total(b, n)
  {
    if n > 0 {
      assert a[..n - 1] == a[..n][..n - 1] && b[..n - 1] == b[..n][..n - 1];
      assert a[n - 1] == a[..n][n - 1] && b[n - 1] == b[..n][n - 1];
      TotalPrefix(a, b, n - 1);
    }
  }

  lemma SumSplitsBy(a: seq<Byte>, b: seq<Byte>, n: nat, f: nat)
    requires n <= |a| && n <= |b| && f < TWO16 && Total(a, n) == Total(b, n) + f
    ensures OnesSum(a, n) == OnesAdd(OnesSum(b, n), f)
  {
    OnesSumClosedForm(a, n);
    OnesSumClosedForm(b, n);
    AddWord(Total(b, n), f);
  }

  /** The sum over the whole header is the sum of the other words plus the checksum field. */
  lemma SumSplits(hdr: seq<Byte>)
    requires |hdr| >= 12
    ensures OnesSum(hdr, |hdr|) == OnesAdd(OnesSum(Zeroed(hdr), |hdr|), Field(hdr))
  {
    TotalUpdate(hdr, |hdr|);
    SumSplitsBy(hdr, Zeroed(hdr), |hdr|, Field(hdr));
  }

  /** The receiver's test, a ones'-complement sum of 0xFFFF over the whole header, agrees with the stored-field test
      except when the other words sum to 0xFFFF and the stored field is 0xFFFF. */
  lemma ReceiverTestIff(hdr: seq<Byte>)
    requires |hdr| >= 12
    ensures OnesSum(hdr, |hdr|) == 0xFFFF <==>
            Accepts(hdr) || (OnesSum(Zeroed(hdr), |hdr|) == 0xFFFF && Field(hdr) == 0xFFFF)
    ensures Accepts(hdr) ==> !(OnesSum(Zeroed(hdr), |hdr|) == 0xFFFF && Field(hdr) == 0xFFFF)
  {
    SumSplits(hdr);
    var s, f := OnesSum(Zeroed(hdr), |hdr|), Field(hdr);
    assert OnesAdd(s, f) == 0xFFFF <==> s + f == 0xFFFF || (s == 0xFFFF && f == 0xFFFF);
  }

  /** The two tests differ on a header: 0xFFFF in the first word and in the field, 0 elsewhere. The receiver is content,
      and the stored-field test is not. */
  lemma ReceiverTestDiffers(hdr: seq<Byte>)
    requires |hdr| == 20 && forall i | 0 <= i < 20 :: hdr[i] == if i in {0, 1, 10, 11} then 0xFF else 0
    ensures OnesSum(hdr, |hdr|) == 0xFFFF && !Accepts(hdr)
  {
    hide *;
    ReceiverTestIff(hdr);
    FieldOfOnes(hdr);
    FirstWordOnly(Zeroed(hdr), |hdr|);
  }

  /** The words of an IPv4 header with the checksum 0x3508, which the source's own packets carry. */
  lemma KnownHeader(hdr: seq<Byte>)
    requires hdr == [0x45, 0x00, 0x00, 0x34, 0x70, 0x90, 0x40, 0x00, 0x40, 0x06, 0x35, 0x08,
                     0x0a, 0x36, 0xc1, 0x21, 0x4e, 0x28, 0x7b, 0xac]
    ensures Field(hdr) == 0x3508 && InternetChecksum(Zeroed(hdr)) == 0x3508 && Accepts(hdr)
  {
    var z := Zeroed(hdr);
    assert OnesSum(z, 2) == 0x4500 && OnesSum(z, 4) == 0x4534 && OnesSum(z, 6) == 0xB5C4;
    assert OnesSum(z, 8) == 0xF5C4 && OnesSum(z, 10) == 0x35CB && OnesSum(z, 12) == 0x35CB;
    assert OnesSum(z, 14) == 0x4001 && OnesSum(z, 16) == 0x0123 && OnesSum(z, 18) == 0x4F4B;
    assert OnesSum(z, 20) == 0xCAF7;
  }

  lemma FieldOfOnes(hdr: seq<Byte>)
    requires |hdr| >= 12 && hdr[10] == 0xFF && hdr[11] == 0xFF
    ensures Field(hdr) == 0xFFFF && |Zeroed(hdr)| == |hdr|
    ensures forall i | 0 <= i < |hdr| :: Zeroed(hdr)[i] == if i == 10 || i == 11 then 0 else hdr[i]
  {
  }

  lemma {:induction false} FirstWordOnly(b: seq<Byte>, n: nat)
    requires 2 <= n <= |b| && b[0] == 0xFF && b[1] == 0xFF && forall i | 2 <= i < n :: b[i] == 0
    ensures OnesSum(b, n) == 0xFFFF
  {
    if n > 2 { FirstWordOnly(b, if n % 2 == 1 then n - 1 else n - 2); }
  }
}
