/** Laws of the CRC as a whole: it is affine, and a message followed by its own CRC has CRC 0. */
module CrcLaws {
  import opened Bytes
  import opened Bits
  import opened Gf2
  import opened Crc

  // ---------------------------------------------------------------- affinity

  function XorByte(a: Byte, b: Byte): (c: Byte)
    ensures ToBits(c, 8) == Xor(ToBits(a, 8), ToBits(b, 8))
  {
    var s := Xor(ToBits(a, 8), ToBits(b, 8));
    ToFromBits(s);
    Pow2Small();
    FromBits(s)
  }

  function XorBytes(a: seq<Byte>, b: seq<Byte>): (c: seq<Byte>)
    requires |a| == |b|
    ensures |c| == |a|
  {
    if a == [] then [] else [XorByte(a[0], b[0])] + XorBytes(a[1..], b[1..])
  }

  lemma InputBitsXor(a: Byte, b: Byte, reflected: bool)
    ensures InputBits(XorByte(a, b), reflected) == Xor(InputBits(a, reflected), InputBits(b, reflected))
  {
  }

  lemma XorConcat(a: BitString, b: BitString, c: BitString, d: BitString)
    requires |a| == |b| && |c| == |d|
    ensures Xor(a + c, b + d) == Xor(a, b) + Xor(c, d)
  {
  }

  lemma {:induction false} MessageBitsXor(a: seq<Byte>, b: seq<Byte>, reflected: bool)
    requires |a| == |b|
    ensures MessageBits(XorBytes(a, b), reflected) == Xor(MessageBits(a, reflected), MessageBits(b, reflected))
  {
    hide Xor, InputBits, XorByte;
    if a != [] {
      MessageBitsXor(a[1..], b[1..], reflected);
      assert XorBytes(a, b)[1..] == XorBytes(a[1..], b[1..]);
      InputBitsXor(a[0], b[0], reflected);
      XorConcat(InputBits(a[0], reflected), InputBits(b[0], reflected),
                MessageBits(a[1..], reflected), MessageBits(b[1..], reflected));
    }
  }

  function Xor3(a: BitString, b: BitString, c: BitString): (d: BitString)
    requires |a| == |b| == |c|
    ensures |d| == |a|
  {
    Xor(Xor(a, b), c)
  }

  lemma DividendXor3(a: BitString, b: BitString, c: BitString, r: BitString)
    requires |a| == |b| == |c|
    ensures Dividend(Xor3(a, b, c), r) == Xor3(Dividend(a, r), Dividend(b, r), Dividend(c, r))
  {
  }

  lemma RemainderXor3(a: BitString, b: BitString, c: BitString, poly: BitString)
    requires |a| == |b| == |c| >= |poly|
    ensures Remainder(Xor3(a, b, c), poly) == Xor3(Remainder(a, poly), Remainder(b, poly), Remainder(c, poly))
  {
    hide Divide, Xor;
    DivideXor(a, b, poly, |a| - |poly|);
    DivideXor(Xor(a, b), c, poly, |a| - |poly|);
  }

  lemma FinishXor3(k: Config, a: BitString, b: BitString, c: BitString)
    requires |k.final| == |a| == |b| == |c|
    ensures Finish(k, Xor3(a, b, c)) == Xor3(Finish(k, a), Finish(k, b), Finish(k, c))
  {
    assert Reverse(Xor3(a, b, c)) == Xor3(Reverse(a), Reverse(b), Reverse(c));
  }

  /** The CRC of the bytewise xor of three messages of one length is the xor of their CRCs. */
  lemma CrcAffine(k: Config, width: nat, a: seq<Byte>, b: seq<Byte>, c: seq<Byte>)
    requires k.Fits(width) && |a| == |b| == |c|
    ensures CrcOf(k, width, XorBytes(XorBytes(a, b), c)) == Xor3(CrcOf(k, width, a), CrcOf(k, width, b), CrcOf(k, width, c))
  {
    var x, y, z := MessageBits(a, k.dataReflected), MessageBits(b, k.dataReflected), MessageBits(c, k.dataReflected);
    MessageBitsXor(a, b, k.dataReflected);
    MessageBitsXor(XorBytes(a, b), c, k.dataReflected);
    DividendXor3(x, y, z, k.init);
    var p, q, r := Dividend(x, k.init), Dividend(y, k.init), Dividend(z, k.init);
    RemainderXor3(p, q, r, k.poly);
    FinishXor3(k, Remainder(p, k.poly), Remainder(q, k.poly), Remainder(r, k.poly));
  }

  // ---------------------------------------------------------------- a message followed by its CRC

  /** The big-endian bytes of a word. */
  function BytesOf(r: BitString): (s: seq<Byte>)
    requires |r| % 8 == 0
  {
    if r == [] then []
    else
      ToFromBits(r[..8]);
      Pow2Small();
      [FromBits(r[..8])] + BytesOf(r[8..])
  }

  lemma {:induction false} BytesOfBits(r: BitString)
    requires |r| % 8 == 0
    ensures MessageBits(BytesOf(r), false) == r
  {
    if r != [] {
      ToFromBits(r[..8]);
      BytesOfBits(r[8..]);
      assert BytesOf(r)[1..] == BytesOf(r[8..]);
      assert r == r[..8] + r[8..];
    }
  }

  lemma {:induction false} MessageBitsConcat(a: seq<Byte>, b: seq<Byte>, reflected: bool)
    ensures MessageBits(a + b, reflected) == MessageBits(a, reflected) + MessageBits(b, reflected)
  {
    if a == [] {
      assert a + b == b;
    } else {
      assert (a + b)[1..] == a[1..] + b;
      MessageBitsConcat(a[1..], b, reflected);
    }
  }

  lemma DividendOfPair(m: BitString, s: BitString, r: BitString)
    ensures Dividend(m + s, r) == Xor(Dividend(m, r) + Zeros(|s|), Zeros(|m|) + (s + Zeros(|r|)))
  {
    var d, e := Dividend(m + s, r), Xor(Dividend(m, r) + Zeros(|s|), Zeros(|m|) + (s + Zeros(|r|)));
    forall i | 0 <= i < |d| ensures d[i] == e[i] {
      assert (m + s + Zeros(|r|))[i] ==
             if i < |m| then m[i] else if i < |m| + |s| then s[i - |m|] else false;
    }
  }

  /** Dividing a message that ends in its own remainder leaves nothing. */
  lemma RemainderOfOwn(m: BitString, r: BitString, poly: BitString)
    requires |r| == |poly|
    ensures Remainder(Dividend(m + Remainder(Dividend(m, r), poly), r), poly) == Zeros(|poly|)
  {
    var n, w, d := |m|, |poly|, Dividend(m, r);
    var s := Remainder(d, poly);
    var e := Dividend(m + s, r);
    assert s == Divide(d, poly, n) && Remainder(e, poly) == Divide(e, poly, n + w);
    hide Remainder, Dividend, Divide, Xor, Zeros;
    DividendOfPair(m, s, r);
    DivideXor(d + Zeros(w), Zeros(n) + (s + Zeros(w)), poly, n);
    DivideLocal(d, Zeros(w), poly, n);
    DivideZeros(s + Zeros(w), poly, n);
    XorSelf(s + Zeros(w), w);
    DivideTwice(e, poly, n, w);
    DivideZeros(Zeros(w), poly, w);
  }

  lemma XorSelf(x: BitString, w: nat)
    requires |x| == w + w
    ensures Xor(x, x) == Zeros(w) + Zeros(w)
  {
  }

  /** Without reflection and with a zero final xor, appending a message's own CRC, big-endian, gives CRC 0. */
  lemma CrcOfOwn(k: Config, width: nat, buf: seq<Byte>)
    requires k.Fits(width) && width % 8 == 0
    requires !k.dataReflected && !k.remReflected && k.final == Zeros(width)
    ensures CrcOf(k, width, buf + BytesOf(CrcOf(k, width, buf))) == Zeros(width)
  {
    var m := MessageBits(buf, false);
    var s := Remainder(Dividend(m, k.init), k.poly);
    assert Xor(s, Zeros(width)) == s;
    BytesOfBits(s);
    MessageBitsConcat(buf, BytesOf(s), false);
    RemainderOfOwn(m, k.init, k.poly);
  }

  // ---------------------------------------------------------------- what each part of the CRC is, bit by bit

  /** Bit `j` of a byte, counting from the least significant. */
  function BitOf(b: Byte, j: nat): bool { b / Pow2(j) % 2 == 1 }

  /** The message is divided byte by byte, most significant bits first, or least significant ones if they are reflected. */
  lemma {:induction false} MessageBitAt(buf: seq<Byte>, reflected: bool, k: nat, j: nat)
    requires k < |buf| && j < 8
    ensures MessageBits(buf, reflected)[8 * k + j] == (buf[k] / Pow2(if reflected then j else 7 - j) % 2 == 1)
    decreases k
  {
    if k > 0 {
      MessageBitAt(buf[1..], reflected, k - 1, j);
    } else {
      ToBitsAt(buf[0], 8, j);
      ToBitsAt(buf[0], 8, 7 - j);
    }
  }

  /** The dividend: the message with zeros behind it, the initial remainder added at the front. */
  lemma DividendAt(m: BitString, r: BitString, j: nat)
    requires j < |m| + |r|
    ensures Dividend(m, r)[j] == ((j < |m| && m[j]) != (j < |r| && r[j]))
  {
  }

  /** The end: reversed if it is to be reflected, then the final xor. */
  lemma FinishAt(c: Config, r: BitString, j: nat)
    requires |c.final| == |r| && j < |r|
    ensures Finish(c, r)[j] == ((if c.remReflected then r[|r| - 1 - j] else r[j]) != c.final[j])
  {
  }

  /** Each byte is the other one's mirror image. */
  ghost predicate Mirrors(a: seq<Byte>, b: seq<Byte>)
  {
    |a| == |b| && forall k, j: nat | 0 <= k < |a| && j < 8 :: BitOf(a[k], j) == BitOf(b[k], 7 - j)
  }

  lemma MirroredMessage(a: seq<Byte>, b: seq<Byte>)
    requires Mirrors(a, b)
    ensures MessageBits(a, true) == MessageBits(b, false)
  {
    hide MessageBits;
    var x, y := MessageBits(a, true), MessageBits(b, false);
    forall i | 0 <= i < |x| ensures x[i] == y[i] {
      var k, j := i / 8, i % 8;
      MessageBitAt(a, true, k, j);
      MessageBitAt(b, false, k, j);
      assert BitOf(a[k], j) == BitOf(b[k], 7 - j);
    }
  }

  /** Reflecting the data is mirroring every byte of the message. */
  lemma ReflectedData(c: Config, width: nat, a: seq<Byte>, b: seq<Byte>)
    requires c.Fits(width) && Mirrors(a, b)
    ensures CrcOf(c.(dataReflected := true), width, a) == CrcOf(c.(dataReflected := false), width, b)
  {
    MirroredMessage(a, b);
  }

  /** Reflecting the remainder turns it around; the final xor comes after that. */
  lemma ReflectedRemainder(c: Config, width: nat, buf: seq<Byte>, j: nat)
    requires c.Fits(width) && j < width
    ensures (CrcOf(c.(remReflected := true), width, buf)[j] != c.final[j]) ==
            (CrcOf(c.(remReflected := false), width, buf)[width - 1 - j] != c.final[width - 1 - j])
  {
    hide Remainder, Dividend, MessageBits;
  }

  // ---------------------------------------------------------------- a known answer

  /** Bits 15, 2 and 0. */
  function Poly8005(): (p: BitString)
    ensures |p| == 16
  {
    [true] + Zeros(12) + [true, false, true]
  }

  /** The words between the bits of the first byte; each is the one before, shifted, plus the polynomial. */
  function Word(k: nat): (w: BitString)
    requires k <= 8
    ensures |w| == 16
  {
    match k
    case 0 => [true, false, false, false, false, false, false, false, false, false, false, false, false, false, false, false]
    case 1 => [true, false, false, false, false, false, false, false, false, false, false, false, false, true, false, true]
    case 2 => [true, false, false, false, false, false, false, false, false, false, false, false, true, true, true, true]
    case 3 => [true, false, false, false, false, false, false, false, false, false, false, true, true, false, true, true]
    case 4 => [true, false, false, false, false, false, false, false, false, false, true, true, false, false, true, true]
    case 5 => [true, false, false, false, false, false, false, false, false, true, true, false, false, false, true, true]
    case 6 => [true, false, false, false, false, false, false, false, true, true, false, false, false, false, true, true]
    case 7 => [true, false, false, false, false, false, false, true, true, false, false, false, false, false, true, true]
    case _ => [true, false, false, false, false, false, true, true, false, false, false, false, false, false, true, true]
  }

  lemma PolyAt(j: nat)
    requires j < 16
    ensures Poly8005()[j] == (j == 0 || j == 13 || j == 15)
  {
  }

  lemma WordNext(k: nat, j: nat)
    requires k < 8 && j < 16
    ensures Word(k)[0] && Word(k + 1)[j] == ((j < 15 && Word(k)[j + 1]) != Poly8005()[j])
  {
    hide Poly8005, Word;
    PolyAt(j);
    if k < 4 { EarlyWord(k, j); } else { LateWord(k, j); }
  }

  lemma EarlyWord(k: nat, j: nat)
    requires k < 4 && j < 16
    ensures Word(k)[0] && Word(k + 1)[j] == ((j < 15 && Word(k)[j + 1]) != (j == 0 || j == 13 || j == 15))
  {
  }

  lemma LateWord(k: nat, j: nat)
    requires 4 <= k < 8 && j < 16
    ensures Word(k)[0] && Word(k + 1)[j] == ((j < 15 && Word(k)[j + 1]) != (j == 0 || j == 13 || j == 15))
  {
  }

  lemma WordStep(k: nat)
    requires k < 8
    ensures Divide(Word(k) + Zeros(8 - k), Poly8005(), 8 - k) == Divide(Word(k + 1) + Zeros(7 - k), Poly8005(), 7 - k)
  {
    hide Word, Poly8005, Divide;
    WordNext(k, 0);
    var y := RegStep(Word(k), Poly8005());
    forall j | 0 <= j < 16 ensures y[j] == Word(k + 1)[j] { WordNext(k, j); }
    assert y == Word(k + 1);
    RegStepDivides(Word(k), Poly8005(), 8 - k);
    DivideOne(Word(k) + Zeros(8 - k), 8 - k);
  }

  lemma DivideOne(d: BitString, k: nat)
    requires 0 < k && |d| == 16 + k
    ensures Divide(d, Poly8005(), k) == Divide(DivStep(d, Poly8005()), Poly8005(), k - 1)
  {
  }

  lemma {:induction false} WordSteps(k: nat)
    requires k <= 8
    ensures Divide(Word(0) + Zeros(8), Poly8005(), 8) == Divide(Word(k) + Zeros(8 - k), Poly8005(), 8 - k)
  {
    hide Word, Poly8005, Divide;
    if k > 0 {
      WordSteps(k - 1);
      WordStep(k - 1);
    }
  }

  lemma OneAt(j: nat)
    ensures (1 / Pow2(j) % 2 == 1) == (j == 0)
  {
    if j > 0 { HalfOfOne(Pow2(j - 1)); }
  }

  lemma HalfOfOne(p: nat)
    requires p > 0
    ensures 1 / (2 * p) == 0
  {
  }

  lemma FirstDividend(b: Byte)
    requires b == 1
    ensures Dividend(MessageBits([b], true), Zeros(16)) == Word(0) + Zeros(8)
  {
    var m := MessageBits([b], true);
    forall j: nat | j < 8 ensures m[j] == (j == 0) { MessageBitAt([b], true, 0, j); OneAt(j); }
    hide MessageBits, Dividend;
    var d := Dividend(m, Zeros(16));
    forall j | 0 <= j < 24 ensures d[j] == (j == 0) { DividendAt(m, Zeros(16), j); }
    FirstWord();
  }

  lemma FirstWord()
    ensures forall j | 0 <= j < 16 :: Word(0)[j] == (j == 0)
  {
  }

  lemma CrcIs(c: Config, width: nat, buf: seq<Byte>, d: BitString, r: BitString)
    requires c.Fits(width) && d == Dividend(MessageBits(buf, c.dataReflected), c.init) && r == Remainder(d, c.poly)
    ensures CrcOf(c, width, buf) == Finish(c, r)
  {
    hide Dividend, MessageBits, Remainder, Finish;
  }

  lemma DivideAll(d: BitString, r: BitString, poly: BitString, k: nat)
    requires |d| == |poly| + k && |r| == |poly| && Divide(d, poly, k) == Divide(r + Zeros(0), poly, 0)
    ensures Remainder(d, poly) == r
  {
    assert r + Zeros(0) == r;
  }

  /** The default 16-bit configuration on the one-byte message 0x01 gives 0xC0C1. */
  lemma Crc16OfOne(c: Config, b: Byte)
    requires c == Config(Poly8005(), Zeros(16), Zeros(16), true, true) && b == 1
    ensures CrcOf(c, 16, [b]) ==
            [true, true, false, false, false, false, false, false, true, true, false, false, false, false, false, true]
  {
    hide Word, Poly8005, CrcOf, Divide, Remainder, Dividend, MessageBits, Finish;
    FirstDividend(b);
    WordSteps(8);
    DivideAll(Word(0) + Zeros(8), Word(8), c.poly, 8);
    CrcIs(c, 16, [b], Word(0) + Zeros(8), Word(8));
    forall j | 0 <= j < 16 ensures CrcOf(c, 16, [b])[j] == Word(8)[15 - j] { FinishAt(c, Word(8), j); }
    TurnedAround(CrcOf(c, 16, [b]));
  }

  lemma TurnedAround(out: BitString)
    requires |out| == 16 && forall j | 0 <= j < 16 :: out[j] == Word(8)[15 - j]
    ensures out == [true, true, false, false, false, false, false, false, true, true, false, false, false, false, false, true]
  {
  }
}
