/** The configurable table-driven CRC, against long division of the whole message over GF(2).
    A machine word of `width` bits is its bit string, most significant bit first. */
module Crc {
  import opened Bytes
  import opened Bits
  import opened Gf2

  datatype Config = Config(poly: BitString, init: BitString, final: BitString, dataReflected: bool, remReflected: bool)
  {
    predicate Fits(width: nat) { |poly| == width && |init| == width && |final| == width }
  }

  // ---------------------------------------------------------------- machine words

  function Shl(x: BitString, k: nat): (y: BitString)
    requires k <= |x|
    ensures |y| == |x|
  {
    x[k..] + Zeros(k)
  }

  function Shr(x: BitString, k: nat): (y: BitString)
    requires k <= |x|
    ensures |y| == |x|
  {
    Zeros(k) + x[..|x| - k]
  }

  /** A byte cast to a word. */
  function Widen(b: Byte, width: nat): (y: BitString)
    requires width >= 8
    ensures |y| == width
  {
    Zeros(width - 8) + ToBits(b, 8)
  }

  function Reverse(s: BitString): (r: BitString)
    ensures |r| == |s| && forall i | 0 <= i < |s| :: r[i] == s[|s| - 1 - i]
  {
    seq(|s|, i requires 0 <= i < |s| => s[|s| - 1 - i])
  }

  /** `reflect`: reverse the low `nBits` bits; the rest of the result is 0. */
  method Reflect(word: BitString, nBits: nat) returns (reflection: BitString)
    requires nBits <= |word|
    ensures reflection == Zeros(|word| - nBits) + Reverse(word[|word| - nBits..])
  {
    var w, data, bit := |word|, word, 0;
    reflection := Zeros(w);
    while bit < nBits
      invariant 0 <= bit <= nBits && |data| == w == |reflection|
      invariant data == Zeros(bit) + word[..w - bit]
      invariant forall i | 0 <= i < w :: reflection[i] == (w - nBits <= i < w - nBits + bit && word[w - 1 - (i - (w - nBits))])
    {
      if data[w - 1] {
        reflection := reflection[w - 1 - (nBits - 1 - bit) := true];
      }
      data := Shr(data, 1);
      bit := bit + 1;
    }
  }

  // ---------------------------------------------------------------- the specification

  function InputBits(b: Byte, reflected: bool): (s: BitString)
    ensures |s| == 8
  {
    if reflected then Reverse(ToBits(b, 8)) else ToBits(b, 8)
  }

  function MessageBits(buf: seq<Byte>, reflected: bool): (s: BitString)
    ensures |s| == 8 * |buf|
  {
    if buf == [] then [] else InputBits(buf[0], reflected) + MessageBits(buf[1..], reflected)
  }

  /** The dividend for a register holding `r` and bits `m` still to come. */
  function Dividend(m: BitString, r: BitString): (d: BitString)
    ensures |d| == |m| + |r|
  {
    XorFront(m + Zeros(|r|), r)
  }

  function Finish(c: Config, r: BitString): (out: BitString)
    requires |c.final| == |r|
    ensures |out| == |r|
  {
    Xor(if c.remReflected then Reverse(r) else r, c.final)
  }

  /** The CRC of a message: the remainder of its bits, with the initial remainder added in front and `width` zeros
      behind, on division by x^width + poly. */
  function CrcOf(c: Config, width: nat, buf: seq<Byte>): (out: BitString)
    requires c.Fits(width)
    ensures |out| == width
  {
    Finish(c, Remainder(Dividend(MessageBits(buf, c.dataReflected), c.init), c.poly))
  }

  // ---------------------------------------------------------------- the table

  /** What 8 steps of division leave of the bits `b` standing above a zero register. */
  function Entry(poly: BitString, b: BitString): (r: BitString)
    requires |b| == 8
    ensures |r| == |poly|
  {
    Divide(b + Zeros(|poly|), poly, 8)
  }

  /** The register form of one division step. */
  function RegStep(x: BitString, poly: BitString): (y: BitString)
    requires |x| == |poly| > 0
    ensures |y| == |x|
  {
    if x[0] then Xor(Shl(x, 1), poly) else Shl(x, 1)
  }

  lemma RegStepDivides(x: BitString, poly: BitString, k: nat)
    requires |x| == |poly| > 0 && k > 0
    ensures DivStep(x + Zeros(k), poly) == RegStep(x, poly) + Zeros(k - 1)
  {
    var a, b := DivStep(x + Zeros(k), poly), RegStep(x, poly) + Zeros(k - 1);
    forall i | 0 <= i < |a| ensures a[i] == b[i] {
      assert (x + Zeros(k))[i + 1] == if i + 1 < |x| then x[i + 1] else false;
    }
  }

  /** After a whole byte: the table entry for the top bits replaces them. */
  function ByteStep(r: BitString, b: BitString, poly: BitString): (s: BitString)
    requires |r| == |poly| >= 8 && |b| == 8
    ensures |s| == |r|
  {
    Xor(Entry(poly, Xor(b, r[..8])), Shl(r, 8))
  }

  lemma DividendSplits(r: BitString, b: BitString, m: BitString)
    requires |r| >= 8 && |b| == 8
    ensures Dividend(b + m, r) == Xor((Xor(b, r[..8]) + Zeros(|r|)) + Zeros(|m|), Zeros(8) + Dividend(m, Shl(r, 8)))
  {
    var x, y := Dividend(b + m, r), Dividend(m, Shl(r, 8));
    var z := Xor((Xor(b, r[..8]) + Zeros(|r|)) + Zeros(|m|), Zeros(8) + y);
    forall i | 0 <= i < |x| ensures x[i] == z[i] {
      assert (b + m + Zeros(|r|))[i] == if i < 8 then b[i] else (m + Zeros(|r|))[i - 8];
      assert i >= 8 && i < |r| ==> Shl(r, 8)[i - 8] == r[i];
    }
  }

  lemma DividendAdds(e: BitString, r: BitString, m: BitString)
    requires |e| == |r|
    ensures Xor(e + Zeros(|m|), Dividend(m, r)) == Dividend(m, Xor(e, r))
  {
  }

  /** Eight steps of dividing the message are one table step of the register. */
  lemma ByteStepDivides(r: BitString, b: BitString, m: BitString, poly: BitString)
    requires |r| == |poly| >= 8 && |b| == 8
    ensures Divide(Dividend(b + m, r), poly, 8) == Dividend(m, ByteStep(r, b, poly))
  {
    var top, low := Xor(b, r[..8]) + Zeros(|r|), Dividend(m, Shl(r, 8));
    DividendSplits(r, b, m);
    DivideXor(top + Zeros(|m|), Zeros(8) + low, poly, 8);
    DivideLocal(top, Zeros(|m|), poly, 8);
    DivideZeros(low, poly, 8);
    DividendAdds(Entry(poly, Xor(b, r[..8])), Shl(r, 8), m);
  }

  /** Consuming one byte leaves the remainder of what is left to divide unchanged. */
  lemma ConsumeByte(r: BitString, buf: seq<Byte>, reflected: bool, poly: BitString)
    requires |r| == |poly| >= 8 && buf != []
    ensures Remainder(Dividend(MessageBits(buf, reflected), r), poly) ==
            Remainder(Dividend(MessageBits(buf[1..], reflected), ByteStep(r, InputBits(buf[0], reflected), poly)), poly)
  {
    var b, rest := InputBits(buf[0], reflected), MessageBits(buf[1..], reflected);
    ByteStepDivides(r, b, rest, poly);
    DivideTwice(Dividend(b + rest, r), poly, 8, |rest|);
  }

  lemma NothingLeft(r: BitString, poly: BitString)
    requires |r| == |poly|
    ensures Remainder(Dividend([], r), poly) == r
  {
    assert Dividend([], r) == r;
  }

  // ---------------------------------------------------------------- the class

  lemma {:induction false} FromBitsZeros(n: nat, s: BitString)
    ensures FromBits(Zeros(n) + s) == FromBits(s)
    decreases n + |s|
  {
    var z := Zeros(n) + s;
    if s != [] {
      assert z[..|z| - 1] == Zeros(n) + s[..|s| - 1];
      FromBitsZeros(n, s[..|s| - 1]);
    } else if n > 0 {
      assert z[..|z| - 1] == Zeros(n - 1) + s;
      FromBitsZeros(n - 1, s);
    }
  }

  lemma IndexOf(x: BitString, b: BitString, r: BitString)
    requires |b| == 8 && |x| == |r| >= 8 && x == Zeros(|r| - 8) + b
    ensures var data := FromBits(Xor(x, Shr(r, |r| - 8))); data < 256 && ToBits(data, 8) == Xor(b, r[..8])
  {
    var s := Xor(b, r[..8]);
    assert Xor(x, Shr(r, |r| - 8)) == Zeros(|r| - 8) + s;
    FromBitsZeros(|r| - 8, s);
    ToFromBits(s);
    Pow2Small();
  }

  /** A table of the values of `f` at 0, 1, 2, ... */
  ghost predicate Tabulates(table: seq<BitString>, f: nat -> BitString)
  {
    forall d: nat | d < |table| :: table[d] == f(d)
  }

  lemma TabulateOneMore(table: seq<BitString>, f: nat -> BitString, r: BitString)
    requires Tabulates(table, f) && r == f(|table|)
    ensures Tabulates(table + [r], f)
  {
  }

  ghost function Entries(poly: BitString): nat -> BitString { (d: nat) => Entry(poly, ToBits(d, 8)) }

  class CrcCustom {
    const width: nat
    var config: Config
    var crcTable: seq<BitString>

    /** The table always agrees with the current configuration. */
    ghost predicate Valid()
      reads this
    {
      width >= 8 && config.Fits(width) && |crcTable| == 256 && Tabulates(crcTable, Entries(config.poly))
    }

    constructor (width: nat, initial: Config)
      requires width >= 8 && initial.Fits(width)
      ensures Valid() && this.width == width && config == initial
    {
      this.width, config := width, initial;
      crcTable := [];
      new;
      crcTable := RecomputeTable(initial);
    }

    method UpdateConfig(newConfig: Config)
      requires Valid() && newConfig.Fits(width)
      modifies this
      ensures Valid() && config == newConfig
    {
      var tableNew := RecomputeTable(newConfig);
      config := newConfig;
      crcTable := tableNew;
    }

    /** The remainder of one dividend byte, a bit at a time. */
    method TableEntry(poly: BitString, dividend: Byte) returns (remainder: BitString)
      requires |poly| == width >= 8
      ensures remainder == Entry(poly, ToBits(dividend, 8))
    {
      remainder := Shl(Widen(dividend, width), width - 8);
      assert remainder + Zeros(8) == ToBits(dividend, 8) + Zeros(width);
      var bit := 8;
      while bit > 0
        invariant 0 <= bit <= 8 && |remainder| == width
        invariant Divide(remainder + Zeros(bit), poly, bit) == Entry(poly, ToBits(dividend, 8))
      {
        RegStepDivides(remainder, poly, bit);
        if remainder[0] {
          remainder := Xor(Shl(remainder, 1), poly);
        } else {
          remainder := Shl(remainder, 1);
        }
        bit := bit - 1;
      }
      assert remainder + Zeros(0) == remainder;
    }

    method RecomputeTable(c: Config) returns (table: seq<BitString>)
      requires width >= 8 && c.Fits(width)
      ensures |table| == 256 && Tabulates(table, Entries(c.poly))
    {
      table := [];
      var dividend := 0;
      while dividend < 256
        invariant 0 <= dividend <= 256 && |table| == dividend && Tabulates(table, Entries(c.poly))
      {
        var remainder := TableEntry(c.poly, dividend);
        TabulateOneMore(table, Entries(c.poly), remainder);
        table := table + [remainder];
        dividend := dividend + 1;
      }
    }

    /** The index into the table: the byte against the top of the register. */
    method TableIndex(b: Byte, remainder: BitString) returns (data: nat)
      requires Valid() && |remainder| == width
      ensures data < 256 && ToBits(data, 8) == Xor(InputBits(b, config.dataReflected), remainder[..8])
    {
      var x := Widen(b, width);
      if config.dataReflected {
        x := Reflect(x, 8);
        assert Widen(b, width)[width - 8..] == ToBits(b, 8);
      }
      IndexOf(x, InputBits(b, config.dataReflected), remainder);
      data := FromBits(Xor(x, Shr(remainder, width - 8)));
    }

    /** Table-driven CRC of a buffer. */
    method Compute(buf: seq<Byte>) returns (crc: BitString)
      requires Valid()
      ensures crc == CrcOf(config, width, buf)
    {
      var remainder, byte := config.init, 0;
      while byte < |buf|
        invariant 0 <= byte <= |buf| && |remainder| == width
        invariant Remainder(Dividend(MessageBits(buf[byte..], config.dataReflected), remainder), config.poly) ==
                  Remainder(Dividend(MessageBits(buf, config.dataReflected), config.init), config.poly)
      {
        var data := TableIndex(buf[byte], remainder);
        ConsumeByte(remainder, buf[byte..], config.dataReflected, config.poly);
        assert buf[byte..][1..] == buf[byte + 1..];
        remainder := Xor(crcTable[data], Shl(remainder, 8));
        byte := byte + 1;
      }
      NothingLeft(remainder, config.poly);
      crc := remainder;
      if config.remReflected {
        crc := Reflect(remainder, width);
        assert remainder[width - width..] == remainder && Zeros(0) + Reverse(remainder) == Reverse(remainder);
      }
      crc := Xor(crc, config.final);
    }
  }
}
