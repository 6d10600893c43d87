/** The debugger's messages: formats inherited level by level, payloads whose byte count is a unit times an earlier field,
    and the two generated functions that write and read them. */
module DebugMsg {
  import opened Bytes
  import opened Bits
  import opened Wrappers
  import opened Sequences

  /** Attribute names; the debugger's own, and any other. */
  datatype Name =
    | TYPE | SWITCH_ID | REQ_ID | PACKET_ID | COPY_ID | PORT | FID | NBYTES | BYTES | NB | CTRS | IDS | STATUS_CODE | AUX
    | Other(s: string)

  /** A field of a format: a signed 32-bit or an unsigned 64-bit number in native order, or bytes. */
  datatype Fmt = Scalar(name: Name, quad: bool) | Payload(name: Name, unit: nat, src: Name)

  datatype Val = Num(n: int) | Raw(b: seq<Byte>)

  type Attrs = map<Name, Val>

  // ---------------------------------------------------------------- numbers

  function Bytes32(quad: bool): nat { if quad then 8 else 4 }

  /** Numbers that the packing accepts. */
  predicate InRange(quad: bool, n: int)
  {
    if quad then 0 <= n < 0x1_0000_0000_0000_0000 else -0x8000_0000 <= n < 0x8000_0000
  }

  function PackNum(quad: bool, n: int): (b: seq<Byte>)
    requires InRange(quad, n)
    ensures |b| == Bytes32(quad)
  {
    if quad then LeBytes(n, 8) else LeBytes(if n < 0 then n + 0x1_0000_0000 else n, 4)
  }

  function UnpackNum(quad: bool, b: seq<Byte>): int
  {
    var v := LeValue(b);
    if !quad && v >= 0x8000_0000 then v - 0x1_0000_0000 else v
  }

  lemma NumRoundTrip(quad: bool, n: int)
    requires InRange(quad, n)
    ensures UnpackNum(quad, PackNum(quad, n)) == n
  {
    Power4();
    assert Power(8) == 256 * (256 * (256 * (256 * Power(4))));
    if quad { LeRoundTrip(n, 8); } else { LeRoundTrip(if n < 0 then n + 0x1_0000_0000 else n, 4); }
  }

  /** Packed numbers are the numbers modulo the size of their field, so negative ones are in two's complement. */
  lemma PackNumIs(quad: bool, n: int)
    requires InRange(quad, n)
    ensures LeValue(PackNum(quad, n)) == if quad then n else n % TWO32
  {
    Power4();
    assert Power(8) == 256 * (256 * (256 * (256 * Power(4))));
    hide LeBytes, LeValue, Power;
    if quad { LeRoundTrip(n, 8); } else { LeRoundTrip(if n < 0 then n + 0x1_0000_0000 else n, 4); }
  }

  /** Bytes packed into `n`: cut, or filled up with zeros. */
  function Fill(b: seq<Byte>, n: nat): (r: seq<Byte>)
    ensures |r| == n && (|b| == n ==> r == b)
  {
    if |b| >= n then b[..n] else b + seq(n - |b|, i => 0)
  }

  // ---------------------------------------------------------------- one field

  /** The count that a payload's source field gives, if it gives one. */
  function Count(f: Fmt, a: Attrs): Option<nat>
    requires f.Payload?
  {
    if f.src in a && a[f.src].Num? && a[f.src].n >= 0 then Some(a[f.src].n) else None
  }

  /** The bytes of one field; `None` where packing raises an error. */
  function PackField(f: Fmt, a: Attrs): Option<seq<Byte>>
  {
    if f.name !in a then None
    else
      var v := a[f.name];
      match f
      case Scalar(_, quad) => if v.Num? && InRange(quad, v.n) then Some(PackNum(quad, v.n)) else None
      case Payload(_, unit, _) =>
        if v.Raw? && Count(f, a).Some? then Some(Fill(v.b, unit * Count(f, a).value)) else None
  }

  /** Reading one field: the new attributes and the new offset. After a payload the offset moves on by the count, not by
      the number of bytes. */
  function UnpackField(f: Fmt, msg: seq<Byte>, a: Attrs, offset: nat): Option<(Attrs, nat)>
  {
    match f
    case Scalar(name, quad) =>
      if offset + Bytes32(quad) <= |msg| then
        Some((a[name := Num(UnpackNum(quad, msg[offset..offset + Bytes32(quad)]))], offset + Bytes32(quad)))
      else None
    case Payload(name, unit, _) =>
      if Count(f, a).Some? && offset + unit * Count(f, a).value <= |msg| then
        Some((a[name := Raw(msg[offset..offset + unit * Count(f, a).value])], offset + Count(f, a).value))
      else None
  }

  // ---------------------------------------------------------------- whole formats

  function Pack(fs: seq<Fmt>, a: Attrs): Option<seq<Byte>>
  {
    if fs == [] then Some([])
    else
      match Pack(fs[..|fs| - 1], a)
      case None => None
      case Some(before) =>
        match PackField(fs[|fs| - 1], a)
        case None => None
        case Some(b) => Some(before + b)
  }

  function Unpack(fs: seq<Fmt>, msg: seq<Byte>, a: Attrs): Option<(Attrs, nat)>
  {
    if fs == [] then Some((a, 0))
    else
      match Unpack(fs[..|fs| - 1], msg, a)
      case None => None
      case Some((b, offset)) => UnpackField(fs[|fs| - 1], msg, b, offset)
  }

  /** A format makes sense: names differ, and a payload's source is an earlier number. */
  ghost predicate WellFormed(fs: seq<Fmt>)
  {
    && (forall i, j | 0 <= i < j < |fs| :: fs[i].name != fs[j].name)
    && forall j | 0 <= j < |fs| && fs[j].Payload? :: exists i :: 0 <= i < j && fs[i].Scalar? && fs[i].name == fs[j].src
  }

  /** The value a reader should find: payloads have exactly the length their count says. */
  function Expected(f: Fmt, a: Attrs): Val
    requires f.name in a
  {
    if f.Payload? && a[f.name].Raw? && Count(f, a).Some? then Raw(Fill(a[f.name].b, f.unit * Count(f, a).value)) else a[f.name]
  }

  /** How far the offset lags behind after a field. */
  function Lag(f: Fmt, a: Attrs): int
  {
    if f.Payload? && Count(f, a).Some? then (f.unit - 1) * Count(f, a).value else 0
  }

  /** Only the last field may leave the offset in the wrong place. */
  ghost predicate Aligned(fs: seq<Fmt>, a: Attrs)
  {
    forall i | 0 <= i < |fs| - 1 :: Lag(fs[i], a) == 0
  }

  ghost predicate Agree(fs: seq<Fmt>, a: Attrs, b: Attrs)
  {
    forall i | 0 <= i < |fs| :: fs[i].name in a && fs[i].name in b && b[fs[i].name] == Expected(fs[i], a)
  }

  lemma SameCount(fs: seq<Fmt>, n: nat, a: Attrs, b: Attrs)
    requires WellFormed(fs) && n < |fs| && fs[n].Payload? && Agree(fs[..n], a, b)
    ensures Count(fs[n], a) == Count(fs[n], b)
  {
    var i :| 0 <= i < n && fs[i].Scalar? && fs[i].name == fs[n].src;
    assert fs[..n][i] == fs[i];
  }

  lemma WellFormedPrefix(fs: seq<Fmt>, n: nat)
    requires WellFormed(fs) && n <= |fs|
    ensures WellFormed(fs[..n])
  {
    var t := fs[..n];
    forall j | 0 <= j < |t| && t[j].Payload? ensures exists i :: 0 <= i < j && t[i].Scalar? && t[i].name == t[j].src {
      var i :| 0 <= i < j && fs[i].Scalar? && fs[i].name == fs[j].src;
      assert t[i].name == t[j].src;
    }
  }

  lemma AgreeNext(fs: seq<Fmt>, n: nat, a: Attrs, b: Attrs, v: Val)
    requires WellFormed(fs) && |fs| == n + 1 && Agree(fs[..n], a, b)
    requires fs[n].name in a && v == Expected(fs[n], a)
    ensures Agree(fs, a, b[fs[n].name := v])
  {
    forall i | 0 <= i < n ensures fs[i].name in a && fs[i].name in b && b[fs[i].name] == Expected(fs[i], a) {
      assert fs[..n][i] == fs[i];
    }
  }

  lemma NothingAgrees(a: Attrs, b: Attrs)
    ensures Agree([], a, b)
  {
  }

  lemma ScalarRoundTrip(f: Fmt, a: Attrs, b: Attrs, before: seq<Byte>, p: seq<Byte>, msg: seq<Byte>)
    requires f.Scalar? && PackField(f, a) == Some(p)
    requires |before| + |p| <= |msg| && msg[|before|..|before| + |p|] == p
    ensures f.name in a && UnpackField(f, msg, b, |before|) == Some((b[f.name := Expected(f, a)], |before| + |p|))
  {
    hide PackNum, UnpackNum;
    NumRoundTrip(f.quad, a[f.name].n);
  }

  lemma PayloadRoundTrip(f: Fmt, a: Attrs, b: Attrs, before: seq<Byte>, p: seq<Byte>, msg: seq<Byte>)
    requires f.Payload? && PackField(f, a) == Some(p) && Count(f, a) == Count(f, b)
    requires |before| + |p| <= |msg| && msg[|before|..|before| + |p|] == p
    ensures f.name in a && UnpackField(f, msg, b, |before|) == Some((b[f.name := Expected(f, a)], |before| + |p| - Lag(f, a)))
  {
    hide Fill;
    var unit: int, count: int := f.unit, Count(f, a).value;
    assert (unit - 1) * count == unit * count - count;
  }

  /** Reading one packed field back. */
  lemma FieldRoundTrip(f: Fmt, a: Attrs, b: Attrs, before: seq<Byte>, tail: seq<Byte>)
    requires PackField(f, a).Some? && (f.Payload? ==> Count(f, a) == Count(f, b))
    ensures f.name in a
    ensures var p := PackField(f, a).value;
      var msg := before + (p + tail);
      UnpackField(f, msg, b, |before|) == Some((b[f.name := Expected(f, a)], |before| + |p| - Lag(f, a)))
  {
    hide PackField, UnpackField, Count, Expected;
    var p := PackField(f, a).value;
    var msg := before + (p + tail);
    assert msg[|before|..|before| + |p|] == p;
    if f.Scalar? { ScalarRoundTrip(f, a, b, before, p, msg); } else { PayloadRoundTrip(f, a, b, before, p, msg); }
  }

  /** The main result: reading what was written finds every field again, for every format in which only the last field
      may lag; the offset returned lags behind the message by the last field's lag. */
  lemma {:induction false} UnpackUndoesPack(fs: seq<Fmt>, a: Attrs, b: Attrs, tail: seq<Byte>)
    requires WellFormed(fs) && Pack(fs, a).Some? && Aligned(fs, a)
    ensures var p := Pack(fs, a).value;
      var r := Unpack(fs, p + tail, b);
      r.Some? && Agree(fs, a, r.value.0) && r.value.1 == |p| - (if fs == [] then 0 else Lag(fs[|fs| - 1], a))
    decreases |fs|
  {
    hide PackField, UnpackField, Count, Expected, Lag, Agree, WellFormed;
    if fs == [] {
      NothingAgrees(a, b);
    } else {
      var n := |fs| - 1;
      var t, f := fs[..n], fs[n];
      var before, p := Pack(t, a).value, PackField(f, a).value;
      WellFormedPrefix(fs, n);
      if n > 0 { assert Lag(fs[n - 1], a) == 0; }
      UnpackUndoesPack(t, a, b, p + tail);
      assert before + p + tail == before + (p + tail);
      var c := Unpack(t, before + (p + tail), b).value.0;
      if f.Payload? { SameCount(fs, n, a, c); }
      FieldRoundTrip(f, a, c, before, tail);
      AgreeNext(fs, n, a, c, Expected(f, a));
    }
  }

  /** The offset ends at the end of the message exactly when the last field does not lag. */
  lemma OffsetIsLengthIff(fs: seq<Fmt>, a: Attrs, b: Attrs)
    requires WellFormed(fs) && Pack(fs, a).Some? && Aligned(fs, a) && fs != []
    ensures var p := Pack(fs, a).value;
      var f := fs[|fs| - 1];
      Unpack(fs, p, b).Some? &&
      (Unpack(fs, p, b).value.1 == |p| <==> (f.Payload? && Count(f, a).Some? ==> f.unit == 1 || Count(f, a).value == 0))
  {
    var p := Pack(fs, a).value;
    assert p + [] == p;
    UnpackUndoesPack(fs, a, b, []);
    var f := fs[|fs| - 1];
    if f.Payload? && Count(f, a).Some? {
      var unit: int := f.unit;
      ZeroProduct(unit - 1, Count(f, a).value);
    }
  }

  lemma ZeroProduct(x: int, y: int)
    requires y >= 0
    ensures x * y == 0 <==> x == 0 || y == 0
  {
    if x != 0 && y != 0 { assert x > 0 ==> x * y >= y; assert x < 0 ==> x * y <= -y; }
  }

  // ---------------------------------------------------------------- fields behind a wide payload

  /** How far the offset lags behind after all fields. */
  function TotalLag(fs: seq<Fmt>, a: Attrs): int
  {
    if fs == [] then 0 else TotalLag(fs[..|fs| - 1], a) + Lag(fs[|fs| - 1], a)
  }

  /** The first `k` fields do not lag, and the payloads behind them take their counts from there. */
  ghost predicate CountsFirst(fs: seq<Fmt>, a: Attrs, k: nat)
  {
    && k <= |fs|
    && (forall i | 0 <= i < k :: Lag(fs[i], a) == 0)
    && forall j | k <= j < |fs| && fs[j].Payload? :: exists i :: 0 <= i < k && fs[i].Scalar? && fs[i].name == fs[j].src
  }

  /** Payloads whose unit is a whole number of bytes, and not none. */
  predicate UnitsPositive(fs: seq<Fmt>) { forall i | 0 <= i < |fs| && fs[i].Payload? :: fs[i].unit >= 1 }

  lemma {:induction false} PackPrefix(fs: seq<Fmt>, n: nat, a: Attrs)
    requires Pack(fs, a).Some? && n <= |fs|
    ensures Pack(fs[..n], a).Some? && Pack(fs[..n], a).value <= Pack(fs, a).value
    decreases |fs|
  {
    hide PackField;
    if n == |fs| {
      assert fs[..n] == fs;
    } else {
      assert fs[..|fs| - 1][..n] == fs[..n];
      PackPrefix(fs[..|fs| - 1], n, a);
    }
  }

  lemma PackOneMore(fs: seq<Fmt>, n: nat, a: Attrs)
    requires Pack(fs, a).Some? && n < |fs|
    ensures Pack(fs[..n], a).Some? && Pack(fs[..n + 1], a).Some? && PackField(fs[n], a).Some?
    ensures Pack(fs[..n + 1], a).value == Pack(fs[..n], a).value + PackField(fs[n], a).value
    ensures Pack(fs[..n + 1], a).value <= Pack(fs, a).value
    ensures TotalLag(fs[..n + 1], a) == TotalLag(fs[..n], a) + Lag(fs[n], a)
  {
    hide PackField;
    PackPrefix(fs, n + 1, a);
    assert fs[..n + 1][..n] == fs[..n];
  }

  lemma UnpackOneMore(fs: seq<Fmt>, n: nat, msg: seq<Byte>, b: Attrs)
    requires n < |fs|
    ensures Unpack(fs[..n + 1], msg, b) ==
            match Unpack(fs[..n], msg, b)
            case None => None
            case Some((c, o)) => UnpackField(fs[n], msg, c, o)
  {
    hide UnpackField;
    assert fs[..n + 1][..n] == fs[..n];
  }

  lemma NoLagYet(fs: seq<Fmt>, a: Attrs, n: nat)
    requires n <= |fs| && forall i | 0 <= i < n :: Lag(fs[i], a) == 0
    ensures TotalLag(fs[..n], a) == 0
  {
    hide Lag;
    if n > 0 {
      assert fs[..n][..n - 1] == fs[..n - 1];
      NoLagYet(fs, a, n - 1);
    }
  }

  /** One field, read from anywhere: where the offset ends up, and when there are enough bytes. */
  lemma FieldMoves(f: Fmt, msg: seq<Byte>, a: Attrs, c: Attrs, o: nat)
    requires PackField(f, a).Some? && (f.Payload? ==> Count(f, c) == Count(f, a))
    ensures var r, w := UnpackField(f, msg, c, o), |PackField(f, a).value|;
      && (r.Some? <==> o + w <= |msg|)
      && (r.Some? ==> r.value.1 == o + w - Lag(f, a) && r.value.0.Keys == c.Keys + {f.name})
      && (r.Some? ==> forall x | x in c && x != f.name :: r.value.0[x] == c[x])
      && (f.Payload? && f.unit >= 1 ==> Lag(f, a) >= 0) && (f.Scalar? ==> Lag(f, a) == 0)
  {
    hide PackNum, UnpackNum, Fill;
    if f.Payload? {
      var unit: int, count: int := f.unit, Count(f, a).value;
      assert (unit - 1) * count == unit * count - count;
      if unit >= 1 { assert (unit - 1) * count >= 0; }
    }
  }

  lemma StillAgrees(fs: seq<Fmt>, k: nat, n: nat, a: Attrs, c: Attrs, d: Attrs)
    requires WellFormed(fs) && k <= n < |fs| && Agree(fs[..k], a, c)
    requires d.Keys == c.Keys + {fs[n].name} && forall x | x in c && x != fs[n].name :: d[x] == c[x]
    ensures Agree(fs[..k], a, d)
  {
    forall i | 0 <= i < k ensures fs[..k][i].name in a && fs[..k][i].name in d && d[fs[..k][i].name] == Expected(fs[..k][i], a) {
      assert fs[..k][i] == fs[i] && fs[i].name != fs[n].name;
    }
  }

  lemma CountFromFront(fs: seq<Fmt>, k: nat, n: nat, a: Attrs, c: Attrs)
    requires CountsFirst(fs, a, k) && k <= n < |fs| && fs[n].Payload? && Agree(fs[..k], a, c)
    ensures Count(fs[n], c) == Count(fs[n], a)
  {
    var i :| 0 <= i < k && fs[i].Scalar? && fs[i].name == fs[n].src;
    assert fs[..k][i] == fs[i];
  }

  /** The main result for other formats: a field behind wide payloads is read from where all of them together lag, and
      nothing but the offset goes wrong, so the message is always long enough. */
  lemma {:induction false} ReadEarly(fs: seq<Fmt>, a: Attrs, b: Attrs, tail: seq<Byte>, k: nat, n: nat)
    requires WellFormed(fs) && Pack(fs, a).Some? && CountsFirst(fs, a, k) && k <= n <= |fs|
    ensures Pack(fs[..n], a).Some?
    ensures var r := Unpack(fs[..n], Pack(fs, a).value + tail, b);
      && (r.Some? ==> r.value.1 == |Pack(fs[..n], a).value| - TotalLag(fs[..n], a) && Agree(fs[..k], a, r.value.0))
      && (UnitsPositive(fs) ==> r.Some? && TotalLag(fs[..n], a) >= 0)
    decreases n
  {
    hide PackField, UnpackField, Count, Expected, Lag, Agree, WellFormed, Pack, Unpack, TotalLag;
    if n == k {
      ReadFront(fs, a, b, tail, k);
    } else {
      var msg := Pack(fs, a).value + tail;
      ReadEarly(fs, a, b, tail, k, n - 1);
      PackOneMore(fs, n - 1, a);
      UnpackOneMore(fs, n - 1, msg, b);
      var r := Unpack(fs[..n - 1], msg, b);
      if r.Some? {
        var (c, o) := r.value;
        if fs[n - 1].Payload? { CountFromFront(fs, k, n - 1, a, c); }
        FieldMoves(fs[n - 1], msg, a, c, o);
        var s := UnpackField(fs[n - 1], msg, c, o);
        if s.Some? { StillAgrees(fs, k, n - 1, a, c, s.value.0); }
      }
    }
  }

  lemma ReadFront(fs: seq<Fmt>, a: Attrs, b: Attrs, tail: seq<Byte>, k: nat)
    requires WellFormed(fs) && Pack(fs, a).Some? && CountsFirst(fs, a, k)
    ensures Pack(fs[..k], a).Some? && TotalLag(fs[..k], a) == 0
    ensures var r := Unpack(fs[..k], Pack(fs, a).value + tail, b);
      r.Some? && r.value.1 == |Pack(fs[..k], a).value| && Agree(fs[..k], a, r.value.0)
  {
    hide Pack, Unpack, Lag, Agree, WellFormed, TotalLag, Aligned;
    PackPrefix(fs, k, a);
    NoLagYet(fs, a, k);
    WellFormedPrefix(fs, k);
    FrontAligned(fs, a, k);
    var p, q := Pack(fs[..k], a).value, Pack(fs, a).value;
    assert q + tail == p + (q[|p|..] + tail);
    UnpackUndoesPack(fs[..k], a, b, q[|p|..] + tail);
  }

  lemma FrontAligned(fs: seq<Fmt>, a: Attrs, k: nat)
    requires CountsFirst(fs, a, k)
    ensures Aligned(fs[..k], a) && (k > 0 ==> Lag(fs[..k][k - 1], a) == 0)
  {
    hide Lag;
    assert forall i | 0 <= i < k :: fs[..k][i] == fs[i];
  }

  /** Numbers of one width are told apart by their bytes. */
  lemma UnpackNumInjective(quad: bool, x: seq<Byte>, y: seq<Byte>)
    requires |x| == |y| == Bytes32(quad) && UnpackNum(quad, x) == UnpackNum(quad, y)
    ensures x == y
  {
    LeValueBytes(x);
    LeValueBytes(y);
    if !quad { Power4(); }
    hide LeValue, LeBytes, Power;
    assert LeValue(x) == LeValue(y);
  }

  /** When such a field arrives: exactly when the bytes as far before it as the offset lags happen to be its own. */
  lemma ArrivesIff(fs: seq<Fmt>, a: Attrs, b: Attrs, tail: seq<Byte>, k: nat, n: nat)
    requires WellFormed(fs) && Pack(fs, a).Some? && CountsFirst(fs, a, k) && k <= n < |fs| && UnitsPositive(fs)
    ensures Pack(fs[..n], a).Some? && PackField(fs[n], a).Some?
    ensures var msg, start, w := Pack(fs, a).value + tail, |Pack(fs[..n], a).value|, |PackField(fs[n], a).value|;
      var o := start - TotalLag(fs[..n], a);
      && 0 <= o <= start && start + w <= |msg| && Unpack(fs[..n + 1], msg, b).Some? && fs[n].name in a
      && fs[n].name in Unpack(fs[..n + 1], msg, b).value.0
      && (Unpack(fs[..n + 1], msg, b).value.0[fs[n].name] == Expected(fs[n], a) <==> msg[o..o + w] == msg[start..start + w])
  {
    hide PackField, UnpackField, Count, Expected, Lag, Agree, WellFormed, Pack, Unpack, TotalLag;
    var msg := Pack(fs, a).value + tail;
    ReadEarly(fs, a, b, tail, k, n);
    PackOneMore(fs, n, a);
    UnpackOneMore(fs, n, msg, b);
    var (c, o) := Unpack(fs[..n], msg, b).value;
    if fs[n].Payload? { CountFromFront(fs, k, n, a, c); }
    var p, before := PackField(fs[n], a).value, Pack(fs[..n], a).value;
    assert msg[|before|..|before| + |p|] == p;
    FieldMoves(fs[n], msg, a, c, o);
    FieldReads(fs[n], msg, a, c, o);
  }

  lemma FieldReads(f: Fmt, msg: seq<Byte>, a: Attrs, c: Attrs, o: nat)
    requires PackField(f, a).Some? && (f.Payload? ==> Count(f, c) == Count(f, a)) && o + |PackField(f, a).value| <= |msg|
    ensures f.name in a && UnpackField(f, msg, c, o).Some? && f.name in UnpackField(f, msg, c, o).value.0
    ensures UnpackField(f, msg, c, o).value.0[f.name] == Expected(f, a) <==>
            msg[o..o + |PackField(f, a).value|] == PackField(f, a).value
  {
    hide PackNum, UnpackNum, Fill;
    var p := PackField(f, a).value;
    if f.Scalar? {
      NumRoundTrip(f.quad, a[f.name].n);
      if UnpackNum(f.quad, msg[o..o + |p|]) == UnpackNum(f.quad, p) { UnpackNumInjective(f.quad, msg[o..o + |p|], p); }
    }
  }

  /** A count, a payload in units of four bytes, and a number. */
  const CountedThenNumber: seq<Fmt> := [Scalar(NB, false), Payload(CTRS, 4, NB), Scalar(AUX, false)]

  /** One unit, whose second byte is not 0, and a number that begins with a byte 0: the number is read three bytes early and
      comes out wrong. */
  lemma NumberMisread(a: Attrs, b: Attrs, unit: seq<Byte>)
    requires a == map[NB := Num(1), CTRS := Raw(unit), AUX := Num(0)] && |unit| == 4 && unit[1] != 0
    ensures var fs := CountedThenNumber;
      Pack(fs, a).Some? && Unpack(fs, Pack(fs, a).value, b).Some? && AUX in Unpack(fs, Pack(fs, a).value, b).value.0 &&
      Unpack(fs, Pack(fs, a).value, b).value.0[AUX] != a[AUX]
  {
    CountedShape(CountedThenNumber, a);
    CountedFields(CountedThenNumber, a, unit);
    hide *;
    ThirdMisread(CountedThenNumber, a, b, 1, 2);
  }

  lemma ThirdMisread(fs: seq<Fmt>, a: Attrs, b: Attrs, k: nat, n: nat)
    requires k == 1 && n == 2 && |fs| == 3 && WellFormed(fs) && CountsFirst(fs, a, k) && UnitsPositive(fs)
    requires forall i | 0 <= i < 3 :: PackField(fs[i], a).Some? && |PackField(fs[i], a).value| == 4
    requires PackField(fs[1], a).value[1] != PackField(fs[2], a).value[0] && Lag(fs[0], a) == 0 && Lag(fs[1], a) == 3
    ensures Pack(fs, a).Some? && Unpack(fs, Pack(fs, a).value, b).Some? && fs[2].name in Unpack(fs, Pack(fs, a).value, b).value.0
    ensures Unpack(fs, Pack(fs, a).value, b).value.0[fs[2].name] != Expected(fs[2], a)
  {
    hide Pack, Unpack, PackField, TotalLag, Lag, WellFormed, CountsFirst, UnitsPositive, Expected;
    ThreeFields(fs, a);
    var msg := Pack(fs, a).value;
    assert msg + [] == msg && fs[..3] == fs;
    ThreeBytesEarly(PackField(fs[0], a).value, PackField(fs[1], a).value, PackField(fs[2], a).value);
    ArrivesIff(fs, a, b, [], k, n);
  }

  lemma ThreeBytesEarly(p: seq<Byte>, q: seq<Byte>, r: seq<Byte>)
    requires |p| == |q| == |r| == 4 && q[1] != r[0]
    ensures (p + q + r)[5..9] != (p + q + r)[8..12]
  {
    assert (p + q + r)[5..9][0] == q[1] && (p + q + r)[8..12][0] == r[0];
  }

  lemma ThreeFields(fs: seq<Fmt>, a: Attrs)
    requires |fs| == 3 && PackField(fs[0], a).Some? && PackField(fs[1], a).Some? && PackField(fs[2], a).Some?
    ensures Pack(fs[..2], a) == Some(PackField(fs[0], a).value + PackField(fs[1], a).value)
    ensures Pack(fs, a) == Some(PackField(fs[0], a).value + PackField(fs[1], a).value + PackField(fs[2], a).value)
    ensures TotalLag(fs[..2], a) == Lag(fs[0], a) + Lag(fs[1], a)
  {
    hide PackField, Lag;
    var one, two := fs[..1], fs[..2];
    assert one[..|one| - 1] == [] && two[..|two| - 1] == one && one[0] == fs[0] && two[1] == fs[1];
    assert TotalLag([], a) == 0 && TotalLag(one, a) == TotalLag(one[..|one| - 1], a) + Lag(one[|one| - 1], a);
    var p := PackField(fs[0], a).value;
    assert [] + p == p;
    assert Pack(one, a) == Some(p) && TotalLag(one, a) == Lag(fs[0], a);
  }

  lemma CountedShape(fs: seq<Fmt>, a: Attrs)
    requires fs == CountedThenNumber && NB in a && CTRS in a && AUX in a
    ensures WellFormed(fs) && CountsFirst(fs, a, 1) && UnitsPositive(fs)
  {
    assert fs[0].Scalar? && fs[0].name == fs[1].src;
  }

  lemma CountedFields(fs: seq<Fmt>, a: Attrs, unit: seq<Byte>)
    requires fs == CountedThenNumber && a == map[NB := Num(1), CTRS := Raw(unit), AUX := Num(0)] && |unit| == 4
    ensures |fs| == 3 && fs[2].name == AUX
    ensures PackField(fs[0], a).Some? && |PackField(fs[0], a).value| == 4 && PackField(fs[1], a) == Some(unit)
    ensures PackField(fs[2], a).Some? && |PackField(fs[2], a).value| == 4 && PackField(fs[2], a).value[0] == 0
    ensures Lag(fs[0], a) == 0 && Lag(fs[1], a) == 3 && Expected(fs[2], a) == a[AUX]
  {
    assert PackNum(false, 0)[0] == 0;
  }

  // ---------------------------------------------------------------- the debugger's own formats

  datatype MsgType =
    | PACKET_IN | PACKET_OUT | FIELD_VALUE | CONTINUE | NEXT | GET_VALUE | GET_BACKTRACE | BACKTRACE
    | BREAK_PACKET_IN | REMOVE_PACKET_IN | STOP_PACKET_IN | RESUME_PACKET_IN | FILTER_NOTIFICATIONS
    | SET_WATCHPOINT | UNSET_WATCHPOINT | STATUS | RESET | KEEP_ALIVE | ATTACH | DETACH

  const BASIC: seq<Fmt> := [Scalar(TYPE, false), Scalar(SWITCH_ID, false), Scalar(REQ_ID, true)]

  const PACKET: seq<Fmt> := [Scalar(PACKET_ID, true), Scalar(COPY_ID, true)]

  /** The formats of a message type, from the root of its inheritance chain down. */
  function Levels(t: MsgType): seq<seq<Fmt>>
  {
    match t
    case PACKET_IN | PACKET_OUT => [BASIC, PACKET, [Scalar(PORT, false)]]
    case FIELD_VALUE => [BASIC, PACKET, [Scalar(FID, true), Scalar(NBYTES, false), Payload(BYTES, 1, NBYTES)]]
    case GET_VALUE => [BASIC, PACKET + [Scalar(FID, true)]]
    case GET_BACKTRACE => [BASIC, PACKET]
    case BACKTRACE => [BASIC, PACKET + [Scalar(NB, false), Payload(CTRS, 4, NB)]]
    case FILTER_NOTIFICATIONS => [BASIC, [Scalar(NB, false), Payload(IDS, 16, NB)]]
    case SET_WATCHPOINT | UNSET_WATCHPOINT => [BASIC, [Scalar(FID, true)]]
    case STATUS => [BASIC, [Scalar(STATUS_CODE, false), Scalar(AUX, true)]]
    case _ => [BASIC, []]
  }

  lemma FlattenTwo(x: seq<Fmt>, y: seq<Fmt>)
    ensures Flatten([x, y]) == x + y
  {
    assert [x, y][..1] == [x] && [x][..0] == [];
    assert Flatten([x]) == Flatten([x][..0]) + x == x;
  }

  lemma FlattenThree(x: seq<Fmt>, y: seq<Fmt>, z: seq<Fmt>)
    ensures Flatten([x, y, z]) == x + y + z
  {
    FlattenTwo(x, y);
    assert [x, y, z][..2] == [x, y];
  }

  /** At most one payload, at the end, and its source is the number just before it. */
  ghost predicate PayloadLast(fs: seq<Fmt>)
  {
    && (forall i, j | 0 <= i < j < |fs| :: fs[i].name != fs[j].name)
    && (forall i | 0 <= i < |fs| - 1 :: fs[i].Scalar?)
    && (fs != [] && fs[|fs| - 1].Payload? ==> |fs| > 1 && fs[|fs| - 2].name == fs[|fs| - 1].src)
  }

  lemma PayloadLastIsSafe(fs: seq<Fmt>, a: Attrs)
    requires PayloadLast(fs)
    ensures WellFormed(fs) && Aligned(fs, a)
  {
    forall j | 0 <= j < |fs| && fs[j].Payload? ensures exists i :: 0 <= i < j && fs[i].Scalar? && fs[i].name == fs[j].src {
      assert j == |fs| - 1 && fs[|fs| - 2].Scalar? && fs[|fs| - 2].name == fs[j].src;
    }
  }

  lemma EventFormats(own: seq<Fmt>)
    requires own == [Scalar(PORT, false)] || own == [Scalar(FID, true), Scalar(NBYTES, false), Payload(BYTES, 1, NBYTES)]
    ensures PayloadLast(BASIC + PACKET + own)
  {
  }

  lemma BasicFormats(own: seq<Fmt>)
    requires own in {[], PACKET, [Scalar(FID, true)], [Scalar(STATUS_CODE, false), Scalar(AUX, true)]}
    ensures PayloadLast(BASIC + own)
  {
  }

  lemma PacketFormats(own: seq<Fmt>)
    requires own in {[Scalar(FID, true)], [Scalar(NB, false), Payload(CTRS, 4, NB)]}
    ensures PayloadLast(BASIC + (PACKET + own))
  {
  }

  lemma FilterFormat()
    ensures PayloadLast(BASIC + [Scalar(NB, false), Payload(IDS, 16, NB)])
  {
  }

  /** In every format of the debugger at most the last field is a payload. */
  lemma OurFormats(t: MsgType)
    ensures PayloadLast(Flatten(Levels(t)))
  {
    hide PayloadLast, Flatten, BASIC, PACKET;
    match t
    case PACKET_IN | PACKET_OUT =>
      FlattenThree(BASIC, PACKET, [Scalar(PORT, false)]);
      EventFormats([Scalar(PORT, false)]);
    case FIELD_VALUE =>
      var own := [Scalar(FID, true), Scalar(NBYTES, false), Payload(BYTES, 1, NBYTES)];
      FlattenThree(BASIC, PACKET, own);
      EventFormats(own);
    case GET_VALUE =>
      FlattenTwo(BASIC, PACKET + [Scalar(FID, true)]);
      PacketFormats([Scalar(FID, true)]);
    case GET_BACKTRACE =>
      FlattenTwo(BASIC, PACKET);
      BasicFormats(PACKET);
    case BACKTRACE =>
      FlattenTwo(BASIC, PACKET + [Scalar(NB, false), Payload(CTRS, 4, NB)]);
      PacketFormats([Scalar(NB, false), Payload(CTRS, 4, NB)]);
    case FILTER_NOTIFICATIONS =>
      FlattenTwo(BASIC, [Scalar(NB, false), Payload(IDS, 16, NB)]);
      FilterFormat();
    case SET_WATCHPOINT | UNSET_WATCHPOINT =>
      FlattenTwo(BASIC, [Scalar(FID, true)]);
      BasicFormats([Scalar(FID, true)]);
    case STATUS =>
      FlattenTwo(BASIC, [Scalar(STATUS_CODE, false), Scalar(AUX, true)]);
      BasicFormats([Scalar(STATUS_CODE, false), Scalar(AUX, true)]);
    case _ =>
      FlattenTwo(BASIC, []);
      BasicFormats([]);
  }

  // ---------------------------------------------------------------- message objects

  lemma FlattenPrefix(levels: seq<seq<Fmt>>, n: nat)
    requires n < |levels|
    ensures Flatten(levels[..n + 1]) == Flatten(levels[..n]) + levels[n]
  {
    assert levels[..n + 1][..n] == levels[..n];
  }

  lemma Appended(fs: seq<Fmt>, own: seq<Fmt>, i: nat)
    requires i < |own|
    ensures var g := fs + own[..i + 1]; g[..|g| - 1] == fs + own[..i] && g[|g| - 1] == own[i]
  {
    assert (fs + own[..i + 1])[..|fs| + i] == fs + own[..i];
  }

  lemma NoFields(levels: seq<seq<Fmt>>, a: Attrs, msg: seq<Byte>)
    ensures Pack(Flatten(levels[..0]), a) == Some([]) && Unpack(Flatten(levels[..0]), msg, a) == Some((a, 0))
  {
    assert levels[..0] == [];
  }

  lemma PackNext(fs: seq<Fmt>, own: seq<Fmt>, i: nat, a: Attrs)
    requires i < |own|
    ensures Pack(fs + own[..i + 1], a) ==
            match Pack(fs + own[..i], a)
            case None => None
            case Some(before) =>
              match PackField(own[i], a)
              case None => None
              case Some(b) => Some(before + b)
  {
    hide PackField;
    Appended(fs, own, i);
  }

  lemma UnpackNext(fs: seq<Fmt>, own: seq<Fmt>, i: nat, msg: seq<Byte>, a: Attrs)
    requires i < |own|
    ensures Unpack(fs + own[..i + 1], msg, a) ==
            match Unpack(fs + own[..i], msg, a)
            case None => None
            case Some((b, offset)) => UnpackField(own[i], msg, b, offset)
  {
    hide UnpackField;
    Appended(fs, own, i);
  }

  lemma {:induction false} UnpackFails(fs: seq<Fmt>, own: seq<Fmt>, msg: seq<Byte>, a: Attrs)
    requires Unpack(fs, msg, a).None?
    ensures Unpack(fs + own, msg, a).None?
    decreases |own|
  {
    if own == [] {
      assert fs + own == fs;
    } else {
      UnpackFails(fs, own[..|own| - 1], msg, a);
      assert (fs + own)[..|fs + own| - 1] == fs + own[..|own| - 1];
    }
  }

  lemma {:induction false} PackFails(fs: seq<Fmt>, own: seq<Fmt>, a: Attrs)
    requires Pack(fs, a).None?
    ensures Pack(fs + own, a).None?
    decreases |own|
  {
    if own == [] {
      assert fs + own == fs;
    } else {
      PackFails(fs, own[..|own| - 1], a);
      assert (fs + own)[..|fs + own| - 1] == fs + own[..|own| - 1];
    }
  }

  class Msg {
    var attrs: Attrs

    constructor (attrs: Attrs)
      ensures this.attrs == attrs
    {
      this.attrs := attrs;
    }

    /** The extract function of the level `n` levels below the root: the parent's first, then its own fields. */
    method Extract(levels: seq<seq<Fmt>>, n: nat, msg: seq<Byte>) returns (offset: Option<nat>)
      requires n <= |levels|
      modifies this
      ensures match Unpack(Flatten(levels[..n]), msg, old(attrs))
        case None => offset == None
        case Some((a, o)) => offset == Some(o) && attrs == a
      decreases n
    {
      hide *;
      if n == 0 {
        NoFields(levels, attrs, msg);
        return Some(0);
      }
      offset := Extract(levels, n - 1, msg);
      FlattenPrefix(levels, n - 1);
      var own := levels[n - 1];
      ghost var fs := Flatten(levels[..n - 1]);
      if offset.None? {
        UnpackFails(fs, own, msg, old(attrs));
        return;
      }
      var i := 0;
      assert fs + own[..0] == fs;
      while i < |own|
        invariant 0 <= i <= |own| && offset.Some?
        invariant Unpack(fs + own[..i], msg, old(attrs)) == Some((attrs, offset.value))
      {
        UnpackNext(fs, own, i, msg, old(attrs));
        var r := UnpackField(own[i], msg, attrs, offset.value);
        if r.None? {
          UnpackFails(fs + own[..i + 1], own[i + 1..], msg, old(attrs));
          assert fs + own[..i + 1] + own[i + 1..] == fs + own;
          return None;
        }
        attrs, offset := r.value.0, Some(r.value.1);
        i := i + 1;
      }
      assert own[..i] == own;
    }

    method Generate(levels: seq<seq<Fmt>>, n: nat) returns (r: Option<seq<Byte>>)
      requires n <= |levels|
      ensures r == Pack(Flatten(levels[..n]), attrs)
      decreases n
    {
      hide *;
      if n == 0 {
        NoFields(levels, attrs, []);
        return Some([]);
      }
      r := Generate(levels, n - 1);
      FlattenPrefix(levels, n - 1);
      var own := levels[n - 1];
      ghost var fs := Flatten(levels[..n - 1]);
      if r.None? {
        PackFails(fs, own, attrs);
        return;
      }
      var i := 0;
      assert fs + own[..0] == fs;
      while i < |own|
        invariant 0 <= i <= |own| && r.Some? && r == Pack(fs + own[..i], attrs)
      {
        PackNext(fs, own, i, attrs);
        var b := PackField(own[i], attrs);
        if b.None? {
          PackFails(fs + own[..i + 1], own[i + 1..], attrs);
          assert fs + own[..i + 1] + own[i + 1..] == fs + own;
          return None;
        }
        r := Some(r.value + b.value);
        i := i + 1;
      }
      assert own[..i] == own;
    }
  }

  lemma LastField(t: MsgType)
    ensures var fs := Flatten(Levels(t));
      && fs != []
      && (t == BACKTRACE ==> fs[|fs| - 1] == Payload(CTRS, 4, NB))
      && (t == FILTER_NOTIFICATIONS ==> fs[|fs| - 1] == Payload(IDS, 16, NB))
      && (t == FIELD_VALUE ==> fs[|fs| - 1] == Payload(BYTES, 1, NBYTES))
      && (t != BACKTRACE && t != FILTER_NOTIFICATIONS && t != FIELD_VALUE ==> fs[|fs| - 1].Scalar?)
  {
    var levels := Levels(t);
    if |levels| == 2 { FlattenTwo(levels[0], levels[1]); } else { FlattenThree(levels[0], levels[1], levels[2]); }
  }

  lemma LagsIff(t: MsgType, a: Attrs)
    ensures var fs := Flatten(Levels(t));
      fs != [] && ((fs[|fs| - 1].Payload? && Count(fs[|fs| - 1], a).Some? ==>
        fs[|fs| - 1].unit == 1 || Count(fs[|fs| - 1], a).value == 0) <==> !Lags(t, a))
  {
    LastField(t);
    hide Levels, Flatten;
  }

  /** Send and receive a message of the debugger: every field arrives, and the offset returned is the message's length
      unless a backtrace or a filter list is not empty. */
  method SendAndReceive(t: MsgType, sender: Msg, receiver: Msg) returns (sent: Option<seq<Byte>>, offset: Option<nat>)
    requires sender != receiver
    modifies receiver
    ensures sent == Pack(Flatten(Levels(t)), sender.attrs)
    ensures sent.Some? ==> Agree(Flatten(Levels(t)), sender.attrs, receiver.attrs) && offset.Some?
    ensures sent.Some? ==> (offset.value == |sent.value| <==> !Lags(t, sender.attrs))
  {
    var levels := Levels(t);
    var fs := Flatten(levels);
    OurFormats(t);
    PayloadLastIsSafe(fs, sender.attrs);
    assert levels[..|levels|] == levels;
    hide *;
    sent := sender.Generate(levels, |levels|);
    if sent.None? { return sent, None; }
    assert sent.value + [] == sent.value;
    UnpackUndoesPack(fs, sender.attrs, receiver.attrs, []);
    LagsIff(t, sender.attrs);
    OffsetIsLengthIff(fs, sender.attrs, receiver.attrs);
    offset := receiver.Extract(levels, |levels|, sent.value);
  }

  /** A payload whose unit is not one byte, and which is not empty. */
  predicate Lags(t: MsgType, a: Attrs)
  {
    && (t == BACKTRACE || t == FILTER_NOTIFICATIONS)
    && NB in a && a[NB].Num? && a[NB].n > 0
  }

  /** Packing works exactly when every field can be packed. */
  lemma {:induction false} PacksIff(fs: seq<Fmt>, a: Attrs)
    ensures Pack(fs, a).Some? <==> forall i | 0 <= i < |fs| :: PackField(fs[i], a).Some?
    decreases |fs|
  {
    hide PackField;
    if fs != [] {
      PacksIff(fs[..|fs| - 1], a);
      assert forall i | 0 <= i < |fs| - 1 :: fs[..|fs| - 1][i] == fs[i];
    }
  }

  /** A backtrace of one counter; all numbers are 1. */
  predicate OneCounter(a: Attrs)
  {
    (forall n | n in {TYPE, SWITCH_ID, REQ_ID, PACKET_ID, COPY_ID, NB} :: n in a && a[n] == Num(1)) && CTRS in a && a[CTRS].Raw?
  }

  lemma OneCounterPacks(a: Attrs)
    requires OneCounter(a)
    ensures Pack(Flatten(Levels(BACKTRACE)), a).Some?
  {
    hide Pack, PackNum, Fill, Flatten;
    var fs := BASIC + (PACKET + [Scalar(NB, false), Payload(CTRS, 4, NB)]);
    FlattenTwo(BASIC, PACKET + [Scalar(NB, false), Payload(CTRS, 4, NB)]);
    PacksIff(fs, a);
  }

  /** Reading a backtrace gives an offset that is three bytes short for every counter; so for one counter it is not the
      length. */
  lemma BacktraceLags(a: Attrs, b: Attrs)
    requires Pack(Flatten(Levels(BACKTRACE)), a).Some?
    ensures NB in a && a[NB].Num?
    ensures var fs := Flatten(Levels(BACKTRACE));
      var sent := Pack(fs, a).value;
      Unpack(fs, sent, b).Some? && Unpack(fs, sent, b).value.1 == |sent| - 3 * a[NB].n
  {
    var fs := Flatten(Levels(BACKTRACE));
    var sent := Pack(fs, a).value;
    LastField(BACKTRACE);
    PacksIff(fs, a);
    assert PackField(fs[|fs| - 1], a).Some?;
    OurFormats(BACKTRACE);
    PayloadLastIsSafe(fs, a);
    assert sent + [] == sent;
    hide Flatten, Levels, Pack, Unpack, PackField, WellFormed, Aligned;
    UnpackUndoesPack(fs, a, b, []);
  }

  lemma OneCounterLags(a: Attrs, b: Attrs)
    requires OneCounter(a)
    ensures var fs := Flatten(Levels(BACKTRACE));
      Pack(fs, a).Some? && Unpack(fs, Pack(fs, a).value, b).Some? &&
      Unpack(fs, Pack(fs, a).value, b).value.1 == |Pack(fs, a).value| - 3
  {
    OneCounterPacks(a);
    hide Pack, Unpack, Levels, Flatten;
    BacktraceLags(a, b);
    assert a[NB] == Num(1);
  }

  // ---------------------------------------------------------------- a known answer

  /** The formats as one list each. */
  lemma EventFormatsSpelledOut()
    ensures Flatten(Levels(FIELD_VALUE)) ==
            [Scalar(TYPE, false), Scalar(SWITCH_ID, false), Scalar(REQ_ID, true), Scalar(PACKET_ID, true), Scalar(COPY_ID, true),
             Scalar(FID, true), Scalar(NBYTES, false), Payload(BYTES, 1, NBYTES)]
    ensures Flatten(Levels(PACKET_IN)) == Flatten(Levels(PACKET_OUT)) ==
            [Scalar(TYPE, false), Scalar(SWITCH_ID, false), Scalar(REQ_ID, true), Scalar(PACKET_ID, true), Scalar(COPY_ID, true),
             Scalar(PORT, false)]
  {
    hide Flatten;
    FlattenThree(BASIC, PACKET, [Scalar(FID, true), Scalar(NBYTES, false), Payload(BYTES, 1, NBYTES)]);
    FlattenThree(BASIC, PACKET, [Scalar(PORT, false)]);
  }

  lemma PacketFormatsSpelledOut()
    ensures Flatten(Levels(GET_VALUE)) ==
            [Scalar(TYPE, false), Scalar(SWITCH_ID, false), Scalar(REQ_ID, true), Scalar(PACKET_ID, true), Scalar(COPY_ID, true),
             Scalar(FID, true)]
    ensures Flatten(Levels(GET_BACKTRACE)) ==
            [Scalar(TYPE, false), Scalar(SWITCH_ID, false), Scalar(REQ_ID, true), Scalar(PACKET_ID, true), Scalar(COPY_ID, true)]
    ensures Flatten(Levels(BACKTRACE)) ==
            [Scalar(TYPE, false), Scalar(SWITCH_ID, false), Scalar(REQ_ID, true), Scalar(PACKET_ID, true), Scalar(COPY_ID, true),
             Scalar(NB, false), Payload(CTRS, 4, NB)]
  {
    hide Flatten;
    FlattenTwo(BASIC, PACKET + [Scalar(FID, true)]);
    FlattenTwo(BASIC, PACKET);
    FlattenTwo(BASIC, PACKET + [Scalar(NB, false), Payload(CTRS, 4, NB)]);
  }

  lemma BasicFormatsSpelledOut()
    ensures Flatten(Levels(FILTER_NOTIFICATIONS)) ==
            [Scalar(TYPE, false), Scalar(SWITCH_ID, false), Scalar(REQ_ID, true), Scalar(NB, false), Payload(IDS, 16, NB)]
    ensures Flatten(Levels(SET_WATCHPOINT)) == Flatten(Levels(UNSET_WATCHPOINT)) ==
            [Scalar(TYPE, false), Scalar(SWITCH_ID, false), Scalar(REQ_ID, true), Scalar(FID, true)]
    ensures Flatten(Levels(STATUS)) ==
            [Scalar(TYPE, false), Scalar(SWITCH_ID, false), Scalar(REQ_ID, true), Scalar(STATUS_CODE, false), Scalar(AUX, true)]
    ensures forall t | t in {CONTINUE, NEXT, BREAK_PACKET_IN, REMOVE_PACKET_IN, STOP_PACKET_IN, RESUME_PACKET_IN, RESET,
                             KEEP_ALIVE, ATTACH, DETACH} ::
              Flatten(Levels(t)) == [Scalar(TYPE, false), Scalar(SWITCH_ID, false), Scalar(REQ_ID, true)]
  {
    hide Flatten;
    FlattenTwo(BASIC, [Scalar(NB, false), Payload(IDS, 16, NB)]);
    FlattenTwo(BASIC, [Scalar(FID, true)]);
    FlattenTwo(BASIC, [Scalar(STATUS_CODE, false), Scalar(AUX, true)]);
    FlattenTwo(BASIC, []);
  }

  /** A message is its fields' bytes, one behind the other. */
  lemma {:induction false} PacksTo(fs: seq<Fmt>, a: Attrs, parts: seq<seq<Byte>>)
    requires |parts| == |fs| && forall i | 0 <= i < |fs| :: PackField(fs[i], a) == Some(parts[i])
    ensures Pack(fs, a) == Some(Flatten(parts))
    decreases |fs|
  {
    hide PackField;
    if fs != [] { PacksTo(fs[..|fs| - 1], a, parts[..|fs| - 1]); }
  }

  /** The field value that the debugger's own self-test sends: four-byte and eight-byte numbers, then three bytes. */
  lemma OwnSelfTest(a: Attrs, bytes: seq<Byte>)
    requires a == map[TYPE := Num(2), SWITCH_ID := Num(0), REQ_ID := Num(99), PACKET_ID := Num(1), COPY_ID := Num(2),
                      FID := Num(55), NBYTES := Num(3), BYTES := Raw(bytes)] && |bytes| == 3
    ensures Pack(Flatten(Levels(FIELD_VALUE)), a) ==
            Some(Flatten([LeBytes(2, 4), LeBytes(0, 4), LeBytes(99, 8), LeBytes(1, 8), LeBytes(2, 8), LeBytes(55, 8),
                          LeBytes(3, 4), bytes]))
  {
    SelfTestFields(a, bytes);
    EventFormatsSpelledOut();
    hide Pack, PackField, LeBytes, Levels, Flatten;
    PacksTo(Flatten(Levels(FIELD_VALUE)), a,
            [LeBytes(2, 4), LeBytes(0, 4), LeBytes(99, 8), LeBytes(1, 8), LeBytes(2, 8), LeBytes(55, 8), LeBytes(3, 4), bytes]);
  }

  lemma SelfTestFields(a: Attrs, bytes: seq<Byte>)
    requires a == map[TYPE := Num(2), SWITCH_ID := Num(0), REQ_ID := Num(99), PACKET_ID := Num(1), COPY_ID := Num(2),
                      FID := Num(55), NBYTES := Num(3), BYTES := Raw(bytes)] && |bytes| == 3
    ensures PackField(Scalar(TYPE, false), a) == Some(LeBytes(2, 4)) && PackField(Scalar(SWITCH_ID, false), a) == Some(LeBytes(0, 4))
    ensures PackField(Scalar(REQ_ID, true), a) == Some(LeBytes(99, 8)) && PackField(Scalar(PACKET_ID, true), a) == Some(LeBytes(1, 8))
    ensures PackField(Scalar(COPY_ID, true), a) == Some(LeBytes(2, 8)) && PackField(Scalar(FID, true), a) == Some(LeBytes(55, 8))
    ensures PackField(Scalar(NBYTES, false), a) == Some(LeBytes(3, 4)) && PackField(Payload(BYTES, 1, NBYTES), a) == Some(bytes)
  {
    hide LeBytes;
  }

  // ---------------------------------------------------------------- event counters

  datatype ObjType = PARSER | PARSE_STATE | PIPELINE | TABLE | CONDITION | ACTION | DEPARSER

  function TypeId(t: ObjType): int
  {
    match t
    case PARSER => 1
    case PARSE_STATE => 2
    case PIPELINE => 3
    case TABLE => 4
    case CONDITION => 5
    case ACTION => 6
    case DEPARSER => 7
  }

  function TypeOf(id: int): Option<ObjType>
  {
    if id == 1 then Some(PARSER) else if id == 2 then Some(PARSE_STATE) else if id == 3 then Some(PIPELINE)
    else if id == 4 then Some(TABLE) else if id == 5 then Some(CONDITION) else if id == 6 then Some(ACTION)
    else if id == 7 then Some(DEPARSER) else None
  }

  const ID_RANGE := 0x1000000

  /** The numbers are those that the switch puts above bit 24 of its event counters. */
  lemma SwitchNumbers()
    ensures TypeId(PARSER) * ID_RANGE == 0x100_0000 && TypeId(PARSE_STATE) * ID_RANGE == 0x200_0000
    ensures TypeId(PIPELINE) * ID_RANGE == 0x300_0000 && TypeId(TABLE) * ID_RANGE == 0x400_0000
    ensures TypeId(CONDITION) * ID_RANGE == 0x500_0000 && TypeId(ACTION) * ID_RANGE == 0x600_0000
    ensures TypeId(DEPARSER) * ID_RANGE == 0x700_0000
    ensures forall t :: TypeOf(TypeId(t)) == Some(t)
    ensures forall id :: TypeOf(id).None? <==> id < 1 || id > 7
  {
  }

  /** Names and numbers of the objects of a configuration. */
  class ObjectMap {
    var names: map<(ObjType, nat), string>
    var namesRev: map<(ObjType, string), nat>

    /** Every name leads to a number that has that name. */
    ghost predicate Valid()
      reads this
    {
      forall k | k in namesRev :: (k.0, namesRev[k]) in names && names[(k.0, namesRev[k])] == k.1
    }

    constructor ()
      ensures Valid() && names == map[] && namesRev == map[]
    {
      names, namesRev := map[], map[];
    }

    /** The map stays in order exactly when the number was not in use under another name that still leads to it. */
    method AddOne(t: ObjType, id: nat, name: string)
      requires Valid()
      modifies this
      ensures names == old(names)[(t, id) := name] && namesRev == old(namesRev)[(t, name) := id]
      ensures Valid() <==> forall k | k in old(namesRev) && k.0 == t && old(namesRev)[k] == id :: k.1 == name
    {
      names := names[(t, id) := name];
      namesRev := namesRev[(t, name) := id];
      if exists k :: k in old(namesRev) && k.0 == t && old(namesRev)[k] == id && k.1 != name {
        var k :| k in old(namesRev) && k.0 == t && old(namesRev)[k] == id && k.1 != name;
        assert k in namesRev && namesRev[k] == id;
      }
    }

    /** The counter of a named object: its type above its number. */
    method LookupCtr(t: ObjType, name: string) returns (ctr: Option<int>)
      ensures (t, name) !in namesRev ==> ctr == None
      ensures (t, name) in namesRev ==> ctr.Some? && ctr.value >= 0
      ensures (t, name) in namesRev && namesRev[(t, name)] < ID_RANGE ==>
        ctr == Some(TypeId(t) * ID_RANGE + namesRev[(t, name)])
    {
      if (t, name) !in namesRev { return None; }
      var typeId := TypeId(t);
      var c := typeId * ID_RANGE;
      if namesRev[(t, name)] < ID_RANGE { OrAbove(typeId, namesRev[(t, name)]); }
      c := Or(c, namesRev[(t, name)]);
      return Some(c);
    }

    /** The object of a counter; bit 31, which marks the end of an event, does not matter. */
    method ResolveCtr(ctr: int) returns (r: Option<(ObjType, string)>)
      requires ctr >= 0
      ensures r == Resolve(ctr)
    {
      var t := TypeOf(ctr / ID_RANGE % 128);
      if t.None? { return None; }
      var id := ctr % ID_RANGE;
      if (t.value, id) !in names { return None; }
      r := Some((t.value, names[(t.value, id)]));
    }

    function Resolve(ctr: int): Option<(ObjType, string)>
      reads this
      requires ctr >= 0
    {
      var t := TypeOf(ctr / ID_RANGE % 128);
      if t.Some? && (t.value, ctr % ID_RANGE) in names then Some((t.value, names[(t.value, ctr % ID_RANGE)])) else None
    }

    /** Resolving a looked-up counter, as its entry or as its exit event, gives the object back. */
    method LookupThenResolve(t: ObjType, name: string, exit: bool) returns (r: Option<(ObjType, string)>)
      requires Valid() && (t, name) in namesRev && namesRev[(t, name)] < ID_RANGE
      ensures r == Some((t, name))
    {
      var ctr := LookupCtr(t, name);
      var c := ctr.value + if exit then 128 * ID_RANGE else 0;
      assert c / ID_RANGE == TypeId(t) + (if exit then 128 else 0) && c % ID_RANGE == namesRev[(t, name)];
      r := ResolveCtr(c);
    }
  }

  /** Bitwise or. */
  function Or(a: nat, b: nat): nat
    decreases a + b
  {
    if a == 0 then b else if b == 0 then a
    else 2 * Or(a / 2, b / 2) + if a % 2 == 1 || b % 2 == 1 then 1 else 0
  }

  lemma {:induction false} OrZero(b: nat)
    ensures Or(0, b) == b && Or(b, 0) == b
  {
  }

  lemma {:induction false} OrShifted(k: nat, n: nat, b: nat)
    requires b < Pow2(n)
    ensures Or(k * Pow2(n), b) == k * Pow2(n) + b
  {
    var a := k * Pow2(n);
    if a == 0 || b == 0 {
      OrZero(a);
      OrZero(b);
    } else {
      OrShifted(k, n - 1, b / 2);
      assert a == 2 * (k * Pow2(n - 1)) by { Doubled(k, Pow2(n - 1)); }
      assert a / 2 == k * Pow2(n - 1) && a % 2 == 0;
    }
  }

  lemma Doubled(k: nat, p: nat)
    ensures k * (2 * p) == 2 * (k * p)
  {
  }

  /** Or with a number that fits below the type's bits puts it there. */
  lemma OrAbove(k: nat, b: nat)
    requires b < ID_RANGE
    ensures Or(k * ID_RANGE, b) == k * ID_RANGE + b
  {
    Pow2Small();
    assert Pow2(12) == 16 * Pow2(8);
    assert Pow2(16) == 16 * Pow2(12);
    assert Pow2(20) == 16 * Pow2(16);
    assert Pow2(24) == 16 * Pow2(20);
    OrShifted(k, 24, b);
  }
}
