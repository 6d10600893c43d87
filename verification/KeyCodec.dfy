/** Match keys between their packed bytes and the switch's parameter list. */
module KeyCodec {
  import opened Bytes

  datatype MatchType = VALID | EXACT | LPM | TERNARY | RANGE

  datatype Field = Field(kind: MatchType, bitwidth: nat)

  datatype KeyParam = KeyParam(kind: MatchType, key: seq<Byte>, mask: seq<Byte>, prefixLen: int)

  // ---------------------------------------------------------------- four-byte integers

  /** Stored as an unsigned 32-bit integer, low byte first. */
  function Le32(n: int): (b: seq<Byte>)
    ensures |b| == 4
  {
    LeBytes(n % TWO32, 4)
  }

  function FromLe32(b: seq<Byte>): (n: int)
    requires |b| == 4
    ensures 0 <= n < TWO32
  {
    LeValueBytes(b);
    Power4();
    LeValue(b)
  }

  lemma Le32Decodes(n: int)
    requires 0 <= n < TWO32
    ensures FromLe32(Le32(n)) == n
  {
    hide LeBytes, LeValue, Power;
    Power4();
    LeRoundTrip(n, 4);
  }

  lemma Le32Encodes(b: seq<Byte>)
    requires |b| == 4
    ensures Le32(FromLe32(b)) == b
  {
    hide LeBytes, LeValue, Power;
    LeValueBytes(b);
    assert FromLe32(b) % TWO32 == FromLe32(b);
  }

  // ---------------------------------------------------------------- layout

  function Width(f: Field): nat { BytesFor(f.bitwidth) }

  /** How many bytes a field takes in the packed key. */
  function FieldSize(f: Field): nat
  {
    match f.kind
    case VALID => 1
    case EXACT => Width(f)
    case LPM => Width(f) + 4
    case TERNARY | RANGE => Width(f) + Width(f)
  }

  /** By the bits of the field: the least whole number of bytes, twice for a mask or a range, and four more for a prefix
      length. */
  lemma FieldSizeByBits(f: Field)
    ensures f.kind == VALID ==> FieldSize(f) == 1
    ensures f.kind == EXACT ==> f.bitwidth <= 8 * FieldSize(f) < f.bitwidth + 8
    ensures f.kind == LPM ==> f.bitwidth + 32 <= 8 * FieldSize(f) < f.bitwidth + 40
    ensures f.kind == TERNARY || f.kind == RANGE ==>
              FieldSize(f) % 2 == 0 && f.bitwidth <= 4 * FieldSize(f) < f.bitwidth + 8
  {
  }

  /** A key's size is the sum over its fields. */
  lemma SizeIsSum(fs: seq<Field>, f: Field)
    ensures Size([]) == 0 && Size(fs + [f]) == Size(fs) + FieldSize(f)
  {
    assert (fs + [f])[..|fs|] == fs;
  }

  function Size(fs: seq<Field>): nat
  {
    if fs == [] then 0 else Size(fs[..|fs| - 1]) + FieldSize(fs[|fs| - 1])
  }

  /** A parameter of the shape its field asks for. */
  predicate Fits(f: Field, p: KeyParam)
  {
    && p.kind == f.kind
    && (f.kind == VALID ==> p.key == [1] || p.key == [0])
    && (f.kind != VALID ==> |p.key| == Width(f))
    && |p.mask| == (if f.kind == TERNARY || f.kind == RANGE then Width(f) else 0)
    && (if f.kind == LPM then 0 <= p.prefixLen < TWO32 else p.prefixLen == 0)
  }

  ghost predicate AllFit(fs: seq<Field>, key: seq<KeyParam>)
  {
    |key| == |fs| && forall i | 0 <= i < |fs| :: Fits(fs[i], key[i])
  }

  /** The bytes of one parameter. */
  function EmitParam(p: KeyParam): seq<Byte>
  {
    match p.kind
    case VALID => [if p.key == [1] then 1 else 0]
    case EXACT => p.key
    case LPM => p.key + Le32(p.prefixLen)
    case TERNARY | RANGE => p.key + p.mask
  }

  function Emitted(key: seq<KeyParam>): seq<Byte>
  {
    if key == [] then [] else Emitted(key[..|key| - 1]) + EmitParam(key[|key| - 1])
  }

  /** The bytes of one field with a validity byte made 0 or 1. */
  function NormalField(f: Field, b: seq<Byte>): seq<Byte>
    requires |b| == FieldSize(f)
  {
    if f.kind == VALID then [if b[0] != 0 then 1 else 0] else b
  }

  function Normal(fs: seq<Field>, b: seq<Byte>): seq<Byte>
    requires |b| == Size(fs)
  {
    if fs == [] then []
    else
      var n := |fs| - 1;
      Normal(fs[..n], b[..Size(fs[..n])]) + NormalField(fs[n], b[Size(fs[..n])..])
  }

  // ---------------------------------------------------------------- building a key

  /** The parameter read from a field's bytes, `k` and then `rest`. */
  lemma ParamOf(f: Field, k: seq<Byte>, rest: seq<Byte>, p: KeyParam)
    requires f.kind != VALID && |k| == Width(f) && |k + rest| == FieldSize(f)
    requires p == if f.kind == LPM then KeyParam(LPM, k, [], FromLe32(rest))
                  else if HasPriority(f) then KeyParam(f.kind, k, rest, 0) else KeyParam(EXACT, k, [], 0)
    ensures Fits(f, p) && EmitParam(p) == NormalField(f, k + rest)
  {
    if f.kind == LPM {
      Le32Encodes(rest);
      hide Le32, FromLe32;
    }
    if f.kind == EXACT { assert k + rest == k; }
  }

  lemma ValidOf(f: Field, b: seq<Byte>, p: KeyParam)
    requires f.kind == VALID && |b| == 1 && p == KeyParam(VALID, if b[0] != 0 then [1] else [0], [], 0)
    ensures Fits(f, p) && EmitParam(p) == NormalField(f, b)
  {
  }

  lemma Sizes(f: Field)
    ensures FieldSize(f) == if f.kind == VALID then 1 else
      Width(f) + if f.kind == LPM then 4 else if HasPriority(f) then Width(f) else 0
  {
  }

  /** Read one field at `at`. */
  method BuildParam(f: Field, data: array<Byte>, at: nat) returns (p: KeyParam, next: nat)
    requires at + FieldSize(f) <= data.Length
    ensures next == at + FieldSize(f) && Fits(f, p)
    ensures EmitParam(p) == NormalField(f, data[at..next])
    ensures p.kind == f.kind
    ensures f.kind == VALID ==> next == at + 1 && p.key == [if data[at] != 0 then 1 else 0]
    ensures f.kind != VALID ==>
      f.bitwidth <= 8 * |p.key| < f.bitwidth + 8 && at + |p.key| <= next && p.key == data[at..at + |p.key|]
    ensures f.kind == EXACT ==> next == at + |p.key|
    ensures f.kind == LPM ==> next == at + |p.key| + 4 && p.prefixLen == FromLe32(data[next - 4..next])
    ensures f.kind == TERNARY || f.kind == RANGE ==> next == at + 2 * |p.key| && p.mask == data[at + |p.key|..next]
  {
    WidthByBits(f);
    hide *;
    Sizes(f);
    PriorityIs(f);
    var n := Width(f);
    next := at;
    if f.kind == VALID {
      p := KeyParam(VALID, if data[next] != 0 then [1] else [0], [], 0);
      ValidOf(f, data[at..at + 1], p);
      next := next + 1;
      return;
    }
    var k := data[next..next + n];
    next := next + n;
    if f.kind == LPM {
      var len := FromLe32(data[next..next + 4]);
      next := next + 4;
      p := KeyParam(LPM, k, [], len);
    } else if f.kind == TERNARY || f.kind == RANGE {
      p := KeyParam(f.kind, k, data[next..next + n], 0);
      next := next + n;
    } else {
      p := KeyParam(EXACT, k, [], 0);
    }
    assert data[at..next] == k + data[at + n..next];
    ParamOf(f, k, data[at + n..next], p);
  }

  lemma WidthByBits(f: Field)
    ensures f.bitwidth <= 8 * Width(f) < f.bitwidth + 8
  {
  }

  /** A prefix length is read with its lowest byte first. */
  lemma FromLe32Is(b: seq<Byte>)
    requires |b| == 4
    ensures FromLe32(b) == b[0] as int + 0x100 * (b[1] as int) + 0x1_0000 * (b[2] as int) + 0x100_0000 * (b[3] as int)
  {
    LeValueFour(b);
  }

  lemma PriorityIs(f: Field)
    ensures HasPriority(f) <==> f.kind == TERNARY || f.kind == RANGE
  {
  }

  /** Build the parameter list from packed bytes: emitting it gives the same bytes back, validity bytes normalised, and
      the cursor has moved by exactly as many. The priority counts only with a ternary or range field. */
  method BuildKey(fs: seq<Field>, data: array<Byte>, start: nat, given: int) returns (key: seq<KeyParam>, priority: int, cursor: nat)
    requires start + Size(fs) <= data.Length
    ensures AllFit(fs, key) && cursor == start + Size(fs)
    ensures Emitted(key) == Normal(fs, data[start..cursor])
    ensures priority == if Prioritised(fs, |fs|) then given else 0
    ensures forall i | 0 <= i < |fs| && fs[i].kind != VALID ::
      fs[i].bitwidth <= 8 * |key[i].key| < fs[i].bitwidth + 8 && StandsAt(key[i].key, data[..], start + Size(fs[..i]))
  {
    hide *;
    key, priority, cursor := [], 0, start;
    var i := 0;
    NothingBuilt(fs);
    assert data[start..start] == [];
    while i < |fs|
      invariant 0 <= i <= |fs| && start <= cursor <= data.Length && Built(fs, i, key, data[start..cursor])
      invariant cursor - start == Size(fs[..i])
      invariant priority == if Prioritised(fs, i) then given else 0
      invariant |key| == i && forall j | 0 <= j < i && fs[j].kind != VALID ::
        fs[j].bitwidth <= 8 * |key[j].key| < fs[j].bitwidth + 8 && StandsAt(key[j].key, data[..], start + Size(fs[..j]))
    {
      SizeNext(fs, i);
      SizeGrows(fs, i + 1);
      var p, next := BuildParam(fs[i], data, cursor);
      BuiltNext(fs, i, key, data[start..cursor], p, data[cursor..next]);
      assert data[start..next] == data[start..cursor] + data[cursor..next];
      PrioritisedNext(fs, i);
      if fs[i].kind != VALID { FoundAt(p.key, data[..], cursor); }
      key := key + [p];
      if HasPriority(fs[i]) { priority := given; }
      cursor := next;
      i := i + 1;
    }
    BuiltAll(fs, key, data[start..cursor]);
  }

  /** These bytes are found in the data at `at`. */
  predicate StandsAt(b: seq<Byte>, data: seq<Byte>, at: nat) { at + |b| <= |data| && data[at..at + |b|] == b }

  lemma FoundAt(b: seq<Byte>, data: seq<Byte>, at: nat)
    ensures StandsAt(b, data, at) <==> at + |b| <= |data| && data[at..at + |b|] == b
  {
  }

  lemma BuiltAll(fs: seq<Field>, key: seq<KeyParam>, bytes: seq<Byte>)
    requires Built(fs, |fs|, key, bytes)
    ensures AllFit(fs, key) && |bytes| == Size(fs) && Emitted(key) == Normal(fs, bytes)
  {
    assert fs[..|fs|] == fs;
  }

  predicate HasPriority(f: Field) { f.kind == TERNARY || f.kind == RANGE }

  predicate Prioritised(fs: seq<Field>, n: nat) { exists i :: 0 <= i < |fs| && i < n && HasPriority(fs[i]) }

  lemma PrioritisedNext(fs: seq<Field>, i: nat)
    requires i < |fs|
    ensures Prioritised(fs, i + 1) <==> Prioritised(fs, i) || HasPriority(fs[i])
  {
  }

  /** The parameters built from the first `i` fields emit the bytes read so far. */
  ghost predicate Built(fs: seq<Field>, i: nat, key: seq<KeyParam>, bytes: seq<Byte>)
  {
    i <= |fs| && AllFit(fs[..i], key) && |bytes| == Size(fs[..i]) && Emitted(key) == Normal(fs[..i], bytes)
  }

  lemma NothingBuilt(fs: seq<Field>)
    ensures Built(fs, 0, [], []) && !Prioritised(fs, 0) && Size(fs[..0]) == 0
  {
  }

  lemma BuiltNext(fs: seq<Field>, i: nat, key: seq<KeyParam>, bytes: seq<Byte>, p: KeyParam, b: seq<Byte>)
    requires i < |fs| && Built(fs, i, key, bytes)
    requires Fits(fs[i], p) && |b| == FieldSize(fs[i]) && EmitParam(p) == NormalField(fs[i], b)
    ensures Built(fs, i + 1, key + [p], bytes + b)
  {
    hide Normal, NormalField, EmitParam, Emitted, Size, FieldSize, Fits;
    NormalNext(fs, i, bytes + b);
    KeyNext(fs, i, key, p);
    assert (bytes + b)[..|bytes|] == bytes && (bytes + b)[|bytes|..] == b;
  }

  lemma KeyNext(fs: seq<Field>, i: nat, key: seq<KeyParam>, p: KeyParam)
    requires i < |fs| && AllFit(fs[..i], key) && Fits(fs[i], p)
    ensures AllFit(fs[..i + 1], key + [p]) && Emitted(key + [p]) == Emitted(key) + EmitParam(p)
  {
    assert (key + [p])[..|key|] == key;
  }

  lemma {:induction false} SizeGrows(fs: seq<Field>, i: nat)
    requires i <= |fs|
    ensures Size(fs[..i]) <= Size(fs)
    decreases |fs|
  {
    if i < |fs| {
      SizeGrows(fs[..|fs| - 1], i);
      assert fs[..|fs| - 1][..i] == fs[..i];
    } else {
      assert fs[..i] == fs;
    }
  }

  lemma SizeNext(fs: seq<Field>, i: nat)
    requires i < |fs|
    ensures Size(fs[..i + 1]) == Size(fs[..i]) + FieldSize(fs[i])
  {
    assert fs[..i + 1][..i] == fs[..i];
  }

  lemma NormalNext(fs: seq<Field>, i: nat, b: seq<Byte>)
    requires i < |fs| && |b| == Size(fs[..i]) + FieldSize(fs[i])
    ensures |b| == Size(fs[..i + 1])
    ensures Normal(fs[..i + 1], b) == Normal(fs[..i], b[..Size(fs[..i])]) + NormalField(fs[i], b[Size(fs[..i])..])
  {
    SizeNext(fs, i);
    assert fs[..i + 1][..i] == fs[..i];
  }

  // ---------------------------------------------------------------- emitting a key

  method EmitOne(p: KeyParam, buffer: seq<Byte>) returns (r: seq<Byte>)
    ensures r == buffer + EmitParam(p)
  {
    hide Le32;
    r := buffer;
    if p.kind == EXACT {
      r := r + p.key;
    } else if p.kind == LPM {
      r := r + p.key;
      r := r + Le32(p.prefixLen);
      assert r == buffer + (p.key + Le32(p.prefixLen));
    } else if p.kind == TERNARY || p.kind == RANGE {
      r := r + p.key;
      r := r + p.mask;
      assert r == buffer + (p.key + p.mask);
    } else {
      r := r + [if p.key == [1] then 1 else 0];
    }
  }

  method EmitKey(key: seq<KeyParam>, buffer: seq<Byte>) returns (r: seq<Byte>)
    ensures r == buffer + Emitted(key)
  {
    hide EmitParam;
    r := buffer;
    var i := 0;
    assert key[..0] == [];
    while i < |key|
      invariant 0 <= i <= |key| && r == buffer + Emitted(key[..i])
    {
      assert key[..i + 1][..i] == key[..i];
      r := EmitOne(key[i], r);
      assert r == buffer + (Emitted(key[..i]) + EmitParam(key[i]));
      i := i + 1;
    }
    assert key[..i] == key;
  }

  // ---------------------------------------------------------------- building undoes emitting

  lemma ParamSize(f: Field, p: KeyParam)
    requires Fits(f, p)
    ensures |EmitParam(p)| == FieldSize(f) && NormalField(f, EmitParam(p)) == EmitParam(p)
  {
  }

  lemma {:induction false} EmittedIsNormal(fs: seq<Field>, key: seq<KeyParam>)
    requires AllFit(fs, key)
    ensures |Emitted(key)| == Size(fs) && Normal(fs, Emitted(key)) == Emitted(key)
    decreases |fs|
  {
    if fs != [] {
      var n := |fs| - 1;
      EmittedIsNormal(fs[..n], key[..n]);
      ParamSize(fs[n], key[n]);
      hide NormalField, EmitParam, FieldSize, Fits;
      var a, b := Emitted(key[..n]), EmitParam(key[n]);
      assert (a + b)[..|a|] == a && (a + b)[|a|..] == b;
    }
  }

  lemma ParamInjective(f: Field, p: KeyParam, q: KeyParam)
    requires Fits(f, p) && Fits(f, q) && EmitParam(p) == EmitParam(q)
    ensures p == q
  {
    var w := Width(f);
    if f.kind == LPM {
      Le32Decodes(p.prefixLen);
      Le32Decodes(q.prefixLen);
      hide Le32, FromLe32, Width;
      assert EmitParam(p)[..w] == p.key && EmitParam(q)[..w] == q.key;
      assert EmitParam(p)[w..] == Le32(p.prefixLen) && EmitParam(q)[w..] == Le32(q.prefixLen);
    } else if HasPriority(f) {
      hide Width;
      assert EmitParam(p)[..w] == p.key && EmitParam(q)[..w] == q.key;
      assert EmitParam(p)[w..] == p.mask && EmitParam(q)[w..] == q.mask;
    }
  }

  lemma SameTails<T>(a: seq<T>, b: seq<T>, c: seq<T>, d: seq<T>)
    requires a + b == c + d && |b| == |d|
    ensures a == c && b == d
  {
    assert (a + b)[..|a|] == a && (c + d)[..|c|] == c;
    assert (a + b)[|a|..] == b && (c + d)[|c|..] == d;
  }

  lemma LastParam(fs: seq<Field>, key: seq<KeyParam>, n: nat)
    requires AllFit(fs, key) && |fs| == n + 1
    ensures |key| == n + 1 && AllFit(fs[..n], key[..n]) && Fits(fs[n], key[n])
    ensures Emitted(key) == Emitted(key[..n]) + EmitParam(key[n]) && |EmitParam(key[n])| == FieldSize(fs[n])
  {
    ParamSize(fs[n], key[n]);
    hide EmitParam, FieldSize, Fits;
  }

  lemma AllFitLength(fs: seq<Field>, key: seq<KeyParam>)
    requires AllFit(fs, key)
    ensures |key| == |fs|
  {
  }

  /** The packed bytes determine the parameters. */
  lemma {:induction false} EmittedInjective(fs: seq<Field>, k1: seq<KeyParam>, k2: seq<KeyParam>)
    requires AllFit(fs, k1) && AllFit(fs, k2) && Emitted(k1) == Emitted(k2)
    ensures k1 == k2
    decreases |fs|
  {
    hide *;
    AllFitLength(fs, k1);
    AllFitLength(fs, k2);
    if fs == [] {
      assert k1 == [] == k2;
    } else {
      var n := |fs| - 1;
      LastParam(fs, k1, n);
      LastParam(fs, k2, n);
      SameTails(Emitted(k1[..n]), EmitParam(k1[n]), Emitted(k2[..n]), EmitParam(k2[n]));
      ParamInjective(fs[n], k1[n], k2[n]);
      EmittedInjective(fs[..n], k1[..n], k2[..n]);
      assert k1 == k1[..n] + [k1[n]] && k2 == k2[..n] + [k2[n]];
    }
  }

  /** Emitting a well-formed parameter list and building it again gives the list back. */
  method EmitThenBuild(fs: seq<Field>, key: seq<KeyParam>) returns (key': seq<KeyParam>)
    requires AllFit(fs, key)
    ensures key' == key
  {
    hide *;
    EmittedIsNormal(fs, key);
    var bytes := EmitKey(key, []);
    assert [] + Emitted(key) == Emitted(key);
    var data := new Byte[|bytes|](i requires 0 <= i < |bytes| => bytes[i]);
    assert data[..] == bytes;
    var priority, cursor;
    key', priority, cursor := BuildKey(fs, data, 0, 0);
    assert data[0..cursor] == bytes;
    EmittedInjective(fs, key', key);
  }
}
