/** Action data between packed bytes and the switch's numbers, which keep no leading zeros. */
module ActionData {
  import opened Bytes

  // ---------------------------------------------------------------- numbers and bytes

  /** The number that bytes spell, most significant byte first. */
  function Value(b: seq<Byte>): nat
  {
    if b == [] then 0
    else
      var last: int := b[|b| - 1];
      256 * Value(b[..|b| - 1]) + last
  }

  /** The first byte counts most. */
  lemma {:induction false} ValueFront(first: Byte, rest: seq<Byte>)
    ensures Value([]) == 0 && Value([first] + rest) == first * Power(|rest|) + Value(rest)
    decreases |rest|
  {
    if rest == [] {
      assert [first] + rest == [first] && [first][..0] == [];
    } else {
      var n := |rest| - 1;
      assert ([first] + rest)[..n + 1] == [first] + rest[..n];
      ValueFront(first, rest[..n]);
      Regrouped(first, Power(n));
    }
  }

  lemma Regrouped(a: nat, p: nat)
    ensures 256 * (a * p) == a * (256 * p)
  {
  }

  /** The `n` low-order bytes of a number. */
  function Spell(v: nat, n: nat): (b: seq<Byte>)
    ensures |b| == n
  {
    if n == 0 then [] else Spell(v / 256, n - 1) + [Low(v)]
  }

  /** The number of binary digits, which is 1 for zero. */
  function Digits(v: nat): (n: nat)
    ensures n >= 1
  {
    if v < 2 then 1 else Digits(v / 2) + 1
  }

  function ExportSize(v: nat): nat { (Digits(v) + 7) / 8 }

  /** What the switch gives back for a number: as few bytes as possible, but at least one. */
  function GetString(v: nat): (b: seq<Byte>)
    ensures |b| == ExportSize(v)
  {
    Spell(v, ExportSize(v))
  }

  function Zeros(n: nat): (b: seq<Byte>)
    ensures |b| == n && forall i | 0 <= i < n :: b[i] == 0
  {
    seq(n, i => 0)
  }

  lemma {:induction false} ValueBound(b: seq<Byte>)
    ensures Value(b) < Power(|b|)
    decreases |b|
  {
    if b != [] { ValueBound(b[..|b| - 1]); }
  }

  /** Bytes are determined by their number and their length. */
  lemma {:induction false} SpellValue(b: seq<Byte>)
    ensures Spell(Value(b), |b|) == b
    decreases |b|
  {
    if b != [] {
      SpellValue(b[..|b| - 1]);
      assert Value(b) / 256 == Value(b[..|b| - 1]) && Low(Value(b)) == b[|b| - 1];
      assert b == b[..|b| - 1] + [b[|b| - 1]];
    }
  }

  lemma DigitsByte(v: nat)
    requires v >= 256
    ensures Digits(v) == Digits(v / 256) + 8
  {
    var a, b, c, d := v / 2, v / 4, v / 8, v / 16;
    assert Digits(v) == Digits(a) + 1 && a / 2 == b && Digits(a) == Digits(b) + 1;
    assert b / 2 == c && Digits(b) == Digits(c) + 1 && c / 2 == d && Digits(c) == Digits(d) + 1;
    var e, f, g := v / 32, v / 64, v / 128;
    assert d / 2 == e && Digits(d) == Digits(e) + 1 && e / 2 == f && Digits(e) == Digits(f) + 1;
    assert f / 2 == g && Digits(f) == Digits(g) + 1 && g / 2 == v / 256;
  }

  lemma DigitsSmall(v: nat)
    requires v < 256
    ensures Digits(v) <= 8
  {
    assert Digits(v / 2 / 2 / 2 / 2 / 2 / 2 / 2) == 1;
    assert Digits(v / 2 / 2 / 2 / 2 / 2 / 2) <= 2;
    assert Digits(v / 2 / 2 / 2 / 2 / 2) <= 3;
    assert Digits(v / 2 / 2 / 2 / 2) <= 4;
    assert Digits(v / 2 / 2 / 2) <= 5;
    assert Digits(v / 2 / 2) <= 6;
    assert Digits(v / 2) <= 7;
  }

  /** A number fits `n` bytes exactly when its shortest form does, unless there are no bytes at all. */
  lemma {:induction false} FitsIff(v: nat, n: nat)
    requires n > 0
    ensures v < Power(n) <==> ExportSize(v) <= n
    decreases v
  {
    if v < 256 {
      DigitsSmall(v);
      PowerGrows(n);
    } else {
      DigitsByte(v);
      if n == 1 {
        assert Power(1) == 256 * Power(0);
      } else {
        FitsIff(v / 256, n - 1);
      }
    }
  }

  lemma {:induction false} PowerGrows(n: nat)
    requires n > 0
    ensures Power(n) >= 256
  {
    if n > 1 { PowerGrows(n - 1); }
  }

  /** Spelling with more bytes than needed puts zeros in front. */
  lemma {:induction false} SpellPads(v: nat, k: nat, n: nat)
    requires v < Power(k) && k <= n
    ensures Spell(v, n) == Zeros(n - k) + Spell(v, k)
    decreases k, n
  {
    if k > 0 {
      SpellPads(v / 256, k - 1, n - 1);
    } else if n > 0 {
      SpellPads(0, 0, n - 1);
      assert Zeros(n) == Zeros(n - 1) + [0];
    }
  }

  /** Left padding of the shortest form is the only form of the right length: it gives back the original bytes. */
  lemma PaddingRestores(b: seq<Byte>)
    requires b != []
    ensures ExportSize(Value(b)) <= |b|
    ensures Zeros(|b| - ExportSize(Value(b))) + GetString(Value(b)) == b
  {
    var v := Value(b);
    ValueBound(b);
    FitsIff(v, |b|);
    FitsIff(v, ExportSize(v));
    SpellPads(v, ExportSize(v), |b|);
    SpellValue(b);
  }

  // ---------------------------------------------------------------- whole parameter lists

  function Total(widths: seq<nat>): nat
  {
    if widths == [] then 0 else Total(widths[..|widths| - 1]) + BytesFor(widths[|widths| - 1])
  }

  /** The packed bytes of a list of numbers. */
  function Packed(widths: seq<nat>, vals: seq<nat>): (b: seq<Byte>)
    requires |vals| == |widths|
    ensures |b| == Total(widths)
  {
    if widths == [] then []
    else
      var n := |widths| - 1;
      Packed(widths[..n], vals[..n]) + Spell(vals[n], BytesFor(widths[n]))
  }

  /** Does the switch's form of every number fit its parameter? */
  ghost predicate Fits(widths: seq<nat>, vals: seq<nat>)
  {
    |vals| == |widths| && forall i | 0 <= i < |vals| :: ExportSize(vals[i]) <= BytesFor(widths[i])
  }

  lemma {:induction false} TotalGrows(widths: seq<nat>, i: nat)
    requires i < |widths|
    ensures Total(widths[..i + 1]) == Total(widths[..i]) + BytesFor(widths[i]) <= Total(widths)
    decreases |widths|
  {
    assert widths[..i + 1][..i] == widths[..i];
    if i + 1 < |widths| {
      TotalGrows(widths[..|widths| - 1], i);
      assert widths[..|widths| - 1][..i + 1] == widths[..i + 1] && widths[..|widths| - 1][..i] == widths[..i];
    } else {
      assert widths[..i + 1] == widths;
    }
  }

  lemma PackedNext(widths: seq<nat>, vals: seq<nat>, i: nat, v: nat)
    requires i < |widths| && |vals| == i
    ensures Packed(widths[..i + 1], vals + [v]) == Packed(widths[..i], vals) + Spell(v, BytesFor(widths[i]))
  {
    assert widths[..i + 1][..i] == widths[..i] && (vals + [v])[..i] == vals;
  }

  lemma PackedStart(widths: seq<nat>)
    ensures Packed(widths[..0], []) == [] && Total(widths[..0]) == 0 && widths[..|widths|] == widths
  {
  }

  /** The number is what `n` bytes at `at` spell. */
  predicate Reads(v: nat, data: seq<Byte>, at: nat, n: nat) { at + n <= |data| && v == Value(data[at..at + n]) }

  lemma ReadsHere(b: seq<Byte>, data: seq<Byte>, at: nat, n: nat)
    requires at + n <= |data| && b == data[at..at + n]
    ensures Reads(Value(b), data, at, n)
  {
  }

  /** The parameters lie one behind the other. */
  lemma TotalIsSum(widths: seq<nat>, w: nat)
    ensures Total([]) == 0 && Total(widths + [w]) == Total(widths) + BytesFor(w)
  {
    assert (widths + [w])[..|widths|] == widths;
  }

  /** Read every parameter as a number: packing the numbers again gives the bytes back. */
  method BuildActionData(widths: seq<nat>, data: array<Byte>, start: nat) returns (vals: seq<nat>, next: nat)
    requires start + Total(widths) <= data.Length
    ensures |vals| == |widths| && next == start + Total(widths)
    ensures Packed(widths, vals) == data[start..next]
    ensures forall i | 0 <= i < |vals| :: vals[i] < Power(BytesFor(widths[i]))
    ensures forall i | 0 <= i < |vals| :: Reads(vals[i], data[..], start + Total(widths[..i]), BytesFor(widths[i]))
  {
    hide *;
    PackedStart(widths);
    vals, next := [], start;
    assert data[start..start] == [];
    var i := 0;
    while i < |widths|
      invariant 0 <= i <= |widths| && |vals| == i && next == start + Total(widths[..i]) <= data.Length
      invariant Packed(widths[..i], vals) == data[start..next]
      invariant forall j | 0 <= j < i :: vals[j] < Power(BytesFor(widths[j]))
      invariant forall j | 0 <= j < i :: Reads(vals[j], data[..], start + Total(widths[..j]), BytesFor(widths[j]))
    {
      TotalGrows(widths, i);
      var n := BytesFor(widths[i]);
      ghost var b := data[next..next + n];
      ValueBound(b);
      SpellValue(b);
      assert b == data[..][next..next + n];
      ReadsHere(b, data[..], next, n);
      PackedNext(widths, vals, i, Value(b));
      vals := vals + [Value(data[next..next + n])];
      assert data[start..next + n] == data[start..next] + b;
      next := next + n;
      i := i + 1;
    }
  }

  /** Write one number into its `n` bytes: zeros in front, then the switch's string. */
  method DumpOne(v: nat, n: nat, data: array<Byte>, at: nat) returns (ok: bool)
    requires at + n <= data.Length
    modifies data
    ensures ok <==> ExportSize(v) <= n
    ensures ok ==> data[at..at + n] == Spell(v, n)
    ensures forall j | 0 <= j < data.Length && !(at <= j < at + n) :: data[j] == old(data[j])
  {
    hide *;
    var s := GetString(v);
    if n < |s| { return false; }
    var diff := n - |s|;
    var i := 0;
    while i < diff
      invariant 0 <= i <= diff && forall j | at <= j < at + i :: data[j] == 0
      invariant forall j | 0 <= j < data.Length && !(at <= j < at + n) :: data[j] == old(data[j])
    {
      data[at + i] := 0;
      i := i + 1;
    }
    i := 0;
    while i < |s|
      invariant 0 <= i <= |s| && (forall j | at <= j < at + diff :: data[j] == 0)
      invariant forall j | at + diff <= j < at + diff + i :: data[j] == s[j - at - diff]
      invariant forall j | 0 <= j < data.Length && !(at <= j < at + n) :: data[j] == old(data[j])
    {
      data[at + diff + i] := s[i];
      i := i + 1;
    }
    StringPads(v, n);
    assert data[at..at + n] == Zeros(diff) + s;
    ok := true;
  }

  lemma StringPads(v: nat, n: nat)
    requires ExportSize(v) <= n
    ensures Zeros(n - ExportSize(v)) + GetString(v) == Spell(v, n)
  {
    FitsIff(v, ExportSize(v));
    SpellPads(v, ExportSize(v), n);
  }

  /** Write every number into its parameter's bytes; it works exactly when each number's string fits, and touches nothing
      else. */
  method DumpActionData(widths: seq<nat>, vals: seq<nat>, data: array<Byte>, start: nat) returns (ok: bool, next: nat)
    requires |vals| == |widths| && start + Total(widths) <= data.Length
    modifies data
    ensures ok <==> Fits(widths, vals)
    ensures ok ==> next == start + Total(widths) && data[start..next] == Packed(widths, vals)
    ensures forall j | 0 <= j < data.Length && !(start <= j < start + Total(widths)) :: data[j] == old(data[j])
  {
    hide *;
    PackedStart(widths);
    next := start;
    var i := 0;
    assert data[start..start] == [];
    assert vals[..0] == [];
    while i < |widths|
      invariant 0 <= i <= |widths| && next == start + Total(widths[..i]) <= start + Total(widths)
      invariant data[start..next] == Packed(widths[..i], vals[..i])
      invariant forall j | 0 <= j < i :: ExportSize(vals[j]) <= BytesFor(widths[j])
      invariant forall j | 0 <= j < data.Length && !(start <= j < start + Total(widths)) :: data[j] == old(data[j])
    {
      TotalGrows(widths, i);
      PackedNext(widths, vals[..i], i, vals[i]);
      assert vals[..i + 1] == vals[..i] + [vals[i]];
      var n := BytesFor(widths[i]);
      ghost var before := data[start..next];
      ok := DumpOne(vals[i], n, data, next);
      if !ok {
        NotFits(widths, vals, i);
        return;
      }
      assert data[start..next] == before;
      assert data[start..next + n] == before + data[next..next + n];
      next := next + n;
      i := i + 1;
    }
    assert vals[..i] == vals;
    ok := true;
    AllFit(widths, vals);
  }

  lemma NotFits(widths: seq<nat>, vals: seq<nat>, i: nat)
    requires i < |vals| == |widths| && ExportSize(vals[i]) > BytesFor(widths[i])
    ensures !Fits(widths, vals)
  {
  }

  lemma AllFit(widths: seq<nat>, vals: seq<nat>)
    requires |vals| == |widths| && forall j | 0 <= j < |vals| :: ExportSize(vals[j]) <= BytesFor(widths[j])
    ensures Fits(widths, vals)
  {
  }

  /** Numbers read from bytes fit again, unless some parameter has no bytes at all. */
  lemma BuiltFitsIff(widths: seq<nat>, vals: seq<nat>)
    requires |vals| == |widths| && forall i | 0 <= i < |vals| :: vals[i] < Power(BytesFor(widths[i]))
    ensures Fits(widths, vals) <==> 0 !in widths
  {
    forall i | 0 <= i < |vals| ensures ExportSize(vals[i]) <= BytesFor(widths[i]) <==> widths[i] > 0 {
      if widths[i] > 0 { FitsIff(vals[i], BytesFor(widths[i])); }
    }
  }

  /** Building and dumping: the same bytes come back, unless some parameter is zero bits wide, when an assertion fails. */
  method BuildThenDump(widths: seq<nat>, data: array<Byte>, start: nat) returns (ok: bool)
    requires start + Total(widths) <= data.Length
    modifies data
    ensures ok <==> 0 !in widths
    ensures ok ==> data[..] == old(data[..])
  {
    hide *;
    var vals, next := BuildActionData(widths, data, start);
    BuiltFitsIff(widths, vals);
    ghost var before := data[start..next];
    ok, next := DumpActionData(widths, vals, data, start);
    if ok {
      forall j | 0 <= j < data.Length ensures data[j] == old(data[j]) {
        if start <= j < next { assert data[j] == data[start..next][j - start] == before[j - start]; }
      }
    }
  }
}
