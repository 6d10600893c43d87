/** Saving an action profile as a stream of tokens and restoring it. Next nodes, which a table resolves again at every
    lookup, are written as absent. */
module ProfileTokens {
  import opened Sequences
  import opened ProfileModel
  import opened HandleSets
  import opened ActionProfiles

  datatype Token = Num(n: int) | HexData(d: int) | NoNode

  // ---------------------------------------------------------------- the stream

  function HexTokens(data: seq<int>): seq<Token>
  {
    if data == [] then [] else [HexData(data[0])] + HexTokens(data[1..])
  }

  function NumTokens(s: seq<nat>): seq<Token>
  {
    if s == [] then [] else [Num(s[0])] + NumTokens(s[1..])
  }

  function EntryTokens(a: Action): seq<Token>
  {
    [Num(a.fn.id), Num(|a.data|)] + (HexTokens(a.data) + [NoNode])
  }

  predicate AllBelow(hs: seq<nat>, n: nat) { forall i | 0 <= i < |hs| :: hs[i] < n }

  function MemberTokens(entries: seq<Action>, hs: seq<nat>): seq<Token>
    requires AllBelow(hs, |entries|)
  {
    if hs == [] then [] else [Num(hs[0])] + (EntryTokens(entries[hs[0]]) + MemberTokens(entries, hs[1..]))
  }

  function CountTokens(count: seq<nat>): seq<Token> { [Num(|count|)] + NumTokens(count) }

  function SetTokens(s: set<nat>): seq<Token> { [Num(|s|)] + NumTokens(Ascending(s)) }

  function GroupTokens(groups: seq<set<nat>>, gs: seq<nat>): seq<Token>
    requires AllBelow(gs, |groups|)
  {
    if gs == [] then [] else [Num(gs[0])] + (SetTokens(groups[gs[0]]) + GroupTokens(groups, gs[1..]))
  }

  lemma AscendingInside(hs: set<nat>, n: nat)
    requires Inside(hs, n)
    ensures AllBelow(Ascending(hs), n)
  {
    AscendingIs(hs);
  }

  /** Everything a saved profile consists of. */
  ghost function Saved(p: ActionProfile): seq<Token>
    requires p.Shape()
    reads p
  {
    AscendingInside(p.mbrHandles, |p.entries|);
    AscendingInside(p.grpHandles, |p.groups|);
    [Num(|p.entries|), Num(p.numMembers)] +
    (MemberTokens(p.entries, Ascending(p.mbrHandles)) +
    (CountTokens(p.mbrCount) +
    (CountTokens(p.grpCount) +
    ([Num(p.numGroups)] + GroupTokens(p.groups, Ascending(p.grpHandles))))))
  }

  lemma OneInOrder(h: nat)
    ensures Ascending({h}) == [h]
  {
    AscendingIs({h});
    assert Ascending({h})[0] in {h};
  }

  /** A known answer: action 5 with data 7 as member 0 of group 0, one reference to the member and none to the group. The
      vectors come with their sizes, members before counters, counters of members before those of groups, groups last. */
  lemma KnownTokens(p: ActionProfile, a: Action)
    requires p.Shape() && p.entries == [a] && a == Action(Fn(5, 1), [7]) && p.mbrHandles == {0} && p.mbrCount == [1]
    requires p.groups == [{0}] && p.grpHandles == {0} && p.grpCount == [0]
    ensures Saved(p) ==
            [Num(1), Num(1), Num(0), Num(5), Num(1), HexData(7), NoNode,
             Num(1), Num(1),
             Num(1), Num(0),
             Num(1), Num(0), Num(1), Num(0)]
  {
    OneInOrder(0);
    hide Ascending;
    AscendingInside(p.mbrHandles, 1);
    AscendingInside(p.grpHandles, 1);
    assert [7][1..] == [];
    assert EntryTokens(a) == [Num(5), Num(1), HexData(7), NoNode];
    KnownParts(p.entries, p.groups, [0]);
  }

  lemma KnownParts(entries: seq<Action>, groups: seq<set<nat>>, zero: seq<nat>)
    requires |entries| == 1 && groups == [{0}] && zero == [0]
    ensures MemberTokens(entries, zero) == [Num(0)] + EntryTokens(entries[0])
    ensures GroupTokens(groups, zero) == [Num(0), Num(1), Num(0)]
    ensures forall n: nat :: CountTokens([n]) == [Num(1), Num(n)]
  {
    OneInOrder(0);
    hide Ascending, EntryTokens;
    assert zero[1..] == [];
    assert forall n: nat :: [n][1..] == [] && NumTokens([n]) == [Num(n)] + NumTokens([n][1..]);
  }

  // ---------------------------------------------------------------- writing

  method WriteNums(out: seq<Token>, s: seq<nat>) returns (r: seq<Token>)
    ensures r == out + NumTokens(s)
  {
    r := out;
    var i := 0;
    while i < |s|
      invariant 0 <= i <= |s| && r + NumTokens(s[i..]) == out + NumTokens(s)
    {
      assert s[i..][1..] == s[i + 1..];
      assert r + [Num(s[i])] + NumTokens(s[i + 1..]) == r + NumTokens(s[i..]);
      r := r + [Num(s[i])];
      i := i + 1;
    }
  }

  method WriteEntry(out: seq<Token>, a: Action) returns (r: seq<Token>)
    ensures r == out + EntryTokens(a)
  {
    r := out + [Num(a.fn.id), Num(|a.data|)];
    ghost var head := r;
    var i := 0;
    while i < |a.data|
      invariant 0 <= i <= |a.data| && r + HexTokens(a.data[i..]) == head + HexTokens(a.data)
    {
      assert a.data[i..][1..] == a.data[i + 1..];
      assert r + [HexData(a.data[i])] + HexTokens(a.data[i + 1..]) == r + HexTokens(a.data[i..]);
      r := r + [HexData(a.data[i])];
      i := i + 1;
    }
    assert a.data[i..] == [];
    assert head + HexTokens(a.data) + [NoNode] == head + (HexTokens(a.data) + [NoNode]);
    r := r + [NoNode];
    assert r == head + HexTokens(a.data) + [NoNode];
    assert head + (HexTokens(a.data) + [NoNode]) == out + ([Num(a.fn.id), Num(|a.data|)] + (HexTokens(a.data) + [NoNode]));
  }

  method WriteMembers(out: seq<Token>, entries: seq<Action>, hs: set<nat>) returns (r: seq<Token>)
    requires Inside(hs, |entries|)
    ensures AllBelow(Ascending(hs), |entries|) && r == out + MemberTokens(entries, Ascending(hs))
  {
    AscendingInside(hs, |entries|);
    var todo, i := Ascending(hs), 0;
    r := out;
    while i < |todo|
      invariant 0 <= i <= |todo| && r + MemberTokens(entries, todo[i..]) == out + MemberTokens(entries, todo)
    {
      hide EntryTokens;
      assert todo[i..][1..] == todo[i + 1..];
      ghost var e, rest := EntryTokens(entries[todo[i]]), MemberTokens(entries, todo[i + 1..]);
      assert r + ([Num(todo[i])] + (e + rest)) == r + [Num(todo[i])] + e + rest;
      r := WriteEntry(r + [Num(todo[i])], entries[todo[i]]);
      i := i + 1;
    }
  }

  method WriteGroups(out: seq<Token>, groups: seq<set<nat>>, gs: set<nat>) returns (r: seq<Token>)
    requires Inside(gs, |groups|)
    ensures AllBelow(Ascending(gs), |groups|) && r == out + GroupTokens(groups, Ascending(gs))
  {
    AscendingInside(gs, |groups|);
    var todo, i := Ascending(gs), 0;
    r := out;
    while i < |todo|
      invariant 0 <= i <= |todo| && r + GroupTokens(groups, todo[i..]) == out + GroupTokens(groups, todo)
    {
      hide NumTokens;
      assert todo[i..][1..] == todo[i + 1..];
      var s := groups[todo[i]];
      ghost var t, rest := NumTokens(Ascending(s)), GroupTokens(groups, todo[i + 1..]);
      assert r + ([Num(todo[i])] + ([Num(|s|)] + t + rest)) == r + [Num(todo[i]), Num(|s|)] + t + rest;
      r := WriteNums(r + [Num(todo[i]), Num(|s|)], Ascending(s));
      i := i + 1;
    }
  }

  method Serialize(p: ActionProfile) returns (out: seq<Token>)
    requires p.Shape()
    ensures out == Saved(p)
  {
    hide NumTokens, MemberTokens, GroupTokens;
    out := WriteMembers([Num(|p.entries|), Num(p.numMembers)], p.entries, p.mbrHandles);
    out := WriteNums(out + [Num(|p.mbrCount|)], p.mbrCount);
    out := WriteNums(out + [Num(|p.grpCount|)], p.grpCount);
    out := WriteGroups(out + [Num(p.numGroups)], p.groups, p.grpHandles);
  }

  // ---------------------------------------------------------------- reading

  method ReadNums(tokens: seq<Token>, n: nat, ghost s: seq<nat>, ghost tail: seq<Token>) returns (r: seq<nat>, rest: seq<Token>)
    requires n == |s| && tokens == NumTokens(s) + tail
    ensures r == s && rest == tail
  {
    r, rest := [], tokens;
    var i := 0;
    while i < n
      invariant 0 <= i <= n && r == s[..i] && rest == NumTokens(s[i..]) + tail
    {
      assert s[i..][1..] == s[i + 1..];
      assert rest[0] == Num(s[i]) && rest[1..] == NumTokens(s[i + 1..]) + tail;
      r, rest := r + [rest[0].n], rest[1..];
      i := i + 1;
    }
    assert rest == [] + tail;
  }

  method ReadEntry(tokens: seq<Token>, fns: int -> Fn, ghost a: Action, ghost tail: seq<Token>) returns (b: Action, rest: seq<Token>)
    requires tokens == EntryTokens(a) + tail && fns(a.fn.id) == a.fn
    ensures b == a && rest == tail
  {
    assert tokens[0] == Num(a.fn.id) && tokens[1] == Num(|a.data|);
    var fn, n := fns(tokens[0].n), tokens[1].n;
    rest := tokens[2..];
    assert rest == HexTokens(a.data) + ([NoNode] + tail);
    var i, data := 0, [];
    while i < n
      invariant 0 <= i <= n == |a.data| && data == a.data[..i] && rest == HexTokens(a.data[i..]) + ([NoNode] + tail)
    {
      assert a.data[i..][1..] == a.data[i + 1..];
      assert rest[0] == HexData(a.data[i]) && rest[1..] == HexTokens(a.data[i + 1..]) + ([NoNode] + tail);
      data, rest := data + [rest[0].d], rest[1..];
      i := i + 1;
    }
    assert rest == [NoNode] + tail;
    rest := rest[1..];
    b := Action(fn, data);
  }

  /** The first `i` handles. */
  function Taken(todo: seq<nat>, i: nat): set<nat>
    requires i <= |todo|
  {
    set h | h in todo[..i]
  }

  ghost predicate Sorted(todo: seq<nat>) { forall i, j | 0 <= i < j < |todo| :: todo[i] < todo[j] }

  lemma TakenNext(todo: seq<nat>, i: nat)
    requires i < |todo| && Sorted(todo)
    ensures todo[i] !in Taken(todo, i) && Taken(todo, i + 1) == Taken(todo, i) + {todo[i]}
  {
    assert todo[..i + 1] == todo[..i] + [todo[i]];
  }

  lemma TakenAll(s: set<nat>)
    ensures Sorted(Ascending(s)) && Taken(Ascending(s), |s|) == s
    ensures forall i | 0 <= i < |Ascending(s)| :: Ascending(s)[i] in s
  {
    AscendingIs(s);
    assert Ascending(s)[..|s|] == Ascending(s);
  }

  lemma NextMember(entries: seq<Action>, todo: seq<nat>, i: nat, tail: seq<Token>)
    requires i < |todo| && AllBelow(todo, |entries|)
    ensures MemberTokens(entries, todo[i..]) + tail ==
            [Num(todo[i])] + (EntryTokens(entries[todo[i]]) + (MemberTokens(entries, todo[i + 1..]) + tail))
  {
    hide EntryTokens;
    assert todo[i..][1..] == todo[i + 1..];
    assert MemberTokens(entries, todo[i..]) == [Num(todo[i])] + (EntryTokens(entries[todo[i]]) + MemberTokens(entries, todo[i + 1..]));
    hide *;
    RegroupFour([Num(todo[i])], EntryTokens(entries[todo[i]]), MemberTokens(entries, todo[i + 1..]), tail);
  }

  /** Live members of a saved profile, read one by one into a vector of the saved size. */
  method ReadMembers(q: ActionProfile, tokens: seq<Token>, fns: int -> Fn, ghost entries: seq<Action>, ghost hs: set<nat>,
                     ghost tail: seq<Token>)
    returns (ok: bool, rest: seq<Token>)
    requires Inside(hs, |entries|) && AllBelow(Ascending(hs), |entries|)
    requires tokens == MemberTokens(entries, Ascending(hs)) + tail && q.numMembers == |hs|
    requires q.mbrHandles == {} && |q.entries| == |entries|
    requires forall h | h in hs :: fns(entries[h].fn.id) == entries[h].fn
    modifies q`mbrHandles, q`entries
    ensures ok && rest == tail
    ensures q.mbrHandles == hs && |q.entries| == |entries| && Pick(q.entries, hs) == Pick(entries, hs)
  {
    ghost var todo := Ascending(hs);
    TakenAll(hs);
    NoneTaken(todo);
    hide Ascending, EntryTokens, MemberTokens, Pick, Inside, Restoring, Sorted, Taken;
    NothingRestored(q.entries, entries);
    var i := 0;
    rest := tokens;
    assert todo[0..] == todo;
    while i < q.numMembers
      invariant 0 <= i <= |todo| && |q.entries| == |entries|
      invariant rest == MemberTokens(entries, todo[i..]) + tail
      invariant q.mbrHandles == Taken(todo, i)
      invariant Restoring(q.entries, entries, Taken(todo, i))
    {
      NextMember(entries, todo, i, tail);
      TakenNext(todo, i);
      ghost var t := MemberTokens(entries, todo[i + 1..]) + tail;
      var h := rest[0].n;
      if h < 0 || h in q.mbrHandles || h >= |q.entries| { return false, rest; }
      q.mbrHandles := q.mbrHandles + {h};
      var a;
      a, rest := ReadEntry(rest[1..], fns, entries[todo[i]], t);
      RestoringNext(q.entries, entries, Taken(todo, i), h);
      q.entries := q.entries[h := a];
      i := i + 1;
    }
    AllRead(q.entries, entries, todo, hs, tail);
    ok := true;
  }

  /** These slots hold what was saved. */
  ghost predicate Restoring(v: seq<Action>, saved: seq<Action>, done: set<nat>)
  {
    |v| == |saved| && forall h | h in done :: h < |v| && v[h] == saved[h]
  }

  lemma NothingRestored(v: seq<Action>, saved: seq<Action>)
    requires |v| == |saved|
    ensures Restoring(v, saved, {})
  {
  }

  lemma RestoringNext(v: seq<Action>, saved: seq<Action>, done: set<nat>, h: nat)
    requires Restoring(v, saved, done) && h < |v|
    ensures Restoring(v[h := saved[h]], saved, done + {h})
  {
  }

  lemma AllRead(v: seq<Action>, saved: seq<Action>, todo: seq<nat>, hs: set<nat>, tail: seq<Token>)
    requires Inside(hs, |saved|) && AllBelow(todo, |saved|) && Taken(todo, |todo|) == hs && Restoring(v, saved, hs)
    ensures Pick(v, hs) == Pick(saved, hs) && MemberTokens(saved, todo[|todo|..]) + tail == tail
  {
  }

  /** One group: its size and its members. */
  method ReadSet(tokens: seq<Token>, ghost s: set<nat>, ghost tail: seq<Token>) returns (r: set<nat>, rest: seq<Token>)
    requires tokens == SetTokens(s) + tail
    ensures r == s && rest == tail
  {
    assert tokens[0] == Num(|s|) && tokens[1..] == NumTokens(Ascending(s)) + tail;
    var hs;
    hs, rest := ReadNums(tokens[1..], tokens[0].n, Ascending(s), tail);
    TakenAll(s);
    r := {};
    var i := 0;
    while i < |hs|
      invariant 0 <= i <= |hs| && r == Taken(hs, i)
    {
      TakenNext(hs, i);
      r := r + {hs[i]};
      i := i + 1;
    }
  }

  /** Group handles without a gap: 0 up to the number of groups. */
  ghost predicate GapFree(s: set<nat>)
  {
    forall g: nat, j: nat | g in s && j < g :: j in s
  }

  lemma NextGroup(groups: seq<set<nat>>, todo: seq<nat>, i: nat, tail: seq<Token>)
    requires i < |todo| && AllBelow(todo, |groups|)
    ensures GroupTokens(groups, todo[i..]) + tail ==
            [Num(todo[i])] + (SetTokens(groups[todo[i]]) + (GroupTokens(groups, todo[i + 1..]) + tail))
  {
    hide SetTokens;
    assert todo[i..][1..] == todo[i + 1..];
    assert GroupTokens(groups, todo[i..]) == [Num(todo[i])] + (SetTokens(groups[todo[i]]) + GroupTokens(groups, todo[i + 1..]));
    hide *;
    RegroupFour([Num(todo[i])], SetTokens(groups[todo[i]]), GroupTokens(groups, todo[i + 1..]), tail);
  }

  /** The first `i` handles are 0 up to `i`. */
  ghost predicate Dense(todo: seq<nat>, i: nat)
  {
    i <= |todo| && forall j: nat | j < i :: todo[j] == j
  }

  /** The groups, as long as each new handle is at most the number of groups so far. */
  method ReadGroups(q: ActionProfile, tokens: seq<Token>, ghost groups: seq<set<nat>>, ghost gs: set<nat>, ghost tail: seq<Token>)
    returns (ok: bool, rest: seq<Token>)
    requires Inside(gs, |groups|) && AllBelow(Ascending(gs), |groups|)
    requires tokens == GroupTokens(groups, Ascending(gs)) + tail && q.numGroups == |gs|
    requires q.grpHandles == {} && q.groups == []
    modifies q`grpHandles, q`groups
    ensures ok <==> GapFree(gs)
    ensures ok ==> rest == tail && q.grpHandles == gs && |q.groups| == |gs| && Inside(gs, |q.groups|)
    ensures ok ==> Pick(q.groups, gs) == Pick(groups, gs)
  {
    ghost var todo := Ascending(gs);
    TakenAll(gs);
    NoneTaken(todo);
    hide Ascending, GroupTokens, SetTokens, GapFree, Store, Pick, Inside, Dense, Sorted, Taken;
    var i := 0;
    rest := tokens;
    assert todo[0..] == todo;
    while i < q.numGroups
      invariant 0 <= i <= |todo| && i <= |groups| && q.groups == groups[..i] && Dense(todo, i)
      invariant rest == GroupTokens(groups, todo[i..]) + tail
      invariant q.grpHandles == Taken(todo, i)
    {
      NextGroup(groups, todo, i, tail);
      TakenNext(todo, i);
      ghost var t := GroupTokens(groups, todo[i + 1..]) + tail;
      var g := rest[0].n;
      if g < 0 || g in q.grpHandles || g > |q.groups| {
        GapBefore(gs, i);
        return false, rest;
      }
      DenseNext(todo, i, groups);
      q.grpHandles := q.grpHandles + {g};
      q.groups := Store(q.groups, g, {});
      var s;
      s, rest := ReadSet(rest[1..], groups[todo[i]], t);
      q.groups := q.groups[g := s];
      StoreNext(groups, i);
      i := i + 1;
    }
    AllGroups(groups, gs, tail);
    ok := true;
  }

  lemma NoneTaken(todo: seq<nat>)
    ensures Taken(todo, 0) == {} && Dense(todo, 0)
  {
  }

  lemma AllGroups(groups: seq<set<nat>>, gs: set<nat>, tail: seq<Token>)
    requires Dense(Ascending(gs), |gs|) && |gs| <= |groups| && Inside(gs, |groups|) && AllBelow(Ascending(gs), |groups|)
    ensures GapFree(gs) && Inside(gs, |gs|) && Pick(groups[..|gs|], gs) == Pick(groups, gs)
    ensures GroupTokens(groups, Ascending(gs)[|gs|..]) + tail == tail
  {
    hide Ascending;
    DenseIsGapFree(gs);
    assert Ascending(gs)[|gs|..] == [] by { AscendingIs(gs); }
  }

  lemma StoreNext(groups: seq<set<nat>>, i: nat)
    requires i < |groups|
    ensures Store(groups[..i], i, {})[i := groups[i]] == groups[..i + 1]
  {
  }

  lemma DenseNext(todo: seq<nat>, i: nat, groups: seq<set<nat>>)
    requires i < |todo| && Dense(todo, i) && Sorted(todo) && todo[i] <= i && AllBelow(todo, |groups|)
    ensures Dense(todo, i + 1) && todo[i] == i < |groups|
  {
    if i > 0 { assert todo[i - 1] < todo[i]; }
  }

  lemma DenseIsGapFree(gs: set<nat>)
    requires Dense(Ascending(gs), |gs|)
    ensures GapFree(gs) && Inside(gs, |gs|)
  {
    hide Ascending;
    AscendingIs(gs);
    var todo := Ascending(gs);
    forall g: nat | g in gs ensures g < |gs| {
      var k :| 0 <= k < |todo| && todo[k] == g;
      assert todo[k] == k;
    }
    forall g: nat, j: nat | g in gs && j < g ensures j in gs { assert todo[j] == j; }
  }

  /** A handle larger than its rank leaves a gap below it. */
  lemma GapBefore(gs: set<nat>, i: nat)
    requires i < |gs| && Dense(Ascending(gs), i) && Ascending(gs)[i] > i
    ensures !GapFree(gs)
  {
    hide Ascending;
    AscendingIs(gs);
    var todo := Ascending(gs);
    forall k | 0 <= k < |todo| ensures todo[k] != i {
      assert k < i ==> todo[k] == k;
      assert k > i ==> todo[i] < todo[k];
    }
    assert todo[i] in gs && i !in gs;
  }

  method ReadCounts(tokens: seq<Token>, ghost s: seq<nat>, ghost tail: seq<Token>) returns (r: seq<nat>, rest: seq<Token>)
    requires tokens == CountTokens(s) + tail
    ensures r == s && rest == tail
  {
    assert tokens[0] == Num(|s|) && tokens[1..] == NumTokens(s) + tail;
    r, rest := ReadNums(tokens[1..], tokens[0].n, s, tail);
  }

  /** A profile that was just created. */
  ghost predicate Fresh(q: ActionProfile)
    reads q
  {
    q.Valid() && q.entries == [] && q.mbrHandles == {} && q.grpHandles == {} && q.groups == [] && q.refs == multiset{}
  }

  const Blank := Action(Fn(-1, 0), [])

  /** Restore a saved profile. It succeeds exactly when the saved group handles have no gap; then members, their actions,
      groups, references and counters are those of the saved profile, and exactly its tokens have been read. The tables
      restored beside it hold the references. */
  method Deserialize(q: ActionProfile, tokens: seq<Token>, fns: int -> Fn, ghost p: ActionProfile, ghost tail: seq<Token>)
    returns (ok: bool, rest: seq<Token>)
    requires p != q && p.Valid() && Fresh(q) && tokens == Saved(p) + tail
    requires forall h | h in p.mbrHandles :: fns(p.entries[h].fn.id) == p.entries[h].fn
    modifies q
    ensures ok <==> GapFree(p.grpHandles)
    ensures ok ==> q.Valid() && q.Abs() == p.Abs() && q.mbrCount == p.mbrCount && q.grpCount == p.grpCount && rest == tail
  {
    hide Counts, Consistent, Ascending, MemberTokens, GroupTokens, NumTokens, CountTokens, GapFree, Pick, Inside, Saved;
    SavedSplits(p, tail);
    ghost var t3 := GroupTokens(p.groups, Ascending(p.grpHandles)) + tail;
    ghost var t2 := CountTokens(p.mbrCount) + (CountTokens(p.grpCount) + ([Num(p.numGroups)] + t3));
    ghost var t1 := MemberTokens(p.entries, Ascending(p.mbrHandles)) + t2;
    TwoFirst(Num(|p.entries|), Num(p.numMembers), t1);
    q.entries := seq(tokens[0].n, _ => Blank);
    q.numMembers := tokens[1].n;
    ok, rest := ReadMembers(q, tokens[2..], fns, p.entries, p.mbrHandles, t2);
    q.mbrCount, q.grpCount, rest := ReadCounters(rest, p.mbrCount, p.grpCount, [Num(p.numGroups)] + t3);
    q.numGroups := rest[0].n;
    q.refs := p.refs;
    ok, rest := ReadGroups(q, rest[1..], p.groups, p.grpHandles, tail);
    if ok { Restored(p, q); }
  }

  lemma TwoFirst(a: Token, b: Token, rest: seq<Token>)
    ensures var s := [a, b] + rest; s[0] == a && s[1] == b && s[2..] == rest
  {
  }

  /** The two vectors of counters. */
  method ReadCounters(tokens: seq<Token>, ghost mbr: seq<nat>, ghost grp: seq<nat>, ghost tail: seq<Token>)
    returns (m: seq<nat>, g: seq<nat>, rest: seq<Token>)
    requires tokens == CountTokens(mbr) + (CountTokens(grp) + tail)
    ensures m == mbr && g == grp && rest == tail
  {
    hide CountTokens;
    m, rest := ReadCounts(tokens, mbr, CountTokens(grp) + tail);
    g, rest := ReadCounts(rest, grp, tail);
  }

  /** What has been read is a profile in order, with the saved one's maps. */
  lemma Restored(p: ActionProfile, q: ActionProfile)
    requires p.Valid() && q.refs == p.refs
    requires q.mbrHandles == p.mbrHandles && |q.entries| == |p.entries| && q.numMembers == p.numMembers
    requires Pick(q.entries, p.mbrHandles) == Pick(p.entries, p.mbrHandles)
    requires q.grpHandles == p.grpHandles && |q.groups| == |p.grpHandles| && q.numGroups == p.numGroups
    requires Inside(p.grpHandles, |q.groups|) && Pick(q.groups, p.grpHandles) == Pick(p.groups, p.grpHandles)
    requires q.mbrCount == p.mbrCount && q.grpCount == p.grpCount
    ensures q.Valid() && q.Abs() == p.Abs()
  {
    hide Counts, Consistent, Pick, Inside;
    FewerGroups(p.grpHandles, |p.groups|);
  }

  lemma FewerGroups(gs: set<nat>, n: nat)
    requires Inside(gs, n)
    ensures |gs| <= n
  {
    hide Ascending;
    AscendingIs(gs);
    RankBelow(gs);
    if |gs| > 0 { assert Ascending(gs)[|gs| - 1] in gs; }
  }

  lemma {:induction false} RankBelow(gs: set<nat>)
    ensures forall k: nat | k < |gs| :: Ascending(gs)[k] >= k
  {
    hide Ascending;
    AscendingIs(gs);
    var k: nat := 0;
    while k < |gs|
      invariant k <= |gs| && forall j: nat | j < k :: Ascending(gs)[j] >= j
    {
      if k > 0 { assert Ascending(gs)[k - 1] < Ascending(gs)[k]; }
      k := k + 1;
    }
  }

  lemma SavedSplits(p: ActionProfile, tail: seq<Token>)
    requires p.Shape()
    ensures AllBelow(Ascending(p.mbrHandles), |p.entries|) && AllBelow(Ascending(p.grpHandles), |p.groups|)
    ensures Saved(p) + tail ==
      [Num(|p.entries|), Num(p.numMembers)] +
      (MemberTokens(p.entries, Ascending(p.mbrHandles)) +
      (CountTokens(p.mbrCount) +
      (CountTokens(p.grpCount) +
      ([Num(p.numGroups)] + (GroupTokens(p.groups, Ascending(p.grpHandles)) + tail)))))
  {
    hide Ascending, MemberTokens, GroupTokens, CountTokens;
    AscendingInside(p.mbrHandles, |p.entries|);
    AscendingInside(p.grpHandles, |p.groups|);
    Spread([Num(|p.entries|), Num(p.numMembers)], MemberTokens(p.entries, Ascending(p.mbrHandles)), CountTokens(p.mbrCount),
           CountTokens(p.grpCount), [Num(p.numGroups)], GroupTokens(p.groups, Ascending(p.grpHandles)), tail);
  }

  lemma Spread<T>(a: seq<T>, b: seq<T>, c: seq<T>, d: seq<T>, e: seq<T>, f: seq<T>, t: seq<T>)
    ensures (a + (b + (c + (d + (e + f))))) + t == a + (b + (c + (d + (e + (f + t)))))
  {
    RegroupFour(a, b, c + (d + (e + f)), t);
    RegroupFour(c, d, e + f, t);
    assert e + f + t == e + (f + t);
  }

  lemma FirstOfTwoGoes(m1: Model, m2: Model)
    requires m1 == Model(map[], map[0 := {}], multiset{}) && m2 == Model(map[], map[0 := {}, 1 := {}], multiset{})
    ensures CreateGroup(NewProfile).2 == m1 && CreateGroup(m1).2 == m2
    ensures !GroupWraps(m2, 0) && DeleteGroup(m2, 0).1 == Model(map[], map[1 := {}], multiset{})
  {
    FirstFreeUnique({}, 0);
    FirstFreeUnique({0}, 1);
    assert NewProfile.groups.Keys == {} && m1.groups.Keys == {0};
    assert m2.groups - {0} == map[1 := {}];
  }

  /** Two groups, of which the first is deleted. */
  method GroupGap() returns (p: ActionProfile)
    ensures fresh(p) && p.Valid() && p.Abs() == Model(map[], map[1 := {}], multiset{})
    ensures p.mbrHandles == {} && p.grpHandles == {1}
  {
    hide Pick, Counts, Consistent, CreateGroup, DeleteGroup;
    p := new ActionProfile(true);
    FirstOfTwoGoes(Model(map[], map[0 := {}], multiset{}), Model(map[], map[0 := {}, 1 := {}], multiset{}));
    var rc, g := p.CreateGroup();
    rc, g := p.CreateGroup();
    rc := p.DeleteGroup(0);
    PickAt(p.groups, p.grpHandles, 0);
    PickAt(p.entries, p.mbrHandles, 0);
  }

  /** A restore that fails: the profile is in order, its tokens are what saving it gives, and reading them into a new
      profile stops. */
  method RestoreFailsOnAGap() returns (p: ActionProfile, tokens: seq<Token>, q: ActionProfile, ok: bool)
    ensures fresh(p) && p.Valid() && p.Abs() == Model(map[], map[1 := {}], multiset{}) && p.grpHandles == {1}
    ensures fresh(q) && tokens == Saved(p) && !ok
  {
    hide Saved, Pick, Counts, Consistent;
    p := GroupGap();
    tokens := Serialize(p);
    q := new ActionProfile(true);
    assert tokens + [] == tokens;
    assert 1 in p.grpHandles && 0 !in p.grpHandles;
    var rest;
    ok, rest := Deserialize(q, tokens, n => Fn(n, 0), p, []);
  }

  /** Saving and restoring into a new profile, end to end. */
  method SaveAndRestore(p: ActionProfile, fns: int -> Fn) returns (ok: bool, q: ActionProfile)
    requires p.Valid()
    requires forall h | h in p.mbrHandles :: fns(p.entries[h].fn.id) == p.entries[h].fn
    ensures ok <==> GapFree(p.grpHandles)
    ensures fresh(q) && (ok ==> q.Valid() && q.Abs() == p.Abs())
  {
    hide Ascending, MemberTokens, GroupTokens, NumTokens, Counts, Consistent;
    var out := Serialize(p);
    q := new ActionProfile(p.withSelection);
    assert out + [] == out;
    var rest;
    ok, rest := Deserialize(q, out, fns, p, []);
  }
}
