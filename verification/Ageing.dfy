/** The ageing monitor: at every sweep each table says which of its entries have expired, and the monitor notifies of
    those it did not notify of in the table's previous sweep. */
module Ageing {
  import opened Bytes
  import opened HandleSets

  datatype Message = Message(device: int, context: int, bufferId: nat, table: nat, numEntries: nat, entries: seq<nat>)

  /** What the tables say in one sweep. */
  type Expired = nat -> seq<nat>

  // ---------------------------------------------------------------- what a sweep reports

  function Fresh(expired: seq<nat>, prev: set<nat>): seq<nat>
  {
    if expired == [] then []
    else
      var rest := Fresh(expired[..|expired| - 1], prev);
      if expired[|expired| - 1] in prev then rest else rest + [expired[|expired| - 1]]
  }

  lemma {:induction false} FreshIs(expired: seq<nat>, prev: set<nat>, h: nat)
    ensures h in Fresh(expired, prev) <==> h in expired && h !in prev
    decreases |expired|
  {
    if expired != [] {
      FreshIs(expired[..|expired| - 1], prev, h);
      assert expired == expired[..|expired| - 1] + [expired[|expired| - 1]];
    }
  }

  /** `p` lists the positions of those not in `prev`, all of them, in ascending order. */
  ghost predicate Positions(expired: seq<nat>, prev: set<nat>, p: seq<nat>)
  {
    && (forall i | 0 <= i < |p| :: p[i] < |expired| && expired[p[i]] !in prev)
    && (forall i, j | 0 <= i < j < |p| :: p[i] < p[j])
    && (forall k | 0 <= k < |expired| && expired[k] !in prev :: k in p)
  }

  ghost predicate PickedBy(s: seq<nat>, whole: seq<nat>, p: seq<nat>)
  {
    |p| == |s| && forall i | 0 <= i < |p| :: p[i] < |whole| && s[i] == whole[p[i]]
  }

  /** The handles kept stand at exactly the positions of those not in `prev`, in the table's order and each once. */
  lemma {:induction false} FreshPositions(expired: seq<nat>, prev: set<nat>) returns (p: seq<nat>)
    ensures PickedBy(Fresh(expired, prev), expired, p) && Positions(expired, prev, p)
    decreases |expired|
  {
    hide PickedBy, Positions;
    if expired == [] {
      p := [];
      NoPositions(prev);
    } else {
      var n := |expired| - 1;
      var q := FreshPositions(expired[..n], prev);
      p := if expired[n] in prev then q else q + [n];
      OneMorePosition(expired, prev, n, q, p);
      OneMorePicked(expired, n, Fresh(expired[..n], prev), q);
    }
  }

  lemma NoPositions(prev: set<nat>)
    ensures Positions([], prev, []) && PickedBy([], [], [])
  {
  }

  lemma OneMorePosition(expired: seq<nat>, prev: set<nat>, n: nat, q: seq<nat>, p: seq<nat>)
    requires |expired| == n + 1 && Positions(expired[..n], prev, q)
    requires p == if expired[n] in prev then q else q + [n]
    ensures Positions(expired, prev, p)
  {
    forall k | 0 <= k < |expired| && expired[k] !in prev ensures k in p {
      if k < n {
        assert expired[..n][k] !in prev;
        assert k in q;
      }
    }
  }

  lemma OneMorePicked(expired: seq<nat>, n: nat, s: seq<nat>, q: seq<nat>)
    requires |expired| == n + 1 && PickedBy(s, expired[..n], q)
    ensures PickedBy(s, expired, q) && PickedBy(s + [expired[n]], expired, q + [n])
  {
  }

  /** As often as the table names it, if it was not reported before. */
  lemma {:induction false} FreshCounts(expired: seq<nat>, prev: set<nat>, h: nat)
    ensures multiset(Fresh(expired, prev))[h] == if h in prev then 0 else multiset(expired)[h]
    decreases |expired|
  {
    if expired != [] {
      var front := expired[..|expired| - 1];
      FreshCounts(front, prev, h);
      assert expired == front + [expired[|expired| - 1]];
    }
  }

  /** The elements of `s` stand in `whole` one behind the other. */
  ghost predicate InOrderOf(s: seq<nat>, whole: seq<nat>)
  {
    exists p: seq<nat> :: PickedBy(s, whole, p) && forall i, j | 0 <= i < j < |p| :: p[i] < p[j]
  }

  lemma FreshInOrder(expired: seq<nat>, prev: set<nat>)
    ensures InOrderOf(Fresh(expired, prev), expired)
  {
    var p := FreshPositions(expired, prev);
  }

  predicate Distinct(s: seq<nat>) { forall i, j | 0 <= i < j < |s| :: s[i] != s[j] }

  lemma FreshDistinct(expired: seq<nat>, prev: set<nat>)
    requires Distinct(expired)
    ensures Distinct(Fresh(expired, prev))
  {
    var p := FreshPositions(expired, prev);
  }

  function SetOf(s: seq<nat>): set<nat> { set h | h in s }

  /** What is remembered for the next sweep: exactly what this one reported. */
  function Next(prev: map<nat, set<nat>>, e: Expired): map<nat, set<nat>>
  {
    map t | t in prev :: SetOf(Fresh(e(t), prev[t]))
  }

  /** The messages of one sweep over some tables, numbered from `id`. */
  function Report(device: int, context: int, ids: seq<nat>, prev: map<nat, set<nat>>, e: Expired, id: nat): seq<Message>
    requires forall i | 0 <= i < |ids| :: ids[i] in prev
  {
    if ids == [] then []
    else
      var due := Fresh(e(ids[0]), prev[ids[0]]);
      if due == [] then Report(device, context, ids[1..], prev, e, id)
      else
        [Message(device, context, id % TWO64, ids[0], |due| % TWO32, due)] +
        Report(device, context, ids[1..], prev, e, id + 1)
  }

  // ---------------------------------------------------------------- runs

  function PrevAfter(prev: map<nat, set<nat>>, es: seq<Expired>): (r: map<nat, set<nat>>)
    ensures r.Keys == prev.Keys
  {
    if es == [] then prev else Next(PrevAfter(prev, es[..|es| - 1]), es[|es| - 1])
  }

  function InOrder(prev: map<nat, set<nat>>): (ids: seq<nat>)
    ensures forall i | 0 <= i < |ids| :: ids[i] in prev
  {
    AscendingIs(prev.Keys);
    Ascending(prev.Keys)
  }

  /** All messages of a run. */
  function Sent(device: int, context: int, prev: map<nat, set<nat>>, es: seq<Expired>, id: nat): seq<Message>
  {
    if es == [] then []
    else
      var before := Sent(device, context, prev, es[..|es| - 1], id);
      var p := PrevAfter(prev, es[..|es| - 1]);
      before + Report(device, context, InOrder(p), p, es[|es| - 1], id + |before|)
  }

  /** Entry `h` of table `t` is in a message of sweep `k`; which devices and numbers the messages carry does not matter. */
  ghost predicate Reported(prev: map<nat, set<nat>>, es: seq<Expired>, k: nat, t: nat, h: nat)
    requires k < |es|
  {
    var p := PrevAfter(prev, es[..k]);
    exists m :: m in Report(0, 0, InOrder(p), p, es[k], 0) && m.table == t && h in m.entries
  }

  /** A message carries one table's fresh entries, and every table with fresh entries has one. */
  lemma {:induction false} ReportIs(device: int, context: int, ids: seq<nat>, prev: map<nat, set<nat>>, e: Expired, id: nat,
                                    t: nat, h: nat)
    requires forall i | 0 <= i < |ids| :: ids[i] in prev
    ensures (exists m :: m in Report(device, context, ids, prev, e, id) && m.table == t && h in m.entries) <==>
            t in ids && h in Fresh(e(t), prev[t])
    decreases |ids|
  {
    if ids != [] {
      var due := Fresh(e(ids[0]), prev[ids[0]]);
      var id' := if due == [] then id else id + 1;
      ReportIs(device, context, ids[1..], prev, e, id', t, h);
      var r := Report(device, context, ids, prev, e, id);
      var rest := Report(device, context, ids[1..], prev, e, id');
      assert t in ids <==> t == ids[0] || t in ids[1..];
      if due != [] {
        var m := Message(device, context, id % TWO64, ids[0], |due| % TWO32, due);
        assert r == [m] + rest && m in r;
      }
    }
  }

  /** The main result for one sweep of a run: an entry is reported exactly when it has expired and was not reported in its
      table's previous sweep (or remembered at the start). */
  lemma ReportedIff(prev: map<nat, set<nat>>, es: seq<Expired>, k: nat, t: nat, h: nat)
    requires k < |es| && t in prev
    ensures Reported(prev, es, k, t, h) <==>
            h in es[k](t) && !(if k == 0 then h in prev[t] else Reported(prev, es, k - 1, t, h))
  {
    ReportedHere(prev, es, k, t, h);
    if k > 0 { ReportedHere(prev, es, k - 1, t, h); }
    hide Reported, Fresh;
    var p := PrevAfter(prev, es[..k]);
    FreshIs(es[k](t), p[t], h);
    if k > 0 {
      assert es[..k][..k - 1] == es[..k - 1];
      assert p == Next(PrevAfter(prev, es[..k - 1]), es[k - 1]);
    }
  }

  /** What the monitor remembers for a table is what the table's previous sweep reported. */
  lemma RememberedIff(prev: map<nat, set<nat>>, es: seq<Expired>, k: nat, t: nat, h: nat)
    requires 0 < k <= |es| && t in prev
    ensures h in PrevAfter(prev, es[..k])[t] <==> Reported(prev, es, k - 1, t, h)
  {
    ReportedHere(prev, es, k - 1, t, h);
    hide Reported, Fresh;
    assert es[..k][..k - 1] == es[..k - 1];
  }

  lemma ReportedHere(prev: map<nat, set<nat>>, es: seq<Expired>, k: nat, t: nat, h: nat)
    requires k < |es| && t in prev
    ensures Reported(prev, es, k, t, h) <==> h in Fresh(es[k](t), PrevAfter(prev, es[..k])[t])
  {
    hide Report, Fresh, PrevAfter;
    var p := PrevAfter(prev, es[..k]);
    AscendingIs(p.Keys);
    ReportIs(0, 0, InOrder(p), p, es[k], 0, t, h);
  }

  /** A longer run begins with the messages of a shorter one. */
  lemma {:induction false} SentBegins(device: int, context: int, prev: map<nat, set<nat>>, es: seq<Expired>, id: nat, k: nat)
    requires k <= |es|
    ensures Sent(device, context, prev, es[..k], id) <= Sent(device, context, prev, es, id)
    decreases |es|
  {
    hide Report, InOrder, PrevAfter;
    if k == |es| {
      assert es[..k] == es;
    } else {
      assert es[..|es| - 1][..k] == es[..k];
      SentBegins(device, context, prev, es[..|es| - 1], id, k);
    }
  }

  /** Message `i` of a run belongs to sweep `k`. */
  ghost predicate InSweep(device: int, context: int, prev: map<nat, set<nat>>, es: seq<Expired>, id: nat, k: nat, i: nat)
    requires k < |es|
  {
    |Sent(device, context, prev, es[..k], id)| <= i < |Sent(device, context, prev, es[..k + 1], id)|
  }

  /** What is reported is what is sent: an entry counts as reported in a sweep exactly when one of the run's messages that
      belong to that sweep carries it. */
  lemma ReportedInSent(device: int, context: int, prev: map<nat, set<nat>>, es: seq<Expired>, id: nat, k: nat, t: nat, h: nat)
    requires k < |es|
    ensures Reported(prev, es, k, t, h) <==>
            exists i: nat :: InSweep(device, context, prev, es, id, k, i) && i < |Sent(device, context, prev, es, id)| &&
              Sent(device, context, prev, es, id)[i].table == t && h in Sent(device, context, prev, es, id)[i].entries
  {
    hide Report, InOrder, PrevAfter, Sent, Fresh;
    var p, before := PrevAfter(prev, es[..k]), Sent(device, context, prev, es[..k], id);
    var r := Report(device, context, InOrder(p), p, es[k], id + |before|);
    var sent := Sent(device, context, prev, es, id);
    SentNext(device, context, prev, es, k, id);
    SentBegins(device, context, prev, es, id, k + 1);
    ReportIs(device, context, InOrder(p), p, es[k], id + |before|, t, h);
    ReportIs(0, 0, InOrder(p), p, es[k], 0, t, h);
    if Reported(prev, es, k, t, h) {
      var m :| m in r && m.table == t && h in m.entries;
      var j: nat :| j < |r| && r[j] == m;
      assert InSweep(device, context, prev, es, id, k, |before| + j) && sent[|before| + j] == m;
    }
    if i: nat :| InSweep(device, context, prev, es, id, k, i) && i < |sent| && sent[i].table == t && h in sent[i].entries {
      assert sent[i] == r[i - |before|];
    }
  }

  /** Everything in a message of one sweep. */
  ghost predicate Carries(m: Message, device: int, context: int, prev: map<nat, set<nat>>, e: Expired)
  {
    && m.device == device && m.context == context && m.table in prev
    && m.entries == Fresh(e(m.table), prev[m.table]) && m.numEntries == |m.entries| % TWO32
  }

  lemma {:induction false} ReportCarries(device: int, context: int, ids: seq<nat>, prev: map<nat, set<nat>>, e: Expired,
                                         id: nat, i: nat)
    requires forall i | 0 <= i < |ids| :: ids[i] in prev
    requires i < |Report(device, context, ids, prev, e, id)|
    ensures var m := Report(device, context, ids, prev, e, id)[i];
      m.table in ids && Carries(m, device, context, prev, e)
    decreases |ids|
  {
    if ids != [] {
      var due := Fresh(e(ids[0]), prev[ids[0]]);
      if due == [] {
        ReportCarries(device, context, ids[1..], prev, e, id, i);
      } else if i > 0 {
        ReportCarries(device, context, ids[1..], prev, e, id + 1, i - 1);
      }
    }
  }

  /** One message a table, in the order of the ids. */
  lemma {:induction false} ReportInOrder(device: int, context: int, ids: seq<nat>, prev: map<nat, set<nat>>, e: Expired,
                                         id: nat, i: nat, j: nat)
    requires forall i | 0 <= i < |ids| :: ids[i] in prev
    requires forall i, j | 0 <= i < j < |ids| :: ids[i] < ids[j]
    requires i < j < |Report(device, context, ids, prev, e, id)|
    ensures Report(device, context, ids, prev, e, id)[i].table < Report(device, context, ids, prev, e, id)[j].table
    decreases |ids|
  {
    if ids != [] {
      var due := Fresh(e(ids[0]), prev[ids[0]]);
      if due == [] {
        ReportInOrder(device, context, ids[1..], prev, e, id, i, j);
      } else if i > 0 {
        ReportInOrder(device, context, ids[1..], prev, e, id + 1, i - 1, j - 1);
      } else {
        ReportCarries(device, context, ids[1..], prev, e, id + 1, j - 1);
      }
    }
  }

  /** What the messages of a run say: device and context, one table that the monitor knows, that table's fresh entries in
      the table's own order and as often as the table names them, and how many they are modulo 2^32. */
  lemma SentCarries(device: int, context: int, prev: map<nat, set<nat>>, es: seq<Expired>, id: nat, k: nat, i: nat)
    requires k < |es| && InSweep(device, context, prev, es, id, k, i) && i < |Sent(device, context, prev, es, id)|
    ensures var m, before := Sent(device, context, prev, es, id)[i], PrevAfter(prev, es[..k]);
      && m.device == device && m.context == context && m.table in prev && m.numEntries == |m.entries| % TWO32
      && (forall h :: multiset(m.entries)[h] == if h in before[m.table] then 0 else multiset(es[k](m.table))[h])
      && (Distinct(es[k](m.table)) ==> Distinct(m.entries)) && InOrderOf(m.entries, es[k](m.table))
  {
    hide Report, InOrder, PrevAfter, Sent, Fresh, InOrderOf, Distinct;
    var p, before := PrevAfter(prev, es[..k]), Sent(device, context, prev, es[..k], id);
    var m := Sent(device, context, prev, es, id)[i];
    SentNext(device, context, prev, es, k, id);
    SentBegins(device, context, prev, es, id, k + 1);
    ReportCarries(device, context, InOrder(p), p, es[k], id + |before|, i - |before|);
    forall h ensures multiset(m.entries)[h] == if h in p[m.table] then 0 else multiset(es[k](m.table))[h] {
      FreshCounts(es[k](m.table), p[m.table], h);
    }
    FreshInOrder(es[k](m.table), p[m.table]);
    if Distinct(es[k](m.table)) { FreshDistinct(es[k](m.table), p[m.table]); }
  }

  /** Within a sweep the messages come in the order of their tables, one a table. */
  lemma SentInOrder(device: int, context: int, prev: map<nat, set<nat>>, es: seq<Expired>, id: nat, k: nat, i: nat, j: nat)
    requires k < |es| && i < j < |Sent(device, context, prev, es, id)|
    requires InSweep(device, context, prev, es, id, k, i) && InSweep(device, context, prev, es, id, k, j)
    ensures Sent(device, context, prev, es, id)[i].table < Sent(device, context, prev, es, id)[j].table
  {
    hide Report, PrevAfter, Sent, Fresh, Ascending;
    var p, before := PrevAfter(prev, es[..k]), Sent(device, context, prev, es[..k], id);
    AscendingIs(p.Keys);
    SentNext(device, context, prev, es, k, id);
    SentBegins(device, context, prev, es, id, k + 1);
    ReportInOrder(device, context, InOrder(p), p, es[k], id + |before|, i - |before|, j - |before|);
  }

  /** Never twice in a row. */
  lemma NeverTwiceInARow(prev: map<nat, set<nat>>, es: seq<Expired>, k: nat, t: nat, h: nat)
    requires 0 < k < |es| && t in prev && Reported(prev, es, k, t, h)
    ensures !Reported(prev, es, k - 1, t, h)
  {
    ReportedIff(prev, es, k, t, h);
  }

  /** While an entry stays expired it is reported in every other sweep. */
  lemma {:induction false} EveryOtherSweep(prev: map<nat, set<nat>>, es: seq<Expired>, a: nat, k: nat, t: nat, h: nat)
    requires a <= k < |es| && t in prev && Reported(prev, es, a, t, h)
    requires forall j | a <= j <= k :: h in es[j](t)
    ensures Reported(prev, es, k, t, h) <==> (k - a) % 2 == 0
    decreases k
  {
    hide Reported;
    if a < k {
      EveryOtherSweep(prev, es, a, k - 1, t, h);
      ReportedIff(prev, es, k, t, h);
    }
  }

  lemma {:induction false} ReportNumbered(device: int, context: int, ids: seq<nat>, prev: map<nat, set<nat>>, e: Expired,
                                          id: nat, i: nat)
    requires forall i | 0 <= i < |ids| :: ids[i] in prev
    requires i < |Report(device, context, ids, prev, e, id)|
    ensures Report(device, context, ids, prev, e, id)[i].bufferId == (id + i) % TWO64
    ensures Report(device, context, ids, prev, e, id)[i].entries != []
    decreases |ids|
  {
    if ids != [] {
      var due := Fresh(e(ids[0]), prev[ids[0]]);
      if due == [] {
        ReportNumbered(device, context, ids[1..], prev, e, id, i);
      } else if i > 0 {
        ReportNumbered(device, context, ids[1..], prev, e, id + 1, i - 1);
      }
    }
  }

  /** Buffer ids are consecutive over the whole run, and no message is empty. */
  lemma {:induction false} ConsecutiveIds(device: int, context: int, prev: map<nat, set<nat>>, es: seq<Expired>, id: nat, i: nat)
    requires i < |Sent(device, context, prev, es, id)|
    ensures Sent(device, context, prev, es, id)[i].bufferId == (id + i) % TWO64
    ensures Sent(device, context, prev, es, id)[i].entries != []
    decreases |es|
  {
    hide Report, InOrder, Ascending, PrevAfter, TWO64;
    if es != [] {
      var before := Sent(device, context, prev, es[..|es| - 1], id);
      var p := PrevAfter(prev, es[..|es| - 1]);
      if i < |before| {
        ConsecutiveIds(device, context, prev, es[..|es| - 1], id, i);
      } else {
        ReportNumbered(device, context, InOrder(p), p, es[|es| - 1], id + |before|, i - |before|);
      }
    }
  }

  // ---------------------------------------------------------------- the monitor

  class AgeingMonitor {
    const device: int
    const context: int
    var prev: map<nat, set<nat>>   // for every table, by id, what its previous sweep reported
    var entries: seq<nat>
    var entriesTmp: seq<nat>
    var bufferId: nat
    var sent: seq<Message>         // what the writer was given

    ghost predicate Valid()
      reads this
    {
      entries == [] && entriesTmp == [] && bufferId < TWO64
    }

    constructor (device: int, context: int)
      ensures Valid() && prev == map[] && bufferId == 0 && sent == []
      ensures this.device == device && this.context == context
    {
      this.device, this.context := device, context;
      prev, entries, entriesTmp, bufferId, sent := map[], [], [], 0, [];
    }

    /** A table that is already there keeps its record. */
    method AddTable(id: nat)
      requires Valid()
      modifies this`prev
      ensures Valid() && prev == if id in old(prev) then old(prev) else old(prev)[id := {}]
    {
      if id !in prev { prev := prev[id := {}]; }
    }

    method ResetState()
      modifies this
      ensures Valid() && sent == old(sent) && bufferId == 0 && prev.Keys == old(prev).Keys
      ensures forall t | t in prev :: prev[t] == {}
    {
      entries, entriesTmp, bufferId := [], [], 0;
      prev := map t | t in prev :: {};
    }

    /** Ask a table, and keep those of its expired entries that its previous sweep did not report. */
    method Collect(t: nat, e: Expired)
      requires Valid() && t in prev
      modifies this`entries, this`entriesTmp
      ensures entriesTmp == e(t) && entries == Fresh(e(t), prev[t])
    {
      entriesTmp := entriesTmp + e(t);
      var i := 0;
      while i < |entriesTmp|
        invariant 0 <= i <= |entriesTmp| && entriesTmp == e(t) && entries == Fresh(e(t)[..i], prev[t])
      {
        assert e(t)[..i + 1][..i] == e(t)[..i];
        if entriesTmp[i] !in prev[t] { entries := entries + [entriesTmp[i]]; }
        i := i + 1;
      }
      assert e(t)[..i] == e(t);
    }

    /** Remember what is being reported. */
    method Remember(t: nat)
      requires t in prev && prev[t] == {}
      modifies this`prev
      ensures prev == old(prev)[t := SetOf(entries)]
    {
      var i := 0;
      assert SetOf(entries[..0]) == {};
      while i < |entries|
        invariant 0 <= i <= |entries| && prev == old(prev)[t := SetOf(entries[..i])]
      {
        assert entries[..i + 1] == entries[..i] + [entries[i]];
        assert SetOf(entries[..i + 1]) == SetOf(entries[..i]) + {entries[i]};
        prev := prev[t := prev[t] + {entries[i]}];
        i := i + 1;
      }
      assert entries[..i] == entries;
    }

    /** One table's share of a sweep. */
    method SweepTable(t: nat, e: Expired)
      requires Valid() && t in prev
      modifies this
      ensures Valid()
      ensures sent == old(sent) + Report(device, context, [t], old(prev), e, old(bufferId))
      ensures bufferId == (old(bufferId) + |Report(device, context, [t], old(prev), e, old(bufferId))|) % TWO64
      ensures prev == old(prev)[t := SetOf(Fresh(e(t), old(prev)[t]))]
    {
      hide Report, Fresh, SetOf;
      ReportOne(device, context, t, prev, e, bufferId, sent);
      ghost var due := Fresh(e(t), prev[t]);
      Collect(t, e);
      NothingExpired(prev[t]);
      if entriesTmp == [] {
        prev := prev[t := {}];
        return;
      }
      entriesTmp := [];
      prev := prev[t := {}];
      if entries == [] { return; }
      Remember(t);
      Send(t);
    }

    /** Send what is in the buffer. */
    method Send(t: nat)
      requires entries != []
      modifies this`sent, this`bufferId, this`entries
      ensures sent == old(sent) + [Message(device, context, old(bufferId), t, |old(entries)| % TWO32, old(entries))]
      ensures bufferId == (old(bufferId) + 1) % TWO64 && entries == []
    {
      sent := sent + [Message(device, context, bufferId, t, |entries| % TWO32, entries)];
      bufferId := (bufferId + 1) % TWO64;
      entries := [];
    }

    /** All tables in the order of their ids. */
    method DoSweep(e: Expired)
      requires Valid()
      modifies this
      ensures Valid() && prev == Next(old(prev), e)
      ensures sent == old(sent) + Report(device, context, InOrder(old(prev)), old(prev), e, old(bufferId))
      ensures bufferId == (old(bufferId) + |Report(device, context, InOrder(old(prev)), old(prev), e, old(bufferId))|) % TWO64
    {
      hide Fresh, SetOf, Report, Ascending, Swept, Next;
      ghost var p, all := prev, Report(device, context, InOrder(prev), prev, e, bufferId);
      ghost var id: nat := bufferId;
      var rest := prev.Keys;
      KeysInOrder(p, rest);
      SweptAll(p, rest, e);
      while rest != {}
        invariant Valid() && rest <= p.Keys && bufferId == id % TWO64
        invariant |sent| - id == |old(sent)| - old(bufferId) && |old(sent)| <= |sent|
        invariant prev == Swept(p, rest, e)
        invariant forall i | 0 <= i < |Ascending(rest)| :: Ascending(rest)[i] in p
        invariant sent + Report(device, context, Ascending(rest), p, e, id) == old(sent) + all
      {
        var t := Least(rest);
        SweptOne(p, rest, t, e);
        ghost var r := Report(device, context, [t], prev, e, bufferId);
        AscendingFrom(rest);
        KeysInOrder(p, rest - {t});
        FirstReport(device, context, Ascending(rest), p, prev, e, id);
        SweepTable(t, e);
        id := id + |r|;
        rest := rest - {t};
      }
      NoReport(device, context, p, e, id);
      assert sent + [] == sent;
    }

    /** The sweep thread: one sweep after the other. */
    method SweepLoop(es: seq<Expired>)
      requires Valid()
      modifies this
      ensures Valid() && prev == PrevAfter(old(prev), es)
      ensures sent == old(sent) + Sent(device, context, old(prev), es, old(bufferId))
    {
      hide Report, Next, Sent, PrevAfter, InOrder, Ascending;
      var i := 0;
      ghost var id: nat := bufferId;
      SentNone(device, context, prev, es, bufferId);
      assert sent + [] == sent;
      while i < |es|
        invariant 0 <= i <= |es| && Valid() && prev == PrevAfter(old(prev), es[..i]) && bufferId == id % TWO64
        invariant sent == old(sent) + Sent(device, context, old(prev), es[..i], old(bufferId))
        invariant id == old(bufferId) + |Sent(device, context, old(prev), es[..i], old(bufferId))|
      {
        SentNext(device, context, old(prev), es, i, old(bufferId));
        ReportModulo(device, context, InOrder(prev), prev, es[i], bufferId, id);
        ModAdd(id, |Report(device, context, InOrder(prev), prev, es[i], bufferId)|);
        id := id + |Report(device, context, InOrder(prev), prev, es[i], bufferId)|;
        DoSweep(es[i]);
        i := i + 1;
      }
      assert es[..i] == es;
    }
  }

  lemma NothingExpired(prev: set<nat>)
    ensures Fresh([], prev) == [] && SetOf([]) == {}
  {
  }

  lemma SentNone(device: int, context: int, prev: map<nat, set<nat>>, es: seq<Expired>, id: nat)
    ensures PrevAfter(prev, es[..0]) == prev && Sent(device, context, prev, es[..0], id) == []
  {
  }

  /** One sweep more. */
  lemma SentNext(device: int, context: int, prev: map<nat, set<nat>>, es: seq<Expired>, i: nat, id: nat)
    requires i < |es|
    ensures PrevAfter(prev, es[..i + 1]) == Next(PrevAfter(prev, es[..i]), es[i])
    ensures var p, before := PrevAfter(prev, es[..i]), Sent(device, context, prev, es[..i], id);
      Sent(device, context, prev, es[..i + 1], id) == before + Report(device, context, InOrder(p), p, es[i], id + |before|)
  {
    hide Report, Next, InOrder, Ascending;
    assert es[..i + 1][..i] == es[..i];
  }

  /** One table's report, behind the messages sent before. */
  lemma ReportOne(device: int, context: int, t: nat, prev: map<nat, set<nat>>, e: Expired, id: nat, sent: seq<Message>)
    requires t in prev && id < TWO64
    ensures var due, r := Fresh(e(t), prev[t]), Report(device, context, [t], prev, e, id);
      if due == [] then sent + r == sent && (id + |r|) % TWO64 == id
      else sent + r == sent + [Message(device, context, id, t, |due| % TWO32, due)] && (id + |r|) % TWO64 == (id + 1) % TWO64
  {
    ReportOfOne(device, context, t, prev, e, id);
    InRange(id);
    hide Report, Fresh;
    var due, r := Fresh(e(t), prev[t]), Report(device, context, [t], prev, e, id);
    if due == [] { assert |r| == 0 && sent + r == sent; } else { assert |r| == 1; }
  }

  lemma ReportOfOne(device: int, context: int, t: nat, prev: map<nat, set<nat>>, e: Expired, id: nat)
    requires t in prev
    ensures var due := Fresh(e(t), prev[t]);
      Report(device, context, [t], prev, e, id) ==
      if due == [] then [] else [Message(device, context, id % TWO64, t, |due| % TWO32, due)]
  {
    assert [t][1..] == [];
  }

  lemma ModAdd(id: nat, n: nat)
    ensures (id % TWO64 + n) % TWO64 == (id + n) % TWO64
  {
  }

  lemma InRange(id: nat)
    requires id < TWO64
    ensures id % TWO64 == id
  {
  }

  lemma AscendingFrom(s: set<nat>)
    requires s != {}
    ensures Ascending(s) != [] && Ascending(s)[0] == Least(s) && Ascending(s)[1..] == Ascending(s - {Least(s)})
  {
  }

  /** The records half-way through a sweep: the tables in `rest` are still to come. */
  function Swept(p: map<nat, set<nat>>, rest: set<nat>, e: Expired): map<nat, set<nat>>
  {
    map t | t in p :: if t in rest then p[t] else SetOf(Fresh(e(t), p[t]))
  }

  lemma SweptAll(p: map<nat, set<nat>>, rest: set<nat>, e: Expired)
    requires rest == p.Keys
    ensures Swept(p, rest, e) == p && Swept(p, {}, e) == Next(p, e)
  {
    hide Fresh, SetOf;
  }

  lemma SweptOne(p: map<nat, set<nat>>, rest: set<nat>, t: nat, e: Expired)
    requires t in rest && rest <= p.Keys
    ensures var q := Swept(p, rest, e);
      t in q && q[t] == p[t] && Swept(p, rest - {t}, e) == q[t := SetOf(Fresh(e(t), q[t]))]
  {
    hide Fresh, SetOf;
  }

  lemma NoReport(device: int, context: int, p: map<nat, set<nat>>, e: Expired, id: nat)
    ensures Report(device, context, Ascending({}), p, e, id) == []
  {
  }

  lemma KeysInOrder(p: map<nat, set<nat>>, rest: set<nat>)
    requires rest <= p.Keys
    ensures forall i | 0 <= i < |Ascending(rest)| :: Ascending(rest)[i] in p
  {
    AscendingIs(rest);
  }

  /** The messages of the first table, then those of the others. */
  lemma FirstReport(device: int, context: int, ids: seq<nat>, p: map<nat, set<nat>>, prev: map<nat, set<nat>>, e: Expired, id: nat)
    requires ids != [] && forall i | 0 <= i < |ids| :: ids[i] in p
    requires ids[0] in prev && prev[ids[0]] == p[ids[0]]
    ensures var r := Report(device, context, [ids[0]], prev, e, id % TWO64);
      Report(device, context, ids, p, e, id) == r + Report(device, context, ids[1..], p, e, id + |r|)
  {
    assert [ids[0]][1..] == [];
    var r := Report(device, context, [ids[0]], prev, e, id % TWO64);
    assert Report(device, context, [ids[0]][1..], prev, e, id % TWO64) == [];
    assert Report(device, context, [ids[0]][1..], prev, e, id % TWO64 + 1) == [];
  }

  /** Only the buffer id modulo 2^64 matters. */
  lemma {:induction false} ReportModulo(device: int, context: int, ids: seq<nat>, p: map<nat, set<nat>>, e: Expired, a: nat, b: nat)
    requires forall i | 0 <= i < |ids| :: ids[i] in p
    requires a % TWO64 == b % TWO64
    ensures Report(device, context, ids, p, e, a) == Report(device, context, ids, p, e, b)
    decreases |ids|
  {
    if ids != [] {
      ReportModulo(device, context, ids[1..], p, e, a, b);
      ReportModulo(device, context, ids[1..], p, e, a + 1, b + 1);
    }
  }
}
