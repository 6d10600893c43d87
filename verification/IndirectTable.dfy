/** Match tables whose entries point into an action profile. Any number of them may share one profile. The match unit that
    finds entries by key is outside; its answers are parameters. */
module IndirectTables {
  import opened Wrappers
  import opened ProfileModel
  import opened ProfileSystem
  import opened ActionProfiles
  import opened HandleSets

  // ---------------------------------------------------------------- one table among others

  /** What one table holds: its entries by handle, and its default entry. */
  datatype View = View(entries: map<nat, Index>, default: Option<Index>)

  /** What all other tables over the profile hold. */
  datatype Rest = Rest(entries: map<Key, Index>, defaults: map<nat, Index>)

  ghost predicate Apart(table: nat, rest: Rest)
  {
    (forall k | k in rest.entries :: k.0 != table) && table !in rest.defaults
  }

  /** The table's entries as the system of all tables names them. */
  function Keyed(table: nat, entries: map<nat, Index>): (m: map<Key, Index>)
    ensures forall k: Key :: k in m <==> k.0 == table && k.1 in entries
    ensures forall k: Key | k in m :: m[k] == entries[k.1]
  {
    map k: Key | k in (set h | h in entries :: (table, h)) :: entries[k.1]
  }

  /** The system that a table is part of. */
  function Joined(m: Model, table: nat, v: View, rest: Rest): System
  {
    System(m, rest.entries + Keyed(table, v.entries),
           if v.default.Some? then rest.defaults[table := v.default.value] else rest.defaults)
  }

  lemma JoinedPut(m: Model, table: nat, v: View, rest: Rest, h: nat, i: Index)
    requires Apart(table, rest)
    ensures var s := Joined(m, table, v, rest);
      Joined(m, table, v.(entries := v.entries[h := i]), rest) == s.(entries := s.entries[(table, h) := i])
  {
    hide Keyed;
    var e, f := Keyed(table, v.entries), Keyed(table, v.entries[h := i]);
    assert rest.entries + f == (rest.entries + e)[(table, h) := i];
  }

  lemma JoinedDrop(m: Model, table: nat, v: View, rest: Rest, h: nat)
    requires Apart(table, rest)
    ensures var s := Joined(m, table, v, rest);
      Joined(m, table, v.(entries := v.entries - {h}), rest) == s.(entries := s.entries - {(table, h)})
  {
    hide Keyed;
    var e, f := Keyed(table, v.entries), Keyed(table, v.entries - {h});
    assert rest.entries + f == rest.entries + e - {(table, h)};
  }

  lemma JoinedHas(m: Model, table: nat, v: View, rest: Rest, h: nat)
    requires Apart(table, rest)
    ensures var s := Joined(m, table, v, rest);
      s.m == m && ((table, h) in s.entries <==> h in v.entries) && (h in v.entries ==> s.entries[(table, h)] == v.entries[h])
  {
    hide Keyed;
  }

  lemma JoinedModel(m: Model, n: Model, table: nat, v: View, rest: Rest)
    ensures Joined(n, table, v, rest) == Joined(m, table, v, rest).(m := n)
  {
  }

  lemma JoinedDefault(m: Model, table: nat, v: View, rest: Rest, i: Index)
    requires Apart(table, rest)
    ensures var s := Joined(m, table, v, rest);
      Joined(m, table, v.(default := Some(i)), rest) == s.(defaults := s.defaults[table := i])
  {
    hide Keyed;
  }

  /** What a packet gets when nothing matches and there is no default entry. */
  const EmptyAction := Action(Fn(-1, 0), [])

  lemma HeldIsCounted(s: System, k: Key)
    requires Sound(s) && k in s.entries
    ensures s.entries[k] in s.m.refs && Live(s.m, s.entries[k])
  {
    EntryIsHeld(s.entries, k);
    assert Surplus(s, s.entries[k]) >= 0;
  }

  class IndirectTable {
    const id: nat
    const profile: ActionProfile
    var entries: map<nat, Index>
    var defaultIndex: Option<Index>

    constructor (id: nat, profile: ActionProfile)
      ensures this.id == id && this.profile == profile && entries == map[] && defaultIndex == None
    {
      this.id, this.profile := id, profile;
      entries, defaultIndex := map[], None;
    }

    ghost predicate Valid()
      reads this, profile
    {
      profile.Valid()
    }

    ghost function Shown(): View
      reads this
    {
      View(entries, defaultIndex)
    }

    /** The whole system: the profile, this table, and all others that share the profile. */
    ghost function Sys(rest: Rest): System
      reads this, profile
      requires Valid()
    {
      Joined(profile.Abs(), id, Shown(), rest)
    }

    method CheckTarget(i: Index) returns (rc: Code)
      requires Valid()
      ensures rc == Target(profile.Abs(), i) && (rc == SUCCESS ==> Live(profile.Abs(), i))
    {
      if i.Mbr? {
        rc := if i.h in profile.mbrHandles then SUCCESS else INVALID_MBR_HANDLE;
      } else if i.h !in profile.grpHandles {
        rc := INVALID_GRP_HANDLE;
      } else {
        rc := if |profile.groups[i.h]| == 0 then EMPTY_GRP else SUCCESS;
      }
    }

    /** Point a new entry at a member or a group; `unit` is the match unit's answer, a handle not in use or a refusal. */
    method AddEntry(i: Index, unit: Option<nat>, ghost rest: Rest) returns (rc: Code)
      requires Valid() && Apart(id, rest)
      requires unit.Some? ==> unit.value !in entries
      modifies this`entries, profile
      ensures Valid() && (rc, Sys(rest)) == ProfileSystem.AddEntry(old(Sys(rest)), id, i, unit)
      ensures defaultIndex == old(defaultIndex)
    {
      hide Joined;
      ghost var m := profile.Abs();
      JoinedModel(m, Take(m, i), id, Shown(), rest);
      rc := CheckTarget(i);
      JoinedHas(m, id, Shown(), rest, if unit.Some? then unit.value else 0);
      if rc != SUCCESS { return; }
      if unit.Some? { JoinedPut(Take(m, i), id, Shown(), rest, unit.value, i); }
      profile.RefCountIncrease(i);
      if unit.None? { return REFUSED; }
      entries := entries[unit.value := i];
    }

    /** Gives back the entry's reference, so that the system of all tables stays sound. */
    method DeleteEntry(h: nat, ghost rest: Rest) returns (rc: Code)
      requires Valid() && Apart(id, rest) && Sound(Sys(rest))
      modifies this`entries, profile
      ensures Valid() && (rc, Sys(rest)) == ProfileSystem.DeleteEntry(old(Sys(rest)), (id, h))
      ensures Sound(Sys(rest)) && defaultIndex == old(defaultIndex)
    {
      hide Joined, Sound;
      ghost var m := profile.Abs();
      StepSoundIff(Sys(rest), DoDeleteEntry((id, h)));
      JoinedHas(m, id, Shown(), rest, h);
      if h !in entries { return INVALID_HANDLE; }
      HeldIsCounted(Sys(rest), (id, h));
      JoinedDrop(m, id, Shown(), rest, h);
      JoinedModel(m, Release(m, entries[h]), id, View(entries - {h}, defaultIndex), rest);
      profile.RefCountDecrease(entries[h]);
      entries := entries - {h};
      rc := SUCCESS;
    }

    /** Point an entry elsewhere. The system of all tables stays sound exactly when the call does not give back a reference
        that the entry, left as it was, still needs. */
    method ModifyEntry(h: nat, i: Index, ghost rest: Rest) returns (rc: Code)
      requires Valid() && Apart(id, rest) && Sound(Sys(rest))
      modifies this`entries, profile
      ensures Valid() && (rc, Sys(rest)) == ProfileSystem.ModifyEntry(old(Sys(rest)), (id, h), i)
      ensures Sound(Sys(rest)) <==> !Drops(old(Sys(rest)), DoModifyEntry((id, h), i))
      ensures defaultIndex == old(defaultIndex)
    {
      hide Joined, Sound, Drops, Live, Consistent, Counts, Inside, Pick;
      ghost var m := profile.Abs();
      StepSoundIff(Sys(rest), DoModifyEntry((id, h), i));
      JoinedHas(m, id, Shown(), rest, h);
      if h !in entries { return INVALID_HANDLE; }
      HeldIsCounted(Sys(rest), (id, h));
      ghost var released := Release(m, entries[h]);
      JoinedModel(m, released, id, Shown(), rest);
      JoinedModel(m, Take(released, i), id, Shown(), rest);
      JoinedPut(Take(released, i), id, Shown(), rest, h, i);
      profile.RefCountDecrease(entries[h]);
      rc := CheckTarget(i);
      if rc != SUCCESS { return; }
      profile.RefCountIncrease(i);
      entries := entries[h := i];
    }

    method SetDefault(i: Index, ghost rest: Rest) returns (rc: Code)
      requires Valid() && Apart(id, rest)
      modifies this`defaultIndex
      ensures Valid() && (rc, Sys(rest)) == ProfileSystem.SetDefault(old(Sys(rest)), id, i)
    {
      hide Joined;
      JoinedHas(profile.Abs(), id, Shown(), rest, 0);
      if i.Mbr? && i.h !in profile.mbrHandles { return INVALID_MBR_HANDLE; }
      if i.Grp? && i.h !in profile.grpHandles { return INVALID_GRP_HANDLE; }
      JoinedDefault(profile.Abs(), id, Shown(), rest, i);
      defaultIndex := Some(i);
      rc := SUCCESS;
    }

    /** A reset empties the match unit and leaves the default entry as it is. */
    method ResetState()
      modifies this`entries
      ensures Shown() == old(Shown()).(entries := map[])
    {
      entries := map[];
    }

    /** The action for a packet; `hit` is the match unit's answer. When the system of all tables is sound, a hit never fails
        an assertion, unless its group has lost all its members. */
    method LookupPacket(hit: Option<nat>, hash: nat, ghost rest: Rest) returns (r: Option<Action>)
      requires Valid() && Apart(id, rest) && Sound(Sys(rest)) && (hit.Some? ==> hit.value in entries)
      ensures hit.Some? ==> Live(profile.Abs(), entries[hit.value])
      ensures hit.Some? && r.None? ==> entries[hit.value].Grp?
      ensures hit.Some? && entries[hit.value].Grp? ==>
        (r.None? <==> !profile.withSelection || profile.Abs().groups[entries[hit.value].h] == {})
      ensures hit.Some? && entries[hit.value].Mbr? ==> r == Some(profile.Abs().members[entries[hit.value].h])
      ensures hit.Some? && r.Some? ==> r == Lookup(profile.Abs(), profile.withSelection, entries[hit.value], hash)
      ensures hit.Some? && r.Some? && entries[hit.value].Grp? ==>
        var m, g := profile.Abs(), profile.Abs().groups[entries[hit.value].h];
        exists h :: h in g && h in m.members && |Below(g, h)| == hash % |g| && r == Some(m.members[h])
      ensures hit.None? ==> r == match defaultIndex
        case None => Some(EmptyAction)
        case Some(i) => Lookup(profile.Abs(), profile.withSelection, i, hash)
    {
      if hit.None? && defaultIndex.None? { return Some(EmptyAction); }
      var i := if hit.Some? then entries[hit.value] else defaultIndex.value;
      if hit.Some? {
        JoinedHas(profile.Abs(), id, Shown(), rest, hit.value);
        HeldIsCounted(Sys(rest), (id, hit.value));
        LookupFailsIff(profile.Abs(), profile.withSelection, i, hash);
      }
      r := profile.LookupAction(i, hash);
    }
  }

  // ---------------------------------------------------------------- all tables over one profile

  function AllEntries(vs: seq<View>): (m: map<Key, Index>)
    ensures forall k: Key :: k in m <==> k.0 < |vs| && k.1 in vs[k.0].entries
    ensures forall k: Key | k in m :: m[k] == vs[k.0].entries[k.1]
  {
    map k: Key | k in (set t: nat, h | t < |vs| && h in vs[t].entries :: (t, h)) :: vs[k.0].entries[k.1]
  }

  function AllDefaults(vs: seq<View>): map<nat, Index>
  {
    map t: nat | t < |vs| && vs[t].default.Some? :: vs[t].default.value
  }

  function Together(m: Model, vs: seq<View>): System { System(m, AllEntries(vs), AllDefaults(vs)) }

  const Nothing := View(map[], None)

  function RestOf(vs: seq<View>, t: nat): Rest
    requires t < |vs|
  {
    Rest(AllEntries(vs[t := Nothing]), AllDefaults(vs[t := Nothing]))
  }

  /** Any one table and the rest make up the whole, whatever the table holds. */
  lemma OneAndRest(m: Model, vs: seq<View>, t: nat, v: View)
    requires t < |vs|
    ensures Apart(t, RestOf(vs, t)) && Joined(m, t, v, RestOf(vs, t)) == Together(m, vs[t := v])
  {
    EntriesSplit(vs, t, v);
    DefaultsSplit(vs, t, v);
    hide Keyed, AllEntries, AllDefaults;
  }

  lemma EntriesSplit(vs: seq<View>, t: nat, v: View)
    requires t < |vs|
    ensures AllEntries(vs[t := v]) == AllEntries(vs[t := Nothing]) + Keyed(t, v.entries)
    ensures forall k | k in AllEntries(vs[t := Nothing]) :: k.0 != t
  {
    hide AllEntries, Keyed;
    var a, b, c := AllEntries(vs[t := v]), AllEntries(vs[t := Nothing]), Keyed(t, v.entries);
    forall k: Key
      ensures k in a <==> k in b + c
      ensures k in a ==> a[k] == (b + c)[k]
    {
      if k.0 < |vs| && k.0 != t { assert vs[t := v][k.0] == vs[t := Nothing][k.0]; }
    }
  }

  lemma DefaultsSplit(vs: seq<View>, t: nat, v: View)
    requires t < |vs|
    ensures t !in AllDefaults(vs[t := Nothing])
    ensures AllDefaults(vs[t := v]) ==
            if v.default.Some? then AllDefaults(vs[t := Nothing])[t := v.default.value] else AllDefaults(vs[t := Nothing])
  {
  }

  /** Table `t` of the list has id `t`, and all share the profile. */
  ghost predicate Sharing(profile: ActionProfile, tables: seq<IndirectTable>)
  {
    forall t | 0 <= t < |tables| :: tables[t].id == t && tables[t].profile == profile
  }

  ghost function Views(tables: seq<IndirectTable>): (vs: seq<View>)
    reads tables
    ensures |vs| == |tables| && forall t | 0 <= t < |tables| :: vs[t] == tables[t].Shown()
  {
    seq(|tables|, t requires 0 <= t < |tables| reads tables => tables[t].Shown())
  }

  ghost function Whole(profile: ActionProfile, tables: seq<IndirectTable>): System
    requires profile.Shape()
    reads profile, tables
  {
    Together(profile.Abs(), Views(tables))
  }

  /** The tables that a step names exist. */
  predicate Addressed(act: Act, n: nat)
  {
    match act
    case DoAddEntry(t, _, _) => t < n
    case DoDeleteEntry(k) => k.0 < n
    case DoModifyEntry(k, _) => k.0 < n
    case DoSetDefault(t, _) => t < n
    case _ => true
  }

  /** Seen from one table, with the others as they were. */
  lemma WholeFrom(profile: ActionProfile, tables: seq<IndirectTable>, vs: seq<View>, t: nat)
    requires Sharing(profile, tables) && profile.Valid() && t < |tables| == |vs|
    requires forall j | 0 <= j < |tables| && j != t :: vs[j] == tables[j].Shown()
    ensures Apart(t, RestOf(vs, t)) && Whole(profile, tables) == tables[t].Sys(RestOf(vs, t))
  {
    hide Joined, Together, Apart, RestOf;
    var v := tables[t].Shown();
    OneAndRest(profile.Abs(), vs, t, v);
    assert Views(tables) == vs[t := v];
  }

  /** A handle in use is as good as a refusal. */
  lemma UsedIsRefused(s: System, t: nat, i: Index, unit: Option<nat>)
    requires unit.Some? && (t, unit.value) in s.entries
    ensures ProfileSystem.AddEntry(s, t, i, unit) == ProfileSystem.AddEntry(s, t, i, None)
  {
  }

  /** One step of the system, carried out on the objects: entries and defaults by the tables, the rest by the profile. */
  method Perform(profile: ActionProfile, tables: seq<IndirectTable>, act: Act) returns (rc: Code)
    requires Sharing(profile, tables) && profile.Valid() && Sound(Whole(profile, tables)) && Addressed(act, |tables|)
    modifies profile, tables
    ensures profile.Shape() && (rc, Whole(profile, tables)) == Step(old(Whole(profile, tables)), act)
    ensures profile.Valid() <==> !Wraps(old(profile.Abs()), act)
    ensures Sound(Whole(profile, tables)) <==> !Drops(old(Whole(profile, tables)), act) && !Wraps(old(profile.Abs()), act)
  {
    StepSoundIff(Whole(profile, tables), act);
    match act
    case DoAddEntry(_, _, _) => rc := PerformOnTable(profile, tables, act);
    case DoDeleteEntry(_) => rc := PerformOnTable(profile, tables, act);
    case DoModifyEntry(_, _) => rc := PerformOnTable(profile, tables, act);
    case DoSetDefault(_, _) => rc := PerformOnTable(profile, tables, act);
    case _ => rc := PerformOnProfile(profile, tables, act);
  }

  predicate OnTable(act: Act) { act.DoAddEntry? || act.DoDeleteEntry? || act.DoModifyEntry? || act.DoSetDefault? }

  method PerformOnTable(profile: ActionProfile, tables: seq<IndirectTable>, act: Act) returns (rc: Code)
    requires Sharing(profile, tables) && profile.Valid() && Sound(Whole(profile, tables)) && Addressed(act, |tables|)
    requires OnTable(act)
    modifies profile, tables
    ensures profile.Valid() && (rc, Whole(profile, tables)) == Step(old(Whole(profile, tables)), act)
  {
    hide Whole, Joined, RestOf, Apart, Sound, Views, ProfileSystem.AddEntry, ProfileSystem.DeleteEntry,
      ProfileSystem.ModifyEntry, ProfileSystem.SetDefault;
    ghost var vs := Views(tables);
    var t := if act.DoAddEntry? || act.DoSetDefault? then act.table else act.key.0;
    ghost var rest := RestOf(vs, t);
    WholeFrom(profile, tables, vs, t);
    match act {
      case DoAddEntry(_, i, unit) =>
        if unit.Some? && unit.value in tables[t].entries {
          JoinedHas(profile.Abs(), t, tables[t].Shown(), rest, unit.value);
          UsedIsRefused(Whole(profile, tables), t, i, unit);
          rc := tables[t].AddEntry(i, None, rest);
        } else {
          rc := tables[t].AddEntry(i, unit, rest);
        }
      case DoDeleteEntry(k) => rc := tables[t].DeleteEntry(k.1, rest);
      case DoModifyEntry(k, i) => rc := tables[t].ModifyEntry(k.1, i, rest);
      case DoSetDefault(_, i) => rc := tables[t].SetDefault(i, rest);
    }
    WholeFrom(profile, tables, vs, t);
  }

  method PerformOnProfile(profile: ActionProfile, tables: seq<IndirectTable>, act: Act) returns (rc: Code)
    requires profile.Valid() && !OnTable(act)
    modifies profile
    ensures profile.Shape() && (rc, profile.Abs()) == ProfileStep(old(profile.Abs()), act)
    ensures Views(tables) == old(Views(tables))
    ensures profile.Valid() <==> !Wraps(old(profile.Abs()), act)
  {
    var h;
    match act {
      case DoAddMember(a) => rc, h := profile.AddMember(a);
      case DoDeleteMember(h) => rc := profile.DeleteMember(h);
      case DoModifyMember(h, a) => rc := profile.ModifyMember(h, a);
      case DoCreateGroup => rc, h := profile.CreateGroup();
      case DoDeleteGroup(g) => rc := profile.DeleteGroup(g);
      case DoAddToGroup(h, g) => rc := profile.AddMemberToGroup(h, g);
      case DoRemoveFromGroup(h, g) => rc := profile.RemoveMemberFromGroup(h, g);
    }
  }

  /** A run of the objects is a run of the system, and sound at every step as long as no needed reference is dropped and
      no wrapped counter is trusted. */
  method PerformAll(profile: ActionProfile, tables: seq<IndirectTable>, acts: seq<Act>)
    requires Sharing(profile, tables) && profile.Valid() && Sound(Whole(profile, tables))
    requires forall k | 0 <= k < |acts| :: Addressed(acts[k], |tables|)
    requires NeverDrops(Whole(profile, tables), acts) && NeverWraps(Whole(profile, tables), acts)
    modifies profile, tables
    ensures profile.Valid() && Sound(Whole(profile, tables))
    ensures Whole(profile, tables) == Run(old(Whole(profile, tables)), acts)
  {
    hide Whole, Sound, Drops, Wraps, Step;
    var i := 0;
    assert acts[0..] == acts;
    while i < |acts|
      invariant 0 <= i <= |acts| && profile.Valid() && Sound(Whole(profile, tables))
      invariant NeverDrops(Whole(profile, tables), acts[i..]) && NeverWraps(Whole(profile, tables), acts[i..])
      invariant Run(Whole(profile, tables), acts[i..]) == Run(old(Whole(profile, tables)), acts)
    {
      assert acts[i..][0] == acts[i] && acts[i..][1..] == acts[i + 1..];
      WholeModel(profile, tables);
      var rc := Perform(profile, tables, acts[i]);
      i := i + 1;
    }
  }

  /** All match units are emptied, then the profile is. */
  method ResetAll(profile: ActionProfile, tables: seq<IndirectTable>)
    requires Sharing(profile, tables) && profile.Shape()
    modifies profile, tables
    ensures match Reset(old(Whole(profile, tables)))
      case Some(s) => profile.Valid() && Whole(profile, tables) == s
      case None => !profile.Valid()
  {
    PickAt(profile.groups, profile.grpHandles, 0);
    assert profile.Abs().groups == map[] <==> profile.grpHandles == {};
    var t := 0;
    while t < |tables|
      invariant 0 <= t <= |tables| && profile.grpHandles == old(profile.grpHandles)
      invariant forall j | 0 <= j < |tables| ::
        tables[j].Shown() == if j < t then old(tables[j].Shown()).(entries := map[]) else old(tables[j].Shown())
    {
      tables[t].ResetState();
      t := t + 1;
    }
    profile.ResetState();
    Emptied(old(Views(tables)), Views(tables));
  }

  lemma WholeModel(profile: ActionProfile, tables: seq<IndirectTable>)
    requires profile.Shape()
    ensures Whole(profile, tables).m == profile.Abs()
  {
  }

  lemma Emptied(vs: seq<View>, ws: seq<View>)
    requires |ws| == |vs| && forall t | 0 <= t < |vs| :: ws[t] == vs[t].(entries := map[])
    ensures AllEntries(ws) == map[] && AllDefaults(ws) == AllDefaults(vs)
  {
    hide AllEntries;
    assert forall k: Key :: k !in AllEntries(ws);
  }
}
