/** Indirect tables over one action profile: which entries point where, and the references they are meant to hold. Any
    number of tables may share the profile; an entry is named by its table and its handle there. */
module ProfileSystem {
  import opened Bytes
  import opened Wrappers
  import opened ProfileModel

  type Key = (nat, nat)

  datatype System = System(m: Model, entries: map<Key, Index>, defaults: map<nat, Index>)

  const NewSystem := System(NewProfile, map[], map[])

  datatype Act =
    | DoAddMember(a: Action) | DoDeleteMember(h: nat) | DoModifyMember(h: nat, a: Action)
    | DoCreateGroup | DoDeleteGroup(g: nat) | DoAddToGroup(h: nat, g: nat) | DoRemoveFromGroup(h: nat, g: nat)
    | DoAddEntry(table: nat, index: Index, unit: Option<nat>)   // the match unit's new handle, or its refusal
    | DoDeleteEntry(key: Key) | DoModifyEntry(key: Key, index: Index)
    | DoSetDefault(table: nat, index: Index)

  /** May a table entry be pointed there? Groups must not be empty. */
  function Target(m: Model, i: Index): Code
  {
    match i
    case Mbr(h) => if h in m.members then SUCCESS else INVALID_MBR_HANDLE
    case Grp(g) => if g !in m.groups then INVALID_GRP_HANDLE else if m.groups[g] == {} then EMPTY_GRP else SUCCESS
  }

  /** The reference is taken before the match unit is asked. A handle in use is never a new one. */
  function AddEntry(s: System, table: nat, i: Index, unit: Option<nat>): (Code, System)
  {
    if Target(s.m, i) != SUCCESS then (Target(s.m, i), s)
    else if unit.None? || (table, unit.value) in s.entries then (REFUSED, s.(m := Take(s.m, i)))
    else (SUCCESS, s.(m := Take(s.m, i), entries := s.entries[(table, unit.value) := i]))
  }

  function DeleteEntry(s: System, k: Key): (Code, System)
  {
    if k !in s.entries then (INVALID_HANDLE, s)
    else (SUCCESS, s.(m := Release(s.m, s.entries[k]), entries := s.entries - {k}))
  }

  /** The old reference is given back before the new target is checked. */
  function ModifyEntry(s: System, k: Key, i: Index): (Code, System)
  {
    if k !in s.entries then (INVALID_HANDLE, s)
    else
      var m := Release(s.m, s.entries[k]);
      if Target(m, i) != SUCCESS then (Target(m, i), s.(m := m))
      else (SUCCESS, s.(m := Take(m, i), entries := s.entries[k := i]))
  }

  /** A default entry needs a live target and takes no reference. */
  function SetDefault(s: System, table: nat, i: Index): (Code, System)
  {
    if !Live(s.m, i) then (if i.Mbr? then INVALID_MBR_HANDLE else INVALID_GRP_HANDLE, s)
    else (SUCCESS, s.(defaults := s.defaults[table := i]))
  }

  /** The profile's own operations. */
  function ProfileStep(m: Model, act: Act): (Code, Model)
  {
    match act
    case DoAddMember(a) => (AddMember(m, a).0, AddMember(m, a).2)
    case DoDeleteMember(h) => DeleteMember(m, h)
    case DoModifyMember(h, a) => ModifyMember(m, h, a)
    case DoCreateGroup => (CreateGroup(m).0, CreateGroup(m).2)
    case DoDeleteGroup(g) => DeleteGroup(m, g)
    case DoAddToGroup(h, g) => AddToGroup(m, h, g)
    case DoRemoveFromGroup(h, g) => RemoveFromGroup(m, h, g)
    case _ => (SUCCESS, m)
  }

  function Step(s: System, act: Act): (Code, System)
  {
    match act
    case DoAddEntry(t, i, u) => AddEntry(s, t, i, u)
    case DoDeleteEntry(k) => DeleteEntry(s, k)
    case DoModifyEntry(k, i) => ModifyEntry(s, k, i)
    case DoSetDefault(t, i) => SetDefault(s, t, i)
    case _ => var r := ProfileStep(s.m, act); (r.0, s.(m := r.1))
  }

  function Run(s: System, acts: seq<Act>): System
    decreases |acts|
  {
    if acts == [] then s else Run(Step(s, acts[0]).1, acts[1..])
  }

  // ---------------------------------------------------------------- what a caller sees of each operation

  /** Nothing but entry `k` changed, and the references to `i`. */
  ghost predicate OnlyEntry(s: System, t: System, k: Key)
  {
    && t.m.members == s.m.members && t.m.groups == s.m.groups && t.defaults == s.defaults
    && (forall j | j != k :: j in t.entries <==> j in s.entries)
    && (forall j | j != k && j in s.entries && j in t.entries :: t.entries[j] == s.entries[j])
  }

  /** Where an entry may point. */
  lemma TargetSeen(m: Model, h: nat)
    ensures Target(m, Mbr(h)) == SUCCESS <==> h in m.members
    ensures Target(m, Grp(h)) == SUCCESS <==> h in m.groups && m.groups[h] != {}
    ensures Target(m, Mbr(h)) in {SUCCESS, INVALID_MBR_HANDLE}
    ensures Target(m, Grp(h)) == INVALID_GRP_HANDLE <==> h !in m.groups
    ensures Target(m, Grp(h)) == EMPTY_GRP <==> h in m.groups && m.groups[h] == {}
  {
  }

  lemma AddEntrySeen(s: System, table: nat, i: Index, unit: Option<nat>)
    ensures var (rc, t) := AddEntry(s, table, i, unit);
      && (Target(s.m, i) != SUCCESS ==> rc == Target(s.m, i) && t == s)
      && (Target(s.m, i) == SUCCESS ==> t.m.refs[i] == s.m.refs[i] + 1 && forall j | j != i :: t.m.refs[j] == s.m.refs[j])
      && (Target(s.m, i) == SUCCESS ==>
           (rc == REFUSED <==> unit.None? || (table, unit.value) in s.entries) && rc in {SUCCESS, REFUSED})
      && (rc == REFUSED && Target(s.m, i) == SUCCESS ==> t.entries == s.entries)
      && (rc == SUCCESS ==> var k := (table, unit.value); k in t.entries && t.entries[k] == i && OnlyEntry(s, t, k))
  {
  }

  lemma DeleteEntrySeen(s: System, k: Key)
    ensures var (rc, t) := DeleteEntry(s, k);
      && (rc == SUCCESS <==> k in s.entries) && (k !in s.entries ==> rc == INVALID_HANDLE && t == s)
      && k !in t.entries && OnlyEntry(s, t, k)
      && (k in s.entries && s.entries[k] in s.m.refs ==> t.m.refs[s.entries[k]] == s.m.refs[s.entries[k]] - 1)
      && forall j | k in s.entries && j != s.entries[k] :: t.m.refs[j] == s.m.refs[j]
  {
  }

  /** The old target's reference goes even when the new target is refused, and then the entry stays. */
  lemma ModifyEntrySeen(s: System, k: Key, i: Index)
    ensures var (rc, t) := ModifyEntry(s, k, i);
      && (rc == INVALID_HANDLE <==> k !in s.entries) && (k !in s.entries ==> t == s)
      && (rc == SUCCESS <==> k in s.entries && Target(s.m, i) == SUCCESS)
      && (k in s.entries && rc != SUCCESS ==> rc == Target(s.m, i) && t.entries == s.entries)
      && (rc == SUCCESS ==> k in t.entries && t.entries[k] == i) && OnlyEntry(s, t, k)
      && (k in s.entries && s.entries[k] in s.m.refs ==>
           forall j :: t.m.refs[j] == s.m.refs[j] - One(j == s.entries[k]) + One(rc == SUCCESS && j == i))
  {
    hide Target;
    if k in s.entries { RefusedTargetUnaffected(s.m, s.entries[k], i); TargetCodes(s.m, i); }
  }

  lemma TargetCodes(m: Model, i: Index)
    ensures Target(m, i) in {SUCCESS, INVALID_MBR_HANDLE, INVALID_GRP_HANDLE, EMPTY_GRP}
  {
  }

  lemma SetDefaultSeen(s: System, table: nat, i: Index)
    ensures var (rc, t) := SetDefault(s, table, i);
      && (rc == SUCCESS <==> Live(s.m, i)) && t.m == s.m && t.entries == s.entries
      && (rc != SUCCESS ==> t == s && rc == if i.Mbr? then INVALID_MBR_HANDLE else INVALID_GRP_HANDLE)
      && (rc == SUCCESS ==> table in t.defaults && t.defaults[table] == i)
      && (forall j | j != table :: j in t.defaults <==> j in s.defaults)
      && (forall j | j != table && j in s.defaults && j in t.defaults :: t.defaults[j] == s.defaults[j])
  {
  }

  /** A step is the operation it names, with the model for the profile's own operations. */
  lemma StepSeen(s: System, h: nat, g: nat, a: Action, t: nat, i: Index, u: Option<nat>, k: Key)
    ensures Step(s, DoAddMember(a)) == (AddMember(s.m, a).0, s.(m := AddMember(s.m, a).2))
    ensures Step(s, DoDeleteMember(h)) == (DeleteMember(s.m, h).0, s.(m := DeleteMember(s.m, h).1))
    ensures Step(s, DoModifyMember(h, a)) == (ModifyMember(s.m, h, a).0, s.(m := ModifyMember(s.m, h, a).1))
    ensures Step(s, DoCreateGroup) == (CreateGroup(s.m).0, s.(m := CreateGroup(s.m).2))
    ensures Step(s, DoDeleteGroup(g)) == (DeleteGroup(s.m, g).0, s.(m := DeleteGroup(s.m, g).1))
    ensures Step(s, DoAddToGroup(h, g)) == (AddToGroup(s.m, h, g).0, s.(m := AddToGroup(s.m, h, g).1))
    ensures Step(s, DoRemoveFromGroup(h, g)) == (RemoveFromGroup(s.m, h, g).0, s.(m := RemoveFromGroup(s.m, h, g).1))
    ensures Step(s, DoAddEntry(t, i, u)) == AddEntry(s, t, i, u) && Step(s, DoDeleteEntry(k)) == DeleteEntry(s, k)
    ensures Step(s, DoModifyEntry(k, i)) == ModifyEntry(s, k, i) && Step(s, DoSetDefault(t, i)) == SetDefault(s, t, i)
  {
    hide AddMember, DeleteMember, ModifyMember, CreateGroup, DeleteGroup, AddToGroup, RemoveFromGroup, AddEntry, DeleteEntry,
      ModifyEntry, SetDefault;
  }

  // ---------------------------------------------------------------- references held and references counted

  function Holding(entries: map<Key, Index>, i: Index): set<Key>
  {
    set k | k in entries && entries[k] == i
  }

  /** How many table entries point there. */
  function Held(entries: map<Key, Index>, i: Index): nat { |Holding(entries, i)| }

  /** References counted but held by no entry. */
  function Surplus(s: System, i: Index): int { s.m.refs[i] - Held(s.entries, i) }

  ghost predicate Covered(s: System)
  {
    forall i :: Surplus(s, i) >= 0
  }

  ghost predicate Sound(s: System)
  {
    Consistent(s.m) && Covered(s)
  }

  function One(b: bool): int { if b then 1 else 0 }

  lemma HeldPut(e: map<Key, Index>, k: Key, i: Index, j: Index)
    requires k !in e
    ensures Held(e[k := i], j) == Held(e, j) + One(i == j)
  {
    assert Holding(e[k := i], j) == Holding(e, j) + (if i == j then {k} else {});
  }

  lemma HeldDrop(e: map<Key, Index>, k: Key, j: Index)
    requires k in e
    ensures Held(e - {k}, j) == Held(e, j) - One(e[k] == j)
  {
    assert Holding(e - {k}, j) == Holding(e, j) - {k};
  }

  lemma HeldMove(e: map<Key, Index>, k: Key, i: Index, j: Index)
    requires k in e
    ensures Held(e[k := i], j) == Held(e, j) - One(e[k] == j) + One(i == j)
  {
    HeldDrop(e, k, j);
    HeldPut(e - {k}, k, i, j);
    assert (e - {k})[k := i] == e[k := i];
  }

  lemma EntryIsHeld(e: map<Key, Index>, k: Key)
    requires k in e
    ensures Held(e, e[k]) > 0
  {
    assert k in Holding(e, e[k]);
  }

  lemma RefusedTargetUnaffected(m: Model, i: Index, j: Index)
    ensures Target(Release(m, i), j) == Target(m, j)
  {
  }

  /** What a step does to the surplus: a refused insertion leaves a reference behind, a modification whose target is
      refused gives back one that the entry still needs. */
  function Change(s: System, act: Act, i: Index): int
  {
    match act
    case DoAddEntry(t, j, u) => One(j == i && AddEntry(s, t, j, u).0 == REFUSED)
    case DoModifyEntry(k, j) => -One(k in s.entries && s.entries[k] == i && Target(s.m, j) != SUCCESS)
    case _ => 0
  }

  lemma ProfileStepRefs(m: Model, act: Act)
    ensures ProfileStep(m, act).1.refs == m.refs
  {
  }

  lemma SurplusAdd(s: System, t: nat, j: Index, u: Option<nat>, i: Index)
    ensures Surplus(AddEntry(s, t, j, u).1, i) == Surplus(s, i) + Change(s, DoAddEntry(t, j, u), i)
  {
    if AddEntry(s, t, j, u).0 == SUCCESS { HeldPut(s.entries, (t, u.value), j, i); }
  }

  lemma SurplusDelete(s: System, k: Key, i: Index)
    requires k in s.entries ==> Surplus(s, s.entries[k]) >= 0
    ensures Surplus(DeleteEntry(s, k).1, i) == Surplus(s, i)
  {
    if k in s.entries {
      EntryIsHeld(s.entries, k);
      HeldDrop(s.entries, k, i);
    }
  }

  lemma SurplusModify(s: System, k: Key, j: Index, i: Index)
    requires k in s.entries ==> Surplus(s, s.entries[k]) >= 0
    ensures Surplus(ModifyEntry(s, k, j).1, i) == Surplus(s, i) + Change(s, DoModifyEntry(k, j), i)
  {
    if k in s.entries {
      EntryIsHeld(s.entries, k);
      HeldMove(s.entries, k, j, i);
      RefusedTargetUnaffected(s.m, s.entries[k], j);
    }
  }

  /** The books over one step: the surplus of every index changes by exactly `Change`. */
  lemma SurplusStep(s: System, act: Act, i: Index)
    requires Covered(s)
    ensures Surplus(Step(s, act).1, i) == Surplus(s, i) + Change(s, act, i)
  {
    hide Surplus, Held, Consistent;
    match act
    case DoAddEntry(t, j, u) => SurplusAdd(s, t, j, u, i);
    case DoDeleteEntry(k) => assert k in s.entries ==> Surplus(s, s.entries[k]) >= 0; SurplusDelete(s, k, i);
    case DoModifyEntry(k, j) => assert k in s.entries ==> Surplus(s, s.entries[k]) >= 0; SurplusModify(s, k, j, i);
    case DoSetDefault(_, _) => SurplusSame(s, Step(s, act).1, i);
    case _ => ProfileStepRefs(s.m, act); SurplusSame(s, Step(s, act).1, i);
  }

  lemma SurplusSame(s: System, s': System, i: Index)
    requires s'.entries == s.entries && s'.m.refs == s.m.refs
    ensures Surplus(s', i) == Surplus(s, i)
  {
  }

  /** A step gives back a reference that some entry still relies on. */
  predicate Drops(s: System, act: Act)
  {
    && act.DoModifyEntry? && act.key in s.entries && Target(s.m, act.index) != SUCCESS
    && Surplus(s, s.entries[act.key]) == 0
  }

  /** A step deletes something that is in use, because its 32-bit counter has come round to 0. */
  predicate Wraps(m: Model, act: Act)
  {
    match act
    case DoDeleteMember(h) => MemberWraps(m, h)
    case DoDeleteGroup(g) => GroupWraps(m, g)
    case _ => false
  }

  lemma ProfileStepConsistentIff(m: Model, act: Act)
    requires Consistent(m)
    ensures Consistent(ProfileStep(m, act).1) <==> !Wraps(m, act)
  {
    hide Consistent, MemberWraps, GroupWraps, AddMember, DeleteMember, ModifyMember, CreateGroup, DeleteGroup, AddToGroup,
      RemoveFromGroup;
    match act
    case DoAddMember(a) => AddMemberConsistent(m, a);
    case DoDeleteMember(h) => DeleteMemberConsistentIff(m, h);
    case DoModifyMember(h, a) => ModifyMemberConsistent(m, h, a);
    case DoDeleteGroup(g) => DeleteGroupConsistentIff(m, g);
    case DoAddToGroup(h, g) => GroupsConsistent(m, h, g);
    case DoRemoveFromGroup(h, g) => GroupsConsistent(m, h, g);
    case DoCreateGroup => GroupsConsistent(m, 0, 0);
    case _ =>
  }

  lemma TargetIsLive(m: Model, i: Index)
    requires Target(m, i) == SUCCESS
    ensures Live(m, i)
  {
  }

  lemma AddEntryConsistent(s: System, t: nat, i: Index, u: Option<nat>)
    requires Consistent(s.m)
    ensures Consistent(AddEntry(s, t, i, u).1.m)
  {
    hide Consistent, Target, Take, Live;
    if Target(s.m, i) == SUCCESS { TargetIsLive(s.m, i); }
    RefsConsistent(s.m, i);
  }

  lemma DeleteEntryConsistent(s: System, k: Key)
    requires Consistent(s.m)
    ensures Consistent(DeleteEntry(s, k).1.m)
  {
    hide Consistent, Release;
    if k in s.entries { RefsConsistent(s.m, s.entries[k]); }
  }

  lemma ModifyEntryConsistent(s: System, k: Key, i: Index)
    requires Consistent(s.m)
    ensures Consistent(ModifyEntry(s, k, i).1.m)
  {
    hide Consistent, Target, Take, Release, Live;
    if k in s.entries {
      var m := Release(s.m, s.entries[k]);
      RefsConsistent(s.m, s.entries[k]);
      RefsConsistent(m, i);
      if Target(m, i) == SUCCESS { TargetIsLive(m, i); }
    }
  }

  lemma StepConsistentIff(s: System, act: Act)
    requires Consistent(s.m)
    ensures Consistent(Step(s, act).1.m) <==> !Wraps(s.m, act)
  {
    hide Consistent, ProfileStep, AddEntry, DeleteEntry, ModifyEntry, MemberWraps, GroupWraps;
    match act
    case DoAddEntry(t, i, u) => AddEntryConsistent(s, t, i, u);
    case DoDeleteEntry(k) => DeleteEntryConsistent(s, k);
    case DoModifyEntry(k, i) => ModifyEntryConsistent(s, k, i);
    case DoSetDefault(_, _) =>
    case _ => ProfileStepConsistentIff(s.m, act);
  }

  lemma StepCoveredIff(s: System, act: Act)
    requires Covered(s)
    ensures Covered(Step(s, act).1) <==> !Drops(s, act)
  {
    hide Step, Surplus, Consistent, Target;
    var s' := Step(s, act).1;
    if Drops(s, act) {
      SurplusStep(s, act, s.entries[act.key]);
      assert Surplus(s', s.entries[act.key]) == -1;
    } else {
      forall i ensures Surplus(s', i) >= 0 {
        SurplusStep(s, act, i);
        assert Surplus(s, i) >= 0;
      }
    }
  }

  /** Exactly when a step keeps every entry's target alive and counted. */
  lemma StepSoundIff(s: System, act: Act)
    requires Sound(s)
    ensures Sound(Step(s, act).1) <==> !Drops(s, act) && !Wraps(s.m, act)
  {
    hide Step, Consistent, Covered, Drops, Wraps;
    StepConsistentIff(s, act);
    StepCoveredIff(s, act);
  }

  ghost predicate NeverDrops(s: System, acts: seq<Act>)
    decreases |acts|
  {
    acts == [] || (!Drops(s, acts[0]) && NeverDrops(Step(s, acts[0]).1, acts[1..]))
  }

  ghost predicate NeverWraps(s: System, acts: seq<Act>)
    decreases |acts|
  {
    acts == [] || (!Wraps(s.m, acts[0]) && NeverWraps(Step(s, acts[0]).1, acts[1..]))
  }

  /** Every state of the run keeps every entry's target alive and counted. */
  ghost predicate SoundThroughout(s: System, acts: seq<Act>)
    decreases |acts|
  {
    Sound(s) && (acts == [] || SoundThroughout(Step(s, acts[0]).1, acts[1..]))
  }

  /** Safety of every run, however members, groups and entries come and go and handles are reused: it lasts exactly as
      long as no modification with a refused target drops a reference that is still needed, and nothing is deleted while
      it has a positive multiple of 2^32 references. */
  lemma {:induction false} RunSoundIff(s: System, acts: seq<Act>)
    requires Sound(s)
    ensures SoundThroughout(s, acts) <==> NeverDrops(s, acts) && NeverWraps(s, acts)
    decreases |acts|
  {
    hide Step, Sound, Drops, Wraps;
    if acts != [] {
      var s' := Step(s, acts[0]).1;
      StepSoundIff(s, acts[0]);
      if Sound(s') { RunSoundIff(s', acts[1..]); }
    }
  }

  /** What soundness gives: every table entry points to something alive. */
  lemma EntriesLive(s: System)
    requires Sound(s)
    ensures forall k | k in s.entries :: Live(s.m, s.entries[k])
  {
    forall k | k in s.entries ensures Live(s.m, s.entries[k]) {
      EntryIsHeld(s.entries, k);
      assert Surplus(s, s.entries[k]) >= 0;
      assert s.entries[k] in s.m.refs;
    }
  }

  lemma NewSystemSound()
    ensures Sound(NewSystem) && NewSystem == System(Model(map[], map[], multiset{}), map[], map[])
  {
    forall i ensures Surplus(NewSystem, i) >= 0 { assert Holding(NewSystem.entries, i) == {}; }
  }

  lemma NoModifyNoDrops(s: System, acts: seq<Act>)
    requires forall j | 0 <= j < |acts| :: !acts[j].DoModifyEntry?
    ensures NeverDrops(s, acts)
    decreases |acts|
  {
    hide Step;
    if acts != [] { NoModifyNoDrops(Step(s, acts[0]).1, acts[1..]); }
  }

  /** A reference left behind stays: nothing but a modification with a refused target ever brings it back. So its member
      or group can never be deleted, except when its counter wraps. */
  lemma {:induction false} LeakStays(s: System, acts: seq<Act>, i: Index)
    requires Sound(s) && Surplus(s, i) > 0 && forall j | 0 <= j < |acts| :: !acts[j].DoModifyEntry?
    ensures Surplus(Run(s, acts), i) >= Surplus(s, i)
    ensures NeverWraps(s, acts) ==> Live(Run(s, acts).m, i)
    decreases |acts|
  {
    LeakGrows(s, acts, i);
    if NeverWraps(s, acts) {
      NoModifyNoDrops(s, acts);
      RunSoundIff(s, acts);
      SoundAtEnd(s, acts);
      assert i in Run(s, acts).m.refs;
    }
  }

  lemma {:induction false} LeakGrows(s: System, acts: seq<Act>, i: Index)
    requires Covered(s) && forall j | 0 <= j < |acts| :: !acts[j].DoModifyEntry?
    ensures Surplus(Run(s, acts), i) >= Surplus(s, i)
    decreases |acts|
  {
    hide Step, Surplus, Covered, AddEntry;
    if acts != [] {
      StepCoveredIff(s, acts[0]);
      SurplusStep(s, acts[0], i);
      LeakGrows(Step(s, acts[0]).1, acts[1..], i);
    }
  }

  lemma {:induction false} SoundAtEnd(s: System, acts: seq<Act>)
    requires SoundThroughout(s, acts)
    ensures Sound(Run(s, acts))
    decreases |acts|
  {
    hide Step, Sound;
    if acts != [] { SoundAtEnd(Step(s, acts[0]).1, acts[1..]); }
  }

  // ---------------------------------------------------------------- what goes wrong

  /** Point an entry at a member that does not exist: the call fails, the entry keeps its old target, but that target can
      now be deleted from under it. */
  lemma FailedModifyLeavesDangling(a: Action)
    requires |a.data| == a.fn.params
    ensures var s := Run(NewSystem, [DoAddMember(a), DoAddEntry(0, Mbr(0), Some(0)), DoModifyEntry((0, 0), Mbr(1)),
                                     DoDeleteMember(0)]);
      (0, 0) in s.entries && s.entries[(0, 0)] == Mbr(0) && !Live(s.m, Mbr(0))
  {
    hide Run, AddMember, FirstFree;
    var m1 := Model(map[0 := a], map[], multiset{});
    var s1 := System(m1, map[], map[]);
    OneMember(a);
    var s2 := System(Take(m1, Mbr(0)), map[(0, 0) := Mbr(0)], map[]);
    assert Step(s1, DoAddEntry(0, Mbr(0), Some(0))).1 == s2;
    var s3 := System(m1, map[(0, 0) := Mbr(0)], map[]);
    assert Release(s2.m, Mbr(0)) == m1;
    assert Step(s2, DoModifyEntry((0, 0), Mbr(1))).1 == s3;
    assert Holders(m1, 0) == {};
    var s4 := Step(s3, DoDeleteMember(0)).1;
    RunFour(NewSystem, DoAddMember(a), DoAddEntry(0, Mbr(0), Some(0)), DoModifyEntry((0, 0), Mbr(1)), DoDeleteMember(0));
  }

  lemma RunFour(s: System, a: Act, b: Act, c: Act, d: Act)
    ensures Run(s, [a, b, c, d]) == Step(Step(Step(Step(s, a).1, b).1, c).1, d).1
  {
    hide Step;
    var s1 := Step(s, a).1;
    var s2 := Step(s1, b).1;
    var s3 := Step(s2, c).1;
    assert [a, b, c, d][1..] == [b, c, d] && [b, c, d][1..] == [c, d] && [c, d][1..] == [d] && [d][1..] == [];
    assert Run(s, [a, b, c, d]) == Run(s1, [b, c, d]);
    assert Run(s1, [b, c, d]) == Run(s2, [c, d]);
    assert Run(s2, [c, d]) == Run(s3, [d]);
    assert Run(s3, [d]) == Run(Step(s3, d).1, []);
  }

  lemma {:induction false} RunConcat(s: System, x: seq<Act>, y: seq<Act>)
    ensures Run(s, x + y) == Run(Run(s, x), y)
    decreases |x|
  {
    hide Step;
    if x == [] {
      assert x + y == y;
    } else {
      assert (x + y)[1..] == x[1..] + y;
      RunConcat(Step(s, x[0]).1, x[1..], y);
    }
  }

  /** Insertions that the match unit refuses. */
  function Refused(n: nat): seq<Act> { seq(n, i => DoAddEntry(0, Mbr(0), None)) }

  /** Each of them leaves a reference behind. */
  lemma {:induction false} RunRefused(s: System, n: nat)
    requires Target(s.m, Mbr(0)) == SUCCESS
    ensures Run(s, Refused(n)) == s.(m := s.m.(refs := s.m.refs[Mbr(0) := s.m.refs[Mbr(0)] + n]))
    decreases n
  {
    if n == 0 {
      assert s.m.refs[Mbr(0) := s.m.refs[Mbr(0)]] == s.m.refs;
    } else {
      var s' := s.(m := Take(s.m, Mbr(0)));
      assert Refused(n)[1..] == Refused(n - 1);
      RunRefused(s', n - 1);
      assert s'.m.refs[Mbr(0) := s'.m.refs[Mbr(0)] + (n - 1)] == s.m.refs[Mbr(0) := s.m.refs[Mbr(0)] + n];
    }
  }

  /** A member, an entry that points to it, `n` refused insertions, and the member deleted. */
  function LeakRun(a: Action, n: nat): seq<Act>
  {
    [DoAddMember(a), DoAddEntry(0, Mbr(0), Some(0))] + Refused(n) + [DoDeleteMember(0)]
  }

  lemma OneMember(a: Action)
    requires |a.data| == a.fn.params
    ensures Step(NewSystem, DoAddMember(a)).1 == System(Model(map[0 := a], map[], multiset{}), map[], map[])
  {
    FirstFreeUnique({}, 0);
    assert NewProfile.members.Keys == {};
  }

  lemma OneEntry(a: Action, m: Model)
    requires |a.data| == a.fn.params && m == Model(map[0 := a], map[], multiset{})
    ensures Run(NewSystem, [DoAddMember(a), DoAddEntry(0, Mbr(0), Some(0))]) == System(Take(m, Mbr(0)), map[(0, 0) := Mbr(0)], map[])
  {
    OneMember(a);
    var x, y := DoAddMember(a), DoAddEntry(0, Mbr(0), Some(0));
    var s1 := System(m, map[], map[]);
    assert [x, y][1..] == [y] && [y][1..] == [];
    assert Step(s1, y).1 == System(Take(m, Mbr(0)), map[(0, 0) := Mbr(0)], map[]);
    assert Run(NewSystem, [x, y]) == Run(s1, [y]) == Run(Step(s1, y).1, []);
  }

  lemma RunOne(s: System, act: Act)
    ensures Run(s, [act]) == Step(s, act).1
  {
    hide Step;
    assert [act][1..] == [];
    assert Run(s, [act]) == Run(Step(s, act).1, []);
  }

  lemma ReferencesAfter(m: Model, n: nat)
    requires m.groups == map[] && m.refs == multiset{}[Mbr(0) := n]
    ensures MemberRefs(m, 0) == n
  {
    assert Holders(m, 0) == {};
  }

  /** With 2^32 - 1 refused insertions the counter comes round to 0: nothing was dropped, and the member is deleted from
      under its entry. */
  lemma LeaksUntilTheCounterWraps(a: Action, n: nat)
    requires |a.data| == a.fn.params && n == TWO32 - 1
    ensures NeverDrops(NewSystem, LeakRun(a, n)) && !NeverWraps(NewSystem, LeakRun(a, n))
    ensures var s := Run(NewSystem, LeakRun(a, n)); s.entries == map[(0, 0) := Mbr(0)] && !Live(s.m, Mbr(0))
  {
    hide *;
    LeakRunEnds(a, n);
    NewSystemSound();
    var s := Run(NewSystem, LeakRun(a, n));
    LeakRunHasNoModify(a, n);
    NoModifyNoDrops(NewSystem, LeakRun(a, n));
    RunSoundIff(NewSystem, LeakRun(a, n));
    DanglingEntry(s, (0, 0));
    if SoundThroughout(NewSystem, LeakRun(a, n)) { SoundAtEnd(NewSystem, LeakRun(a, n)); }
  }

  lemma DanglingEntry(s: System, k: Key)
    ensures k in s.entries && !Live(s.m, s.entries[k]) ==> !Sound(s)
  {
    hide Sound, Live;
    if Sound(s) { EntriesLive(s); }
  }

  lemma LeakRunHasNoModify(a: Action, n: nat)
    ensures forall j | 0 <= j < |LeakRun(a, n)| :: !LeakRun(a, n)[j].DoModifyEntry?
  {
  }

  lemma LeakRunEnds(a: Action, n: nat)
    requires |a.data| == a.fn.params && n == TWO32 - 1
    ensures var s := Run(NewSystem, LeakRun(a, n)); s.entries == map[(0, 0) := Mbr(0)] && !Live(s.m, Mbr(0))
  {
    hide Run, Step, Refused;
    var m := Model(map[0 := a], map[], multiset{});
    var first := [DoAddMember(a), DoAddEntry(0, Mbr(0), Some(0))];
    OneEntry(a, m);
    var s2 := Run(NewSystem, first);
    RunRefused(s2, n);
    RunConcat(NewSystem, first, Refused(n));
    var s3 := Run(NewSystem, first + Refused(n));
    RunConcat(NewSystem, first + Refused(n), [DoDeleteMember(0)]);
    RunOne(s3, DoDeleteMember(0));
    assert s3.m.refs == multiset{}[Mbr(0) := n + 1];
    ReferencesAfter(s3.m, n + 1);
    DeletesWrapped(s3, 0);
  }

  lemma DeletesWrapped(s: System, h: nat)
    requires h in s.m.members && Wrapped(MemberRefs(s.m, h)) == 0
    ensures Step(s, DoDeleteMember(h)).1 == s.(m := s.m.(members := s.m.members - {h}))
  {
  }

  // ---------------------------------------------------------------- default entries

  ghost predicate DefaultsLive(s: System)
  {
    forall t | t in s.defaults :: Live(s.m, s.defaults[t])
  }

  /** Does the step delete what some default entry points to? It does when nothing else seems to. */
  predicate DeletesDefault(s: System, act: Act)
  {
    match act
    case DoDeleteMember(h) => h in s.m.members && Wrapped(MemberRefs(s.m, h)) == 0 && Mbr(h) in s.defaults.Values
    case DoDeleteGroup(g) => g in s.m.groups && Wrapped(GroupRefs(s.m, g)) == 0 && Grp(g) in s.defaults.Values
    case _ => false
  }

  /** Default entries hold no references, so deleting may leave them dangling: exactly when one points there. */
  lemma DefaultsLiveIff(s: System, act: Act)
    requires DefaultsLive(s)
    ensures DefaultsLive(Step(s, act).1) <==> !DeletesDefault(s, act)
  {
    hide Wrapped, MemberRefs, GroupRefs;
    var s' := Step(s, act).1;
    if DeletesDefault(s, act) {
      var i := if act.DoDeleteMember? then Mbr(act.h) else Grp(act.g);
      var t :| t in s.defaults && s.defaults[t] == i;
      assert !Live(s'.m, s'.defaults[t]);
    } else {
      forall t | t in s'.defaults ensures Live(s'.m, s'.defaults[t]) {
        if t in s.defaults { assert Live(s.m, s.defaults[t]); assert s.defaults[t] in s.defaults.Values; }
      }
    }
  }

  ghost predicate NeverDeletesDefault(s: System, acts: seq<Act>)
    decreases |acts|
  {
    acts == [] || (!DeletesDefault(s, acts[0]) && NeverDeletesDefault(Step(s, acts[0]).1, acts[1..]))
  }

  ghost predicate DefaultsLiveThroughout(s: System, acts: seq<Act>)
    decreases |acts|
  {
    DefaultsLive(s) && (acts == [] || DefaultsLiveThroughout(Step(s, acts[0]).1, acts[1..]))
  }

  /** In every run default entries keep their targets exactly as long as no such target is deleted. */
  lemma {:induction false} RunDefaultsLiveIff(s: System, acts: seq<Act>)
    requires DefaultsLive(s)
    ensures DefaultsLiveThroughout(s, acts) <==> NeverDeletesDefault(s, acts)
    decreases |acts|
  {
    hide Step, DefaultsLive, DeletesDefault;
    if acts != [] {
      DefaultsLiveIff(s, acts[0]);
      if !DeletesDefault(s, acts[0]) { RunDefaultsLiveIff(Step(s, acts[0]).1, acts[1..]); }
    }
  }

  /** A member, a default entry that points to it, and the member can be deleted. */
  lemma DefaultIsLeftDangling(a: Action)
    requires |a.data| == a.fn.params
    ensures var s := Run(NewSystem, [DoAddMember(a), DoSetDefault(0, Mbr(0)), DoDeleteMember(0)]);
      Sound(s) && s.defaults == map[0 := Mbr(0)] && !Live(s.m, Mbr(0))
  {
    var x, y, z := DoAddMember(a), DoSetDefault(0, Mbr(0)), DoDeleteMember(0);
    var m := Model(map[0 := a], map[], multiset{});
    OneMember(a);
    var s2 := System(m, map[], map[0 := Mbr(0)]);
    assert Step(System(m, map[], map[]), y).1 == s2;
    assert Holders(m, 0) == {};
    var s3 := Step(s2, z).1;
    assert [x, y, z][1..] == [y, z] && [y, z][1..] == [z];
    RunOne(s2, z);
    assert Run(NewSystem, [x, y, z]) == s3;
    forall i ensures Surplus(s3, i) >= 0 { assert Holding(s3.entries, i) == {}; }
  }

  /** A reset clears the match units and then the profile; default entries stay. With groups about, the profile is not
      in order afterwards. */
  function Reset(s: System): Option<System>
  {
    if s.m.groups != map[] then None else Some(System(NewProfile, map[], s.defaults))
  }

  /** After a reset the entries are safe, and every default entry dangles. */
  lemma ResetStrandsDefaults(s: System)
    requires s.m.groups == map[]
    ensures Reset(s).Some? && Reset(s).value == System(Model(map[], map[], multiset{}), map[], s.defaults)
    ensures Sound(Reset(s).value) && forall t | t in s.defaults :: !Live(NewProfile, Reset(s).value.defaults[t])
    ensures DefaultsLive(Reset(s).value) <==> s.defaults == map[]
  {
    var s' := Reset(s).value;
    forall i ensures Surplus(s', i) >= 0 { assert Holding(s'.entries, i) == {}; }
    if s.defaults != map[] {
      var t :| t in s.defaults;
      assert !Live(s'.m, s'.defaults[t]);
    }
  }
}
