/** The action profile object: vectors indexed by handle that never shrink, sets of live handles, 32-bit reference
    counters, and groups kept beside them. It refines the maps of `ProfileModel`. */
module ActionProfiles {
  import opened Bytes
  import opened Wrappers
  import opened ProfileModel
  import opened HandleSets

  // ---------------------------------------------------------------- counters

  function Inc(c: nat): nat { (c + 1) % TWO32 }

  function Dec(c: nat): nat { (c + TWO32 - 1) % TWO32 }

  lemma IncWrapped(n: nat)
    ensures Inc(Wrapped(n)) == Wrapped(n + 1)
  {
  }

  lemma DecWrapped(n: nat)
    requires n > 0
    ensures Dec(Wrapped(n)) == Wrapped(n - 1)
  {
  }

  // ---------------------------------------------------------------- vectors and live handles

  /** Write slot `h`, which may be the one just past the end. */
  function Store<T>(v: seq<T>, h: nat, x: T): (r: seq<T>)
    requires h <= |v|
    ensures |r| == (if h == |v| then |v| + 1 else |v|) && r[h] == x && forall j | 0 <= j < |v| && j != h :: r[j] == v[j]
  {
    if h == |v| then v + [x] else v[h := x]
  }

  predicate Inside(hs: set<nat>, n: nat) { forall h | h in hs :: h < n }

  /** The live slots of a vector. */
  function Pick<T>(v: seq<T>, hs: set<nat>): map<nat, T>
    requires Inside(hs, |v|)
  {
    map h | h in hs :: v[h]
  }

  lemma PickAt<T>(v: seq<T>, hs: set<nat>, h: nat)
    requires Inside(hs, |v|)
    ensures Pick(v, hs).Keys == hs && (h in hs ==> h < |v| && Pick(v, hs)[h] == v[h])
  {
  }

  lemma PickStore<T>(v: seq<T>, hs: set<nat>, h: nat, x: T)
    requires Inside(hs, |v|) && h <= |v|
    ensures Inside(hs + {h}, |Store(v, h, x)|) && Pick(Store(v, h, x), hs + {h}) == Pick(v, hs)[h := x]
  {
  }

  lemma PickDrop<T>(v: seq<T>, hs: set<nat>, h: nat)
    requires Inside(hs, |v|)
    ensures forall n :: Inside(hs, n) ==> Inside(hs - {h}, n)
    ensures Pick(v, hs - {h}) == Pick(v, hs) - {h}
  {
  }

  lemma FirstFreeInside(hs: set<nat>, n: nat)
    requires Inside(hs, n)
    ensures FirstFree(hs) <= n
  {
    assert FirstFree(hs) > n ==> n in hs;
  }

  // ---------------------------------------------------------------- what the counters must say

  /** Counters of live members and groups are the true numbers of references, as far as 32 bits can tell. */
  ghost predicate Counts(m: Model, mbr: seq<nat>, grp: seq<nat>)
  {
    && (forall h | h in m.members :: h < |mbr| && mbr[h] == Wrapped(MemberRefs(m, h)))
    && (forall g | g in m.groups :: g < |grp| && grp[g] == Wrapped(GroupRefs(m, g)))
  }

  lemma SameHolders(m: Model, m': Model, h: nat)
    requires forall g :: (g in m.groups && h in m.groups[g]) <==> (g in m'.groups && h in m'.groups[g])
    ensures Holders(m', h) == Holders(m, h)
  {
  }

  lemma CountsAfterAddMember(m: Model, a: Action, mbr: seq<nat>, grp: seq<nat>)
    requires Consistent(m) && Counts(m, mbr, grp) && AddMember(m, a).0 == SUCCESS && FirstFree(m.members.Keys) <= |mbr|
    ensures Counts(AddMember(m, a).2, Store(mbr, FirstFree(m.members.Keys), 0), grp)
  {
    hide FirstFree, Consistent, Holders;
    var (_, h, m') := AddMember(m, a);
    forall j | j in m'.members ensures Holders(m', j) == Holders(m, j) { SameHolders(m, m', j); }
    NewMemberUnused(m, h);
  }

  lemma NewMemberUnused(m: Model, h: nat)
    requires Consistent(m) && h !in m.members
    ensures Holders(m, h) == {} && m.refs[Mbr(h)] == 0
  {
    assert !Live(m, Mbr(h));
  }

  lemma CountsAfterMembers(m: Model, members: map<nat, Action>, mbr: seq<nat>, grp: seq<nat>)
    requires Counts(m, mbr, grp) && members.Keys <= m.members.Keys
    ensures Counts(m.(members := members), mbr, grp)
  {
    var m' := m.(members := members);
    forall j | j in m.members ensures Holders(m', j) == Holders(m, j) { SameHolders(m, m', j); }
  }

  lemma CountsAfterCreateGroup(m: Model, mbr: seq<nat>, grp: seq<nat>)
    requires Consistent(m) && Counts(m, mbr, grp) && FirstFree(m.groups.Keys) <= |grp| && CreateGroup(m).0 == SUCCESS
    ensures Counts(CreateGroup(m).2, mbr, Store(grp, FirstFree(m.groups.Keys), 0))
  {
    var (_, g, m') := CreateGroup(m);
    hide FirstFree;
    forall j | j in m.members ensures Holders(m', j) == Holders(m, j) { SameHolders(m, m', j); }
    assert !Live(m, Grp(g)) && m.refs[Grp(g)] == 0;
  }

  /** Deleting a group takes one reference from each of its members. */
  lemma CountsAfterDeleteGroup(m: Model, g: nat, mbr: seq<nat>, mbr': seq<nat>, grp: seq<nat>)
    requires Counts(m, mbr, grp) && g in m.groups && |mbr'| == |mbr|
    requires forall h | 0 <= h < |mbr| :: mbr'[h] == if h in m.groups[g] then Dec(mbr[h]) else mbr[h]
    ensures Counts(m.(groups := m.groups - {g}), mbr', grp)
  {
    hide Wrapped, Inc, Dec, MemberRefs;
    var m' := m.(groups := m.groups - {g});
    forall h | h in m'.members ensures h < |mbr'| && mbr'[h] == Wrapped(MemberRefs(m', h)) {
      HoldersWithout(m, g, h);
      if h in m.groups[g] { DecWrapped(MemberRefs(m, h)); }
    }
  }

  lemma HoldersWithout(m: Model, g: nat, h: nat)
    requires g in m.groups
    ensures MemberRefs(m, h) == MemberRefs(m.(groups := m.groups - {g}), h) + if h in m.groups[g] then 1 else 0
  {
    assert Holders(m, h) == Holders(m.(groups := m.groups - {g}), h) + (if h in m.groups[g] then {g} else {});
  }

  /** Putting a member into a group moves one reference. */
  lemma CountsAfterAddToGroup(m: Model, h: nat, g: nat, mbr: seq<nat>, grp: seq<nat>)
    requires Counts(m, mbr, grp) && h in m.members && g in m.groups && h !in m.groups[g]
    ensures Counts(AddToGroup(m, h, g).1, mbr[h := Inc(mbr[h])], grp)
  {
    hide Wrapped, Inc, Dec;
    var m' := AddToGroup(m, h, g).1;
    forall j | j in m.members && j != h ensures Holders(m', j) == Holders(m, j) { SameHolders(m, m', j); }
    assert Holders(m', h) == Holders(m, h) + {g};
    IncWrapped(MemberRefs(m, h));
  }

  lemma CountsAfterRemoveFromGroup(m: Model, h: nat, g: nat, mbr: seq<nat>, grp: seq<nat>)
    requires Counts(m, mbr, grp) && h in m.members && g in m.groups && h in m.groups[g]
    ensures Counts(RemoveFromGroup(m, h, g).1, mbr[h := Dec(mbr[h])], grp)
  {
    hide Wrapped, Inc, Dec;
    var m' := RemoveFromGroup(m, h, g).1;
    forall j | j in m.members && j != h ensures Holders(m', j) == Holders(m, j) { SameHolders(m, m', j); }
    assert Holders(m, h) == Holders(m', h) + {g};
    DecWrapped(MemberRefs(m, h));
  }

  /** A table takes a reference. */
  lemma CountsAfterTake(m: Model, i: Index, mbr: seq<nat>, grp: seq<nat>)
    requires Counts(m, mbr, grp) && Live(m, i)
    ensures i.Mbr? ==> Counts(Take(m, i), mbr[i.h := Inc(mbr[i.h])], grp)
    ensures i.Grp? ==> Counts(Take(m, i), mbr, grp[i.h := Inc(grp[i.h])])
  {
    hide Wrapped, Inc, Dec;
    forall j | j in m.members ensures Holders(Take(m, i), j) == Holders(m, j) { SameHolders(m, Take(m, i), j); }
    IncWrapped(if i.Mbr? then MemberRefs(m, i.h) else GroupRefs(m, i.h));
  }

  lemma HeldIsLive(m: Model, i: Index)
    requires Consistent(m) && i in m.refs
    ensures Live(m, i)
  {
  }

  lemma MemberCounter(m: Model, h: nat, mbr: seq<nat>, grp: seq<nat>)
    requires Counts(m, mbr, grp) && h in m.members
    ensures h < |mbr| && mbr[h] == Wrapped(MemberRefs(m, h))
  {
  }

  lemma GroupCounter(m: Model, g: nat, mbr: seq<nat>, grp: seq<nat>)
    requires Counts(m, mbr, grp) && g in m.groups
    ensures g < |grp| && grp[g] == Wrapped(GroupRefs(m, g))
  {
  }

  /** A table gives a reference back. */
  lemma CountsAfterRelease(m: Model, i: Index, mbr: seq<nat>, grp: seq<nat>)
    requires Counts(m, mbr, grp) && Live(m, i) && i in m.refs
    ensures i.Mbr? ==> Counts(Release(m, i), mbr[i.h := Dec(mbr[i.h])], grp)
    ensures i.Grp? ==> Counts(Release(m, i), mbr, grp[i.h := Dec(grp[i.h])])
  {
    hide Wrapped, Inc, Dec;
    forall j | j in m.members ensures Holders(Release(m, i), j) == Holders(m, j) { SameHolders(m, Release(m, i), j); }
    DecWrapped(if i.Mbr? then MemberRefs(m, i.h) else GroupRefs(m, i.h));
  }

  // ---------------------------------------------------------------- looking up an action

  /** The action a table entry leads to: the member itself, or the member of the group that the packet's hash picks;
      `None` where an assertion fails or the hash is taken modulo 0. */
  function Lookup(m: Model, withSelection: bool, i: Index, hash: nat): Option<Action>
  {
    match i
    case Mbr(h) => if h in m.members then Some(m.members[h]) else None
    case Grp(g) =>
      if !withSelection || g !in m.groups || m.groups[g] == {} then None
      else
        var h := Nth(m.groups[g], hash % |m.groups[g]|);
        if h in m.members then Some(m.members[h]) else None
  }

  /** A live index fails only for a group without members, or a group on a profile without selection. */
  lemma LookupFailsIff(m: Model, withSelection: bool, i: Index, hash: nat)
    requires Consistent(m) && Live(m, i)
    ensures Lookup(m, withSelection, i, hash).None? <==> i.Grp? && (!withSelection || m.groups[i.h] == {})
  {
  }

  /** A live member leads to its own action. A group leads to the action of the member with exactly as many smaller ones
      in the group as the hash leaves on division by the group's size. */
  lemma LookupPicks(m: Model, withSelection: bool, i: Index, hash: nat)
    requires Consistent(m) && Live(m, i)
    ensures i.Mbr? ==> Lookup(m, withSelection, i, hash) == Some(m.members[i.h])
    ensures i.Grp? && withSelection && m.groups[i.h] != {} ==>
              exists h :: h in m.groups[i.h] && h in m.members && |Below(m.groups[i.h], h)| == hash % |m.groups[i.h]| &&
                Lookup(m, withSelection, i, hash) == Some(m.members[h])
  {
    hide Nth, Below;
    if i.Grp? && withSelection && m.groups[i.h] != {} {
      var n := hash % |m.groups[i.h]|;
      NthHasRank(m.groups[i.h], n);
      assert Nth(m.groups[i.h], n) in m.members;
    }
  }

  /** A group leads to the actions of its members and to all of them. */
  lemma GroupLookupIsFair(m: Model, g: nat, h: nat)
    requires Consistent(m) && g in m.groups && h in m.groups[g]
    ensures exists hash: nat :: hash < |m.groups[g]| && Lookup(m, true, Grp(g), hash) == Some(m.members[h])
    ensures forall hash: nat :: exists j :: j in m.groups[g] && Lookup(m, true, Grp(g), hash) == Some(m.members[j])
  {
    hide Nth;
    EveryElementIsNth(m.groups[g], h);
    var n: nat :| n < |m.groups[g]| && Nth(m.groups[g], n) == h;
    assert n % |m.groups[g]| == n;
    assert Lookup(m, true, Grp(g), n) == Some(m.members[h]);
    forall hash: nat ensures exists j :: j in m.groups[g] && Lookup(m, true, Grp(g), hash) == Some(m.members[j]) {
      var j := Nth(m.groups[g], hash % |m.groups[g]|);
      assert j in m.groups[g] && Lookup(m, true, Grp(g), hash) == Some(m.members[j]);
    }
  }

  // ---------------------------------------------------------------- the object

  class ActionProfile {
    const withSelection: bool
    var entries: seq<Action>
    var mbrCount: seq<nat>
    var grpCount: seq<nat>
    var mbrHandles: set<nat>
    var grpHandles: set<nat>
    var groups: seq<set<nat>>
    var numMembers: nat
    var numGroups: nat
    ghost var refs: multiset<Index>   // the references tables have taken and not given back

    ghost predicate Shape()
      reads this
    {
      && Inside(mbrHandles, |entries|) && |mbrCount| == |entries|
      && Inside(grpHandles, |groups|) && |groups| <= |grpCount|
      && numMembers == |mbrHandles| && numGroups == |grpHandles|
      && Inside(mbrHandles, MAX_HANDLE + 1) && Inside(grpHandles, MAX_HANDLE + 1)
    }

    /** The maps that the vectors stand for. */
    ghost function Abs(): Model
      reads this
      requires Shape()
    {
      Model(Pick(entries, mbrHandles), Pick(groups, grpHandles), refs)
    }

    ghost predicate Valid()
      reads this
    {
      Shape() && Consistent(Abs()) && Counts(Abs(), mbrCount, grpCount)
    }

    constructor (withSelection: bool)
      ensures Valid() && Abs() == NewProfile && this.withSelection == withSelection
      ensures entries == [] && groups == [] && mbrHandles == {} && grpHandles == {}
    {
      this.withSelection := withSelection;
      entries, mbrCount, grpCount, groups := [], [], [], [];
      mbrHandles, grpHandles := {}, {};
      numMembers, numGroups := 0, 0;
      refs := multiset{};
    }

    method AddMember(a: Action) returns (rc: Code, h: nat)
      requires Valid()
      modifies this
      ensures Valid() && (rc, h, Abs()) == ProfileModel.AddMember(old(Abs()), a)
    {
      hide Counts, Consistent, FirstFree, Pick;
      FirstFreeInside(mbrHandles, |entries|);
      PickAt(entries, mbrHandles, 0);
      h := FirstFree(mbrHandles);
      if |a.data| != a.fn.params { return BAD_ACTION_DATA, h; }
      if h > MAX_HANDLE { return ABORTED, h; }
      CountsAfterAddMember(Abs(), a, mbrCount, grpCount);
      AddMemberConsistent(Abs(), a);
      PickStore(entries, mbrHandles, h, a);
      mbrHandles := mbrHandles + {h};
      entries := Store(entries, h, a);
      mbrCount := Store(mbrCount, h, 0);
      numMembers := numMembers + 1;
      rc := SUCCESS;
    }

    /** The counter decides, and it wraps: a member with a positive multiple of 2^32 references is deleted although it is
        in use, and then some group or table entry dangles. In no other case is the profile left out of order. */
    method DeleteMember(h: nat) returns (rc: Code)
      requires Valid()
      modifies this`mbrHandles, this`numMembers
      ensures Shape() && (rc, Abs()) == ProfileModel.DeleteMember(old(Abs()), h)
      ensures Valid() <==> !MemberWraps(old(Abs()), h)
    {
      hide Counts, Consistent, Wrapped, MemberRefs, Live, Inside, Pick;
      ghost var m := Abs();
      PickAt(entries, mbrHandles, h);
      DeleteMemberConsistentIff(m, h);
      if h !in mbrHandles { return INVALID_MBR_HANDLE; }
      MemberCounter(m, h, mbrCount, grpCount);
      if mbrCount[h] > 0 { return MBR_STILL_USED; }
      CountsAfterMembers(m, m.members - {h}, mbrCount, grpCount);
      PickDrop(entries, mbrHandles, h);
      mbrHandles := mbrHandles - {h};
      numMembers := numMembers - 1;
      rc := SUCCESS;
    }

    method ModifyMember(h: nat, a: Action) returns (rc: Code)
      requires Valid()
      modifies this`entries
      ensures Valid() && (rc, Abs()) == ProfileModel.ModifyMember(old(Abs()), h, a)
    {
      hide Counts, Consistent;
      if |a.data| != a.fn.params { return BAD_ACTION_DATA; }
      if h !in mbrHandles { return INVALID_MBR_HANDLE; }
      ModifyMemberConsistent(Abs(), h, a);
      CountsAfterMembers(Abs(), Abs().members[h := a], mbrCount, grpCount);
      PickStore(entries, mbrHandles, h, a);
      assert mbrHandles + {h} == mbrHandles;
      entries := entries[h := a];
      rc := SUCCESS;
    }

    method CreateGroup() returns (rc: Code, g: nat)
      requires Valid()
      modifies this
      ensures Valid() && (rc, g, Abs()) == ProfileModel.CreateGroup(old(Abs()))
    {
      hide Counts, Consistent, FirstFree, Pick;
      FirstFreeInside(grpHandles, |groups|);
      PickAt(groups, grpHandles, 0);
      g := FirstFree(grpHandles);
      if g > MAX_HANDLE { return ABORTED, g; }
      CountsAfterCreateGroup(Abs(), mbrCount, grpCount);
      GroupsConsistent(Abs(), 0, 0);
      PickStore(groups, grpHandles, g, {});
      grpHandles := grpHandles + {g};
      groups := Store(groups, g, {});
      grpCount := Store(grpCount, g, 0);
      numGroups := numGroups + 1;
      rc := SUCCESS;
    }

    /** Take one reference from every member of a group that is about to go. */
    method ReleaseMembers(g: nat)
      requires Valid() && g in grpHandles
      modifies this`mbrCount
      ensures Shape() && |mbrCount| == |old(mbrCount)|
      ensures forall h | 0 <= h < |mbrCount| :: mbrCount[h] == if h in groups[g] then Dec(old(mbrCount)[h]) else old(mbrCount)[h]
    {
      assert Inside(groups[g], |mbrCount|) by { assert Abs().groups[g] <= Abs().members.Keys; }
      hide Counts, Consistent, Dec;
      var rest := groups[g];
      while rest != {}
        invariant rest <= groups[g] && |mbrCount| == |old(mbrCount)|
        invariant forall h | 0 <= h < |mbrCount| ::
          mbrCount[h] == if h in groups[g] - rest then Dec(old(mbrCount)[h]) else old(mbrCount)[h]
      {
        var h := Least(rest);
        mbrCount := mbrCount[h := Dec(mbrCount[h])];
        rest := rest - {h};
      }
    }

    /** As with members, a positive multiple of 2^32 references looks like none. */
    method DeleteGroup(g: nat) returns (rc: Code)
      requires Valid()
      modifies this`grpHandles, this`numGroups, this`mbrCount
      ensures Shape() && (rc, Abs()) == ProfileModel.DeleteGroup(old(Abs()), g)
      ensures Valid() <==> !GroupWraps(old(Abs()), g)
    {
      hide Counts, Consistent, Wrapped, GroupRefs, Dec, Live, Pick, Inside;
      ghost var m := Abs();
      PickAt(groups, grpHandles, g);
      DeleteGroupConsistentIff(m, g);
      if g !in grpHandles { return INVALID_GRP_HANDLE; }
      GroupCounter(m, g, mbrCount, grpCount);
      if grpCount[g] > 0 { return GRP_STILL_USED; }
      ReleaseMembers(g);
      CountsAfterDeleteGroup(m, g, old(mbrCount), mbrCount, grpCount);
      PickDrop(groups, grpHandles, g);
      grpHandles := grpHandles - {g};
      numGroups := numGroups - 1;
      rc := SUCCESS;
    }

    method AddMemberToGroup(h: nat, g: nat) returns (rc: Code)
      requires Valid()
      modifies this`groups, this`mbrCount
      ensures Valid() && (rc, Abs()) == ProfileModel.AddToGroup(old(Abs()), h, g)
    {
      hide Counts, Consistent;
      if h !in mbrHandles { return INVALID_MBR_HANDLE; }
      if g !in grpHandles { return INVALID_GRP_HANDLE; }
      if h in groups[g] { return MBR_ALREADY_IN_GRP; }
      CountsAfterAddToGroup(Abs(), h, g, mbrCount, grpCount);
      GroupsConsistent(Abs(), h, g);
      PickStore(groups, grpHandles, g, groups[g] + {h});
      assert grpHandles + {g} == grpHandles;
      groups := groups[g := groups[g] + {h}];
      mbrCount := mbrCount[h := Inc(mbrCount[h])];
      rc := SUCCESS;
    }

    method RemoveMemberFromGroup(h: nat, g: nat) returns (rc: Code)
      requires Valid()
      modifies this`groups, this`mbrCount
      ensures Valid() && (rc, Abs()) == ProfileModel.RemoveFromGroup(old(Abs()), h, g)
    {
      hide Counts, Consistent;
      if h !in mbrHandles { return INVALID_MBR_HANDLE; }
      if g !in grpHandles { return INVALID_GRP_HANDLE; }
      if h !in groups[g] { return MBR_NOT_IN_GRP; }
      CountsAfterRemoveFromGroup(Abs(), h, g, mbrCount, grpCount);
      GroupsConsistent(Abs(), h, g);
      PickStore(groups, grpHandles, g, groups[g] - {h});
      assert grpHandles + {g} == grpHandles;
      groups := groups[g := groups[g] - {h}];
      mbrCount := mbrCount[h := Dec(mbrCount[h])];
      rc := SUCCESS;
    }

    /** The counter of an index, one up or one down. */
    method Count(i: Index, up: bool)
      requires if i.Mbr? then i.h < |mbrCount| else i.h < |grpCount|
      modifies this`mbrCount, this`grpCount
      ensures mbrCount == if i.Mbr? then old(mbrCount)[i.h := if up then Inc(old(mbrCount)[i.h]) else Dec(old(mbrCount)[i.h])] else old(mbrCount)
      ensures grpCount == if i.Grp? then old(grpCount)[i.h := if up then Inc(old(grpCount)[i.h]) else Dec(old(grpCount)[i.h])] else old(grpCount)
    {
      if i.Mbr? {
        mbrCount := mbrCount[i.h := if up then Inc(mbrCount[i.h]) else Dec(mbrCount[i.h])];
      } else {
        grpCount := grpCount[i.h := if up then Inc(grpCount[i.h]) else Dec(grpCount[i.h])];
      }
    }

    /** Tables call this for an index that they have checked to be live. */
    method RefCountIncrease(i: Index)
      requires Valid() && Live(Abs(), i)
      modifies this`mbrCount, this`grpCount, this`refs
      ensures Valid() && Abs() == Take(old(Abs()), i)
    {
      hide Counts, Consistent;
      CountsAfterTake(Abs(), i, mbrCount, grpCount);
      RefsConsistent(Abs(), i);
      hide Pick, Inc, Dec;
      Count(i, true);
      refs := refs + multiset{i};
    }

    /** Tables call this for an index that they hold a reference to. */
    method RefCountDecrease(i: Index)
      requires Valid() && i in Abs().refs
      modifies this`mbrCount, this`grpCount, this`refs
      ensures Valid() && Abs() == Release(old(Abs()), i)
    {
      hide Counts, Consistent;
      HeldIsLive(Abs(), i);
      CountsAfterRelease(Abs(), i, mbrCount, grpCount);
      RefsConsistent(Abs(), i);
      hide Pick, Inc, Dec;
      Count(i, false);
      refs := refs - multiset{i};
    }

    method LookupAction(i: Index, hash: nat) returns (r: Option<Action>)
      requires Valid()
      ensures r == Lookup(Abs(), withSelection, i, hash)
      ensures i.Mbr? && i.h in Abs().members ==> r == Some(Abs().members[i.h])
      ensures i.Grp? && withSelection && i.h in Abs().groups && Abs().groups[i.h] != {} ==>
        exists h :: h in Abs().groups[i.h] && h in Abs().members &&
          |Below(Abs().groups[i.h], h)| == hash % |Abs().groups[i.h]| && r == Some(Abs().members[h])
    {
      if Live(Abs(), i) { LookupPicks(Abs(), withSelection, i, hash); }
      hide Consistent, Counts, Below;
      if i.Grp? && !withSelection { return None; }
      var h := i.h;
      if i.Grp? {
        if i.h !in grpHandles || groups[i.h] == {} { return None; }
        h := Nth(groups[i.h], hash % |groups[i.h]|);
      }
      if h !in mbrHandles { return None; }
      return Some(entries[h]);
    }

    /** Everything is cleared but the set of group handles, so the object is in order again exactly when there were no
        groups; and the next group would be stored past the end of the vector exactly when handle 0 was in use. The
        tables are reset with the profile and hold no references afterwards. */
    method ResetState()
      modifies this
      ensures grpHandles == old(grpHandles)
      ensures Valid() <==> old(grpHandles) == {}
      ensures Valid() ==> Abs() == NewProfile
      ensures groups == [] && entries == []
      ensures FirstFree(grpHandles) > |groups| <==> 0 in old(grpHandles)
    {
      mbrCount, grpCount, entries, groups := [], [], [], [];
      mbrHandles := {};
      numMembers, numGroups := 0, 0;
      refs := multiset{};
      if grpHandles != {} {
        var g :| g in grpHandles;
        assert !Inside(grpHandles, |groups|);
      }
    }
  }

  /** One group and a reset: the handle is still taken, so the next group would be number 1 in an empty vector, where the
      assertion that a new group goes to the end at the latest fails. */
  method GroupAfterReset() returns (p: ActionProfile)
    ensures fresh(p) && p.grpHandles == {0} && p.groups == [] && !p.Valid()
    ensures FirstFree(p.grpHandles) == 1 > |p.groups|
  {
    hide Pick, Counts, Consistent, FirstFree, ProfileModel.CreateGroup, Inside;
    FirstGroup();
    p := new ActionProfile(true);
    var rc, first := p.CreateGroup();
    PickAt(p.groups, p.grpHandles, 0);
    p.ResetState();
    FirstFreeUnique({0}, 1);
  }

  lemma FirstGroup()
    ensures ProfileModel.CreateGroup(NewProfile).2 == Model(map[], map[0 := {}], multiset{})
  {
    FirstFreeUnique({}, 0);
    assert NewProfile.groups.Keys == {};
  }
}
