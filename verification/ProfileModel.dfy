/** Action profiles as maps: members, groups of members, and the references that table entries hold. This is the simple
    form that the profile object refines. */
module ProfileModel {
  import opened Bytes

  /** The largest handle that fits an indirect index. */
  const MAX_HANDLE := 0xFFFFFF

  datatype Code =
    | SUCCESS | BAD_ACTION_DATA | INVALID_HANDLE | INVALID_MBR_HANDLE | INVALID_GRP_HANDLE
    | MBR_STILL_USED | GRP_STILL_USED | MBR_ALREADY_IN_GRP | MBR_NOT_IN_GRP | EMPTY_GRP
    | REFUSED   // the match unit's own refusal
    | ABORTED   // an assertion of the program fails

  datatype Fn = Fn(id: int, params: nat)

  datatype Action = Action(fn: Fn, data: seq<int>)

  /** What a table entry points to. */
  datatype Index = Mbr(h: nat) | Grp(h: nat)

  datatype Model = Model(members: map<nat, Action>, groups: map<nat, set<nat>>, refs: multiset<Index>)

  const NewProfile := Model(map[], map[], multiset{})

  // ---------------------------------------------------------------- handles

  function FreeFrom(s: set<nat>, k: nat): (h: nat)
    ensures h >= k && h !in s
    ensures forall j | k <= j < h :: j in s
    decreases |s|
  {
    if k in s then
      assert forall j | j > k :: j in s <==> j in s - {k};
      FreeFrom(s - {k}, k + 1)
    else k
  }

  /** The lowest handle not in use. */
  function FirstFree(s: set<nat>): (h: nat)
    ensures h !in s && forall j | 0 <= j < h :: j in s
  {
    FreeFrom(s, 0)
  }

  lemma FirstFreeUnique(s: set<nat>, h: nat)
    requires h !in s && forall j | 0 <= j < h :: j in s
    ensures FirstFree(s) == h
  {
  }

  // ---------------------------------------------------------------- references

  /** The groups that contain a member. */
  function Holders(m: Model, h: nat): set<nat>
  {
    set g | g in m.groups && h in m.groups[g]
  }

  function MemberRefs(m: Model, h: nat): nat { |Holders(m, h)| + m.refs[Mbr(h)] }

  function GroupRefs(m: Model, g: nat): nat { m.refs[Grp(g)] }

  /** What a 32-bit counter says of a number. */
  function Wrapped(n: nat): nat { n % TWO32 }

  /** In use, but by so many that the counter reads 0. */
  predicate MemberWraps(m: Model, h: nat) { h in m.members && MemberRefs(m, h) > 0 && Wrapped(MemberRefs(m, h)) == 0 }

  predicate GroupWraps(m: Model, g: nat) { g in m.groups && GroupRefs(m, g) > 0 && Wrapped(GroupRefs(m, g)) == 0 }

  predicate Live(m: Model, i: Index)
  {
    match i
    case Mbr(h) => h in m.members
    case Grp(g) => g in m.groups
  }

  /** Groups hold live members, and table entries hold live members and groups. */
  ghost predicate Consistent(m: Model)
  {
    && (forall g | g in m.groups :: m.groups[g] <= m.members.Keys)
    && (forall i | i in m.refs :: Live(m, i))
  }

  // ---------------------------------------------------------------- operations

  function AddMember(m: Model, a: Action): (Code, nat, Model)
  {
    var h := FirstFree(m.members.Keys);
    if |a.data| != a.fn.params then (BAD_ACTION_DATA, h, m)
    else if h > MAX_HANDLE then (ABORTED, h, m)
    else (SUCCESS, h, m.(members := m.members[h := a]))
  }

  function DeleteMember(m: Model, h: nat): (Code, Model)
  {
    if h !in m.members then (INVALID_MBR_HANDLE, m)
    else if Wrapped(MemberRefs(m, h)) > 0 then (MBR_STILL_USED, m)
    else (SUCCESS, m.(members := m.members - {h}))
  }

  function ModifyMember(m: Model, h: nat, a: Action): (Code, Model)
  {
    if |a.data| != a.fn.params then (BAD_ACTION_DATA, m)
    else if h !in m.members then (INVALID_MBR_HANDLE, m)
    else (SUCCESS, m.(members := m.members[h := a]))
  }

  function CreateGroup(m: Model): (Code, nat, Model)
  {
    var g := FirstFree(m.groups.Keys);
    if g > MAX_HANDLE then (ABORTED, g, m) else (SUCCESS, g, m.(groups := m.groups[g := {}]))
  }

  function DeleteGroup(m: Model, g: nat): (Code, Model)
  {
    if g !in m.groups then (INVALID_GRP_HANDLE, m)
    else if Wrapped(GroupRefs(m, g)) > 0 then (GRP_STILL_USED, m)
    else (SUCCESS, m.(groups := m.groups - {g}))
  }

  function AddToGroup(m: Model, h: nat, g: nat): (Code, Model)
  {
    if h !in m.members then (INVALID_MBR_HANDLE, m)
    else if g !in m.groups then (INVALID_GRP_HANDLE, m)
    else if h in m.groups[g] then (MBR_ALREADY_IN_GRP, m)
    else (SUCCESS, m.(groups := m.groups[g := m.groups[g] + {h}]))
  }

  function RemoveFromGroup(m: Model, h: nat, g: nat): (Code, Model)
  {
    if h !in m.members then (INVALID_MBR_HANDLE, m)
    else if g !in m.groups then (INVALID_GRP_HANDLE, m)
    else if h !in m.groups[g] then (MBR_NOT_IN_GRP, m)
    else (SUCCESS, m.(groups := m.groups[g := m.groups[g] - {h}]))
  }

  function Take(m: Model, i: Index): Model { m.(refs := m.refs + multiset{i}) }

  function Release(m: Model, i: Index): Model { m.(refs := m.refs - multiset{i}) }

  // ---------------------------------------------------------------- what a caller sees of each operation

  /** Nothing but the members changed, and of those only `h`. */
  ghost predicate OnlyMember(m: Model, n: Model, h: nat)
  {
    && n.groups == m.groups && n.refs == m.refs
    && (forall j | j != h :: j in n.members <==> j in m.members)
    && (forall j | j != h && j in m.members && j in n.members :: n.members[j] == m.members[j])
  }

  ghost predicate OnlyGroup(m: Model, n: Model, g: nat)
  {
    && n.members == m.members && n.refs == m.refs
    && (forall j | j != g :: j in n.groups <==> j in m.groups)
    && (forall j | j != g && j in m.groups && j in n.groups :: n.groups[j] == m.groups[j])
  }

  /** Every result code, and after a success the stored action, with all else as it was. */
  lemma AddMemberSeen(m: Model, a: Action)
    ensures var (rc, h, n) := AddMember(m, a);
      && rc in {SUCCESS, BAD_ACTION_DATA, ABORTED} && (rc == BAD_ACTION_DATA <==> |a.data| != a.fn.params)
      && (rc == ABORTED <==> |a.data| == a.fn.params && forall j | 0 <= j <= 0xFF_FFFF :: j in m.members)
      && (rc == SUCCESS ==> h !in m.members && (forall j | 0 <= j < h :: j in m.members) && h <= 0xFF_FFFF)
      && (rc == SUCCESS ==> h in n.members && n.members[h] == a && OnlyMember(m, n, h))
      && (rc != SUCCESS ==> n == m)
  {
  }

  lemma DeleteMemberSeen(m: Model, h: nat)
    ensures var (rc, n) := DeleteMember(m, h);
      && (rc == INVALID_MBR_HANDLE <==> h !in m.members)
      && (rc == SUCCESS <==> h in m.members && (|Holders(m, h)| + m.refs[Mbr(h)]) % 0x1_0000_0000 == 0)
      && rc in {SUCCESS, INVALID_MBR_HANDLE, MBR_STILL_USED}
      && (rc == SUCCESS ==> h !in n.members && OnlyMember(m, n, h)) && (rc != SUCCESS ==> n == m)
    ensures forall g :: g in Holders(m, h) <==> g in m.groups && h in m.groups[g]
  {
  }

  lemma ModifyMemberSeen(m: Model, h: nat, a: Action)
    ensures var (rc, n) := ModifyMember(m, h, a);
      && (rc == BAD_ACTION_DATA <==> |a.data| != a.fn.params)
      && (rc == INVALID_MBR_HANDLE <==> |a.data| == a.fn.params && h !in m.members)
      && rc in {SUCCESS, BAD_ACTION_DATA, INVALID_MBR_HANDLE}
      && (rc == SUCCESS ==> h in n.members && n.members[h] == a && OnlyMember(m, n, h)) && (rc != SUCCESS ==> n == m)
  {
  }

  lemma CreateGroupSeen(m: Model)
    ensures var (rc, g, n) := CreateGroup(m);
      && rc in {SUCCESS, ABORTED} && (rc == ABORTED <==> forall j | 0 <= j <= 0xFF_FFFF :: j in m.groups)
      && (rc == SUCCESS ==> g !in m.groups && (forall j | 0 <= j < g :: j in m.groups) && g <= 0xFF_FFFF)
      && (rc == SUCCESS ==> g in n.groups && n.groups[g] == {} && OnlyGroup(m, n, g))
      && (rc != SUCCESS ==> n == m)
  {
  }

  lemma DeleteGroupSeen(m: Model, g: nat)
    ensures var (rc, n) := DeleteGroup(m, g);
      && (rc == INVALID_GRP_HANDLE <==> g !in m.groups)
      && (rc == SUCCESS <==> g in m.groups && m.refs[Grp(g)] % 0x1_0000_0000 == 0)
      && rc in {SUCCESS, INVALID_GRP_HANDLE, GRP_STILL_USED}
      && (rc == SUCCESS ==> g !in n.groups && OnlyGroup(m, n, g)) && (rc != SUCCESS ==> n == m)
  {
  }

  /** Adding a member to a group and taking it out again, with the order in which the two handles are checked. */
  lemma MembershipSeen(m: Model, h: nat, g: nat)
    ensures var (rc, n) := AddToGroup(m, h, g);
      && (rc == INVALID_MBR_HANDLE <==> h !in m.members)
      && (rc == INVALID_GRP_HANDLE <==> h in m.members && g !in m.groups)
      && (rc == MBR_ALREADY_IN_GRP <==> h in m.members && g in m.groups && h in m.groups[g])
      && (rc == SUCCESS <==> h in m.members && g in m.groups && h !in m.groups[g])
      && (rc == SUCCESS ==> g in n.groups && n.groups[g] == m.groups[g] + {h} && OnlyGroup(m, n, g))
      && (rc != SUCCESS ==> n == m) && (rc == SUCCESS ==> RemoveFromGroup(n, h, g) == (SUCCESS, m))
    ensures var (rc, n) := RemoveFromGroup(m, h, g);
      && (rc == INVALID_MBR_HANDLE <==> h !in m.members)
      && (rc == INVALID_GRP_HANDLE <==> h in m.members && g !in m.groups)
      && (rc == MBR_NOT_IN_GRP <==> h in m.members && g in m.groups && h !in m.groups[g])
      && (rc == SUCCESS <==> h in m.members && g in m.groups && h in m.groups[g])
      && (rc == SUCCESS ==> g in n.groups && n.groups[g] == m.groups[g] - {h} && OnlyGroup(m, n, g))
      && (rc != SUCCESS ==> n == m)
  {
    if AddToGroup(m, h, g).0 == SUCCESS {
      var n := AddToGroup(m, h, g).1;
      assert n.groups[g] - {h} == m.groups[g];
      assert n.groups[g := m.groups[g]] == m.groups;
    }
  }

  /** A member without holders is in no group. */
  lemma NoHolders(m: Model, h: nat)
    requires |Holders(m, h)| == 0
    ensures forall g | g in m.groups :: h !in m.groups[g]
  {
    forall g | g in m.groups ensures h !in m.groups[g] {
      assert h in m.groups[g] ==> g in Holders(m, h);
    }
  }

  lemma UnusedMemberGoes(m: Model, h: nat)
    requires Consistent(m) && MemberRefs(m, h) == 0
    ensures Consistent(m.(members := m.members - {h}))
  {
    NoHolders(m, h);
    assert Mbr(h) !in m.refs;
  }

  lemma StillReferenced(m: Model, h: nat)
    requires MemberRefs(m, h) > 0
    ensures !Consistent(m.(members := m.members - {h}))
  {
    var m' := m.(members := m.members - {h});
    if Holders(m, h) != {} {
      var g :| g in Holders(m, h);
      assert h in m'.groups[g] && h !in m'.members;
    } else {
      assert Mbr(h) in m'.refs && !Live(m', Mbr(h));
    }
  }

  lemma GroupStillReferenced(m: Model, g: nat)
    requires GroupRefs(m, g) > 0
    ensures !Consistent(m.(groups := m.groups - {g}))
  {
    var m' := m.(groups := m.groups - {g});
    assert Grp(g) in m'.refs && !Live(m', Grp(g));
  }

  lemma UnusedGroupGoes(m: Model, g: nat)
    requires Consistent(m) && GroupRefs(m, g) == 0
    ensures Consistent(m.(groups := m.groups - {g}))
  {
    assert Grp(g) !in m.refs;
  }

  /** Deleting a member leaves nothing dangling, exactly when its counter has not wrapped to 0. */
  lemma DeleteMemberConsistentIff(m: Model, h: nat)
    requires Consistent(m)
    ensures Consistent(DeleteMember(m, h).1) <==> !MemberWraps(m, h)
  {
    hide Consistent, Wrapped, MemberRefs;
    if DeleteMember(m, h).0 == SUCCESS {
      if MemberRefs(m, h) == 0 { UnusedMemberGoes(m, h); } else { StillReferenced(m, h); }
    }
  }

  lemma DeleteGroupConsistentIff(m: Model, g: nat)
    requires Consistent(m)
    ensures Consistent(DeleteGroup(m, g).1) <==> !GroupWraps(m, g)
  {
    hide Consistent, Wrapped, GroupRefs;
    if DeleteGroup(m, g).0 == SUCCESS {
      if GroupRefs(m, g) == 0 { UnusedGroupGoes(m, g); } else { GroupStillReferenced(m, g); }
    }
  }

  lemma AddMemberConsistent(m: Model, a: Action)
    requires Consistent(m)
    ensures Consistent(AddMember(m, a).2)
  {
    var m' := AddMember(m, a).2;
    assert m'.groups == m.groups && m'.refs == m.refs && m.members.Keys <= m'.members.Keys;
    forall i | i in m'.refs ensures Live(m', i) { assert Live(m, i); }
  }

  lemma ModifyMemberConsistent(m: Model, h: nat, a: Action)
    requires Consistent(m)
    ensures Consistent(ModifyMember(m, h, a).1)
  {
    var m' := ModifyMember(m, h, a).1;
    assert m'.groups == m.groups && m'.refs == m.refs && m.members.Keys <= m'.members.Keys;
    forall i | i in m'.refs ensures Live(m', i) { assert Live(m, i); }
  }

  lemma GroupsConsistent(m: Model, h: nat, g: nat)
    requires Consistent(m)
    ensures Consistent(CreateGroup(m).2)
    ensures Consistent(AddToGroup(m, h, g).1) && Consistent(RemoveFromGroup(m, h, g).1)
  {
  }

  lemma RefsConsistent(m: Model, i: Index)
    requires Consistent(m)
    ensures Live(m, i) ==> Consistent(Take(m, i))
    ensures Consistent(Release(m, i))
  {
  }
}
