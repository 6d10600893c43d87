# Verified model of a software switch's stateful cores

A Dafny model of the parts of the bmv2 software switch where state and arithmetic meet: the longest-prefix-match trie,
action profiles and the tables that point into them, the Internet checksum and the configurable CRC, the ageing
monitor, the expression compiler and its evaluator, the action builder, and four small codecs. Each part is written in
the form the source has: heap nodes changed in place, objects with counters and vectors, loops with a cursor. Beside it
stands a simple form (a map of bit prefixes, maps of members and groups, polynomial division, direct evaluation of a
tree), and the proofs connect the two over every input and every run.

`dafny verify dfyconfig.toml` checks everything.

## What is in the files

| files | about |
|---|---|
| `Wrappers.dfy`, `Bits.dfy`, `Rekeying.dfy`, `HandleSets.dfy` | options and joined sequences, bytes and bit strings, maps under a change of keys, sets walked in order |
| `LpmNodes.dfy`, `LpmKeys.dfy`, `LpmTree.dfy` | trie nodes as values, addressing by bit prefixes, shape invariants |
| `LpmDelete.dfy`, `LpmContents.dfy`, `LpmRuns.dfy` | what delete takes away for every state of the counters; the map of bit prefixes, and runs |
| `LpmHeap.dfy`, `LpmTrie.dfy` | the trie on the heap: nodes with parent links, and the five operations |
| `ProfileModel.dfy`, `ProfileSystem.dfy` | action profiles as maps; all tables over one profile, and their runs |
| `ActionProfile.dfy`, `IndirectTable.dfy`, `ProfileTokens.dfy` | the profile object with 32-bit counters, tables that share it, save and restore |
| `Checksum.dfy`, `Gf2.dfy`, `Crc.dfy`, `CrcLaws.dfy` | RFC 1071 checksums, polynomial division modulo 2, the table-driven CRC and its laws |
| `Ageing.dfy` | the ageing monitor and what its runs report |
| `ExprLang.dfy`, `ExprCompile.dfy`, `ExprRun.dfy`, `ExprBuild.dfy`, `ExprCode.dfy` | expressions: evaluator, flat code, simulation, builder, objects |
| `ActionBuilder.dfy` | actions: primitives, parameter windows, temporaries, execution with jumps |
| `KeyCodec.dfy`, `ActionData.dfy`, `DebugMsg.dfy` | match keys, action data, debugger messages |

## Findings

Properties that hold only under a condition are proved as an equivalence with that condition.

- **Trie, delete.** The upward loop of delete frees a node when two 8-bit counters read 0
  (`src/bf_lpm_trie/bf_lpm_trie.c:280-291`), and both can read 0 on a node that still holds something. For every trie,
  whatever its counters say, delete removes its prefix and exactly the prefixes stored at or below the nodes that the
  loop frees, so it is map removal exactly when there are none; a run is the plain map without those it has lost so. For
  runs that overwrite no stored 0 the condition can be read off the plain map (`LpmRuns.RunRefinesPlainIff`).
- **Trie, branch counter.** `branch_num` is 8 bits wide (line 40): a node with all 256 branches reads 0. With exact
  prefix counters this is the only cause, and `LpmContents.DeleteLosesAFullNode` reaches it with 257 inserts.
- **Trie, stored 0.** Insert tests the stored value and not its presence (line 119), so overwriting a stored 0 counts the
  prefix again; the counters stay exact throughout a run exactly when that never happens. After 256 stores of 0 under
  one prefix `pref_num` reads 0, and `LpmContents.DeleteLosesAnOverwrittenZero` loses that prefix by deleting another
  from its node, which has no branches at all.
- **Trie, no memory release.** With `auto_shrink` false, delete only reports whether the prefix is stored.
- **Action profile, counters.** Counters wrap at 2^32: something in use is deleted exactly when its count is a positive
  multiple of 2^32. `ProfileSystem.LeaksUntilTheCounterWraps` gets there by refused insertions alone.
- **Action profile, reset.** `reset_state` leaves the group handles, so the object is in order afterwards exactly when
  there were no groups. With one group, the next would be number 1 in an empty vector, and the assertion on its place
  fails (`ActionProfiles.GroupAfterReset`).
- **Action profile, restore.** Restoring a saved profile works exactly when the group handles have no gap;
  `ProfileTokens.RestoreFailsOnAGap` makes one.
- **Indirect tables.** Modifying an entry gives the old reference back before the new target is checked
  (`src/bm_sim/match_tables.cpp:730-762`); when the target is refused, the entry keeps pointing to a member that may now
  be deleted. Adding an entry takes the reference before the match unit is asked (lines 687-690); a refusal leaves it
  behind. A run stays safe exactly as long as no such modification drops a needed reference and nothing is deleted at a
  positive multiple of 2^32 references.
- **Default entries** take no reference, so their targets can be deleted, and a reset clears the match unit and the
  profile but not them (lines 861-863): without groups about, every default entry that was set dangles afterwards.
- **Checksum.** `verify_` and the receiver's test of RFC 1071 differ in exactly one case: the other words sum to 0xFFFF
  and the stored field is 0xFFFF, as in the header of `Checksum.ReceiverTestDiffers`.
- **Expressions.** `access_field` reports no type (`src/bm_sim/P4Objects.cpp:298-300`), so a well-typed tree builds
  exactly when no comparison has such an operand and no conditional has exactly one such branch.
- **Action data.** The number 0 comes back as one byte, so a parameter of zero bits fails an assertion; all others
  survive.
- **Debugger messages.** After a payload the reader advances by the count and not by the number of bytes
  (`tools/p4dbg.py:275-285`), so the offset it returns is the message length exactly when no payload with a unit above
  one byte is present and non-empty; it lags on the backtrace of `DebugMsg.OneCounterLags`. All formats in use have their
  payload last, so no field is misread; in a format with fields behind a wide payload they are read early, and a number
  arrives exactly when the bytes there are its own (`DebugMsg.ArrivesIff`, `DebugMsg.NumberMisread`).

Where code and documentation disagree the code is followed: `docs/JSON_format.md:117-126` gives `access_union_header` as
an operation and says that dereferencing a union stack yields a header; the builder has no case for the first, and the
second yields a union.

## Model

| member | source | states |
|---|---|---|
| LpmKeys.PrefixKeyInjective | src/bf_lpm_trie/bf_lpm_trie.c:107-110 | the in-node key determines the length and the leading bits, and is 0 only for length 0 |
| LpmKeys.PrefixKeyBits | src/bf_lpm_trie/bf_lpm_trie.c:107-110 | the key of a byte stands for exactly its leading bits, whatever the other bits are |
| LpmKeys.Located | src/bf_lpm_trie/bf_lpm_trie.c:143-165 | the node and key that a prefix leads to stand for exactly its leading bits |
| LpmKeys.PrefixBitAt | src/bf_lpm_trie/bf_lpm_trie.c:107-110 | bit i of a prefix is bit 7 - i % 8 of byte i / 8, so the most significant bit of the first byte comes first |
| LpmKeys.EntrySplit | src/bf_lpm_trie/bf_lpm_trie.c:107-110 | every bit prefix has a place in the trie |
| LpmKeys.SplitEntry | src/bf_lpm_trie/bf_lpm_trie.c:107-110 | and only one: node and key can be read back from the bits |
| LpmTree.AtMost255 | src/bf_lpm_trie/bf_lpm_trie.c:36-44 | a node holds at most 255 prefixes, so a count of them fits `pref_num`; the counter itself is off after a stored 0 is overwritten |
| LpmTree.InsertKeepsInvIff | src/bf_lpm_trie/bf_lpm_trie.c:112-122 | shape, exact counters and "every node but the root has a branch or a prefix" survive an insert exactly when no stored 0 is overwritten |
| LpmTree.RemoveShape | src/bf_lpm_trie/bf_lpm_trie.c:277-292 | delete keeps the shape invariants, removes its slot, and never changes or invents another |
| LpmDelete.RemoveExact | src/bf_lpm_trie/bf_lpm_trie.c:277-292 | for every trie and every state of its counters, delete takes away its slot and exactly what is stored at or below a node that its loop frees |
| LpmDelete.RemoveSlotsIff | src/bf_lpm_trie/bf_lpm_trie.c:277-292 | so it empties its own slot and no other exactly when no freed node has another prefix at or below it |
| LpmDelete.LosesIffFreedNodeHolds | src/bf_lpm_trie/bf_lpm_trie.c:280-291 | in a trie without useless nodes: exactly when no freed node has another prefix or another branch |
| LpmDelete.ExactCountersIff | src/bf_lpm_trie/bf_lpm_trie.c:280-291 | with exact prefix counters others are lost exactly when the prefix is the last of a node with all 256 branches |
| LpmDelete.WrapLoses | src/bf_lpm_trie/bf_lpm_trie.c:280-291 | when the branch counter hides 256 branches, some other stored prefix is lost |
| LpmTree.SomethingBelow | src/bf_lpm_trie/bf_lpm_trie.c:277-292 | every subtree of a well-kept trie stores something |
| LpmContents.PlaceContents | src/bf_lpm_trie/bf_lpm_trie.c:171-202 | looking in a prefix's slot answers whether it is stored, with which value |
| LpmContents.InsertRefinesMapUpdate | src/bf_lpm_trie/bf_lpm_trie.c:139-169 | insert is map update on the leading bits |
| LpmContents.InsertKeepsCountersIff | src/bf_lpm_trie/bf_lpm_trie.c:112-122 | counters equal map sizes after an insert exactly when it does not overwrite a stored 0 |
| LpmContents.DeleteExact | src/bf_lpm_trie/bf_lpm_trie.c:250-293 | with memory release, for every trie: the map without the prefix and without those stored at or below freed nodes |
| LpmContents.DeleteRefinesMapRemovalIff | src/bf_lpm_trie/bf_lpm_trie.c:250-293 | so delete is map removal exactly when nothing else is stored there, whatever the counters say |
| LpmContents.LostIffFreedNodeHolds | src/bf_lpm_trie/bf_lpm_trie.c:280-291 | in a trie without useless nodes: others are lost exactly when a node that the loop frees has another prefix or another branch |
| LpmContents.LostWithExactCountersIff | src/bf_lpm_trie/bf_lpm_trie.c:250-293 | with exact counters nothing else is lost unless the branch counter hides 256 branches, and the invariants hold either way |
| LpmContents.DeleteOnlyRemoves | src/bf_lpm_trie/bf_lpm_trie.c:250-293 | whatever the counters say, delete removes its prefix and invents nothing |
| LpmContents.StepRefinesIff | src/bf_lpm_trie/bf_lpm_trie.c:139-293 | one insert or delete on any trie acts as the map does exactly when it is not a delete that loses other prefixes |
| LpmContents.RunContents | src/bf_lpm_trie/bf_lpm_trie.c:139-293 | over every run from the empty trie, the trie is the plain map without the prefixes that deletes took along and the run has neither stored nor deleted since |
| LpmContents.RunRefinesMapIff | src/bf_lpm_trie/bf_lpm_trie.c:139-293 | so it is the plain map exactly when the run has lost nothing |
| LpmContents.RunKeepsShapeIff | src/bf_lpm_trie/bf_lpm_trie.c:112-122 | shape invariants and exact counters hold throughout a run exactly when no stored 0 is overwritten |
| LpmRuns.RunRefinesPlainIff | src/bf_lpm_trie/bf_lpm_trie.c:139-293 | for runs that store under no prefix whose value is 0: the trie is the plain map after every step exactly when no step deletes the only prefix with its whole bytes while all 256 next bytes begin stored prefixes; both conditions are about the plain map alone |
| LpmRuns.FullIff | src/bf_lpm_trie/bf_lpm_trie.c:280-291 | with exact counters the plain map tells when the branch counter hides 256 branches |
| LpmContents.DeleteLosesAFullNode | src/bf_lpm_trie/bf_lpm_trie.c:280-291 | a run of 257 inserts of distinct prefixes after which deleting one loses others |
| LpmContents.DeleteLosesAnOverwrittenZero | src/bf_lpm_trie/bf_lpm_trie.c:112-122 | a run of 257 inserts, 256 of them of 0 under one prefix, after which deleting another prefix of that node loses it, without any branch |
| LpmContents.NodesBounded | src/bf_lpm_trie/bf_lpm_trie.c:139-169 | there are at most 1 plus the sum of length/8 nodes over the stored prefixes |
| LpmHeap.TrieObj.constructor | src/bf_lpm_trie/bf_lpm_trie.c:59-66 | a new trie is one empty root |
| LpmHeap.TrieObj.Allocate | src/bf_lpm_trie/bf_lpm_trie.c:54-57 | a fresh node, linked to its parent, mirrors the tree of values |
| LpmHeap.TrieObj.EnterChild | src/bf_lpm_trie/bf_lpm_trie.c:94-99 | the parent's own branch map and counter get the child, and all links stay in order |
| LpmHeap.TrieObj.SetNextNode | src/bf_lpm_trie/bf_lpm_trie.c:94-99 | entering a child keeps parent, child id, branch map and counter in step |
| LpmHeap.TrieObj.InsertPrefix | src/bf_lpm_trie/bf_lpm_trie.c:112-122 | storing a value in a node, with the counter as the code keeps it |
| LpmHeap.TrieObj.DeletePrefix | src/bf_lpm_trie/bf_lpm_trie.c:131-137 | dropping a key from a node |
| LpmHeap.TrieObj.DeleteBranch | src/bf_lpm_trie/bf_lpm_trie.c:101-105 | taking a child out of its parent's branches |
| LpmHeap.TrieObj.FreeNode | src/bf_lpm_trie/bf_lpm_trie.c:280-291 | releasing a node removes it and all that hangs below it, and nothing else |
| LpmTrie.NextNode | src/bf_lpm_trie/bf_lpm_trie.c:145-156 | the child for a byte, made if it is missing |
| LpmTrie.Insert | src/bf_lpm_trie/bf_lpm_trie.c:139-169 | on the heap: map update on the leading bits, links kept, counters exact exactly when no stored 0 is overwritten |
| LpmTrie.RetrieveValue | src/bf_lpm_trie/bf_lpm_trie.c:171-202 | found exactly when the prefix is stored, with its value |
| LpmTrie.HasPrefix | src/bf_lpm_trie/bf_lpm_trie.c:204-208 | true exactly when the prefix is stored |
| LpmTrie.Lookup | src/bf_lpm_trie/bf_lpm_trie.c:210-248 | found exactly when some stored prefix matches the key, with the value of the longest one |
| LpmTrie.Search | src/bf_lpm_trie/bf_lpm_trie.c:217-247 | the byte-by-byte search keeps the best match among all prefixes shorter than what it has passed |
| LpmTrie.LongestInNode | src/bf_lpm_trie/bf_lpm_trie.c:231-240 | the scan of lengths 7 down to 1 finds the longest in the node |
| LpmTrie.BestIsLongest | src/bf_lpm_trie/bf_lpm_trie.c:210-248 | the best match over all lengths is the longest stored prefix of the key |
| LpmTrie.FindNode | src/bf_lpm_trie/bf_lpm_trie.c:171-202 | the node for a prefix's whole bytes, or none, and then the prefix is not stored |
| LpmTrie.Delete | src/bf_lpm_trie/bf_lpm_trie.c:250-293 | true exactly when the prefix was stored; with memory release the map loses it and exactly what is stored at or below the nodes freed, for every state of the counters; without it nothing changes |
| LpmTrie.PruneUp | src/bf_lpm_trie/bf_lpm_trie.c:280-291 | the upward loop ends by depth, never frees the root, and frees only nodes that read empty |
| HandleSets.Ascending | include/bm/bm_sim/handle_mgr.h:42-78 | iterators visit as many handles as there are |
| HandleSets.AscendingIs | include/bm/bm_sim/handle_mgr.h:42-78 | exactly the set's handles, in strictly ascending order |
| HandleSets.NthHasRank | include/bm/bm_sim/ras.h:187-195 | exactly n elements are smaller than the element of rank n |
| HandleSets.EveryElementIsNth | include/bm/bm_sim/ras.h:187-195 | every element has a rank |
| ProfileModel.FirstFree | include/bm/bm_sim/handle_mgr.h:179-191 | the lowest handle not in use |
| ProfileModel.AddMemberSeen | src/bm_sim/action_profile.cpp:190-232 | every result code with its condition; the action is stored under the lowest free handle, all else stays |
| ProfileModel.DeleteMemberSeen | src/bm_sim/action_profile.cpp:236-262 | every result code, decided by groups and references modulo 2^32; the member is gone, all else stays |
| ProfileModel.ModifyMemberSeen | src/bm_sim/action_profile.cpp:266-295 | the parameters are checked before the handle; the member then has the new action, all else stays |
| ProfileModel.CreateGroupSeen | src/bm_sim/action_profile.cpp:298-323 | an empty group under the lowest free handle, all else stays |
| ProfileModel.DeleteGroupSeen | src/bm_sim/action_profile.cpp:326-359 | every result code, decided by references modulo 2^32; the group is gone, all else stays |
| ProfileModel.MembershipSeen | src/bm_sim/action_profile.cpp:363-429 | every result code of adding to and removing from a group, and removing undoes adding |
| ProfileModel.DeleteMemberConsistentIff | src/bm_sim/action_profile.cpp:236-262 | deleting a member leaves nothing dangling exactly when it has no positive multiple of 2^32 references |
| ProfileModel.DeleteGroupConsistentIff | src/bm_sim/action_profile.cpp:326-359 | the same for a group |
| ProfileModel.GroupsConsistent | src/bm_sim/action_profile.cpp:298-429 | creating a group, adding a member and removing one leave nothing dangling |
| ProfileModel.AddMemberConsistent | src/bm_sim/action_profile.cpp:202-232 | adding a member, with handle reuse, leaves nothing dangling |
| ProfileSystem.SurplusStep | src/bm_sim/match_tables.cpp:675-762 | the books: references counted minus references held change per step only for a refused insertion (+1) and a refused modification (-1) |
| ProfileSystem.TargetSeen | src/bm_sim/match_tables.cpp:684-686 | where an entry may point, with every code |
| ProfileSystem.AddEntrySeen | src/bm_sim/match_tables.cpp:675-700 | the reference is taken even if the match unit refuses; after a success the entry points there and no other changed |
| ProfileSystem.DeleteEntrySeen | src/bm_sim/match_tables.cpp:703-727 | the entry goes with one reference to its target, and nothing else |
| ProfileSystem.ModifyEntrySeen | src/bm_sim/match_tables.cpp:730-762 | the old reference goes in any case; the entry and the new reference follow only if the target is accepted |
| ProfileSystem.SetDefaultSeen | src/bm_sim/match_tables.cpp:765-788 | the default entry of one table, no reference, no other change |
| ProfileSystem.StepSeen | src/bm_sim/match_tables.cpp:675-977 | a step is the operation it names |
| ProfileSystem.StepSoundIff | src/bm_sim/match_tables.cpp:675-977 | a step keeps every entry's target alive and counted exactly when it neither drops a needed reference nor deletes something whose 32-bit counter has wrapped to 0 |
| ProfileSystem.RunSoundIff | src/bm_sim/match_tables.cpp:675-977 | the same over every run of profile and table operations with their 32-bit counters, for any number of tables |
| ProfileSystem.EntriesLive | src/bm_sim/match_tables.cpp:652-672 | in a sound state no entry points to a deleted or recycled handle |
| ProfileSystem.NewSystemSound | src/bm_sim/action_profile.cpp:162-165 | the initial state is sound |
| ProfileSystem.LeakStays | src/bm_sim/match_tables.cpp:685-690 | a reference left behind by a refused insertion stays through every run without entry modifications, and its target with it unless a deletion meets a wrapped counter |
| ProfileSystem.LeaksUntilTheCounterWraps | src/bm_sim/match_tables.cpp:685-690 | 2^32 - 1 refused insertions after which a member is deleted from under its entry, although no reference was dropped |
| ProfileSystem.FailedModifyLeavesDangling | src/bm_sim/match_tables.cpp:730-762 | four calls after which an entry points to a deleted member |
| ProfileSystem.DefaultsLiveIff | src/bm_sim/match_tables.cpp:765-788 | a step keeps default entries alive exactly when it does not delete a target of theirs that reads as unreferenced |
| ProfileSystem.RunDefaultsLiveIff | src/bm_sim/match_tables.cpp:765-788 | the same over every run |
| ProfileSystem.DefaultIsLeftDangling | src/bm_sim/match_tables.cpp:765-788 | three calls after which a default entry points to a deleted member |
| ProfileSystem.ResetStrandsDefaults | src/bm_sim/P4Objects.cpp:2105-2112 | after a reset the entries are safe, and default entries are alive exactly when none was set |
| ActionProfiles.ActionProfile.constructor | src/bm_sim/action_profile.cpp:162-165 | a new profile is empty and in order |
| ActionProfiles.ActionProfile.AddMember | src/bm_sim/action_profile.cpp:190-232 | acts on the maps as adding under the lowest free handle; vectors, handles and counters stay in step |
| ActionProfiles.ActionProfile.DeleteMember | src/bm_sim/action_profile.cpp:236-262 | acts as the map operation on wrapped counts, and leaves the profile in order exactly when the member had no positive multiple of 2^32 references |
| ActionProfiles.ActionProfile.ModifyMember | src/bm_sim/action_profile.cpp:266-295 | replaces a live member's action, nothing else |
| ActionProfiles.ActionProfile.CreateGroup | src/bm_sim/action_profile.cpp:298-323 | an empty group under the lowest free handle; the assertions on vector sizes hold |
| ActionProfiles.ActionProfile.ReleaseMembers | src/bm_sim/action_profile.cpp:338-341 | one reference is taken from each member of the group |
| ActionProfiles.ActionProfile.DeleteGroup | src/bm_sim/action_profile.cpp:326-359 | acts as the map operation on wrapped counts, its members give back one reference each, and the profile is in order afterwards exactly when the group had no positive multiple of 2^32 references |
| ActionProfiles.ActionProfile.AddMemberToGroup | src/bm_sim/action_profile.cpp:363-394 | membership and one reference, with all error codes |
| ActionProfiles.ActionProfile.RemoveMemberFromGroup | src/bm_sim/action_profile.cpp:398-429 | the inverse |
| ActionProfiles.ActionProfile.RefCountIncrease | src/bm_sim/action_profile.cpp:581-583 | a table takes a reference: counters still equal true references modulo 2^32 |
| ActionProfiles.ActionProfile.RefCountDecrease | src/bm_sim/action_profile.cpp:586-588 | a table gives one back |
| ActionProfiles.ActionProfile.LookupAction | src/bm_sim/action_profile.cpp:168-184 | a live member gives its own action; a group with selection that of the member with exactly hash modulo size smaller ones in it |
| ActionProfiles.LookupPicks | src/bm_sim/action_profile.cpp:125-129 | the same of lookup on the maps |
| ActionProfiles.ActionProfile.ResetState | src/bm_sim/action_profile.cpp:517-525 | the object is in order, and empty, exactly when there were no groups; the next group would be past the end of the vector exactly when handle 0 was in use |
| ActionProfiles.GroupAfterReset | src/bm_sim/action_profile.cpp:132-139 | a profile left with group handle 0, no groups and the next handle 1, after one group and a reset |
| ActionProfiles.LookupFailsIff | src/bm_sim/action_profile.cpp:168-184 | lookup of a live index fails only for an empty group or a profile without selection |
| ActionProfiles.GroupLookupIsFair | src/bm_sim/action_profile.cpp:125-129 | a group leads to its members' actions, and to each of them for some hash |
| ActionProfiles.CountsAfterDeleteGroup | src/bm_sim/action_profile.cpp:335-341 | after releasing its members, the counters are the true numbers without the group |
| ProfileModel.StillReferenced | src/bm_sim/action_profile.cpp:236-262 | deleting a referenced member would leave something dangling |
| IndirectTables.IndirectTable.AddEntry | src/bm_sim/match_tables.cpp:675-700 | acts as the system's step on the profile and the entries of all tables that share it, including the reference left behind |
| IndirectTables.IndirectTable.DeleteEntry | src/bm_sim/match_tables.cpp:703-727 | acts as the system's step, whatever other tables share the profile, and keeps the system of all of them sound |
| IndirectTables.IndirectTable.ModifyEntry | src/bm_sim/match_tables.cpp:730-762 | acts as the system's step, whatever other tables share the profile; the system of all of them is sound afterwards exactly when no needed reference is dropped |
| IndirectTables.IndirectTable.SetDefault | src/bm_sim/match_tables.cpp:765-788 | a live target, and no reference |
| IndirectTables.IndirectTable.ResetState | src/bm_sim/match_tables.cpp:861-863 | the match unit is emptied, the default entry stays |
| IndirectTables.ResetAll | src/bm_sim/P4Objects.cpp:2105-2112 | all tables and then the profile: as the reset of the system says, and in order exactly when there were no groups |
| IndirectTables.IndirectTable.LookupPacket | src/bm_sim/match_tables.cpp:652-672 | when the system of all tables is sound, a hit has a live target, runs its own action or that of the group member the hash picks, and fails only if its group has lost all members or selection is off |
| IndirectTables.OneAndRest | src/bm_sim/match_tables.cpp:666-672 | one table and what the others hold make up the whole, for any number of tables over the profile |
| IndirectTables.Perform | src/bm_sim/match_tables.cpp:675-977 | any operation on the objects is a step of the whole system, sound afterwards exactly when it drops no needed reference and trusts no wrapped counter |
| IndirectTables.PerformAll | src/bm_sim/match_tables.cpp:675-977 | a run of the objects is a run of the system, and sound at the end when no step of it does either |
| ProfileTokens.Serialize | src/bm_sim/action_profile.cpp:528-541 | the token stream of a profile, handles in ascending order |
| ProfileTokens.KnownTokens | src/bm_sim/action_profile.cpp:528-541 | the tokens, one by one, of a profile with one member in one group |
| ProfileTokens.Deserialize | src/bm_sim/action_profile.cpp:544-567 | succeeds exactly when group handles have no gap; then members, actions, groups, counters are restored and exactly the written tokens are read |
| ProfileTokens.ReadGroups | src/bm_sim/action_profile.cpp:556-566 | groups are restored exactly when each new handle is at most the number of groups so far |
| ProfileTokens.GapBefore | src/bm_sim/action_profile.cpp:132-139 | a handle above its rank leaves a gap below it |
| ProfileTokens.RestoreFailsOnAGap | src/bm_sim/action_profile.cpp:132-139 | a profile in order whose only group is number 1, its tokens, and a restore of them that fails |
| ProfileTokens.SaveAndRestore | src/bm_sim/action_profile.cpp:528-567 | saving into a new profile, end to end |
| Checksum.OnesSumClosedForm | src/bm_sim/calculations.cpp:309-353 | the ones'-complement sum is the plain sum modulo 65535, with which zero comes out fixed |
| Checksum.LoadNorm | src/bm_sim/calculations.cpp:316-341 | a little-endian load of any width adds the same as its big-endian words, byte-swapped |
| Checksum.EndAround | src/bm_sim/calculations.cpp:317-323 | 64-bit and 32-bit additions with the carry put back |
| Checksum.Fold | src/bm_sim/calculations.cpp:342-352 | folding 64 to 32 to 16 bits keeps the sum, zero representation included |
| Checksum.AddTail | src/bm_sim/calculations.cpp:323-341 | the 4-, 2- and 1-byte tails |
| Checksum.Cksum16 | src/bm_sim/calculations.cpp:309-353 | equals the RFC 1071 checksum of any buffer, an odd last byte zero-padded |
| Checksum.NativeChecksum | src/bm_sim/checksums.cpp:35-85 | the unswapped copy stores the same checksum big-endian |
| Checksum.UpdateChecksum | src/bm_sim/checksums.cpp:163-174 | the field becomes the checksum of the other words, which do not change, and the whole header sums to 0xFFFF; invalid headers are left alone |
| Checksum.VerifyChecksum | src/bm_sim/checksums.cpp:177-189 | true exactly when the field is the checksum of the other words, or the header is invalid |
| Checksum.SumSplits | src/bm_sim/checksums.cpp:163-189 | the sum over the header is the sum of the other words plus the field |
| Checksum.ReceiverTestIff | src/bm_sim/checksums.cpp:177-189 | a total of 0xFFFF agrees with `verify_` except in one exactly described case |
| Checksum.ReceiverTestDiffers | src/bm_sim/checksums.cpp:177-189 | and a header for which it happens: 0xFFFF in the first word and in the field, 0 elsewhere |
| Checksum.KnownHeader | tests/test_checksums.cpp:35-44 | the IPv4 header of the test packet has the checksum it carries, 0x3508 |
| Gf2.DivisionLaw | src/bm_sim/calculations.cpp:232-278 | dividend = quotient times divisor plus remainder, modulo 2 |
| Gf2.RemainderUnique | src/bm_sim/calculations.cpp:232-278 | and the remainder is the only one |
| Crc.Reflect | src/bm_sim/calculations.cpp:140-155 | reflection reverses the low bits |
| Crc.ByteStepDivides | src/bm_sim/calculations.cpp:237-244 | eight division steps of the message are one table step of the register |
| Crc.ConsumeByte | src/bm_sim/calculations.cpp:237-244 | consuming a byte leaves the remainder of the rest unchanged |
| Crc.CrcCustom.TableEntry | src/bm_sim/calculations.cpp:262-277 | a table entry is what eight division steps leave of its index |
| Crc.CrcCustom.RecomputeTable | src/bm_sim/calculations.cpp:260-278 | all 256 entries |
| Crc.CrcCustom.UpdateConfig | src/bm_sim/calculations.cpp:250-257 | the table agrees with the configuration after any sequence of updates |
| Crc.CrcCustom.TableIndex | src/bm_sim/calculations.cpp:239-242 | the index is the byte, reflected if asked, against the top of the register |
| Crc.CrcCustom.Compute | src/bm_sim/calculations.cpp:232-248 | the table-driven CRC is the remainder of long division, for every polynomial, width, initial value, final xor and reflection |
| CrcLaws.MessageBitAt | src/bm_sim/calculations.cpp:140-155 | bit by bit which bit of which byte is divided, with and without reflection |
| CrcLaws.DividendAt | src/bm_sim/calculations.cpp:232-248 | the message with zeros behind it and the initial remainder added at the front |
| CrcLaws.FinishAt | src/bm_sim/calculations.cpp:245-247 | the remainder turned around if it is to be reflected, and then the final xor |
| CrcLaws.ReflectedData | src/bm_sim/calculations.cpp:239-241 | reflecting the data is mirroring every byte of the message, bit j against bit 7 - j |
| CrcLaws.ReflectedRemainder | src/bm_sim/calculations.cpp:245-247 | reflecting the remainder turns the result around before the final xor |
| CrcLaws.Crc16OfOne | src/bm_sim/calculations.cpp:197-198 | the default 16-bit configuration gives 0xC0C1 for the message 0x01 |
| CrcLaws.CrcAffine | src/bm_sim/calculations.cpp:232-278 | the CRC of the xor of three messages is the xor of their CRCs |
| CrcLaws.CrcOfOwn | src/bm_sim/calculations.cpp:232-278 | without reflection and final xor, a message followed by its CRC has CRC 0 |
| Ageing.AgeingMonitor.Collect | src/bm_sim/ageing.cpp:156-168 | exactly the expired entries that the table's previous sweep did not report |
| Ageing.AgeingMonitor.SweepTable | src/bm_sim/ageing.cpp:152-199 | one table's message and record; the shared buffers are empty again |
| Ageing.AgeingMonitor.DoSweep | src/bm_sim/ageing.cpp:151-201 | all tables in the order of their ids, none seeing another's entries |
| Ageing.AgeingMonitor.SweepLoop | src/bm_sim/ageing.cpp:138-148 | sweeps one after the other send the run's messages |
| Ageing.AgeingMonitor.AddTable | src/bm_sim/ageing.cpp:116-118 | a known table keeps its record |
| Ageing.AgeingMonitor.ResetState | src/bm_sim/ageing.cpp:126-135 | records emptied, numbering from 0 |
| Ageing.ReportIs | src/bm_sim/ageing.cpp:151-201 | an entry is in a table's message exactly when that table has it as fresh |
| Ageing.FreshPositions | src/bm_sim/ageing.cpp:161-168 | the handles kept are those at the positions of the ones not reported before, all of them, each once and in order |
| Ageing.FreshCounts | src/bm_sim/ageing.cpp:161-168 | each as often as the table names it |
| Ageing.SentCarries | src/bm_sim/ageing.cpp:170-199 | every message of a run: device, context, a known table, its fresh handles in the table's order and as often as it names them, and their number modulo 2^32 |
| Ageing.SentInOrder | src/bm_sim/ageing.cpp:151-160 | within a sweep one message a table, in the order of their ids |
| Ageing.RememberedIff | src/bm_sim/ageing.cpp:190-199 | what is remembered for a table is what its previous sweep reported |
| Ageing.ReportedInSent | src/bm_sim/ageing.cpp:138-201 | an entry counts as reported in a sweep exactly when a message that the run sends in that sweep carries it |
| Ageing.ReportedIff | src/bm_sim/ageing.cpp:151-201 | in every run an entry is reported exactly when it is expired and was not reported in its table's previous sweep |
| Ageing.NeverTwiceInARow | src/bm_sim/ageing.cpp:151-201 | never in two sweeps in a row |
| Ageing.EveryOtherSweep | src/bm_sim/ageing.cpp:151-201 | while it stays expired, in every other sweep |
| Ageing.ConsecutiveIds | src/bm_sim/ageing.cpp:179-188 | buffer ids are consecutive over the whole run, modulo 2^64, and no message is empty |
| ExprRun.FreesWhatItPops | src/bm_sim/expressions.cpp:694-790 | the allocator's table of operands agrees with what the evaluator pops |
| ExprRun.TheRulesAreLawful | src/bm_sim/expressions.cpp:694-790 | a destination is never a temporary that an operand below still uses |
| ExprCompile.AssignConcat | src/bm_sim/expressions.cpp:694-790 | the allocator works piece by piece |
| ExprCompile.CompileIsAssign | src/bm_sim/expressions.cpp:694-790 | assigning destinations after emitting is assigning them on the way through the tree |
| ExprCompile.ExtraEnough | src/bm_sim/expressions.cpp:694-790 | the allocator never pops an empty stack, although conditionals leave both branches' entries |
| ExprRun.ExecPushes | src/bm_sim/expressions.cpp:345-650 | an opcode with its operands on top puts its result on the right stack and writes only its destination |
| ExprRun.Choose | src/bm_sim/expressions.cpp:597-605 | the conditional leaps over the first skip or takes it |
| ExprRun.Join | src/bm_sim/expressions.cpp:597-605 | the second skip passes the other branch |
| ExprRun.Simulate | src/bm_sim/P4Objects.cpp:267-386 | wherever the code of a well-formed tree stands, running it leaves the old stacks plus one operand with the tree's value, and keeps the temporaries below the mark |
| ExprBuild.Meaning | docs/JSON_format.md:66-126 | direct evaluation gives a value of the expression's type |
| ExprBuild.BinaryMeans | src/bm_sim/expressions.cpp:420-640 | what every operation with two operands gives, from the values of its operands and the packet state |
| ExprBuild.UnaryMeans | src/bm_sim/expressions.cpp:555-640 | the same with one operand, and for the two signs |
| ExprBuild.CompareMeans | src/bm_sim/expressions.cpp:467-541 | equality of data, booleans, headers and unions |
| ExprBuild.TernaryMeans | docs/JSON_format.md:102-107 | the branch that the condition chooses |
| ExprBuild.IndexedMeans | src/bm_sim/expressions.cpp:406-415 | registers and fields of header expressions |
| ExprBuild.AtomMeans | src/bm_sim/expressions.cpp:345-404 | what every load gives |
| ExprBuild.AtomTypes | src/bm_sim/P4Objects.cpp:314-386 | the type of every load |
| ExprBuild.OperationTypes | src/bm_sim/P4Objects.cpp:172-226 | the type of every operation, and which stack each dereference takes |
| ExprBuild.BuildsIff | src/bm_sim/P4Objects.cpp:267-386 | exactly which well-typed trees build, and what type is reported |
| ExprBuild.FieldAccessCannotBeCompared | src/bm_sim/P4Objects.cpp:290-300 | a well-typed comparison whose assertion fails |
| ExprBuild.DesugarOk | src/bm_sim/P4Objects.cpp:301-353 | with implicit operands filled in, and a register at a constant index loaded directly, every opcode finds operands of the kinds it pops |
| ExprBuild.DesugarMeans | src/bm_sim/P4Objects.cpp:301-353 | neither changes the meaning |
| ExprCode.EmitMoves | src/bm_sim/expressions.cpp:214-224 | relocated code is the code emitted for the later place in the pool, skips included |
| ExprCode.Expression.AppendExpression | src/bm_sim/expressions.cpp:214-224 | code and constants appended, offsets moved |
| ExprCode.Expression.PushBackTernaryOp | src/bm_sim/expressions.cpp:243-254 | both branches laid out with their skips |
| ExprCode.Expression.Build | src/bm_sim/expressions.cpp:273-276 | destinations assigned in place, the number of temporaries is the peak |
| ExprCode.Expression.Eval | src/bm_sim/expressions.cpp:296-669 | the loop gives what evaluation as a function gives |
| ExprCode.FinishedMeans | src/bm_sim/expressions.cpp:296-669 | finished code computes the meaning, whatever earlier evaluations left in the temporaries, and leaves one operand |
| ExprCode.BuildExpression | src/bm_sim/P4Objects.cpp:267-386 | appends the code and constants of the tree behind what is there, reports the type, or fails as the assertions do |
| ExprCode.BuildApply | src/bm_sim/P4Objects.cpp:301-313 | operations with an implicit 0 or no left operand |
| ExprCode.BuildCompare | src/bm_sim/P4Objects.cpp:290-297 | the comparison opcode for the reported type |
| ExprCode.BuildTernary | src/bm_sim/P4Objects.cpp:280-289 | both branches built apart, then joined |
| ExprCode.BuildAndEvaluate | src/bm_sim/P4Objects.cpp:267-386 | end to end: the result is the direct value exactly for the trees that build, spelled out for the connectives and the orderings |
| ActionBuilder.ActionFn.PushBackPrimitive | src/bm_sim/actions.cpp:221-229 | the next window starts where the last one ends |
| ActionBuilder.ActionFn.PushConst | src/bm_sim/actions.cpp:96-102 | the parameter leads to its constant |
| ActionBuilder.ActionFn.PushExpression | src/bm_sim/actions.cpp:175-194 | a temporary after those of the other expressions; the assertion on the shared counter holds |
| ActionBuilder.ActionFn.PushString | src/bm_sim/actions.cpp:205-218 | every string parameter points at its own string again after the strings have moved |
| ActionBuilder.ActionFn.AddPrimitive | src/bm_sim/P4Objects.cpp:388-523 | whole afterwards exactly when the number of parameters is right and every piece of runtime data is below the number that a table entry has |
| ActionBuilder.ActionFn.WindowIs | src/bm_sim/actions.cpp:221-229 | a primitive's window resolves to the parameters it was given |
| ActionBuilder.ActionFn.WindowsTile | src/bm_sim/actions.cpp:221-229 | every parameter is in the window of exactly one primitive |
| ActionBuilder.ActionFn.TemporariesDistinct | src/bm_sim/actions.cpp:175-194 | distinct, not the reserved one, below the shared counter |
| ActionBuilder.ActionFn.TemporaryIs | src/bm_sim/actions.cpp:175-194 | an expression's temporary is one more than the number of expressions before it |
| ActionBuilder.ActionFn.Execute | src/bm_sim/actions.cpp:310-327 | whatever the jumps, every primitive sees exactly its own parameters, and none a piece of runtime data that a table entry does not have |
| ActionBuilder.BuildActions | src/bm_sim/P4Objects.cpp:388-523 | any number of actions in any interleaving, sharing the counter, stay whole |
| KeyCodec.BuildKey | PI/src/pi_tables_imp.cpp:41-104 | the built key emits the same bytes, validity bytes made 0 or 1; every field's bytes stand where the fields before end, in the least number of bytes for its bit width; priority only with ternary or range |
| KeyCodec.BuildParam | PI/src/pi_tables_imp.cpp:55-100 | one field of each match type: its bytes by its bit width, then mask or prefix length, and how far the cursor moves |
| KeyCodec.FieldSizeByBits | PI/src/pi_tables_imp.cpp:55-100 | the size of a field of each match type by its bit width |
| KeyCodec.SizeIsSum | PI/src/pi_tables_imp.cpp:52-100 | a key's size is the sum over its fields |
| KeyCodec.FromLe32Is | PI/src/pi_tables_imp.cpp:70-77 | a prefix length is read with its lowest byte first |
| KeyCodec.EmitKey | PI/src/pi_tables_imp.cpp:411-429 | the bytes of the parameters appended in order |
| KeyCodec.EmittedInjective | PI/src/pi_tables_imp.cpp:411-429 | the bytes determine the parameters |
| KeyCodec.EmittedIsNormal | PI/src/pi_tables_imp.cpp:411-429 | emitted keys have the key's size and are their own normal form |
| KeyCodec.EmitThenBuild | PI/src/pi_tables_imp.cpp:41-429 | building an emitted key gives the parameters back |
| ActionData.PaddingRestores | PI/src/action_helpers.cpp:66-76 | left padding of the shortest form is the only form of the right length |
| ActionData.ValueFront | PI/src/action_helpers.cpp:35-56 | the first byte of a number counts most |
| ActionData.FitsIff | include/bm/bm_sim/bignum.h:43-45 | a number fits n bytes exactly when its shortest form does |
| ActionData.BuildActionData | PI/src/action_helpers.cpp:35-56 | every number is what its bytes spell, one parameter behind the other; packing the numbers gives the bytes back |
| ActionData.TotalIsSum | PI/src/action_helpers.cpp:35-56 | the parameters lie one behind the other, each in the least number of bytes for its bit width |
| ActionData.DumpOne | PI/src/action_helpers.cpp:67-76 | one number written with zeros in front, nothing else touched |
| ActionData.DumpActionData | PI/src/action_helpers.cpp:58-80 | works exactly when every number's string fits |
| ActionData.BuildThenDump | PI/src/action_helpers.cpp:35-80 | the same bytes come back exactly when no parameter is zero bits wide |
| DebugMsg.UnpackUndoesPack | tools/p4dbg.py:269-330 | reading what was written finds every field again, for every format in which only the last field may lag, and exactly how far the offset lags |
| DebugMsg.OffsetIsLengthIff | tools/p4dbg.py:275-285 | the offset is the message length exactly when the last payload's unit is one byte or it is empty |
| DebugMsg.ReadEarly | tools/p4dbg.py:269-330 | in a format with fields behind wide payloads, each is read as many bytes early as all payloads before it lag, for any number of them whose counts come first |
| DebugMsg.ArrivesIff | tools/p4dbg.py:269-330 | and arrives exactly when the bytes there happen to be its own |
| DebugMsg.NumberMisread | tools/p4dbg.py:269-330 | a message whose last number comes out wrong |
| DebugMsg.PacksIff | tools/p4dbg.py:314-330 | packing works exactly when every field is present and fits |
| DebugMsg.PacksTo | tools/p4dbg.py:314-330 | a message is its fields' bytes one behind the other |
| DebugMsg.PackNumIs | tools/p4dbg.py:314-330 | a number packs to itself modulo the size of its field, low byte first |
| DebugMsg.OwnSelfTest | tools/p4dbg.py:390-396 | the bytes of the message that the debugger's self-test builds |
| DebugMsg.OurFormats | tools/p4dbg.py:355-488 | in every format of the debugger at most the last field is a payload |
| DebugMsg.EventFormatsSpelledOut | tools/p4dbg.py:355-388 | the fields of packet events and field values |
| DebugMsg.PacketFormatsSpelledOut | tools/p4dbg.py:408-428 | the fields of the messages about one packet |
| DebugMsg.BasicFormatsSpelledOut | tools/p4dbg.py:400-488 | the fields of all other messages |
| DebugMsg.Msg.Extract | tools/p4dbg.py:269-299 | the chain of inherited extract functions reads the flattened format |
| DebugMsg.Msg.Generate | tools/p4dbg.py:314-330 | the chain of inherited generate functions writes it |
| DebugMsg.SendAndReceive | tools/p4dbg.py:269-330 | for every message type all fields arrive, and exactly when the offset is the length |
| DebugMsg.BacktraceLags | tools/p4dbg.py:275-285 | reading any backtrace that can be sent gives an offset three bytes short for every counter |
| DebugMsg.OneCounterLags | tools/p4dbg.py:275-285 | so for a backtrace of one counter it is not the length |
| DebugMsg.ObjectMap.AddOne | tools/p4dbg.py:152-154 | names and numbers stay in step exactly when the number was free |
| DebugMsg.ObjectMap.LookupThenResolve | tools/p4dbg.py:211-229 | resolving the counter of a named object gives it back, for entry and exit events |
| DebugMsg.OrAbove | tools/p4dbg.py:222-229 | the bitwise or puts the number below the type |
| DebugMsg.SwitchNumbers | include/bm/bm_sim/debugger.h:38-44 | the type numbers are those that the switch puts above bit 24 |
| Bytes.LeByteAt | tools/p4dbg.py:269-330 | byte i of a number counts 256 to the power i |
| Bytes.BytesFor | PI/src/pi_tables_imp.cpp:55 | the least number of bytes that holds so many bits |

## Left out

- Locks and threads: every operation is one atomic step.
- Memory of freed trie nodes: a freed node leaves the set of reachable objects; destroying a whole trie is not modelled.
- Machine words of the CRC are bit strings of any width of at least 8; the four widths in use are instances.
- Byte order: a little-endian host is assumed for checksums, for the four-byte integers of packed keys and for the debugger's native numbers.
- The position of the checksum field: it is taken to be at byte 10, as section 3.1 of RFC 791 has it.
- Arithmetic on data values, fields, registers, header validity and stack contents: parameters of the expression evaluator.
- `access_union_header`: the evaluator has the opcode, but the builder never emits it.
- Operations named by loading opcodes or by unknown names in an expression: the builder does not reject them.
- The running out of handles: handle sets are unbounded, so the error return of adding members and groups does not occur; the limit of 2^24 handles does.
- Custom group selectors: the built-in group manager is the selector.
- Next nodes of saved action entries: tables resolve them again at every lookup, and they are written as absent.
- ProfileTokens.Deserialize: the tokens are those of a saved profile; malformed streams are not modelled.
- ActionBuilder.ActionFn.Execute: what a primitive does is left open; where it goes on is a parameter, and the number of steps is bounded because jumps may loop.
- The width of register indices: a constant index is cut to 32 bits and a computed one to 64; the model leaves both whole.
- IndirectTables.PerformAll: a run in which a step drops a needed reference or trusts a wrapped counter is followed up to that step only, by `Perform`.
- DebugMsg.ReadEarly: payloads whose count is itself read late are not described.
- ProfileSystem.Reset: with groups about it gives no state, because no maps describe the profile then; that it is out of order is proved of the object.
- Register locking, source information and logging in actions.
- Keys and priorities of table entries: the match unit's answers are parameters of the table's methods.
- The debugger's text and integer views of payloads, which `extract` also sets.
- The functions xxh64, crc16, crc32, crcCCITT and the building of hash inputs; meters and counters; JSON parsing.
