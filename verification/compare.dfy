/** `compareMembers`: the difference between a freshly fetched roster and the
    previously saved one, with `uniqueId` as the only identity key. */
module Compare {
  import opened Seqs
  import opened Members

  /** A member present in both rosters whose admin flag changed: the flag it
      had (`from`), the flag it has now (`to`), and its current name. */
  datatype AdminChange = AdminChange(uniqueId: string, name: string, from: bool, to: bool)

  /** The outcome of one comparison. */
  datatype Delta = Delta(added: seq<Member>, removed: seq<Member>, adminChanges: seq<AdminChange>)

  /** The filter predicate `member => !map.has(member.uniqueId)` for a map
      whose keys are `ids`. */
  function AbsentFrom(ids: set<string>): Member -> bool {
    (m: Member) => m.uniqueId !in ids
  }

  /** `m` is known to `oldMap` and the entry stored there has the other admin flag. */
  function FlippedIn(oldMap: map<string, Member>): Member -> bool {
    (m: Member) => m.uniqueId in oldMap && oldMap[m.uniqueId].isAdmin != m.isAdmin
  }

  /** The record reported for a flipped member `m` whose old entry is `was`. */
  function ChangeOf(was: Member, m: Member): AdminChange {
    AdminChange(m.uniqueId, m.name, was.isAdmin, m.isAdmin)
  }

  /** `changes` holds one record per member of `newMembers` that `oldMap`
      knows under the other admin flag, in `newMembers` order: the record for
      the member at index `i` sits at the number of flipped members before
      it, and there are no other records. */
  ghost predicate RecordsFlips(changes: seq<AdminChange>, newMembers: seq<Member>, oldMap: map<string, Member>) {
    && |changes| == Count(newMembers, FlippedIn(oldMap))
    && forall i :: 0 <= i < |newMembers| && FlippedIn(oldMap)(newMembers[i]) ==>
         && Count(newMembers[..i], FlippedIn(oldMap)) < |changes|
         && changes[Count(newMembers[..i], FlippedIn(oldMap))] == ChangeOf(oldMap[newMembers[i].uniqueId], newMembers[i])
  }

  /** The loop over `newMembers` that pushes a record for every member whose
      admin flag differs from the one stored in `oldMap`. */
  function AdminChanges(newMembers: seq<Member>, oldMap: map<string, Member>): seq<AdminChange>
    decreases |newMembers|
  {
    if newMembers == [] then []
    else
      var n := |newMembers| - 1;
      var m := newMembers[n];
      AdminChanges(newMembers[..n], oldMap) + (if FlippedIn(oldMap)(m) then [ChangeOf(oldMap[m.uniqueId], m)] else [])
  }

  /** The loop records the flips, each at its rank, in `newMembers` order. */
  lemma {:induction false} AdminChangesRecordFlips(newMembers: seq<Member>, oldMap: map<string, Member>)
    ensures RecordsFlips(AdminChanges(newMembers, oldMap), newMembers, oldMap)
    decreases |newMembers|
  {
    if newMembers != [] {
      var n := |newMembers| - 1;
      var front := newMembers[..n];
      var p := FlippedIn(oldMap);
      AdminChangesRecordFlips(front, oldMap);
      var r := AdminChanges(newMembers, oldMap);
      var rf := AdminChanges(front, oldMap);
      assert |r| == Count(newMembers, p);
      forall i | 0 <= i < |newMembers| && p(newMembers[i])
        ensures Count(newMembers[..i], p) < |r|
        ensures r[Count(newMembers[..i], p)] == ChangeOf(oldMap[newMembers[i].uniqueId], newMembers[i])
      {
        if i < n {
          assert newMembers[..i] == front[..i];
          assert newMembers[i] == front[i];
          assert r[Count(front[..i], p)] == rf[Count(front[..i], p)];
        } else {
          assert newMembers[..i] == front;
        }
      }
    }
  }

  /** The comparison itself: the new entries whose identity the old roster
      lacks, the old entries whose identity the new roster lacks, and the
      admin flips of the new entries against the old roster's map. */
  function CompareMembers(newMembers: seq<Member>, oldMembers: seq<Member>): Delta {
    var oldMap := IdMap(oldMembers);
    var newMap := IdMap(newMembers);
    Delta(
      Filter(newMembers, AbsentFrom(oldMap.Keys)),
      Filter(oldMembers, AbsentFrom(newMap.Keys)),
      AdminChanges(newMembers, oldMap))
  }

  /** What the comparison reports about joins and departures: `added` keeps
      exactly the new entries whose identity the old roster lacks and
      `removed` exactly the old entries whose identity the new roster lacks,
      both in their roster's order. Each list, and the list of admin
      changes, is at most as long as the roster it is drawn from. */
  lemma CompareMembersSpec(newMembers: seq<Member>, oldMembers: seq<Member>)
    ensures var d := CompareMembers(newMembers, oldMembers);
      && Selects(d.added, newMembers, AbsentFrom(Ids(oldMembers)))
      && Selects(d.removed, oldMembers, AbsentFrom(Ids(newMembers)))
      && |d.added| <= |newMembers| && |d.removed| <= |oldMembers| && |d.adminChanges| <= |newMembers|
  {
    var oldMap := IdMap(oldMembers);
    var newMap := IdMap(newMembers);
    FilterSelects(newMembers, AbsentFrom(oldMap.Keys));
    FilterSelects(oldMembers, AbsentFrom(newMap.Keys));
    AdminChangesRecordFlips(newMembers, oldMap);
  }

  /** `added` and `removed` hold exactly the one-sided members: both
      directions of membership. */
  lemma DiffMembership(newMembers: seq<Member>, oldMembers: seq<Member>, m: Member)
    ensures m in CompareMembers(newMembers, oldMembers).added <==> m in newMembers && m.uniqueId !in Ids(oldMembers)
    ensures m in CompareMembers(newMembers, oldMembers).removed <==> m in oldMembers && m.uniqueId !in Ids(newMembers)
  {
    var d := CompareMembers(newMembers, oldMembers);
    CompareMembersSpec(newMembers, oldMembers);
    SelectsUnique(d.added, newMembers, AbsentFrom(Ids(oldMembers)));
    SelectsUnique(d.removed, oldMembers, AbsentFrom(Ids(newMembers)));
    FilterMembers(newMembers, AbsentFrom(Ids(oldMembers)), m);
    FilterMembers(oldMembers, AbsentFrom(Ids(newMembers)), m);
  }

  /** No identity is reported both as joined and as departed. */
  lemma AddedRemovedDisjoint(newMembers: seq<Member>, oldMembers: seq<Member>)
    ensures var d := CompareMembers(newMembers, oldMembers);
      forall a, b :: a in d.added && b in d.removed ==> a.uniqueId != b.uniqueId
  {
    var d := CompareMembers(newMembers, oldMembers);
    forall a, b | a in d.added && b in d.removed
      ensures a.uniqueId != b.uniqueId
    {
      DiffMembership(newMembers, oldMembers, a);
      DiffMembership(newMembers, oldMembers, b);
    }
  }

  /** Every admin-change record names a member present in both rosters: its
      name and `to` come from a new entry, its `from` from the last old entry
      with the same identity, and the two flags differ. */
  lemma AdminChangeRecord(newMembers: seq<Member>, oldMembers: seq<Member>, k: int)
    requires 0 <= k < |CompareMembers(newMembers, oldMembers).adminChanges|
    ensures var c := CompareMembers(newMembers, oldMembers).adminChanges[k];
      && c.from != c.to
      && (exists i :: 0 <= i < |newMembers| && newMembers[i].uniqueId == c.uniqueId
            && newMembers[i].name == c.name && newMembers[i].isAdmin == c.to)
      && (exists j :: IsLastWith(oldMembers, j, c.uniqueId) && oldMembers[j].isAdmin == c.from)
  {
    var changes := CompareMembers(newMembers, oldMembers).adminChanges;
    var oldMap := IdMap(oldMembers);
    CompareMembersSpec(newMembers, oldMembers);
    AdminChangesRecordFlips(newMembers, IdMap(oldMembers));
    CountRanks(newMembers, FlippedIn(oldMap), k);
    var i :| 0 <= i < |newMembers| && FlippedIn(oldMap)(newMembers[i]) && Count(newMembers[..i], FlippedIn(oldMap)) == k;
    var id := newMembers[i].uniqueId;
    assert changes[k] == ChangeOf(oldMap[id], newMembers[i]);
    IdMapLookup(oldMembers, id);
  }

  /** With distinct identities in the new roster, no identity gets two records. */
  lemma AdminChangeIdsDistinct(newMembers: seq<Member>, oldMembers: seq<Member>)
    requires UniqueIds(newMembers)
    ensures var changes := CompareMembers(newMembers, oldMembers).adminChanges;
      forall k, l :: 0 <= k < l < |changes| ==> changes[k].uniqueId != changes[l].uniqueId
  {
    var changes := CompareMembers(newMembers, oldMembers).adminChanges;
    var p := FlippedIn(IdMap(oldMembers));
    CompareMembersSpec(newMembers, oldMembers);
    AdminChangesRecordFlips(newMembers, IdMap(oldMembers));
    forall k, l | 0 <= k < l < |changes|
      ensures changes[k].uniqueId != changes[l].uniqueId
    {
      CountRanks(newMembers, p, k);
      CountRanks(newMembers, p, l);
      var i :| 0 <= i < |newMembers| && p(newMembers[i]) && Count(newMembers[..i], p) == k;
      var j :| 0 <= j < |newMembers| && p(newMembers[j]) && Count(newMembers[..j], p) == l;
      assert changes[k].uniqueId == newMembers[i].uniqueId;
      assert changes[l].uniqueId == newMembers[j].uniqueId;
      assert i != j;
    }
  }

  /** A member present once in each roster whose admin flag flipped gets
      exactly one record carrying both flags and its new name, and is
      neither added nor removed. Other identities may repeat freely. */
  lemma AdminFlipReported(newMembers: seq<Member>, oldMembers: seq<Member>, i: int, j: int)
    requires SoleWithId(newMembers, i) && SoleWithId(oldMembers, j)
    requires newMembers[i].uniqueId == oldMembers[j].uniqueId
    requires newMembers[i].isAdmin != oldMembers[j].isAdmin
    ensures var d := CompareMembers(newMembers, oldMembers);
      var x := newMembers[i].uniqueId;
      && (exists k :: 0 <= k < |d.adminChanges|
            && d.adminChanges[k] == AdminChange(x, newMembers[i].name, oldMembers[j].isAdmin, newMembers[i].isAdmin)
            && forall l :: 0 <= l < |d.adminChanges| && l != k ==> d.adminChanges[l].uniqueId != x)
      && (forall m :: m in d.added ==> m.uniqueId != x)
      && (forall m :: m in d.removed ==> m.uniqueId != x)
  {
    var d := CompareMembers(newMembers, oldMembers);
    var x := newMembers[i].uniqueId;
    var oldMap := IdMap(oldMembers);
    var p := FlippedIn(oldMap);
    AdminChangesRecordFlips(newMembers, oldMap);
    IdMapLast(oldMembers, j);
    assert oldMap[x] == oldMembers[j];
    var k := Count(newMembers[..i], p);
    assert d.adminChanges[k] == ChangeOf(oldMembers[j], newMembers[i]);
    forall l | 0 <= l < |d.adminChanges| && l != k
      ensures d.adminChanges[l].uniqueId != x
    {
      CountRanks(newMembers, p, l);
      var i' :| 0 <= i' < |newMembers| && p(newMembers[i']) && Count(newMembers[..i'], p) == l;
      assert d.adminChanges[l].uniqueId == newMembers[i'].uniqueId;
    }
    forall m | m in d.added
      ensures m.uniqueId != x
    {
      DiffMembership(newMembers, oldMembers, m);
      assert oldMembers[j] in oldMembers;
    }
    forall m | m in d.removed
      ensures m.uniqueId != x
    {
      DiffMembership(newMembers, oldMembers, m);
      assert newMembers[i] in newMembers;
    }
  }

  /** Comparing a roster with itself reports nobody joining or leaving, and
      reports admin changes exactly when two entries share an identity but
      disagree on the flag. */
  lemma SelfCompare(roster: seq<Member>)
    ensures CompareMembers(roster, roster).added == []
    ensures CompareMembers(roster, roster).removed == []
    ensures CompareMembers(roster, roster).adminChanges == [] <==> ConsistentFlags(roster)
  {
    var d := CompareMembers(roster, roster);
    CompareMembersSpec(roster, roster);
    assert d.added == [] && d.removed == [] by {
      var absent := AbsentFrom(Ids(roster));
      SelectsUnique(d.added, roster, absent);
      SelectsUnique(d.removed, roster, absent);
      FilterNone(roster, absent);
    }
    AdminChangesRecordFlips(roster, IdMap(roster));
    SelfFlips(roster);
  }

  /** Against its own identity map, a roster has a flipped entry exactly
      when two of its entries share an identity but disagree on the flag. */
  lemma SelfFlips(roster: seq<Member>)
    ensures Count(roster, FlippedIn(IdMap(roster))) == 0 <==> ConsistentFlags(roster)
  {
    var oldMap := IdMap(roster);
    var p := FlippedIn(oldMap);
    CountZero(roster, p);
    if ConsistentFlags(roster) {
      forall i | 0 <= i < |roster|
        ensures !p(roster[i])
      {
        IdMapLookup(roster, roster[i].uniqueId);
      }
    } else {
      var a, b :| a in roster && b in roster && a.uniqueId == b.uniqueId && a.isAdmin != b.isAdmin;
      var ia :| 0 <= ia < |roster| && roster[ia] == a;
      var ib :| 0 <= ib < |roster| && roster[ib] == b;
      IdMapLookup(roster, a.uniqueId);
      if oldMap[a.uniqueId].isAdmin == a.isAdmin {
        assert p(roster[ib]);
      } else {
        assert p(roster[ia]);
      }
    }
  }

  /** Unique identities make a self-comparison report nothing at all. */
  lemma SelfCompareUnique(roster: seq<Member>)
    requires UniqueIds(roster)
    ensures CompareMembers(roster, roster) == Delta([], [], [])
  {
    SelfCompare(roster);
    UniqueConsistent(roster);
  }

  /** Rosters with no identity in common: everything new is added,
      everything old is removed, and no admin change is possible. */
  lemma DisjointCompare(newMembers: seq<Member>, oldMembers: seq<Member>)
    requires Ids(newMembers) !! Ids(oldMembers)
    ensures CompareMembers(newMembers, oldMembers) == Delta(newMembers, oldMembers, [])
  {
    var d := CompareMembers(newMembers, oldMembers);
    var oldMap := IdMap(oldMembers);
    CompareMembersSpec(newMembers, oldMembers);
    SelectsUnique(d.added, newMembers, AbsentFrom(Ids(oldMembers)));
    SelectsUnique(d.removed, oldMembers, AbsentFrom(Ids(newMembers)));
    forall i | 0 <= i < |newMembers|
      ensures AbsentFrom(Ids(oldMembers))(newMembers[i])
      ensures !FlippedIn(oldMap)(newMembers[i])
    {
      assert newMembers[i].uniqueId in Ids(newMembers);
    }
    forall i | 0 <= i < |oldMembers|
      ensures AbsentFrom(Ids(newMembers))(oldMembers[i])
    {
      assert oldMembers[i].uniqueId in Ids(oldMembers);
    }
    FilterAll(newMembers, AbsentFrom(Ids(oldMembers)));
    FilterAll(oldMembers, AbsentFrom(Ids(newMembers)));
    AdminChangesRecordFlips(newMembers, oldMap);
    CountZero(newMembers, FlippedIn(oldMap));
  }

  /** The first comparison of a group, against the empty fallback baseline,
      reports the whole roster as added and nothing else. */
  lemma EmptyBaselineCompare(newMembers: seq<Member>)
    ensures CompareMembers(newMembers, []) == Delta(newMembers, [], [])
  {
    assert Ids([]) == {};
    DisjointCompare(newMembers, []);
  }

  /** A worked case: `ann`, known as a non-admin, is now an admin and `bob`,
      unknown before, has joined. `bob` is added, nobody is removed, and
      the flip is recorded under `ann`'s current name. */
  lemma PromotionAndJoin(ann: Member, bob: Member)
    requires !ann.isAdmin && ann.uniqueId != bob.uniqueId
    ensures var promoted := ann.(isAdmin := true);
      CompareMembers([promoted, bob], [ann])
        == Delta([bob], [], [AdminChange(ann.uniqueId, ann.name, false, true)])
  {
    var promoted := ann.(isAdmin := true);
    var newMembers := [promoted, bob];
    var d := CompareMembers(newMembers, [ann]);
    var oldIds := {ann.uniqueId};
    var newIds := {ann.uniqueId, bob.uniqueId};
    assert d.added == [bob] by {
      assert Ids([ann]) == oldIds;
      CompareMembersSpec(newMembers, [ann]);
      SelectsUnique(d.added, newMembers, AbsentFrom(oldIds));
      FilterFront(newMembers, AbsentFrom(oldIds));
      assert newMembers[1..] == [bob];
      FilterSingleton(bob, AbsentFrom(oldIds));
    }
    assert d.removed == [] by {
      assert Ids(newMembers) == newIds by {
        assert promoted in newMembers && bob in newMembers;
      }
      CompareMembersSpec(newMembers, [ann]);
      SelectsUnique(d.removed, [ann], AbsentFrom(newIds));
      FilterSingleton(ann, AbsentFrom(newIds));
    }
    PromotionRecorded(ann, bob);
  }

  /** The admin-change half of `PromotionAndJoin`. */
  lemma PromotionRecorded(ann: Member, bob: Member)
    requires !ann.isAdmin && ann.uniqueId != bob.uniqueId
    ensures CompareMembers([ann.(isAdmin := true), bob], [ann]).adminChanges
         == [AdminChange(ann.uniqueId, ann.name, false, true)]
  {
    var promoted := ann.(isAdmin := true);
    var newMembers := [promoted, bob];
    var changes := CompareMembers(newMembers, [ann]).adminChanges;
    var oldMap := IdMap([ann]);
    IdMapLast([ann], 0);
    var p := FlippedIn(oldMap);
    AdminChangesRecordFlips(newMembers, oldMap);
    assert p(promoted) && !p(bob);
    assert Count(newMembers[..0], p) == 0 && newMembers[..1] == [promoted];
    assert Count(newMembers[..1], p) == 1 by {
      assert newMembers[..1][..0] == [];
    }
    assert Count(newMembers, p) == 1 by {
      assert newMembers[..|newMembers| - 1] == [promoted];
    }
    assert changes[0] == ChangeOf(ann, promoted);
  }
}
