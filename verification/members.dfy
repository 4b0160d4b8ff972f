/** Group members and the identity map the comparison looks them up in. */
module Members {

  /** One participant of a group as of a fetch. `uniqueId` is the identity;
      `name` and `isAdmin` are attributes that may change between fetches. */
  datatype Member = Member(uniqueId: string, name: string, isAdmin: bool)

  /** The identities occurring in a roster. */
  function Ids(roster: seq<Member>): set<string> {
    set m | m in roster :: m.uniqueId
  }

  /** No identity occurs twice in the roster. */
  ghost predicate UniqueIds(roster: seq<Member>) {
    forall i, j :: 0 <= i < j < |roster| ==> roster[i].uniqueId != roster[j].uniqueId
  }

  /** Index `i` holds the only entry of `roster` with its identity. */
  ghost predicate SoleWithId(roster: seq<Member>, i: int) {
    && 0 <= i < |roster|
    && forall k :: 0 <= k < |roster| && k != i ==> roster[k].uniqueId != roster[i].uniqueId
  }

  /** Every two entries sharing an identity agree on the admin flag. */
  ghost predicate ConsistentFlags(roster: seq<Member>) {
    forall a, b :: a in roster && b in roster && a.uniqueId == b.uniqueId ==> a.isAdmin == b.isAdmin
  }

  /** Index `i` holds the last entry of `roster` whose identity is `id`. */
  ghost predicate IsLastWith(roster: seq<Member>, i: int, id: string) {
    && 0 <= i < |roster|
    && roster[i].uniqueId == id
    && forall j :: i < j < |roster| ==> roster[j].uniqueId != id
  }

  /** The map built from `[uniqueId, member]` pairs, inserted in roster
      order, so that a later entry overwrites an earlier one with the same
      identity. Its keys are the roster's identities. */
  function IdMap(roster: seq<Member>): (m: map<string, Member>)
    ensures m.Keys == Ids(roster)
    decreases |roster|
  {
    if roster == [] then map[]
    else
      var n := |roster| - 1;
      var rest := IdMap(roster[..n]);
      assert roster == roster[..n] + [roster[n]];
      rest[roster[n].uniqueId := roster[n]]
  }

  /** Later entries overwrite earlier ones: the identity of the last entry
      carrying it is bound to that entry. */
  lemma {:induction false} IdMapLast(roster: seq<Member>, i: int)
    requires 0 <= i < |roster| && IsLastWith(roster, i, roster[i].uniqueId)
    ensures IdMap(roster)[roster[i].uniqueId] == roster[i]
    decreases |roster|
  {
    var n := |roster| - 1;
    if i < n {
      var front := roster[..n];
      assert front[i] == roster[i];
      assert IsLastWith(front, i, front[i].uniqueId) by {
        assert forall j :: i < j < n ==> front[j] == roster[j];
      }
      IdMapLast(front, i);
    }
  }

  /** Every identity of the roster is bound to a member carrying it, namely
      the last roster entry with it. */
  lemma IdMapLookup(roster: seq<Member>, id: string)
    requires id in Ids(roster)
    ensures id in IdMap(roster)
    ensures IdMap(roster)[id].uniqueId == id
    ensures exists i :: IsLastWith(roster, i, id) && IdMap(roster)[id] == roster[i]
  {
    var i := LastIndexOf(roster, id);
    IdMapLast(roster, i);
  }

  /** The position of the last entry with identity `id`. */
  ghost function LastIndexOf(roster: seq<Member>, id: string): (i: nat)
    requires id in Ids(roster)
    ensures IsLastWith(roster, i, id)
    decreases |roster|
  {
    var n := |roster| - 1;
    if roster[n].uniqueId == id then n
    else
      assert id in Ids(roster[..n]) by {
        var m :| m in roster && m.uniqueId == id;
        assert roster == roster[..n] + [roster[n]];
      }
      LastIndexOf(roster[..n], id)
  }

  /** Distinct identities leave no room for disagreeing flags. */
  lemma UniqueConsistent(roster: seq<Member>)
    requires UniqueIds(roster)
    ensures ConsistentFlags(roster)
  {
  }
}
