/** The admins-first ordering applied to a fetched roster: the built-in
    `sort` (stable since ECMAScript 2019) driven by a comparator that ranks
    `isAdmin === true` ahead of everything else. */
module AdminSort {
  import opened Seqs
  import opened Members

  /** The comparator handed to `sort`: negative when `a` belongs before `b`,
      zero when their order is left as found. */
  function AdminCompare(a: Member, b: Member): int {
    (if b.isAdmin then 1 else 0) - (if a.isAdmin then 1 else 0)
  }

  /** Stable insertion: `x`, which came before every element of `sorted` in
      the input, goes in front of the first element it does not sort after. */
  function Insert<T>(x: T, sorted: seq<T>, cmp: (T, T) -> int): seq<T>
    decreases |sorted|
  {
    if sorted == [] || cmp(x, sorted[0]) <= 0 then [x] + sorted
    else [sorted[0]] + Insert(x, sorted[1..], cmp)
  }

  /** A stable sort by `cmp`: elements the comparator calls equal keep the
      order they had in `s`. */
  function SortBy<T>(s: seq<T>, cmp: (T, T) -> int): seq<T>
    decreases |s|
  {
    if s == [] then []
    else Insert(s[0], SortBy(s[1..], cmp), cmp)
  }

  /** Insertion adds exactly the inserted element. */
  lemma {:induction false} InsertPermutes<T>(x: T, sorted: seq<T>, cmp: (T, T) -> int)
    ensures multiset(Insert(x, sorted, cmp)) == multiset(sorted) + multiset{x}
    decreases |sorted|
  {
    if sorted != [] && cmp(x, sorted[0]) > 0 {
      InsertPermutes(x, sorted[1..], cmp);
      assert sorted == [sorted[0]] + sorted[1..];
    }
  }

  /** Sorting rearranges the input without adding or losing elements. */
  lemma {:induction false} SortPermutes<T>(s: seq<T>, cmp: (T, T) -> int)
    ensures multiset(SortBy(s, cmp)) == multiset(s)
    decreases |s|
  {
    if s != [] {
      SortPermutes(s[1..], cmp);
      InsertPermutes(s[0], SortBy(s[1..], cmp), cmp);
      assert s == [s[0]] + s[1..];
    }
  }

  /** The class the comparator puts first. */
  predicate IsAdmin(m: Member) {
    m.isAdmin
  }

  /** The class the comparator puts last. */
  predicate IsNotAdmin(m: Member) {
    !m.isAdmin
  }

  /** No non-admin precedes an admin. */
  ghost predicate AdminsLead(r: seq<Member>) {
    forall i, j :: 0 <= i < j < |r| && r[j].isAdmin ==> r[i].isAdmin
  }

  /** The roster as `newData.sort(...)` leaves it: the admins of `roster`
      followed by its non-admins, each class in its original order. */
  function AdminsFirst(roster: seq<Member>): (r: seq<Member>)
    ensures r == Filter(roster, IsAdmin) + Filter(roster, IsNotAdmin)
  {
    PartitionIsSort(roster);
    SortBy(roster, AdminCompare)
  }

  /** The sorted roster is a permutation of the input in which no
      non-admin precedes an admin. */
  lemma AdminsFirstSpec(roster: seq<Member>)
    ensures multiset(AdminsFirst(roster)) == multiset(roster)
    ensures AdminsLead(AdminsFirst(roster))
  {
    SortPermutes(roster, AdminCompare);
    FilterMembersAll(roster, IsAdmin);
    FilterMembersAll(roster, IsNotAdmin);
    AdminsThenOthersLead(Filter(roster, IsAdmin), Filter(roster, IsNotAdmin));
  }

  /** A run of admins followed by a run of non-admins has admins leading. */
  lemma AdminsThenOthersLead(admins: seq<Member>, others: seq<Member>)
    requires forall i :: 0 <= i < |admins| ==> admins[i].isAdmin
    requires forall i :: 0 <= i < |others| ==> !others[i].isAdmin
    ensures AdminsLead(admins + others)
  {
  }

  /** An admin is inserted in front of everything. */
  lemma InsertAdmin(x: Member, sorted: seq<Member>)
    requires x.isAdmin
    ensures Insert(x, sorted, AdminCompare) == [x] + sorted
  {
  }

  /** A non-admin is inserted after a leading admin. */
  lemma InsertPastAdmin(x: Member, a: Member, tail: seq<Member>)
    requires !x.isAdmin && a.isAdmin
    ensures Insert(x, [a] + tail, AdminCompare) == [a] + Insert(x, tail, AdminCompare)
  {
  }

  /** Inserting a non-admin into admins-then-others places it after the
      admins and before the others. */
  lemma {:induction false} InsertNonAdmin(x: Member, admins: seq<Member>, others: seq<Member>)
    requires !x.isAdmin
    requires forall i :: 0 <= i < |admins| ==> admins[i].isAdmin
    requires forall i :: 0 <= i < |others| ==> !others[i].isAdmin
    ensures Insert(x, admins + others, AdminCompare) == admins + [x] + others
    decreases |admins|
  {
    if admins == [] {
      assert admins + others == others;
      assert others == [] || AdminCompare(x, others[0]) == 0;
    } else {
      var rest := admins[1..];
      assert admins + others == [admins[0]] + (rest + others);
      InsertPastAdmin(x, admins[0], rest + others);
      assert forall i :: 0 <= i < |rest| ==> rest[i] == admins[i + 1];
      InsertNonAdmin(x, rest, others);
      assert admins + [x] + others == [admins[0]] + (rest + [x] + others);
    }
  }

  /** Inserting the first member of `s` into the partition of the rest
      gives the partition of `s`. */
  lemma InsertIntoPartition(s: seq<Member>)
    requires s != []
    ensures Insert(s[0], Filter(s[1..], IsAdmin) + Filter(s[1..], IsNotAdmin), AdminCompare)
         == Filter(s, IsAdmin) + Filter(s, IsNotAdmin)
  {
    FilterFront(s, IsAdmin);
    FilterFront(s, IsNotAdmin);
    assert IsAdmin(s[0]) == s[0].isAdmin && IsNotAdmin(s[0]) == !s[0].isAdmin;
    if s[0].isAdmin {
      InsertAdminIntoPartition(s[0], s[1..]);
    } else {
      InsertOtherIntoPartition(s[0], s[1..]);
    }
  }

  /** The admin case of `InsertIntoPartition`. */
  lemma InsertAdminIntoPartition(h: Member, t: seq<Member>)
    requires h.isAdmin
    ensures Insert(h, Filter(t, IsAdmin) + Filter(t, IsNotAdmin), AdminCompare)
         == ([h] + Filter(t, IsAdmin)) + Filter(t, IsNotAdmin)
  {
    InsertAdmin(h, Filter(t, IsAdmin) + Filter(t, IsNotAdmin));
  }

  /** The non-admin case of `InsertIntoPartition`. */
  lemma InsertOtherIntoPartition(h: Member, t: seq<Member>)
    requires !h.isAdmin
    ensures Insert(h, Filter(t, IsAdmin) + Filter(t, IsNotAdmin), AdminCompare)
         == Filter(t, IsAdmin) + ([h] + Filter(t, IsNotAdmin))
  {
    var admins := Filter(t, IsAdmin);
    var others := Filter(t, IsNotAdmin);
    assert forall i :: 0 <= i < |admins| ==> admins[i].isAdmin by {
      FilterMembersAll(t, IsAdmin);
    }
    assert forall i :: 0 <= i < |others| ==> !others[i].isAdmin by {
      FilterMembersAll(t, IsNotAdmin);
    }
    InsertNonAdmin(h, admins, others);
    assert admins + [h] + others == admins + ([h] + others);
  }

  /** The insertion sort with the admin comparator is the admins/others
      partition. */
  lemma {:induction false} PartitionIsSort(s: seq<Member>)
    ensures SortBy(s, AdminCompare) == Filter(s, IsAdmin) + Filter(s, IsNotAdmin)
    decreases |s|
  {
    if s != [] {
      PartitionIsSort(s[1..]);
      InsertIntoPartition(s);
    }
  }

  /** Admins-first keeps each class in its original relative order. */
  lemma Stable(roster: seq<Member>)
    ensures Filter(AdminsFirst(roster), IsAdmin) == Filter(roster, IsAdmin)
    ensures Filter(AdminsFirst(roster), IsNotAdmin) == Filter(roster, IsNotAdmin)
  {
    var admins := Filter(roster, IsAdmin);
    var others := Filter(roster, IsNotAdmin);
    FilterMembersAll(roster, IsAdmin);
    FilterMembersAll(roster, IsNotAdmin);
    FilterConcat(admins, others, IsAdmin);
    FilterConcat(admins, others, IsNotAdmin);
    FilterAll(admins, IsAdmin);
    FilterNone(others, IsAdmin);
    FilterNone(admins, IsNotAdmin);
    FilterAll(others, IsNotAdmin);
  }

  /** A roster whose admins lead is its own admins followed by its others. */
  lemma {:induction false} LeadingAdminsSplit(r: seq<Member>)
    requires AdminsLead(r)
    ensures r == Filter(r, IsAdmin) + Filter(r, IsNotAdmin)
    decreases |r|
  {
    if r != [] {
      var n := |r| - 1;
      var r' := r[..n];
      assert r == r' + [r[n]];
      if r[n].isAdmin {
        assert forall i :: 0 <= i < |r| ==> IsAdmin(r[i]);
        FilterAll(r, IsAdmin);
        FilterNone(r, IsNotAdmin);
      } else {
        assert AdminsLead(r');
        LeadingAdminsSplit(r');
      }
    }
  }

  /** Any arrangement with admins leading that keeps both classes in their
      original order is the one `AdminsFirst` produces: the stable-sort
      requirement alone fixes the result, whatever algorithm the runtime uses. */
  lemma StableOrderUnique(r: seq<Member>, roster: seq<Member>)
    requires AdminsLead(r)
    requires Filter(r, IsAdmin) == Filter(roster, IsAdmin)
    requires Filter(r, IsNotAdmin) == Filter(roster, IsNotAdmin)
    ensures r == AdminsFirst(roster)
  {
    LeadingAdminsSplit(r);
  }

  /** Sorting an already sorted roster changes nothing. */
  lemma Idempotent(roster: seq<Member>)
    ensures AdminsFirst(AdminsFirst(roster)) == AdminsFirst(roster)
  {
    var once := AdminsFirst(roster);
    AdminsFirstSpec(roster);
    Stable(roster);
    StableOrderUnique(once, once);
  }

  /** The members of the sorted roster are those of the input, identity
      sets included. */
  lemma SameMembers(roster: seq<Member>)
    ensures forall m :: m in AdminsFirst(roster) <==> m in roster
    ensures Ids(AdminsFirst(roster)) == Ids(roster)
  {
    var r := AdminsFirst(roster);
    AdminsFirstSpec(roster);
    assert forall m :: m in r <==> m in multiset(r);
    assert forall m :: m in roster <==> m in multiset(roster);
  }
}
