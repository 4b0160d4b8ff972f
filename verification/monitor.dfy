/** One group's run as a transition of its two stores: the saved roster
    (the baseline the next run compares against) and the accumulated report
    history. Network and file access are inputs and outputs of the
    transition rather than effects. */
module Monitor {
  import opened Wrappers
  import opened Seqs
  import opened Members
  import opened Compare
  import opened AdminSort
  import opened Response

  /** The saved-roster file as the next run finds it. */
  datatype Baseline =
    | Absent           // never written, or not readable
    | Unparsable       // present but not valid JSON
    | Parsed(json: Json)

  /** One appended report: when it was written and what it reported. */
  datatype Entry = Entry(timestamp: string, delta: Delta)

  /** Everything a run may change for its group. */
  datatype GroupStore = GroupStore(baseline: Baseline, history: seq<Entry>)

  /** What the request to the members endpoint produced. */
  datatype Fetch = Unreachable | Body(json: Json)

  /** One run's inputs from the outside world: the fetch result and the
      clock reading stamped on its report. */
  datatype Attempt = Attempt(fetch: Fetch, now: string)

  /** The saved roster as the comparison receives it: a missing or
      undecodable file yields the empty roster, an array is used as is, and
      any other decoded value makes the comparison throw. */
  function PriorRoster(b: Baseline): (r: Result<seq<Member>, Rejection>)
    ensures r.Failure? <==> b.Parsed? && !b.json.JArray?
    ensures r.Success? && b.Parsed? ==> b.json == JArray(r.value)
    ensures r.Success? && !b.Parsed? ==> r.value == []
  {
    match b
    case Absent => Success([])
    case Unparsable => Success([])
    case Parsed(json) =>
      if json.JArray? then Success(json.items) else Failure(BaselineNotArray)
  }

  /** A baseline the comparison can read; every baseline a run writes is one. */
  predicate Usable(b: Baseline) {
    PriorRoster(b).Success?
  }

  /** The fetched roster, sorted admins first, or why the run stops. */
  function FetchedRoster(f: Fetch): (r: Result<seq<Member>, Rejection>)
    ensures r.Success? <==> f.Body? && SelectRoster(f.json).Success?
    ensures r.Success? ==> r.value == AdminsFirst(SelectRoster(f.json).value)
  {
    match f
    case Unreachable => Failure(FetchFailed)
    case Body(json) =>
      match SelectRoster(json)
      case Failure(e) => Failure(e)
      case Success(roster) => Success(AdminsFirst(roster))
  }

  /** A fetched roster is the body's array rearranged: the same entries,
      admins leading, and each class in the order the body lists it. */
  lemma FetchedRosterSpec(f: Fetch)
    requires FetchedRoster(f).Success?
    ensures var body := SelectRoster(f.json).value;
      var r := FetchedRoster(f).value;
      && multiset(r) == multiset(body)
      && AdminsLead(r)
      && Filter(r, IsAdmin) == Filter(body, IsAdmin)
      && Filter(r, IsNotAdmin) == Filter(body, IsNotAdmin)
  {
    var body := SelectRoster(f.json).value;
    AdminsFirstSpec(body);
    Stable(body);
  }

  /** The attempt delivers a roster of an accepted shape. */
  predicate Accepts(a: Attempt) {
    FetchedRoster(a.fetch).Success?
  }

  /** A run against `store` reaches its writes. */
  predicate Succeeds(store: GroupStore, a: Attempt) {
    Accepts(a) && Usable(store.baseline)
  }

  /** The report a successful run appends: the comparison of the sorted
      fetched roster with the saved one. */
  function EntryFor(store: GroupStore, a: Attempt): Entry
    requires Succeeds(store, a)
  {
    Entry(a.now, CompareMembers(FetchedRoster(a.fetch).value, PriorRoster(store.baseline).value))
  }

  /** One run of the group. A run that stops early writes nothing; a run
      that reaches its writes appends exactly one report and then replaces
      the saved roster with the sorted fetched one. Earlier reports are
      never touched. */
  function ProcessGroup(store: GroupStore, a: Attempt): (r: GroupStore)
    ensures store.history <= r.history
    ensures |r.history| == |store.history| + (if Succeeds(store, a) then 1 else 0)
    ensures !Succeeds(store, a) ==> r == store
    ensures Succeeds(store, a) ==>
      && r.baseline == Parsed(JArray(FetchedRoster(a.fetch).value))
      && r.history[|store.history|] == EntryFor(store, a)
    ensures Usable(store.baseline) ==> Usable(r.baseline)
  {
    match FetchedRoster(a.fetch)
    case Failure(_) => store
    case Success(roster) =>
      match PriorRoster(store.baseline)
      case Failure(_) => store
      case Success(saved) =>
        GroupStore(Parsed(JArray(roster)), store.history + [Entry(a.now, CompareMembers(roster, saved))])
  }

  /** The first run for a group, with no saved roster, reports the whole
      sorted roster as added and then saves it. */
  lemma FirstRun(history: seq<Entry>, a: Attempt)
    requires Accepts(a)
    ensures var r := ProcessGroup(GroupStore(Absent, history), a);
      var roster := FetchedRoster(a.fetch).value;
      && r.baseline == Parsed(JArray(roster))
      && r.history == history + [Entry(a.now, Delta(roster, [], []))]
  {
    EmptyBaselineCompare(FetchedRoster(a.fetch).value);
  }

  /** Fetching the same body again right after a successful run reports no
      member joining or leaving, and admin changes only when two entries of
      that body share an identity but disagree on the flag. */
  lemma RepeatedFetch(store: GroupStore, a: Attempt, b: Attempt)
    requires Succeeds(store, a)
    requires b.fetch == a.fetch
    ensures var once := ProcessGroup(store, a);
      var twice := ProcessGroup(once, b);
      var roster := SelectRoster(a.fetch.json).value;
      && |twice.history| == |once.history| + 1
      && twice.history[|once.history|].delta.added == []
      && twice.history[|once.history|].delta.removed == []
      && (twice.history[|once.history|].delta.adminChanges == [] <==> ConsistentFlags(roster))
      && twice.baseline == once.baseline
  {
    var roster := SelectRoster(a.fetch.json).value;
    var sorted := AdminsFirst(roster);
    SelfCompare(sorted);
    SameMembers(roster);
    assert ConsistentFlags(sorted) <==> ConsistentFlags(roster);
  }

  /** A sequence of runs of one group, oldest first. */
  function RunAll(store: GroupStore, attempts: seq<Attempt>): GroupStore
    decreases |attempts|
  {
    if attempts == [] then store
    else ProcessGroup(RunAll(store, attempts[..|attempts| - 1]), attempts[|attempts| - 1])
  }

  /** Runs over a readable baseline keep it readable and grow the history
      by exactly one report per accepted fetch, never rewriting earlier ones. */
  lemma {:induction false} HistoryGrows(store: GroupStore, attempts: seq<Attempt>)
    requires Usable(store.baseline)
    ensures Usable(RunAll(store, attempts).baseline)
    ensures store.history <= RunAll(store, attempts).history
    ensures |RunAll(store, attempts).history| == |store.history| + Count(attempts, Accepts)
    decreases |attempts|
  {
    if attempts != [] {
      HistoryGrows(store, attempts[..|attempts| - 1]);
    }
  }

  /** Running `p` and then `q` is running `p + q`: the runs compose. */
  lemma {:induction false} RunAllConcat(store: GroupStore, p: seq<Attempt>, q: seq<Attempt>)
    ensures RunAll(store, p + q) == RunAll(RunAll(store, p), q)
    decreases |q|
  {
    if q == [] {
      assert p + q == p;
    } else {
      var n := |q| - 1;
      assert (p + q)[..|p + q| - 1] == p + q[..n];
      assert (p + q)[|p + q| - 1] == q[n];
      RunAllConcat(store, p, q[..n]);
    }
  }

  /** Splitting a sequence of runs anywhere: the runs after the split start
      from the store the runs before it leave. */
  lemma RunAllSplit(store: GroupStore, attempts: seq<Attempt>, n: int)
    requires 0 <= n <= |attempts|
    ensures RunAll(store, attempts) == RunAll(RunAll(store, attempts[..n]), attempts[n..])
  {
    assert attempts == attempts[..n] + attempts[n..];
    RunAllConcat(store, attempts[..n], attempts[n..]);
  }

  /** The report of the accepted run `i` sits at the number of accepted runs
      before it and is that run's comparison against the roster saved at the
      time; later runs leave it in place. */
  lemma ReportOfRun(store: GroupStore, attempts: seq<Attempt>, i: int)
    requires Usable(store.baseline)
    requires 0 <= i < |attempts| && Accepts(attempts[i])
    ensures Succeeds(RunAll(store, attempts[..i]), attempts[i])
    ensures |store.history| + Count(attempts[..i], Accepts) < |RunAll(store, attempts).history|
    ensures RunAll(store, attempts).history[|store.history| + Count(attempts[..i], Accepts)]
         == EntryFor(RunAll(store, attempts[..i]), attempts[i])
  {
    var after := RunAll(store, attempts[..i + 1]);
    ReportWhenWritten(store, attempts, i);
    RunAllSplit(store, attempts, i + 1);
    HistoryGrows(after, attempts[i + 1..]);
  }

  /** `ReportOfRun` just after run `i`: its report is the newest one, and
      the saved roster it leaves is readable. */
  lemma ReportWhenWritten(store: GroupStore, attempts: seq<Attempt>, i: int)
    requires Usable(store.baseline)
    requires 0 <= i < |attempts| && Accepts(attempts[i])
    ensures Succeeds(RunAll(store, attempts[..i]), attempts[i])
    ensures var k := |store.history| + Count(attempts[..i], Accepts);
      var after := RunAll(store, attempts[..i + 1]);
      && Usable(after.baseline)
      && k < |after.history|
      && after.history[k] == EntryFor(RunAll(store, attempts[..i]), attempts[i])
  {
    var before := RunAll(store, attempts[..i]);
    var after := RunAll(store, attempts[..i + 1]);
    HistoryGrows(store, attempts[..i]);
    assert after == ProcessGroup(before, attempts[i]) by {
      assert attempts[..i + 1][..i] == attempts[..i];
      assert attempts[..i + 1][i] == attempts[i];
    }
  }

  /** A saved roster that decodes to something other than an array makes
      every later run stop before writing: the group never recovers, whatever
      is fetched. */
  lemma {:induction false} StuckBaseline(store: GroupStore, attempts: seq<Attempt>)
    requires !Usable(store.baseline)
    ensures RunAll(store, attempts) == store
    decreases |attempts|
  {
    if attempts != [] {
      StuckBaseline(store, attempts[..|attempts| - 1]);
    }
  }

  /** A concrete instance: a saved `{}` swallows an accepted fetch. */
  lemma StuckOnSavedObject(history: seq<Entry>, roster: seq<Member>, now: string)
    ensures var store := GroupStore(Parsed(JObject(map[])), history);
      var a := Attempt(Body(JArray(roster)), now);
      && Accepts(a)
      && RunAll(store, [a, a]) == store
  {
    var store := GroupStore(Parsed(JObject(map[])), history);
    StuckBaseline(store, [Attempt(Body(JArray(roster)), now), Attempt(Body(JArray(roster)), now)]);
  }

  /** `i` is the last accepted run of the sequence. */
  ghost predicate LastAccepted(attempts: seq<Attempt>, i: int) {
    && 0 <= i < |attempts|
    && Accepts(attempts[i])
    && forall j :: i < j < |attempts| ==> !Accepts(attempts[j])
  }

  /** Runs over a readable baseline: the saved roster is the sorted roster
      of the last accepted fetch, or untouched when no fetch was accepted. */
  lemma {:induction false} BaselineIsLatest(store: GroupStore, attempts: seq<Attempt>)
    requires Usable(store.baseline)
    ensures Count(attempts, Accepts) == 0 ==> RunAll(store, attempts).baseline == store.baseline
    ensures forall i :: LastAccepted(attempts, i) ==>
      RunAll(store, attempts).baseline == Parsed(JArray(FetchedRoster(attempts[i].fetch).value))
    decreases |attempts|
  {
    if attempts != [] {
      var n := |attempts| - 1;
      var front := attempts[..n];
      BaselineIsLatest(store, front);
      HistoryGrows(store, front);
      forall i | LastAccepted(attempts, i)
        ensures RunAll(store, attempts).baseline == Parsed(JArray(FetchedRoster(attempts[i].fetch).value))
      {
        if i < n {
          assert front[i] == attempts[i];
          assert LastAccepted(front, i);
        }
      }
    }
  }
}
