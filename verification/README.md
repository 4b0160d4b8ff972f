# Habbo group membership monitor: a Dafny model

`monitor-groups.js` watches a fixed list of Habbo groups. Each run goes through the groups one at a time and, for each group:

1. fetches the group's member list from the public members endpoint;
2. sorts it with admins first;
3. compares it with the roster saved by the previous run, by `uniqueId`: who joined, who left, and whose admin flag flipped;
4. appends a report of that comparison to the group's report file;
5. overwrites the saved roster with the new one.

This project models the parts of a run that decide what is reported and what is stored.

- **`compareMembers`** (module `Compare`): the two `new Map(...)` identity maps, the two `filter` calls and the admin-change loop.
  - The maps are last-entry-wins (`Members.IdMap`).
  - Each filter is characterised exactly, index by index (`Seqs.Selects`): which entries it keeps, and in which order.
- **The admins-first sort** (module `AdminSort`): `Array.prototype.sort` with the comparator `(b.isAdmin === true ? 1 : 0) - (a.isAdmin === true ? 1 : 0)`.
  - The sort is stable (ECMAScript 2019 and later), so it is modelled as a stable insertion sort driven by that comparator.
  - It is proved equal to "admins in fetch order, then everyone else in fetch order".
  - It is also proved that any arrangement meeting the stable-sort requirement is that same roster, so the choice of sorting algorithm does not matter.
- **Response-shape normalisation** (module `Response`): a JSON array is the roster; otherwise, an object's `members` array is the roster; anything else is refused.
- **`processGroup`** (module `Monitor`): one run as a transition of the group's two stores.
  - The stores are the saved roster (the baseline) and the report history.
  - A run either changes nothing, or appends exactly one report and then replaces the baseline.
  - `RunAll` folds runs over a sequence of fetch attempts. The lemmas about it say:
    - which report each accepted run leaves, and where;
    - that earlier reports are never rewritten;
    - that, from a readable saved roster, the baseline always holds the roster of the last accepted fetch;
    - that a saved roster which is not an array freezes the group for good.

The network, the clock and the files are not effects in the model:

- Each run takes an `Attempt`, which holds the fetch outcome and the clock reading.
- The saved roster enters the model as the `Baseline` the file decodes to.

Three behaviours of the code are easy to misread; the model follows the code exactly:

- **Saved roster that decodes to a non-array.** Only a missing or undecodable saved file falls back to `[]` (lines 85-91). A saved value that decodes to anything other than an array makes `oldMembers.map` at line 31 throw. The outer handler at line 124 catches it, and nothing is written. `Monitor.PriorRoster` yields `Failure(BaselineNotArray)` for that case, and `Monitor.ProcessGroup` leaves the store unchanged. Because the saved file is never rewritten, such a group never recovers: every later run stops in the same way, whatever is fetched (`Monitor.StuckBaseline`).
- **History storage.** The history is appended as plain text (line 118) and never read back. The model keeps it as a sequence of entries that only ever grows at the end.
- **`null` body.** A `null` response body is not turned away at line 76. Reading `json.members` at line 72 throws, and line 124 catches it. Either way nothing is written, and the model reports it as `NullBody`.

## Model

| member | source | states |
|---|---|---|
| Members.IdMap | monitor-groups.js:31-32 | The keys of the map are exactly the identities in the roster. |
| Members.IdMapLast | monitor-groups.js:31-32 | The last entry carrying an identity is the one bound to it. This is how `new Map` resolves repeated keys: later pairs overwrite earlier ones. |
| Compare.AdminChangesRecordFlips | monitor-groups.js:41-54 | The loop records one change per new entry whose flag differs from the mapped old entry, in new-roster order, at the rank of that entry among the flipped ones. Each record is `{uniqueId, current name, old flag, new flag}`. Nothing else is recorded. |
| Compare.CompareMembersSpec | monitor-groups.js:30-38 | `added` selects exactly the new entries whose identity is absent from the old roster, in new-roster order. `removed` does the same with the rosters swapped. The sizes of all three lists are bounded by the roster each is drawn from. |
| Compare.DiffMembership | monitor-groups.js:35-38 | A member is in `added` if and only if it is in the new roster and its identity is not in the old roster. `removed` is the mirror image. |
| Compare.AddedRemovedDisjoint | monitor-groups.js:35-38 | No identity is reported both as joined and as departed. |
| Compare.AdminChangeRecord | monitor-groups.js:42-52 | Every change record has `from` different from `to`. Its name and `to` come from a new entry with that identity. Its `from` comes from the last old entry with that identity. |
| Compare.AdminChangeIdsDistinct | monitor-groups.js:42-52 | If the new roster has distinct identities, no identity is recorded twice. |
| Compare.AdminFlipReported | monitor-groups.js:35-54 | A member whose identity occurs once in each roster and whose flag flipped gets exactly one record, carrying both flags and its current name. That member is neither added nor removed. Other identities may repeat in either roster. |
| Compare.SelfCompare | monitor-groups.js:30-57 | Comparing a roster with itself reports no joins and no departures. It reports admin changes exactly when two entries share an identity but disagree on the flag. |
| Compare.SelfCompareUnique | monitor-groups.js:30-57 | A roster with distinct identities, compared with itself, gives the empty report. |
| Compare.DisjointCompare | monitor-groups.js:35-54 | When the rosters share no identity, everything new is added, everything old is removed, and there are no admin changes. |
| Compare.EmptyBaselineCompare | monitor-groups.js:35-54 | Against the empty fallback baseline, the whole new roster is added, and nothing is removed or changed. |
| Compare.PromotionAndJoin | monitor-groups.js:30-57 | Worked case for any two members with distinct identities. A known non-admin is now an admin, and an unknown member appears. The newcomer is the only member added, nobody is removed, and exactly one change is recorded: the promotion from false to true, under the member's current name. |
| AdminSort.SortPermutes | monitor-groups.js:80 | The comparator-driven sort neither adds nor loses entries: it preserves the multiset. |
| AdminSort.PartitionIsSort | monitor-groups.js:80 | The stable sort under the admin comparator equals the admins of the input in order, followed by the non-admins in order. |
| AdminSort.AdminsFirst | monitor-groups.js:80 | The sorted roster is the input's admins in fetch order, followed by its non-admins in fetch order. |
| AdminSort.AdminsFirstSpec | monitor-groups.js:80 | The sorted roster is a permutation of the input, and no non-admin precedes an admin in it. |
| AdminSort.Stable | monitor-groups.js:80 | Sorting keeps the relative order within the admins and within the non-admins. |
| AdminSort.StableOrderUnique | monitor-groups.js:80 | Any arrangement in which admins lead and both classes keep their input order is exactly the sorted roster. |
| AdminSort.Idempotent | monitor-groups.js:80 | Sorting an already sorted roster changes nothing. |
| AdminSort.SameMembers | monitor-groups.js:80 | The sorted roster has the same members and the same identity set as the input. |
| Response.SelectRoster | monitor-groups.js:69-77 | A roster is produced if and only if the body is an array or has a `members` array. The roster is that array. A `null` body is refused as `NullBody`. |
| Monitor.PriorRoster | monitor-groups.js:84-91 | A missing or undecodable baseline gives the empty roster. A decoded array is used as is. Any other decoded value fails, and only that case fails. |
| Monitor.FetchedRosterSpec | monitor-groups.js:69-80 | An accepted fetch yields the body's array rearranged: the same entries as a multiset, no non-admin before an admin, and the admins, and likewise the non-admins, in the order the body lists them. |
| Monitor.ProcessGroup | monitor-groups.js:60-127 | A run never rewrites earlier reports. It appends exactly one report if and only if the fetch is accepted and the baseline is readable; otherwise the store is unchanged. The report compares the sorted fetched roster with the saved one. The new baseline is the sorted roster. A readable baseline stays readable. |
| Monitor.FirstRun | monitor-groups.js:85-94 | With no saved roster, a run reports the whole sorted roster as added, with nothing removed or changed, and saves that roster. |
| Monitor.RepeatedFetch | monitor-groups.js:94-122 | Fetching the same body again right after a successful run reports no joins or departures and leaves the baseline as it was. It reports admin changes exactly when the body has inconsistent flags for one identity. |
| Monitor.HistoryGrows | monitor-groups.js:118-122 | Over any sequence of runs from a readable baseline: the baseline stays readable, the old history is a prefix of the new one, and exactly one report is added per accepted fetch. |
| Monitor.ReportOfRun | monitor-groups.js:94-118 | Starting from a readable baseline, the report of accepted run `i` sits at index "old history length + number of accepted runs before `i`". It is run `i`'s comparison against the baseline as it was at that time. Later runs leave it in place. |
| Monitor.BaselineIsLatest | monitor-groups.js:122 | Starting from a readable baseline, after a sequence of runs the baseline is the sorted roster of the last accepted fetch. If no fetch was accepted, it is the original baseline. |
| Monitor.StuckBaseline | monitor-groups.js:31 | From a baseline that decodes to something other than an array, any sequence of runs leaves the store unchanged: `compareMembers` throws on every run, and nothing is ever written again. |
| Monitor.StuckOnSavedObject | monitor-groups.js:31 | Concrete case: with a saved `{}`, a fetch of an accepted shape is accepted, yet running it twice leaves the store exactly as it was. |

## Left out

- **HTTP request and body decoding** (lines 62-66): these are inputs. A request that fails or a body that is not JSON is `Fetch.Unreachable`; a decoded body is `Fetch.Body`.
- **Reading and writing the files** (lines 84-91, 117-122): these are inputs and outputs of `Monitor.ProcessGroup`. The `JSON.stringify` / `JSON.parse` round trip of the saved roster is taken to reproduce the roster. Failures of `appendFile` or `writeFile` are not modelled. A failed `writeFile` after a successful append would leave a report without the matching baseline.
- **Report text** (lines 96-114): the text layout, `toLocaleString` / `toISOString` formatting and console output are not modelled. A report is its timestamp (a parameter) together with the `Delta` it prints.
- **The group list, `ensureDirectories` and `main`** (lines 8-27, 129-137): groups are processed one after another, and each group's stores are separate. The model covers one group's stores. Each group's failure is contained by its own `try`/`catch`.
- **JavaScript's loose typing**: member fields are typed, and `isAdmin` is a boolean. For boolean `isAdmin`, `=== true` in the comparator and `!==` in the comparison agree. Member objects without a `uniqueId`, or with non-boolean flags, are not modelled. A `members` property that is an array but holds non-member values is not modelled either.
- **Which exception stops a run**: the model records only that the run stopped. Every early stop leaves both stores as they were.
