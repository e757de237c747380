# ShelveModel storage engine and HTTP status registry, in Dafny

This project models the storage engine of zrest's `ShelveModel`
(`zrest/datamodels/shelvemodels.py`) and the status-code registry of
`zrest/statuscodes.py`, with the shelve files, threads and pipes replaced by
values.

A collection is a `Store.Store`. It holds:

- the meta record (`total`, `next`, `groups`);
- the optional `headers`;
- one map per data shard, `data_<g>`, from id to the stored dict or header-ordered row;
- one map per indexed field, from `str(value)` to a set of ids.

The storage operations are pure functions over that store:

- `_filter` is `Query.Filter`;
- `_get_datafile` is `Query.Partition`, with the loop itself as the method `Query.GetDatafile`;
- `_fetch` and `fetch` are `Query.FetchShard`, `Query.FetchAll` and `Query.Fetch`;
- `_set_index` and `_del_index` are `Index.SetIndex` and `Index.DelIndex`;
- `_new` is `Mutations.NewRecord`;
- `_replace`/`_edit` are `Mutations.ReplaceOne` and `Mutations.ReplaceShard`;
- `_drop` as written is `Mutations.DropShardAsWritten`. The corrected `_drop` (see Findings) is `Mutations.DropShard`, and it is the one the writer runs.

The writer loop `_writer` becomes `Writer.Step`, one request at a time, and
`Writer.Run`, a list of requests. `Store.Wf` is the invariant every request
keeps:

- records sit in shard `id % groups`;
- `total` counts the stored records and `total <= next`;
- rows have header length;
- each stored record is listed in the index exactly under its own values.

The `.block` marker protocol (`is_blocked`, `_block`, `_unblock`) is the
module `Locks`. The clock is a parameter. The registry of `statuscodes.py` is
the module `StatusCodes`.

`Scenarios` states, as lemmas, what `tests/shelvemodels_test.py` asserts
after its `post` and its `put`: the shard contents, the index entries and the
counters. It also states the records its two `get`s fetch. Where the test's
expectations differ from what the code produces, `Scenarios` states the
code's result:

- the `new` behind `post` answers with the record plus `_id`, where the test expects `HTTP201`;
- `fetch` returns records carrying `_id`, where the test expects them without it (`get` adds nothing and strips nothing);
- the test calls the keyword-only `post`, `get` and `put` positionally.

Modelling choices:

- **Exceptions become errors.** Every exception an operation raises is an `Err` of a `Result`. In the writer, an exception from `_filter` ends the writer thread, because the call sits outside the retry `try`. An exception from the action itself is retried forever. Either way that request and every later one go unanswered, so `Run` stops at the first `Err`.
- **Iteration order.** CPython iterates a set in hash-slot order, and an integer's slot is its value modulo the table size. Once ids reach the table size, that order is not ascending, and it also depends on the order in which the set was built. As a simplification the model fixes ascending order (`Query.Ascending`), so `fetch` may list the records of one shard in a different order than the code; see "## Left out". The shards of `_get_datafile` are visited in the order the ids first reach them (`Query.ShardOrder`).
- **Where the code departs from what its names and docstrings suggest, the model follows the code.** The exceptions are the writer's drop, which runs the corrected `_drop` of the Findings, and the cases listed under "## Left out". The departures the model does follow are these:
  - **Filter universe.** `_filter` starts from `range(0, total)`, not from the set of stored ids. After a `drop` below the last id, the last record can no longer be reached by any filter, and the empty filter fails with KeyError on the dropped id. `Writer.DropHidesLast` proves both.
  - **Drop leaves the index alone.** `_drop` passes the list returned by `_fetch` to `_del_index`. That loop iterates over dicts, not field names, so no entry is removed. `Mutations.DropShard` leaves the index unchanged, and `Store.Coherent` constrains index entries of stored records only.
  - **`ItemError` is never defined.** When the lookup in `_replace` or `_drop` raises, Python evaluates `except ItemError`, and that evaluation itself raises NameError. A missing id is therefore never skipped. The model names this outcome `Err(KeyError)`, after the lookup that failed. The writer's retry loop treats both exceptions alike.
  - **Index keys are concrete.** The index key `str(value)` is the concrete decimal text of an integer (`Values.Key`, `Decimal.Show`), not an abstract function. The same text is needed for `int()` on `_id` filters and for the `HTTPxxx` names.

## Model

| member | source | states |
|---|---|---|
| Decimal.ParseShow | zrest/datamodels/shelvemodels.py:389-390 | `int(str(i)) == i` for every integer, so an id written out as text reads back as itself |
| Decimal.ShowInjective | zrest/statuscodes.py:99-100 | different integers have different decimal texts |
| Strings.TrimFront | zrest/datamodels/shelvemodels.py:184 | the left half of `strip("\n")`: the result is a suffix, everything cut off is a newline, and the result does not start with one |
| Strings.TrimBack | zrest/datamodels/shelvemodels.py:184 | the right half of `strip("\n")`: the result is a prefix, everything cut off is a newline, and the result does not end with one |
| Strings.Split | zrest/datamodels/shelvemodels.py:184 | `split("\t")` gives at least one piece, and no piece contains a tab |
| Strings.JoinSplit | zrest/datamodels/shelvemodels.py:184 | joining the pieces of `split(sep)` with `sep` gives back the original text |
| Strings.SplitHead | zrest/datamodels/shelvemodels.py:184 | a separator-free piece followed by the separator splits off as the first piece |
| Strings.SplitPair | zrest/datamodels/shelvemodels.py:184 | `(a + "\t" + b).split("\t") == [a, b]` when neither part contains a tab |
| Values.AsIdOfKey | zrest/datamodels/shelvemodels.py:389-390 | an `_id` filter given as the text `str(i)` selects the same id as the number `i` |
| Values.KeyIgnoresType | zrest/datamodels/shelvemodels.py:271 | a number and its decimal text are different values but share one index key |
| Values.Zip | zrest/datamodels/shelvemodels.py:253-254 | `dict(zip(headers, row))` has exactly the headers as keys |
| Values.ZipAt | zrest/datamodels/shelvemodels.py:253-254 | in `dict(zip(headers, row))`, a header not repeated later maps to the cell at its position |
| Values.Encode | zrest/datamodels/shelvemodels.py:300-307 | the row `_new` stores has header length and holds each header's value, or `""` where the record lacks it |
| Values.ZipEncode | zrest/datamodels/shelvemodels.py:300-307 | zipping a stored row back with the headers gives the record restricted to the headers, blank where it lacked one |
| Store.Init | zrest/datamodels/shelvemodels.py:61-73 | a new collection has `total == next == 0`, `groups` empty shards and an empty index for exactly the declared fields, and it satisfies the invariant |
| Store.CountUpdate | zrest/datamodels/shelvemodels.py:308 | writing one shard changes the number of stored records by that shard's change in size |
| Store.CountKeys | zrest/datamodels/shelvemodels.py:406 | shards that each hold only their own residue class hold as many distinct ids as records |
| Store.LiveCount | zrest/datamodels/shelvemodels.py:311 | the record count equals the number of ids with a stored record, so under the invariant `total` counts stored records |
| Index.SetIndex | zrest/datamodels/shelvemodels.py:263-274 | the id is added under `str(value)` for each indexed field the record carries; nothing else changes and no index appears or disappears |
| Index.DelIndex | zrest/datamodels/shelvemodels.py:276-284 | the id is removed from `str(value)` for each indexed field the record carries; emptied entries stay |
| Index.DelUndoesSet | zrest/datamodels/shelvemodels.py:263-284 | `_del_index` with the record just added by `_set_index` restores the listing of every id |
| Query.BelowSize | zrest/datamodels/shelvemodels.py:386 | `range(0, n)` has `n` elements |
| Query.NarrowExact | zrest/datamodels/shelvemodels.py:387-399 | the intersection loop succeeds exactly when every key resolves, fails only with ValueError, and keeps exactly the ids every key admits |
| Query.Filter | zrest/datamodels/shelvemodels.py:385-400 | `_filter` fails exactly when some `_id` value is not a number (ValueError); otherwise it returns the ids in `[0, total)` that every key admits |
| Query.FilterInRange | zrest/datamodels/shelvemodels.py:386-399 | every filter result lies inside `range(0, total)` |
| Query.FilterOrderFree | zrest/datamodels/shelvemodels.py:387-399 | two filters with the same keys give the same result in any order |
| Query.FilterNarrows | zrest/datamodels/shelvemodels.py:399 | adding a key to a filter never enlarges the result |
| Query.FilterUnindexedEmpty | zrest/datamodels/shelvemodels.py:393-399 | a key on a field with no index, or with a value never indexed, empties the result |
| Query.Resolve | zrest/datamodels/shelvemodels.py:389-398 | one filter key resolves to ValueError exactly for a non-empty `_id` that does not parse as an integer; an empty `_id` admits everything; another `_id` admits that one id; any other field admits exactly the ids its index lists under `str(value)`, and none when the field is unindexed or the key is missing |
| Query.FilterById | zrest/datamodels/shelvemodels.py:389-392 | `_id: ""` keeps all of `range(0, total)`, a numeric `_id` keeps at most that id, and a non-numeric one raises ValueError |
| Query.FilterByField | zrest/datamodels/shelvemodels.py:393-398 | a key on another field yields the index entry of `str(v)` cut to `range(0, total)`, or nothing |
| Query.Partition | zrest/datamodels/shelvemodels.py:402-410 | `_get_datafile` puts every id in the group of shard `id % groups`; each group is non-empty and holds only ids of its shard |
| Query.PartitionIsPartition | zrest/datamodels/shelvemodels.py:402-410 | the groups are pairwise disjoint and together are exactly the input |
| Query.PartitionAdd | zrest/datamodels/shelvemodels.py:405-409 | one loop step adds the id to its own shard's group and changes no other group |
| Query.PartitionAddKeys | zrest/datamodels/shelvemodels.py:405-409 | a loop step adds exactly the id's shard to the set of groups |
| Query.PartitionAddOther | zrest/datamodels/shelvemodels.py:405-409 | a loop step leaves every group of another shard as it was |
| Query.PartitionAddOwn | zrest/datamodels/shelvemodels.py:405-409 | a loop step creates the id's own group if missing and adds the id to it |
| Query.PartitionExtend | zrest/datamodels/shelvemodels.py:405-409 | the groups of the first `i + 1` ids are the groups of the first `i` with `regs[i]` added to the group of its shard |
| Query.GetDatafile | zrest/datamodels/shelvemodels.py:402-410 | the loop over the ids, in any visiting order, builds exactly the partition of the ids |
| Query.PlacedPartition | zrest/datamodels/shelvemodels.py:402-410 | the groups the loop builds by visiting a list of ids, in whatever order, are exactly the partition of the set of those ids |
| Query.Ascending | zrest/datamodels/shelvemodels.py:250 | the ids of a set below `n` as a strictly increasing list with exactly the same members |
| Query.ShardOrder | zrest/datamodels/shelvemodels.py:241 | the shards of a list of ids, each once, exactly those some id falls in |
| Query.Decode | zrest/datamodels/shelvemodels.py:251-260 | `_fetch` omits exactly the rows whose length differs from the headers; a dict or a zipped row gains `_id`, and a row with no headers configured passes through |
| Query.DecodeRow | zrest/datamodels/shelvemodels.py:252-254 | in a fetched row every header not repeated later holds the cell at its position |
| Query.FetchShard | zrest/datamodels/shelvemodels.py:245-261 | `_fetch` succeeds exactly when every listed id is in the shard (KeyError otherwise); the records it returns are exactly the decoded records of the listed ids, rows of the wrong length left out |
| Query.StoredDecodes | zrest/datamodels/shelvemodels.py:251-256 | under the invariant `_fetch` never omits a stored row |
| Query.FetchShardCount | zrest/datamodels/shelvemodels.py:249-261 | when every listed record reads back, `_fetch` returns one record per listed id, the `i`-th being the decoded record of the `i`-th id |
| Query.FetchAll | zrest/datamodels/shelvemodels.py:240-242 | the loop of `fetch` succeeds exactly when every id of every visited group is stored, and the records it returns are exactly the decoded records of those ids |
| Query.StoredSplit | zrest/datamodels/shelvemodels.py:240-242 | when every id of the visited groups is stored, so are the ids of the first group's walk and those of the remaining groups |
| Query.StoredJoin | zrest/datamodels/shelvemodels.py:240-242 | conversely, a stored first walk and stored remaining groups make every visited id stored |
| Query.VisitedSplit | zrest/datamodels/shelvemodels.py:240-242 | a record read over the visited groups comes from the first group's walk or from the remaining groups |
| Query.VisitedJoin | zrest/datamodels/shelvemodels.py:240-242 | conversely, the records of the first walk and of the remaining groups are all read over the visited groups |
| Query.FetchAllCount | zrest/datamodels/shelvemodels.py:240-242 | when every visited record reads back, the loop of `fetch` returns one record per id it reads |
| Query.WalkMembers | zrest/datamodels/shelvemodels.py:241-250 | the ids the loop reads are exactly the ids below `total` of the visited groups |
| Query.WalkDistinct | zrest/datamodels/shelvemodels.py:241-250 | over the groups of `_get_datafile`, each visited once, the loop reads no id twice |
| Query.WalkCount | zrest/datamodels/shelvemodels.py:238-242 | the loop over the groups of `_get_datafile(ids)` reads exactly `len(ids)` ids |
| Query.FetchAllLength | zrest/datamodels/shelvemodels.py:238-242 | when every selected record reads back, the loop over the groups of `_get_datafile(ids)` returns exactly `len(ids)` records |
| Query.FetchAllOk | zrest/datamodels/shelvemodels.py:238-243 | fetching the groups of a filter result fails exactly when one of its ids has no record |
| Query.FetchAllContent | zrest/datamodels/shelvemodels.py:238-243 | every record a successful fetch of a filter result returns is the decoded record of a selected id, and every selected id's decoded record is among them |
| Query.FetchIds | zrest/datamodels/shelvemodels.py:238-242 | the loop of `fetch` over `_get_datafile(ids)` succeeds exactly when every id has a record; it returns exactly the decoded records of the ids, and `len(ids)` of them when each reads back |
| Query.Fetch | zrest/datamodels/shelvemodels.py:231-243 | `fetch` succeeds exactly when the filter resolves and every selected id is stored; it returns the decoded records of the selected ids and, under the invariant, one per selected id |
| Mutations.Layout | zrest/datamodels/shelvemodels.py:300-307 | what `_new` stores is a dict without headers and a row of header length with them |
| Mutations.LayoutReadsBack | zrest/datamodels/shelvemodels.py:300-308 | the stored record reads back as the given data, or as its projection on the headers |
| Mutations.Put | zrest/datamodels/shelvemodels.py:308 | `shelf[str(id)] = s` stores under `id` in its own shard, changes no other record, and raises the count exactly when `id` was absent |
| Mutations.Remove | zrest/datamodels/shelvemodels.py:381 | `del shelf[str(id)]` removes exactly that record and lowers the count by one |
| Mutations.CoherentAfter | zrest/datamodels/shelvemodels.py:263-284 | index coherence survives any change confined to one record that lists it exactly under its own values |
| Mutations.NewRecord | zrest/datamodels/shelvemodels.py:298-313 | `_new` stores the record under `next` in shard `next % groups`, raises both counters by one, lists the id under each indexed value, changes no other record, and keeps the invariant |
| Mutations.ListedUnder | zrest/datamodels/shelvemodels.py:263-274 | under the invariant a stored record is listed exactly under its own values |
| Mutations.RewriteIndex | zrest/datamodels/shelvemodels.py:341-345 | after `_del_index` of the old values and `_set_index` of the new ones, the id is listed exactly under its new values |
| Mutations.ReplaceOne | zrest/datamodels/shelvemodels.py:336-345 | `_replace` of one stored id rewrites it in place, moves neither counter, changes no other record and keeps the invariant |
| Mutations.ReplaceOneFields | zrest/datamodels/shelvemodels.py:337-344 | the rewritten record is the old one without `_id`, overridden by `data` and cut to the headers when there are headers |
| Mutations.ReplaceOneIndex | zrest/datamodels/shelvemodels.py:341-345 | after a replace the id is listed exactly under the values of its new record |
| Mutations.ReplaceShard | zrest/datamodels/shelvemodels.py:328-345 | `_replace` over a shard fails only with KeyError; on success it keeps the invariant, the meta record, the headers and the set of indexes |
| Mutations.ReplaceShardOk | zrest/datamodels/shelvemodels.py:330-334 | `_replace` over a shard succeeds exactly when every listed id is stored |
| Mutations.ReplaceShardKeeps | zrest/datamodels/shelvemodels.py:328-345 | a successful `_replace` leaves every unlisted record as it was |
| Mutations.ReplaceShardMerges | zrest/datamodels/shelvemodels.py:330-345 | every id a successful `_replace` lists was stored and now holds its old record merged with `data` |
| Mutations.DropOne | zrest/datamodels/shelvemodels.py:379-383 | one deletion removes that record, lowers `total` by one, and leaves `next`, the index and every other record alone |
| Mutations.DropAsWrittenFailsOnSecond | zrest/datamodels/shelvemodels.py:371-383 | `_drop` as written, given two distinct stored ids of one shard, raises on the second deletion |
| Mutations.DropShard | zrest/datamodels/shelvemodels.py:371-383 | the corrected `_drop` over a shard fails only with KeyError; on success it keeps the invariant and lowers `total` by the number of listed ids, with `next` and the index untouched |
| Mutations.DropShardOk | zrest/datamodels/shelvemodels.py:373-377 | with the corrected `_drop`, dropping a shard's ids succeeds exactly when every listed id is stored |
| Mutations.DropShardRemoves | zrest/datamodels/shelvemodels.py:379-381 | a successful corrected drop removes exactly the listed records |
| Writer.Apply | zrest/datamodels/shelvemodels.py:449 | the action on one shard succeeds exactly when all its ids are stored and keeps the invariant; a merge keeps the meta record and a delete keeps the index |
| Writer.ApplyEffect | zrest/datamodels/shelvemodels.py:449 | the action on one shard leaves unlisted records alone, merges each listed record, or deletes each one |
| Writer.ApplyAll | zrest/datamodels/shelvemodels.py:438-449 | the loop over the shards keeps the invariant, `next`, `groups`, the headers and the set of indexes |
| Writer.ApplyAllOk | zrest/datamodels/shelvemodels.py:438-449 | the loop over the shards fails exactly when some planned id has no record |
| Writer.FirstShard | zrest/datamodels/shelvemodels.py:438-449 | the first shard's action succeeds exactly when each of its planned ids is stored |
| Writer.RestOfPlan | zrest/datamodels/shelvemodels.py:438-449 | after the first shard, the rest of the plan is still a valid plan with its ids as they were |
| Writer.FirstLeavesPlan | zrest/datamodels/shelvemodels.py:438-449 | after the first shard's action the store still satisfies the invariant and the rest of the plan still applies to it |
| Writer.FirstLeavesRest | zrest/datamodels/shelvemodels.py:438-449 | the first shard's action leaves every record of the later shards as it was |
| Writer.ApplyAllEffect | zrest/datamodels/shelvemodels.py:438-449 | records outside the plan are untouched; a merge leaves every planned id stored and a delete removes every one |
| Writer.ApplyAllMerges | zrest/datamodels/shelvemodels.py:438-449 | under a merge, every planned record was stored and now holds its old record merged with `data` |
| Writer.Filtered | zrest/datamodels/shelvemodels.py:431-449 | a filtered request succeeds exactly when the filter resolves and every selected id is stored; it keeps the invariant, changes only the selected records, and merges keeps them stored while a drop removes them |
| Writer.FilterPlan | zrest/datamodels/shelvemodels.py:433-438 | the groups of `_get_datafile`, visited in first-appearance order, form a plan that touches exactly the filter's ids |
| Writer.FilteredMerges | zrest/datamodels/shelvemodels.py:431-449 | a filtered replace rewrites every selected record as `_replace` merges it |
| Writer.DropTotal | zrest/datamodels/shelvemodels.py:383 | a filtered drop lowers `total` by the number of selected ids |
| Writer.NothingDropped | zrest/datamodels/shelvemodels.py:311-312 | while `total == next` every id below `next` is stored |
| Writer.DropHidesLast | zrest/datamodels/shelvemodels.py:386 | after dropping an id below the last, the last record is still stored but no filter selects it, and the empty filter's fetch fails |
| Writer.Step | zrest/datamodels/shelvemodels.py:431-474 | `new` stores under `next`, raises both counters and replies with the record plus `_id`; the other requests succeed exactly when their filtered action does and reply `0`; the invariant holds after each |
| Writer.EditIsReplace | zrest/datamodels/shelvemodels.py:357-358 | `edit` is `replace` |
| Writer.NewCountPrefix | zrest/datamodels/shelvemodels.py:436-437 | a `new` in a prefix is counted by every longer prefix |
| Writer.ExpectedAt | zrest/datamodels/shelvemodels.py:436-473 | reply `i` answers request `i` with `next` advanced by the `new`s before it |
| Writer.Run | zrest/datamodels/shelvemodels.py:420-476 | requests served in order keep the invariant, advance `next` by the number of `new`s, and get exactly the replies `Expected` lists |
| Writer.ExpectedIdsIncrease | zrest/datamodels/shelvemodels.py:436-473 | two `new`s in one run are answered with distinct ids, the later one larger |
| Locks.RenderParses | zrest/datamodels/shelvemodels.py:182-185 | the marker `_block` writes reads back as the same owner and time |
| Locks.Block | zrest/datamodels/shelvemodels.py:157-163 | `_block` fails with BlockedFile exactly when the file is blocked for the caller, and otherwise writes a marker that reads back as the caller at `now` |
| Locks.Unblock | zrest/datamodels/shelvemodels.py:165-170 | `_unblock` leaves the marker or removes it, and it is removed exactly when it does not block the caller |
| Locks.IsBlockedCases | zrest/datamodels/shelvemodels.py:172-193 | `is_blocked`: a missing marker does not block, an unreadable one does (PermissionError), one that does not parse does not (ValueError); a marker written by `_block` blocks exactly when its owner is another and `stamp + 10 > now` |
| Locks.OwnNeverBlocks | zrest/datamodels/shelvemodels.py:187 | a marker never blocks the owner who wrote it |
| Locks.ForeignBlocksWhileFresh | zrest/datamodels/shelvemodels.py:184-188 | another owner's marker blocks exactly while less than ten seconds have passed since its stamp |
| Locks.GarbageNeverBlocks | zrest/datamodels/shelvemodels.py:189-190 | a marker that does not parse blocks nobody |
| Locks.Exclusive | zrest/datamodels/shelvemodels.py:157-188 | once one owner has blocked at `t`, every other owner's `_block` fails until `t + 10`, while the holder may block again |
| Locks.StaleTakeover | zrest/datamodels/shelvemodels.py:157-163 | ten seconds after its stamp a marker is taken over by anyone who blocks |
| Locks.UnblockOwn | zrest/datamodels/shelvemodels.py:165-170 | `_unblock` by the owner removes the marker its `_block` wrote |
| Locks.UnblockForeign | zrest/datamodels/shelvemodels.py:165-170 | `_unblock` by someone else leaves a live marker and removes a stale one |
| StatusCodes.Name | zrest/statuscodes.py:100 | every global name starts with `HTTP` |
| StatusCodes.NameInjective | zrest/statuscodes.py:99-102 | different codes get different names, so no registration overwrites another |
| StatusCodes.Register | zrest/statuscodes.py:99-102 | each code of the table is registered under its name as the instance of that code, and every registered name belongs to a code of the table |
| StatusCodes.Find | zrest/statuscodes.py:105-116 | the lookup succeeds exactly for the codes of the table and returns the instance of that code; otherwise it raises StatusCodeError |
| StatusCodes.GetCode | zrest/statuscodes.py:105-116 | `get_code(c)` succeeds exactly when `c` is in `CODES`, returns the instance registered as `HTTP<c>` whose code is `c`, and raises StatusCodeError otherwise |
| StatusCodes.Text | zrest/statuscodes.py:94-96 | `text` is `CODES[code]`, and KeyError for a code outside the table |
| StatusCodes.Repr | zrest/statuscodes.py:87-88 | `repr` succeeds exactly for codes in the table |
| StatusCodes.OneIsUnknown | tests/statuscodes_test.py:12-14 | `get_code(1)` raises StatusCodeError |
| StatusCodes.ReprReadsBack | tests/statuscodes_test.py:16-20 | a registered instance reprs as its decimal code, one space and its text, and the code reads back from the text before the first space |
| Scenarios.Fresh | tests/shelvemodels_test.py:14 | a new collection with two shards and indexes `a` and `b` is empty, with both counters at 0 |
| Scenarios.SelectsOnly | zrest/datamodels/shelvemodels.py:393-399 | a key whose index entry lists one id below `total` selects exactly that id |
| Scenarios.Post | tests/shelvemodels_test.py:35-47 | the writer answers the `new` behind `post` with the record plus `_id` 0 (the test expects `HTTP201`), stores it in `data_0`, lists 0 under `"1"` and `"2"`, and sets both counters to 1 |
| Scenarios.GetAfterPost | tests/shelvemodels_test.py:49-51 | fetching `{a: 1}` then returns the one-element list of that record with `_id` 0 (the test's list lacks `_id`) |
| Scenarios.Put | tests/shelvemodels_test.py:53-64 | the writer answers the replace over `{a: 1}` with `0`, which `replace` discards so that `put` returns `""`; it stores the new record under id 0, lists it under `"4"` and `"5"`, and leaves both counters at 1 |
| Scenarios.PutRecord | tests/shelvemodels_test.py:56-57 | the record stored after the `put` is exactly the new data |
| Scenarios.GetAfterPut | tests/shelvemodels_test.py:65-66 | fetching `{a: 4}` then returns the one-element list of the new record with `_id` 0 (the test's list lacks `_id`) |
| Scenarios.UnitTest | tests/shelvemodels_test.py:35-66 | post then put, in sequence, reach the states the test checks |

## Left out

- Shelve and dbm file I/O is not modelled. This covers opening and closing shelves, the `glob` existence checks and the on-disk names. An index "exists" when its field is a key of the store's index, created by `Store.Init`.
- The `"filepath"` and `"class"` bookkeeping keys of each shelf are not modelled, nor is the `name` property.
- Index.SetIndex: an index shelf also holds the key `"filepath"`, whose value is the shelf's path. A record whose indexed value has the text `filepath` makes `shelf[index] |= {registry}` raise TypeError, so the `new` or `replace` is retried forever. The model lists the id under `"filepath"` like any other key.
- Index.DelIndex: likewise, a record whose indexed value has the text `filepath` makes `shelf[index] -= {registry}` raise TypeError. The model removes the id like any other.
- Query.Filter: a filter value with the text `filepath` on an indexed field makes `final_set &= subfilter` raise TypeError, because the entry is the path text. The model resolves that key as an ordinary index key.
- Reopening an existing directory is not modelled, nor is discovering `headers` from `data_0` (the `headers` property). The headers are a parameter of the store.
- Store.Init: requires `groups > 0`, while the constructor accepts any `groups <= 0`. With zero groups every later `new` divides by zero. With negative groups `range(groups)` creates no shard, and Python's `next % groups` is zero or negative, naming a shard the constructor never made.
- Store.Init: the invariant is promised only when `_id` is neither a header nor an index field, and `Store.Wf` excludes such collections. The constructor accepts them. With `_id` as a header, `_replace` builds the new row with `new_data[item] for item in self.headers` after deleting `_id`, which raises KeyError unless `data` carries `_id`. With `_id` indexed, `_set_index` lists records under their own `_id` values, an index that `_filter` never consults.
- The writer's concurrency is not modelled: the request pipe, `@threadize`, `_wait_to_block`, `_keep_alive`, `time.sleep` and the bare-`except` retry loops. Requests are served one at a time. A request the writer never answers is an `Err`, and `Run` stops there.
- Writer.Step: a `drop` runs the corrected `_drop` (`Mutations.DropShard`). As written, a drop that selects two stored ids of one shard deletes the first, lowers `total`, then raises on the closed meta shelf (`Mutations.DropAsWrittenFailsOnSecond`). Every retry then fails on the id already deleted, so that request is never answered. The model answers it and deletes every selected record.
- Writer.Run: built on `Writer.Step`, so a run continues past such a drop, where the code stops answering.
- Writer.Apply: its delete is the corrected `_drop`, which succeeds on two stored ids of one shard where the code raises.
- Writer.FirstShard: the success condition of a delete is that of the corrected `_drop`.
- Writer.ApplyAllOk: "fails exactly when some planned id has no record" holds for the corrected `_drop`. With the code as written, a delete also fails on a shard holding two planned ids.
- Writer.Filtered: a drop's success condition is that of the corrected `_drop`.
- The lock protocol is not tied to the storage operations. `_set_index` and `_del_index` skip an index whose marker blocks the writer; the model assumes the writer holds every marker it waited for.
- `_block`'s `assert` that the file is one of the collection's shelves is left out: it guards a programming error, not a state.
- Locks.Block: the time is whole seconds written in decimal, instead of `%Y-%m-%d %H:%M:%S` text parsed by `strptime`. Only the order of times and the ten-second window matter to the protocol. The fractional seconds of `datetime.now()` are dropped.
- Locks.Unblock: a PermissionError from `os.remove` is not modelled, so a removal that is attempted always succeeds.
- Decimal.ParseShow: `int()` also accepts surrounding whitespace, underscores and non-ASCII digits. `Decimal.Parse` accepts only an optional sign followed by ASCII digits.
- Field values are integers and strings only. JSON floats, booleans, `null`, lists and nested objects are not modelled.
- `_fetch` also accepts a single integer registry (`isinstance(registries, int)`). No path of the writer reaches it with an integer, so only sets are modelled.
- Query.Ascending: the ids of a set are visited in ascending order, which CPython does not do. CPython visits them in hash-slot order, where an integer's slot is its value modulo the table size. For example, the index entry `{1} | {8}` of an 8-slot table iterates as 8, 1, and the group `{0, 10, …, 90}` iterates as 0, 70, 40, 10, …. So the code's `fetch` may return a shard's records in another order. The model promises the set of returned records and their number, not their order.
- The RESTful layer is not modelled: `post`, `get`, `put`, `patch` and `delete` of `zrest/basedatamodel.py`, which parse and dump JSON text around `new`, `fetch`, `replace`, `edit` and `drop`. Nor is the server.
- `StatusCode` instances compare by identity in Python; the model compares them by code. `get_code`'s `assert isinstance(code, int)` is implicit in the parameter type. The `__all__` bookkeeping is left out.

## Findings

| source | as written | input that shows it | evidently intended | confidence | as-written member | corrected member |
|---|---|---|---|---|---|---|
| zrest/datamodels/shelvemodels.py:371-383 | the inner `with shelve_open(self._meta_path) as file` rebinds `file`, so after the first deletion of a shard the next `del(file[str(reg)])` goes to the closed meta shelf and raises | a drop whose filter selects two stored ids of one shard, e.g. ids 0 and 2 with two groups | every selected record of the shard is deleted from the data shelf and `total` falls once per deletion | not executed | Mutations.DropShardAsWritten, Mutations.DropAsWrittenFailsOnSecond | Mutations.DropShard, Mutations.DropShardOk, Mutations.DropShardRemoves |
