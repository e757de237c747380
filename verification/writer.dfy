/**
 * The writer loop (`_writer`) reduced to one request at a time: resolve the
 * filter, split the ids by shard, and run the action on each shard in turn.
 * The reply is the created record for `new` and `0` otherwise.
 */
module Writer {
  import opened Wrappers
  import opened Values
  import opened Store
  import Query
  import Mutations

  /** The requests `new`, `replace`, `edit` and `drop` put on the pipe. */
  datatype Request =
    | New(data: Doc)
    | Replace(filter: Query.Query, data: Doc)
    | Edit(filter: Query.Query, data: Doc)
    | Drop(filter: Query.Query)

  /** What the writer sends back: the created record, or `0`. */
  datatype Reply = Created(doc: Doc) | Ack

  /** The per-shard action a filtered request runs. */
  datatype Change = Merge(data: Doc) | Delete

  /** `_replace`/`_edit` or `_drop` on the ids `regs` of shard `g`. */
  function Apply(st: Store, c: Change, regs: seq<Id>, g: int): (r: Result<Store, Error>)
    requires Wf(st) && 0 <= g < |st.shards|
    requires forall i :: 0 <= i < |regs| ==> regs[i] % st.meta.groups == g
    requires forall i, j :: 0 <= i < j < |regs| ==> regs[i] != regs[j]
    ensures r.Ok? <==> AllLive(st, regs)
    ensures r.Ok? ==> Wf(r.value) && r.value.headers == st.headers && r.value.index.Keys == st.index.Keys
    ensures r.Ok? ==> r.value.meta.next == st.meta.next && r.value.meta.groups == st.meta.groups
    ensures r.Ok? && c.Merge? ==> r.value.meta == st.meta
    ensures r.Ok? && c.Delete? ==> r.value.index == st.index
  {
    match c
    case Merge(data) => Mutations.ReplaceShardOk(st, data, regs, g); Mutations.ReplaceShard(st, data, regs, g)
    case Delete => Mutations.DropShardOk(st, regs, g); Mutations.DropShard(st, regs, g)
  }

  /** What `Apply` does to each record. */
  lemma ApplyEffect(st: Store, c: Change, regs: seq<Id>, g: int)
    requires Wf(st) && 0 <= g < |st.shards|
    requires forall i :: 0 <= i < |regs| ==> regs[i] % st.meta.groups == g
    requires forall i, j :: 0 <= i < j < |regs| ==> regs[i] != regs[j]
    ensures Apply(st, c, regs, g).Ok? ==>
      var r := Apply(st, c, regs, g).value;
      && (forall x :: x !in regs ==> Lookup(r, x) == Lookup(st, x))
      && (c.Merge? ==> forall x :: x in regs ==>
            Lookup(st, x).Some? && Lookup(r, x).Some? &&
            Mutations.MergedFrom(st.headers, c.data, Lookup(st, x).value, Lookup(r, x).value))
      && (c.Delete? ==> forall x :: x in regs ==> Lookup(r, x) == None)
  {
    if Apply(st, c, regs, g).Ok? {
      match c
      case Merge(data) =>
        Mutations.ReplaceShardMerges(st, data, regs, g);
        Mutations.ReplaceShardKeeps(st, data, regs, g);
      case Delete => Mutations.DropShardRemoves(st, regs, g);
    }
  }

  /** Id `x` belongs to a shard that `order` lists, in that shard's part. */
  predicate Touched(parts: map<int, set<Id>>, order: seq<int>, groups: int, x: Id)
    requires groups > 0
  {
    var g := x % groups;
    g in order && g in parts && x in parts[g]
  }

  /** What `ApplyAll` needs of its shard plan: listed shards exist, once each, and own their ids. */
  predicate Plan(st: Store, parts: map<int, set<Id>>, order: seq<int>, n: int)
    requires Shaped(st)
  {
    && (forall i :: 0 <= i < |order| ==> order[i] in parts && 0 <= order[i] < st.meta.groups)
    && (forall i, j :: 0 <= i < j < |order| ==> order[i] != order[j])
    && (forall g, x :: g in parts && x in parts[g] ==> x % st.meta.groups == g && 0 <= x < n)
  }

  /**
   * The loop over `filename_reg`: the action runs on each shard of `order`
   * with that shard's ids, smallest first; the first failure ends the request
   * (when that happens: `ApplyAllOk`).
   */
  function ApplyAll(st: Store, c: Change, parts: map<int, set<Id>>, order: seq<int>, n: int): (r: Result<Store, Error>)
    requires Wf(st) && Plan(st, parts, order, n)
    ensures r.Ok? ==> Wf(r.value) && r.value.headers == st.headers && r.value.index.Keys == st.index.Keys
    ensures r.Ok? ==> r.value.meta.next == st.meta.next && r.value.meta.groups == st.meta.groups
    ensures r.Ok? && c.Merge? ==> r.value.meta == st.meta
    ensures r.Ok? && c.Delete? ==> r.value.index == st.index
    decreases |order|
  {
    if |order| == 0 then
      Ok(st)
    else
      var first :- Apply(st, c, Query.Ascending(parts[order[0]], n), order[0]);
      ApplyAll(first, c, parts, order[1..], n)
  }

  /** The loop over the shards fails exactly when some planned id has no record. */
  lemma {:induction false} ApplyAllOk(st: Store, c: Change, parts: map<int, set<Id>>, order: seq<int>, n: int)
    requires Wf(st) && Plan(st, parts, order, n)
    ensures ApplyAll(st, c, parts, order, n).Ok? <==>
      forall x :: Touched(parts, order, st.meta.groups, x) ==> Lookup(st, x).Some?
    decreases |order|
  {
    if |order| > 0 {
      var groups := st.meta.groups;
      var g := order[0];
      var first := Apply(st, c, Query.Ascending(parts[g], n), g);
      FirstShard(st, c, parts, order, n);
      TouchedSplit(parts, order, groups);
      if first.Err? {
        var x :| x % groups == g && x in parts[g] && Lookup(st, x).None?;
        assert Touched(parts, order, groups, x);
      } else {
        var rest := order[1..];
        RestOfPlan(st, c, parts, order, n);
        ApplyAllOk(first.value, c, parts, rest, n);
        assert (forall x :: Touched(parts, order, groups, x) ==> Lookup(st, x).Some?) <==>
          (forall x :: Touched(parts, rest, groups, x) ==> Lookup(st, x).Some?);
      }
    }
  }

  /** The first shard of a plan: its action succeeds exactly when each of its ids has a record. */
  lemma FirstShard(st: Store, c: Change, parts: map<int, set<Id>>, order: seq<int>, n: int)
    requires Wf(st) && Plan(st, parts, order, n) && |order| > 0
    ensures var g := order[0];
      var first := Apply(st, c, Query.Ascending(parts[g], n), g);
      && (first.Ok? <==> forall x :: x % st.meta.groups == g && x in parts[g] ==> Lookup(st, x).Some?)
      && (first.Err? ==> ApplyAll(st, c, parts, order, n).Err?)
      && (first.Ok? ==> ApplyAll(st, c, parts, order, n) == ApplyAll(first.value, c, parts, order[1..], n))
  {
    var g := order[0];
    var regs := Query.Ascending(parts[g], n);
    assert forall x :: x in regs <==> x in parts[g];
  }

  /** After the first shard succeeds, the rest of the plan applies and sees its ids unchanged. */
  lemma RestOfPlan(st: Store, c: Change, parts: map<int, set<Id>>, order: seq<int>, n: int)
    requires Wf(st) && Plan(st, parts, order, n) && |order| > 0
    requires Apply(st, c, Query.Ascending(parts[order[0]], n), order[0]).Ok?
    ensures var first := Apply(st, c, Query.Ascending(parts[order[0]], n), order[0]).value;
      && Wf(first) && Plan(first, parts, order[1..], n)
      && first.meta.groups == st.meta.groups
      && forall x :: Touched(parts, order[1..], st.meta.groups, x) ==> Lookup(first, x) == Lookup(st, x)
  {
    FirstLeavesPlan(st, c, parts, order, n);
    FirstLeavesRest(st, c, parts, order, n);
  }

  /** The store after the first shard still satisfies the invariant and carries the rest of the plan. */
  lemma FirstLeavesPlan(st: Store, c: Change, parts: map<int, set<Id>>, order: seq<int>, n: int)
    requires Wf(st) && Plan(st, parts, order, n) && |order| > 0
    requires Apply(st, c, Query.Ascending(parts[order[0]], n), order[0]).Ok?
    ensures var first := Apply(st, c, Query.Ascending(parts[order[0]], n), order[0]).value;
      Wf(first) && first.meta.groups == st.meta.groups && Plan(first, parts, order[1..], n)
  {
  }

  /** The first shard's action leaves every record of the rest of the plan as it was. */
  lemma FirstLeavesRest(st: Store, c: Change, parts: map<int, set<Id>>, order: seq<int>, n: int)
    requires Wf(st) && Plan(st, parts, order, n) && |order| > 0
    requires Apply(st, c, Query.Ascending(parts[order[0]], n), order[0]).Ok?
    ensures var first := Apply(st, c, Query.Ascending(parts[order[0]], n), order[0]).value;
      forall x :: Touched(parts, order[1..], st.meta.groups, x) ==> Lookup(first, x) == Lookup(st, x)
  {
    var g := order[0];
    var regs := Query.Ascending(parts[g], n);
    ApplyEffect(st, c, regs, g);
    TouchedSplit(parts, order, st.meta.groups);
    assert forall x :: Touched(parts, order[1..], st.meta.groups, x) ==> x !in regs;
  }

  /** The ids of a shard plan: those of its first shard and those of the rest. */
  lemma TouchedSplit(parts: map<int, set<Id>>, order: seq<int>, groups: int)
    requires groups > 0 && |order| > 0
    requires forall i, j :: 0 <= i < j < |order| ==> order[i] != order[j]
    ensures forall x :: Touched(parts, order, groups, x) <==>
      (x % groups == order[0] && order[0] in parts && x in parts[order[0]]) || Touched(parts, order[1..], groups, x)
    ensures forall x :: Touched(parts, order[1..], groups, x) ==> x % groups != order[0]
  {
    assert order == [order[0]] + order[1..];
  }

  /**
   * What `ApplyAll` does to each record: ids outside the plan are untouched;
   * a merge leaves every planned id stored, a delete removes every one.
   */
  lemma {:induction false} ApplyAllEffect(st: Store, c: Change, parts: map<int, set<Id>>, order: seq<int>, n: int)
    requires Wf(st) && Plan(st, parts, order, n)
    requires ApplyAll(st, c, parts, order, n).Ok?
    ensures var r := ApplyAll(st, c, parts, order, n).value;
      && Shaped(r)
      && (forall x :: !Touched(parts, order, st.meta.groups, x) ==> Lookup(r, x) == Lookup(st, x))
      && (c.Merge? ==> forall x :: Touched(parts, order, st.meta.groups, x) ==> Lookup(r, x).Some?)
      && (c.Delete? ==> forall x :: Touched(parts, order, st.meta.groups, x) ==> Lookup(r, x) == None)
    decreases |order|
  {
    if |order| > 0 {
      var groups := st.meta.groups;
      var g := order[0];
      var regs := Query.Ascending(parts[g], n);
      var first := Apply(st, c, regs, g);
      FirstShard(st, c, parts, order, n);
      RestOfPlan(st, c, parts, order, n);
      TouchedSplit(parts, order, groups);
      ApplyEffect(st, c, regs, g);
      assert forall x :: x in regs <==> x in parts[g];
      ApplyAllEffect(first.value, c, parts, order[1..], n);
    }
  }

  /** Under a merge, every touched record was stored and now holds `_replace`'s merge of its old contents. */
  lemma {:induction false} ApplyAllMerges(st: Store, data: Doc, parts: map<int, set<Id>>, order: seq<int>, n: int)
    requires Wf(st) && Plan(st, parts, order, n)
    requires ApplyAll(st, Merge(data), parts, order, n).Ok?
    ensures var r := ApplyAll(st, Merge(data), parts, order, n).value;
      forall x :: Touched(parts, order, st.meta.groups, x) ==>
        && Lookup(st, x).Some? && Lookup(r, x).Some?
        && Mutations.MergedFrom(st.headers, data, Lookup(st, x).value, Lookup(r, x).value)
    decreases |order|
  {
    if |order| > 0 {
      var groups := st.meta.groups;
      var g := order[0];
      var regs := Query.Ascending(parts[g], n);
      var first := Apply(st, Merge(data), regs, g);
      FirstShard(st, Merge(data), parts, order, n);
      RestOfPlan(st, Merge(data), parts, order, n);
      TouchedSplit(parts, order, groups);
      var r := ApplyAll(first.value, Merge(data), parts, order[1..], n).value;
      forall x | Touched(parts, order, groups, x)
        ensures Lookup(st, x).Some? && Lookup(r, x).Some?
        ensures Mutations.MergedFrom(st.headers, data, Lookup(st, x).value, Lookup(r, x).value)
      {
        if Touched(parts, order[1..], groups, x) {
          ApplyAllMerges(first.value, data, parts, order[1..], n);
        } else {
          assert x in regs;
          ApplyEffect(st, Merge(data), regs, g);
          ApplyAllEffect(first.value, Merge(data), parts, order[1..], n);
        }
      }
    }
  }

  /**
   * A `replace`, `edit` or `drop` request: the filter is resolved, its ids are
   * grouped by `_get_datafile` and the action runs shard by shard, first
   * appearance along the ascending ids deciding the shard order.
   */
  function Filtered(st: Store, c: Change, filter: Query.Query): (r: Result<Store, Error>)
    requires Wf(st)
    ensures r.Ok? <==>
      && Query.Filter(st, filter).Ok?
      && forall x :: x in Query.Filter(st, filter).value ==> Lookup(st, x).Some?
    ensures r.Ok? ==> Wf(r.value) && r.value.headers == st.headers && r.value.index.Keys == st.index.Keys
    ensures r.Ok? ==> r.value.meta.next == st.meta.next && r.value.meta.groups == st.meta.groups
    ensures r.Ok? ==> forall x :: x !in Query.Filter(st, filter).value ==> Lookup(r.value, x) == Lookup(st, x)
    ensures r.Ok? && c.Merge? ==> r.value.meta == st.meta
    ensures r.Ok? && c.Merge? ==> forall x :: x in Query.Filter(st, filter).value ==> Lookup(r.value, x).Some?
    ensures r.Ok? && c.Delete? ==> r.value.index == st.index
    ensures r.Ok? && c.Delete? ==> forall x :: x in Query.Filter(st, filter).value ==> Lookup(r.value, x) == None
  {
    var ids :- Query.Filter(st, filter);
    var parts := Query.Partition(ids, st.meta.groups);
    var order := Query.ShardOrder(Query.Ascending(ids, st.meta.total), st.meta.groups);
    FilterPlan(st, ids);
    ApplyAllOk(st, c, parts, order, st.meta.total);
    var next :- ApplyAll(st, c, parts, order, st.meta.total);
    ApplyAllEffect(st, c, parts, order, st.meta.total);
    Ok(next)
  }

  /** The shard plan of a filter result: groups from `_get_datafile`, visited in first-appearance order. */
  lemma FilterPlan(st: Store, ids: set<Id>)
    requires Shaped(st)
    requires forall id :: id in ids ==> 0 <= id < st.meta.total
    ensures var groups := st.meta.groups;
      var parts := Query.Partition(ids, groups);
      var order := Query.ShardOrder(Query.Ascending(ids, st.meta.total), groups);
      && Plan(st, parts, order, st.meta.total)
      && forall x :: Touched(parts, order, groups, x) <==> x in ids
  {
    var groups := st.meta.groups;
    var parts := Query.Partition(ids, groups);
    var asc := Query.Ascending(ids, st.meta.total);
    var order := Query.ShardOrder(asc, groups);
    assert Plan(st, parts, order, st.meta.total) by {
      Query.PartitionIsPartition(ids, groups);
      forall i | 0 <= i < |order| ensures order[i] in parts {
        assert order[i] in order;
        var j :| 0 <= j < |asc| && asc[j] % groups == order[i];
        assert asc[j] in parts[order[i]];
      }
    }
    forall x | x in ids ensures Touched(parts, order, groups, x) {
      var j :| 0 <= j < |asc| && asc[j] == x;
    }
  }

  /** A filtered merge (`_replace`/`_edit`) rewrites each selected record as `_replace` merges it. */
  lemma FilteredMerges(st: Store, data: Doc, filter: Query.Query)
    requires Wf(st)
    ensures Filtered(st, Merge(data), filter).Ok? ==>
      var r := Filtered(st, Merge(data), filter).value;
      forall x :: x in Query.Filter(st, filter).value ==>
        && Lookup(st, x).Some? && Lookup(r, x).Some?
        && Mutations.MergedFrom(st.headers, data, Lookup(st, x).value, Lookup(r, x).value)
  {
    if Filtered(st, Merge(data), filter).Ok? {
      var ids := Query.Filter(st, filter).value;
      var parts := Query.Partition(ids, st.meta.groups);
      var order := Query.ShardOrder(Query.Ascending(ids, st.meta.total), st.meta.groups);
      FilterPlan(st, ids);
      ApplyAllMerges(st, data, parts, order, st.meta.total);
    }
  }

  /** A filtered drop lowers `total` once per selected id (`file["total"] -= 1` per deletion). */
  lemma DropTotal(st: Store, filter: Query.Query)
    requires Wf(st)
    ensures Filtered(st, Delete, filter).Ok? ==>
      Filtered(st, Delete, filter).value.meta.total == st.meta.total - |Query.Filter(st, filter).value|
  {
    if Filtered(st, Delete, filter).Ok? {
      var r := Filtered(st, Delete, filter).value;
      var ids := Query.Filter(st, filter).value;
      LiveCount(st);
      LiveCount(r);
      assert ids <= LiveIds(st);
      assert LiveIds(r) == LiveIds(st) - ids;
      assert |LiveIds(st) - ids| == |LiveIds(st)| - |ids|;
    }
  }

  /** While nothing was dropped (`total == next`), every id below `next` is stored. */
  lemma NothingDropped(st: Store)
    requires Wf(st) && st.meta.total == st.meta.next
    ensures forall x :: 0 <= x < st.meta.next ==> Lookup(st, x).Some?
  {
    LiveCount(st);
    var all := Query.Below(st.meta.next);
    Query.BelowSize(st.meta.next);
    assert LiveIds(st) <= all;
    assert |all - LiveIds(st)| == 0;
    assert LiveIds(st) == all;
    forall x | 0 <= x < st.meta.next ensures Lookup(st, x).Some? {
      assert x in all;
    }
  }

  /**
   * `_filter` starts from `range(0, total)` rather than from the stored ids.
   * Drop one record below the last in a store nothing was dropped from yet:
   * the last record is still stored, no filter reaches it any more, and the
   * filter over everything now fails on the dropped id.
   */
  lemma DropHidesLast(st: Store, x: Id)
    requires Wf(st) && st.meta.total == st.meta.next && 0 <= x < st.meta.next - 1
    ensures var r := Step(st, Drop([(IdField, Int(x))]));
      && r.Ok?
      && Lookup(r.value.0, st.meta.next - 1).Some?
      && (forall q :: Query.Filter(r.value.0, q).Ok? ==> st.meta.next - 1 !in Query.Filter(r.value.0, q).value)
      && Query.Fetch(r.value.0, []).Err?
  {
    var filter: Query.Query := [(IdField, Int(x))];
    NothingDropped(st);
    assert Query.Filter(st, filter) == Ok({x}) by {
      Query.FilterById(st, Int(x));
      assert AsId(Int(x)) == Some(x) && Int(x) != Blank;
      assert x in Query.Universe(st);
      assert Query.Universe(st) * {x} == {x};
    }
    DropTotal(st, filter);
    var r := Filtered(st, Delete, filter).value;
    assert Step(st, Drop(filter)) == Ok((r, Ack));
    forall q | Query.Filter(r, q).Ok? ensures st.meta.next - 1 !in Query.Filter(r, q).value {
      Query.FilterInRange(r, q);
    }
    assert Query.Filter(r, []) == Ok(Query.Universe(r));
    assert x in Query.Universe(r);
  }

  /**
   * One request as the writer runs it. `new` stores under id `next` and
   * replies with the record plus its `_id`; the others reply `0`. An `Err` is
   * a request that is never answered: `_filter` raised, which ends the writer
   * thread since it sits outside the retry loop, or the action keeps raising
   * and is retried forever. A drop runs the corrected `_drop`
   * (`Mutations.DropShard`), not `Mutations.DropShardAsWritten`.
   */
  function Step(st: Store, req: Request): (r: Result<(Store, Reply), Error>)
    requires Wf(st)
    ensures r.Ok? ==> Wf(r.value.0) && r.value.0.headers == st.headers && r.value.0.meta.groups == st.meta.groups
    ensures r.Ok? ==> r.value.0.index.Keys == st.index.Keys
    ensures req.New? ==> r.Ok?
    ensures req.New? ==> r.value.1 == Created(req.data[IdField := Int(st.meta.next)])
    ensures req.New? ==> r.value.0.meta == st.meta.(total := st.meta.total + 1, next := st.meta.next + 1)
    ensures req.New? ==> Lookup(r.value.0, st.meta.next) == Some(Mutations.Layout(st.headers, req.data))
    ensures !req.New? ==> r.Ok? == Filtered(st, Action(req), req.filter).Ok?
    ensures !req.New? && r.Ok? ==> r.value == (Filtered(st, Action(req), req.filter).value, Ack)
  {
    match req
    case New(data) =>
      Ok((Mutations.NewRecord(st, data), Created(data[IdField := Int(st.meta.next)])))
    case _ =>
      var next :- Filtered(st, Action(req), req.filter);
      Ok((next, Ack))
  }

  /** The per-shard action of a filtered request. */
  function Action(req: Request): Change
    requires !req.New?
  {
    if req.Drop? then Delete else Merge(req.data)
  }

  /** `_edit` is `_replace` under another name. */
  lemma EditIsReplace(st: Store, filter: Query.Query, data: Doc)
    requires Wf(st)
    ensures Step(st, Edit(filter, data)) == Step(st, Replace(filter, data))
  {
  }

  /** Number of `new` requests in a list. */
  function NewCount(reqs: seq<Request>): nat
    decreases |reqs|
  {
    if |reqs| == 0 then 0 else (if reqs[0].New? then 1 else 0) + NewCount(reqs[1..])
  }

  /** `new` requests in a prefix are never more than in a longer prefix, and a `new` at `i` counts. */
  lemma {:induction false} NewCountPrefix(reqs: seq<Request>, i: int, j: int)
    requires 0 <= i < j <= |reqs|
    ensures NewCount(reqs[..i]) + (if reqs[i].New? then 1 else 0) <= NewCount(reqs[..j])
    decreases |reqs|
  {
    if i > 0 {
      assert reqs[..i][1..] == reqs[1..][..i - 1];
      assert reqs[..j][1..] == reqs[1..][..j - 1];
      NewCountPrefix(reqs[1..], i - 1, j - 1);
    } else {
      assert reqs[..j][1..] == reqs[1..][..j - 1];
    }
  }

  /** The reply to one request when `next` is `n`. */
  function Answer(n: int, req: Request): Reply {
    if req.New? then Created(req.data[IdField := Int(n)]) else Ack
  }

  /** The replies a list of requests gets when all succeed, starting from `next == n`. */
  function Expected(n: int, reqs: seq<Request>): (replies: seq<Reply>)
    ensures |replies| == |reqs|
    decreases |reqs|
  {
    if |reqs| == 0 then [] else [Answer(n, reqs[0])] + Expected(n + (if reqs[0].New? then 1 else 0), reqs[1..])
  }

  /** The first reply of `Expected`, followed by the rest from the advanced `next`. */
  lemma ExpectedFirst(n: int, reqs: seq<Request>, first: Reply, m: int, rest: seq<Reply>)
    requires |reqs| > 0 && first == Answer(n, reqs[0])
    requires m == n + (if reqs[0].New? then 1 else 0) && rest == Expected(m, reqs[1..])
    ensures [first] + rest == Expected(n, reqs)
  {
  }

  /** Reply `i` answers request `i` with `next` advanced by the `new`s before it. */
  lemma {:induction false} ExpectedAt(n: int, reqs: seq<Request>, i: int)
    requires 0 <= i < |reqs|
    ensures Expected(n, reqs)[i] == Answer(n + NewCount(reqs[..i]), reqs[i])
    decreases |reqs|
  {
    if i > 0 {
      assert reqs[..i][1..] == reqs[1..][..i - 1];
      ExpectedAt(n + (if reqs[0].New? then 1 else 0), reqs[1..], i - 1);
    }
  }

  /**
   * The writer serving requests one after another. A request whose action
   * keeps failing is never answered and blocks every later one, so the run
   * stops at the first `Err`. Each `new` gets the id after the previous one.
   */
  function Run(st: Store, reqs: seq<Request>): (r: Result<(Store, seq<Reply>), Error>)
    requires Wf(st)
    ensures r.Ok? ==> Wf(r.value.0) && r.value.0.headers == st.headers && r.value.0.meta.groups == st.meta.groups
    ensures r.Ok? ==> r.value.0.index.Keys == st.index.Keys
    ensures r.Ok? ==> r.value.0.meta.next == st.meta.next + NewCount(reqs)
    ensures r.Ok? ==> r.value.1 == Expected(st.meta.next, reqs)
    decreases |reqs|
  {
    if |reqs| == 0 then
      Ok((st, []))
    else
      var first :- Step(st, reqs[0]);
      var rest :- Run(first.0, reqs[1..]);
      assert first.0.meta.next == st.meta.next + (if reqs[0].New? then 1 else 0);
      assert first.1 == Answer(st.meta.next, reqs[0]);
      ExpectedFirst(st.meta.next, reqs, first.1, first.0.meta.next, rest.1);
      Ok((rest.0, [first.1] + rest.1))
  }

  /** Two `new` requests answered in one run carry distinct ids, the later one larger. */
  lemma ExpectedIdsIncrease(n: int, reqs: seq<Request>, i: int, j: int)
    requires 0 <= i < j < |reqs| && reqs[i].New? && reqs[j].New?
    ensures var replies := Expected(n, reqs);
      && replies[i] == Created(reqs[i].data[IdField := Int(n + NewCount(reqs[..i]))])
      && replies[j] == Created(reqs[j].data[IdField := Int(n + NewCount(reqs[..j]))])
      && n + NewCount(reqs[..i]) < n + NewCount(reqs[..j])
  {
    ExpectedAt(n, reqs, i);
    ExpectedAt(n, reqs, j);
    NewCountPrefix(reqs, i, j);
  }
}
