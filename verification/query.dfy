/**
 * Reading a collection: filter resolution (`_filter`), grouping ids by shard
 * (`_get_datafile`), decoding stored records (`_fetch`) and the `fetch` verb
 * that chains the three.
 */
module Query {
  import opened Wrappers
  import opened Values
  import opened Store

  /** A filter dict as (field, value) pairs in its iteration order. */
  type Query = seq<(Field, Value)>

  /** What one filter key allows: everything, or only the listed ids. */
  datatype Constraint = Anything | Among(ids: set<Id>)

  /** The starting set of `_filter`: `range(0, total)`. */
  function Universe(st: Store): (u: set<Id>)
    ensures forall id :: id in u <==> 0 <= id < st.meta.total
  {
    Below(st.meta.total)
  }

  /** `set(range(0, n))`. */
  function Below(n: int): (u: set<Id>)
    ensures forall id :: id in u <==> 0 <= id < n
    decreases n
  {
    if n <= 0 then {} else Below(n - 1) + {n - 1}
  }

  /** `range(0, n)` has `n` elements. */
  lemma {:induction false} BelowSize(n: nat)
    ensures |Below(n)| == n
  {
    if n > 0 {
      BelowSize(n - 1);
      assert n - 1 !in Below(n - 1);
    }
  }

  /**
   * The candidate set of one filter key: `_id` with `""` constrains nothing,
   * another `_id` value selects `{int(v)}`, any other field selects the index
   * entry `str(v)`, or nothing when the field has no index or the key is missing.
   */
  function Resolve(st: Store, field: Field, v: Value): (r: Result<Constraint, Error>)
    ensures r.Err? <==> field == IdField && v != Blank && AsId(v).None?
    ensures r.Err? ==> r.error == ValueError
    ensures r == Ok(Anything) <==> field == IdField && v == Blank
    ensures r.Ok? && field == IdField && v != Blank ==> r.value == Among({AsId(v).value})
    ensures field != IdField ==>
      && r.Ok? && r.value.Among?
      && forall id :: id in r.value.ids <==> field in st.index && Key(v) in st.index[field] && id in st.index[field][Key(v)]
  {
    if field == IdField && v != Blank then
      match AsId(v)
      case Some(i) => Ok(Among({i}))
      case None => Err(ValueError)
    else if field == IdField then
      Ok(Anything)
    else if field in st.index && Key(v) in st.index[field] then
      Ok(Among(st.index[field][Key(v)]))
    else
      Ok(Among({}))
  }

  /** Whether one filter key lets `id` through. */
  predicate Admits(st: Store, kv: (Field, Value), id: Id) {
    match Resolve(st, kv.0, kv.1)
    case Err(_) => false
    case Ok(Anything) => true
    case Ok(Among(ids)) => id in ids
  }

  function Meet(acc: set<Id>, c: Constraint): set<Id> {
    match c
    case Anything => acc
    case Among(ids) => acc * ids
  }

  /** `final_set &= subfilter` for each key in turn. */
  function Narrow(st: Store, acc: set<Id>, filter: Query): Result<set<Id>, Error>
    decreases |filter|
  {
    if |filter| == 0 then
      Ok(acc)
    else
      var c :- Resolve(st, filter[0].0, filter[0].1);
      Narrow(st, Meet(acc, c), filter[1..])
  }

  lemma {:induction false} NarrowExact(st: Store, acc: set<Id>, filter: Query)
    ensures Narrow(st, acc, filter).Ok? <==> forall i :: 0 <= i < |filter| ==> Resolve(st, filter[i].0, filter[i].1).Ok?
    ensures Narrow(st, acc, filter).Err? ==> Narrow(st, acc, filter).error == ValueError
    ensures Narrow(st, acc, filter).Ok? ==> forall id :: id in Narrow(st, acc, filter).value <==>
      id in acc && forall i :: 0 <= i < |filter| ==> Admits(st, filter[i], id)
    decreases |filter|
  {
    if |filter| > 0 {
      var r := Resolve(st, filter[0].0, filter[0].1);
      if r.Ok? {
        NarrowExact(st, Meet(acc, r.value), filter[1..]);
        assert forall i :: 1 <= i < |filter| ==> filter[i] == filter[1..][i - 1];
      }
    }
  }

  /**
   * `_filter`: the ids in `[0, total)` that every key admits; fails with
   * ValueError exactly when some `_id` value is not a number.
   */
  function Filter(st: Store, filter: Query): (r: Result<set<Id>, Error>)
    ensures r.Ok? <==> forall i :: 0 <= i < |filter| ==> Resolve(st, filter[i].0, filter[i].1).Ok?
    ensures r.Err? ==> r.error == ValueError
    ensures r.Ok? ==> forall id :: id in r.value <==>
      0 <= id < st.meta.total && forall i :: 0 <= i < |filter| ==> Admits(st, filter[i], id)
  {
    NarrowExact(st, Universe(st), filter);
    Narrow(st, Universe(st), filter)
  }

  /** Every result of `_filter` lies in `[0, total)`. */
  lemma FilterInRange(st: Store, filter: Query)
    requires Filter(st, filter).Ok?
    ensures Filter(st, filter).value <= Universe(st)
  {
  }

  /** The order of the filter keys does not matter. */
  lemma FilterOrderFree(st: Store, f1: Query, f2: Query)
    requires forall kv :: kv in f1 <==> kv in f2
    ensures Filter(st, f1) == Filter(st, f2)
  {
    var r1, r2 := Filter(st, f1), Filter(st, f2);
    assert r1.Ok? <==> r2.Ok? by {
      assert (forall i :: 0 <= i < |f1| ==> Resolve(st, f1[i].0, f1[i].1).Ok?) <==>
             (forall i :: 0 <= i < |f2| ==> Resolve(st, f2[i].0, f2[i].1).Ok?) by {
        if forall i :: 0 <= i < |f1| ==> Resolve(st, f1[i].0, f1[i].1).Ok? {
          forall i | 0 <= i < |f2| ensures Resolve(st, f2[i].0, f2[i].1).Ok? {
            assert f2[i] in f1;
          }
        }
        if forall i :: 0 <= i < |f2| ==> Resolve(st, f2[i].0, f2[i].1).Ok? {
          forall i | 0 <= i < |f1| ensures Resolve(st, f1[i].0, f1[i].1).Ok? {
            assert f1[i] in f2;
          }
        }
      }
    }
    if r1.Ok? {
      forall id ensures id in r1.value <==> id in r2.value {
        if id in r1.value {
          forall i | 0 <= i < |f2| ensures Admits(st, f2[i], id) {
            assert f2[i] in f1;
          }
        }
        if id in r2.value {
          forall i | 0 <= i < |f1| ensures Admits(st, f1[i], id) {
            assert f1[i] in f2;
          }
        }
      }
      assert r1.value == r2.value;
    }
  }

  /** Adding a key to a filter never enlarges its result. */
  lemma FilterNarrows(st: Store, filter: Query, kv: (Field, Value))
    requires Filter(st, filter + [kv]).Ok?
    ensures Filter(st, filter).Ok?
    ensures Filter(st, filter + [kv]).value <= Filter(st, filter).value
  {
    var g := filter + [kv];
    assert forall i :: 0 <= i < |filter| ==> filter[i] == g[i];
  }

  /** A key on a field without an index, or with a value never indexed, empties the result. */
  lemma FilterUnindexedEmpty(st: Store, filter: Query, i: int)
    requires 0 <= i < |filter| && filter[i].0 != IdField
    requires filter[i].0 !in st.index || Key(filter[i].1) !in st.index[filter[i].0]
    requires Filter(st, filter).Ok?
    ensures Filter(st, filter).value == {}
  {
    var r := Filter(st, filter).value;
    assert forall id :: id in r ==> Admits(st, filter[i], id);
    assert forall id :: id !in r;
  }

  /** A lone `_id` key: `""` keeps all of `[0, total)`, a number keeps at most itself. */
  lemma FilterById(st: Store, v: Value)
    ensures v == Blank ==> Filter(st, [(IdField, v)]) == Ok(Universe(st))
    ensures v != Blank && AsId(v).None? ==> Filter(st, [(IdField, v)]) == Err(ValueError)
    ensures v != Blank && AsId(v).Some? ==>
      Filter(st, [(IdField, v)]) == Ok(Universe(st) * {AsId(v).value})
  {
    var r := Filter(st, [(IdField, v)]);
    if r.Ok? {
      assert forall id :: id in r.value <==> id in Universe(st) && Admits(st, (IdField, v), id);
      if v == Blank {
        assert r.value == Universe(st);
      } else {
        assert r.value == Universe(st) * {AsId(v).value};
      }
    }
  }

  /** A lone key on another field yields the index entry of `str(v)`, cut to `[0, total)`. */
  lemma FilterByField(st: Store, f: Field, v: Value)
    requires f != IdField
    ensures f in st.index && Key(v) in st.index[f] ==>
      Filter(st, [(f, v)]) == Ok(Universe(st) * st.index[f][Key(v)])
    ensures !(f in st.index && Key(v) in st.index[f]) ==> Filter(st, [(f, v)]) == Ok({})
  {
    var r := Filter(st, [(f, v)]);
    assert forall id :: id in r.value <==> id in Universe(st) && Admits(st, (f, v), id);
    if f in st.index && Key(v) in st.index[f] {
      assert r.value == Universe(st) * st.index[f][Key(v)];
    } else {
      assert r.value == {};
    }
  }

  /**
   * `_get_datafile`: the ids grouped by the shard `id % groups` holding them;
   * each group is non-empty and holds exactly the ids of its shard.
   */
  function Partition(ids: set<Id>, groups: int): (parts: map<int, set<Id>>)
    requires groups > 0
    ensures forall id :: id in ids ==> id % groups in parts && id in parts[id % groups]
    ensures forall g :: g in parts ==> parts[g] != {} && forall id :: id in parts[g] ==> id in ids && id % groups == g
  {
    var keys := set id | id in ids :: id % groups;
    var parts := map g | g in keys :: set id | id in ids && id % groups == g;
    assert forall g :: g in parts ==> parts[g] != {} by {
      forall g | g in parts ensures parts[g] != {} {
        var id :| id in ids && id % groups == g;
        assert id in parts[g];
      }
    }
    parts
  }

  /** The groups of `_get_datafile` are pairwise disjoint and together are the input. */
  lemma PartitionIsPartition(ids: set<Id>, groups: int)
    requires groups > 0
    ensures forall g, h :: g in Partition(ids, groups) && h in Partition(ids, groups) && g != h ==>
      Partition(ids, groups)[g] !! Partition(ids, groups)[h]
    ensures forall id :: id in ids <==> exists g :: g in Partition(ids, groups) && id in Partition(ids, groups)[g]
  {
    var parts := Partition(ids, groups);
    forall id | id in ids ensures exists g :: g in parts && id in parts[g] {
      assert id % groups in parts && id in parts[id % groups];
    }
  }

  /** Adding one id to the input adds at most its own group. */
  lemma PartitionAddKeys(done: set<Id>, reg: Id, groups: int)
    requires groups > 0
    ensures Partition(done + {reg}, groups).Keys == Partition(done, groups).Keys + {reg % groups}
  {
    var p, q := Partition(done, groups), Partition(done + {reg}, groups);
    forall h | h in q ensures h in p || h == reg % groups {
      var id :| id in q[h] && id in done + {reg} && id % groups == h;
    }
  }

  /** Adding one id to the input leaves the group of every other shard as it was. */
  lemma PartitionAddOther(done: set<Id>, reg: Id, groups: int, h: int)
    requires groups > 0 && h != reg % groups && h in Partition(done + {reg}, groups)
    ensures h in Partition(done, groups) && Partition(done + {reg}, groups)[h] == Partition(done, groups)[h]
  {
    var p, q := Partition(done, groups), Partition(done + {reg}, groups);
    PartitionAddKeys(done, reg, groups);
    assert forall id :: id in q[h] ==> id in p[h];
    assert forall id :: id in p[h] ==> id in q[h];
  }

  /** Adding one id to the input adds it to its own shard's group. */
  lemma PartitionAddOwn(done: set<Id>, reg: Id, groups: int)
    requires groups > 0
    ensures var p := Partition(done, groups); var g := reg % groups;
      g in Partition(done + {reg}, groups) && Partition(done + {reg}, groups)[g] == (if g in p then p[g] else {}) + {reg}
  {
    var p, q := Partition(done, groups), Partition(done + {reg}, groups);
    var g := reg % groups;
    assert forall id :: id in q[g] ==> id == reg || (g in p && id in p[g]);
    assert forall id :: g in p && id in p[g] ==> id in q[g];
  }

  /** Adding one id to the input adds it to its own shard's group and changes nothing else. */
  lemma PartitionAdd(done: set<Id>, reg: Id, groups: int)
    requires groups > 0
    ensures var p := Partition(done, groups); var g := reg % groups;
      Partition(done + {reg}, groups) == p[g := (if g in p then p[g] else {}) + {reg}]
  {
    var p, q := Partition(done, groups), Partition(done + {reg}, groups);
    var g := reg % groups;
    var e := p[g := (if g in p then p[g] else {}) + {reg}];
    PartitionAddKeys(done, reg, groups);
    PartitionAddOwn(done, reg, groups);
    forall h | h in q && h != g ensures q[h] == e[h] {
      PartitionAddOther(done, reg, groups, h);
    }
    assert q.Keys == e.Keys;
  }

  /** One step of the loop of `_get_datafile`: visiting `regs[i]` extends the partition of the ids before it. */
  lemma PartitionExtend(regs: seq<Id>, i: int, groups: int)
    requires groups > 0 && 0 <= i < |regs|
    ensures var p := Partition(Members(regs[..i]), groups); var g := regs[i] % groups;
      Partition(Members(regs[..i + 1]), groups) == p[g := (if g in p then p[g] else {}) + {regs[i]}]
  {
    assert regs[..i + 1] == regs[..i] + [regs[i]];
    assert Members(regs[..i + 1]) == Members(regs[..i]) + {regs[i]};
    PartitionAdd(Members(regs[..i]), regs[i], groups);
  }

  /** The ids a sequence lists, as a set. */
  function Members(regs: seq<Id>): (s: set<Id>)
    ensures forall x :: x in s <==> x in regs
    decreases |regs|
  {
    if |regs| == 0 then {}
    else
      assert regs == regs[..|regs| - 1] + [regs[|regs| - 1]];
      Members(regs[..|regs| - 1]) + {regs[|regs| - 1]}
  }

  /** The groups the loop of `_get_datafile` has built after visiting `regs` in order. */
  function Placed(regs: seq<Id>, groups: int): map<int, set<Id>>
    requires groups > 0
    decreases |regs|
  {
    if |regs| == 0 then
      map[]
    else
      var before := Placed(regs[..|regs| - 1], groups);
      var reg := regs[|regs| - 1];
      var g := reg % groups;
      before[g := (if g in before then before[g] else {}) + {reg}]
  }

  /** Whatever order the loop visits the ids in, it builds exactly the partition of their set. */
  lemma {:induction false} PlacedPartition(regs: seq<Id>, groups: int)
    requires groups > 0
    ensures Placed(regs, groups) == Partition(Members(regs), groups)
    decreases |regs|
  {
    if |regs| == 0 {
      assert Members(regs) == {};
    } else {
      var i := |regs| - 1;
      PlacedPartition(regs[..i], groups);
      PartitionExtend(regs, i, groups);
      assert regs[..i + 1] == regs;
    }
  }

  /**
   * The loop of `_get_datafile`, visiting the ids in the order `regs` lists
   * them: the groups it builds are `Partition` of the ids visited.
   */
  method GetDatafile(regs: seq<Id>, groups: int) returns (parts: map<int, set<Id>>)
    requires groups > 0
    ensures parts == Partition(Members(regs), groups)
  {
    parts := map[];
    for i := 0 to |regs|
      invariant parts == Placed(regs[..i], groups)
    {
      var reg := regs[i];
      var g := reg % groups;
      assert regs[..i + 1][..i] == regs[..i];
      ghost var before := parts;
      if g !in parts {
        parts := parts[g := {}];
      }
      parts := parts[g := parts[g] + {reg}];
      assert parts == before[g := (if g in before then before[g] else {}) + {reg}];
    }
    assert regs[..|regs|] == regs;
    PlacedPartition(regs, groups);
  }

  /** The members of `s` in `[0, n)`, smallest first: the iteration order assumed for id sets. */
  function Ascending(s: set<Id>, n: int): (r: seq<Id>)
    ensures forall i :: 0 <= i < |r| ==> r[i] in s && 0 <= r[i] < n
    ensures forall x :: x in s && 0 <= x < n ==> x in r
    ensures forall i, j :: 0 <= i < j < |r| ==> r[i] < r[j]
    decreases n
  {
    if n <= 0 then [] else Ascending(s, n - 1) + (if n - 1 in s then [n - 1] else [])
  }

  /** `xs` with later repetitions removed: the insertion order of a dict built from `xs`. */
  function Distinct(xs: seq<int>): (r: seq<int>)
    ensures forall x :: x in r <==> x in xs
    ensures forall i, j :: 0 <= i < j < |r| ==> r[i] != r[j]
    decreases |xs|
  {
    if |xs| == 0 then
      []
    else
      var front := Distinct(xs[..|xs| - 1]);
      assert forall x :: x in xs <==> x in xs[..|xs| - 1] || x == xs[|xs| - 1] by {
        assert xs == xs[..|xs| - 1] + [xs[|xs| - 1]];
      }
      if xs[|xs| - 1] in front then front else front + [xs[|xs| - 1]]
  }

  /** The order `fetch` visits shards in: by first appearance along the ids. */
  function ShardOrder(ids: seq<Id>, groups: int): (order: seq<int>)
    requires groups > 0
    ensures forall g :: g in order <==> exists i :: 0 <= i < |ids| && ids[i] % groups == g
    ensures forall i, j :: 0 <= i < j < |order| ==> order[i] != order[j]
  {
    var shards := seq(|ids|, i requires 0 <= i < |ids| => ids[i] % groups);
    assert forall g :: g in shards <==> exists i :: 0 <= i < |ids| && ids[i] % groups == g by {
      forall g | (exists i :: 0 <= i < |ids| && ids[i] % groups == g) ensures g in shards {
        var i :| 0 <= i < |ids| && ids[i] % groups == g;
        assert shards[i] == g;
      }
    }
    Distinct(shards)
  }

  /**
   * How `_fetch` returns one stored value: a dict gets `_id`, a list of header
   * length becomes a dict with `_id`, a list of any other length is dropped,
   * and a list with no headers configured is passed through.
   */
  function Decode(headers: Option<seq<Field>>, id: Id, s: Stored): (r: Option<Stored>)
    ensures r.None? <==> s.Tupled? && headers.Some? && |s.cells| != |headers.value|
    ensures s.Tupled? && headers.None? ==> r == Some(s)
    ensures r.Some? && (s.Mapped? || headers.Some?) ==>
      r.value.Mapped? && r.value.doc == DocOf(headers, s)[IdField := Int(id)]
  {
    match s
    case Mapped(d) => Some(Mapped(d[IdField := Int(id)]))
    case Tupled(c) =>
      if headers.None? then Some(s)
      else if |c| == |headers.value| then Some(Mapped(Zip(headers.value, c)[IdField := Int(id)]))
      else None
  }

  /** In a decoded row every header not repeated later holds the cell at its position. */
  lemma DecodeRow(h: seq<Field>, id: Id, cells: seq<Value>, i: int)
    requires |cells| == |h| && 0 <= i < |h| && h[i] != IdField && h[i] !in h[i + 1..]
    ensures Decode(Some(h), id, Tupled(cells)) == Some(Mapped(Zip(h, cells)[IdField := Int(id)]))
    ensures Decode(Some(h), id, Tupled(cells)).value.doc[h[i]] == cells[i]
  {
    ZipAt(h, cells, i);
  }

  /** What `_fetch` returns for `id` read from shard `g`, if it returns anything. */
  function DecodedAt(st: Store, g: int, id: Id): Option<Stored>
    requires 0 <= g < |st.shards|
  {
    if id in st.shards[g] then Decode(st.headers, id, st.shards[g][id]) else None
  }

  /** Under the invariant every stored record reads back: `_fetch` never omits a row. */
  lemma StoredDecodes(st: Store, g: int, id: Id)
    requires Wf(st) && 0 <= g < |st.shards| && id in st.shards[g]
    ensures Decode(st.headers, id, st.shards[g][id]).Some?
  {
    assert Fits(st.headers, st.shards[g][id]);
  }

  /** Every id of `regs` names a record of shard `g` that reads back. */
  predicate Decodes(st: Store, regs: seq<Id>, g: int)
    requires 0 <= g < |st.shards|
  {
    forall i :: 0 <= i < |regs| ==> DecodedAt(st, g, regs[i]).Some?
  }

  /**
   * `_fetch(registries, shelf)`: the decoded records of `regs` read from shard
   * `g`, rows of the wrong length left out; KeyError when an id is missing.
   */
  function FetchShard(st: Store, regs: seq<Id>, g: int): (r: Result<seq<Stored>, Error>)
    requires 0 <= g < |st.shards|
    ensures r.Ok? <==> forall i :: 0 <= i < |regs| ==> regs[i] in st.shards[g]
    ensures r.Err? ==> r.error == KeyError
    ensures r.Ok? ==> |r.value| <= |regs|
    ensures r.Ok? ==> forall d :: d in r.value <==> exists i :: 0 <= i < |regs| && DecodedAt(st, g, regs[i]) == Some(d)
    decreases |regs|
  {
    if |regs| == 0 then
      Ok([])
    else if regs[0] !in st.shards[g] then
      Err(KeyError)
    else
      var rest :- FetchShard(st, regs[1..], g);
      assert forall i :: 1 <= i < |regs| ==> regs[i] == regs[1..][i - 1];
      match Decode(st.headers, regs[0], st.shards[g][regs[0]])
      case Some(d) => Ok([d] + rest)
      case None => Ok(rest)
  }

  /** When every listed record reads back, `_fetch` returns exactly their decoded records, in the order listed. */
  lemma {:induction false} FetchShardCount(st: Store, regs: seq<Id>, g: int)
    requires 0 <= g < |st.shards| && Decodes(st, regs, g)
    ensures var r := FetchShard(st, regs, g);
      r.Ok? && |r.value| == |regs| && forall i :: 0 <= i < |regs| ==> DecodedAt(st, g, regs[i]) == Some(r.value[i])
    decreases |regs|
  {
    if |regs| > 0 {
      assert forall i :: 1 <= i < |regs| ==> regs[i] == regs[1..][i - 1];
      FetchShardCount(st, regs[1..], g);
      assert DecodedAt(st, g, regs[0]).Some?;
    }
  }

  /** Every id below `n` of the groups in `order` is stored in its shard. */
  predicate AllStored(st: Store, parts: map<int, set<Id>>, order: seq<int>, n: int)
    requires forall i :: 0 <= i < |order| ==> order[i] in parts && 0 <= order[i] < |st.shards|
  {
    forall i, id :: 0 <= i < |order| && id in parts[order[i]] && 0 <= id < n ==> id in st.shards[order[i]]
  }

  /** `d` is the decoded record of an id below `n` of one of the groups in `order`. */
  predicate Visited(st: Store, parts: map<int, set<Id>>, order: seq<int>, n: int, d: Stored)
    requires forall i :: 0 <= i < |order| ==> order[i] in parts && 0 <= order[i] < |st.shards|
  {
    exists i, id :: 0 <= i < |order| && id in parts[order[i]] && 0 <= id < n && DecodedAt(st, order[i], id) == Some(d)
  }

  /** When a plan's ids are all stored, so are its first group's walk `regs` and the rest of the plan. */
  lemma StoredSplit(st: Store, parts: map<int, set<Id>>, order: seq<int>, n: int, regs: seq<Id>)
    requires forall i :: 0 <= i < |order| ==> order[i] in parts && 0 <= order[i] < |st.shards|
    requires |order| > 0
    requires forall i :: 0 <= i < |regs| ==> regs[i] in parts[order[0]] && 0 <= regs[i] < n
    requires forall x :: x in parts[order[0]] && 0 <= x < n ==> x in regs
    ensures AllStored(st, parts, order, n) ==>
      (forall i :: 0 <= i < |regs| ==> regs[i] in st.shards[order[0]]) && AllStored(st, parts, order[1..], n)
  {
    var tail := order[1..];
    if AllStored(st, parts, order, n) {
      forall i | 0 <= i < |regs| ensures regs[i] in st.shards[order[0]] {
        assert regs[i] in parts[order[0]];
      }
      forall i, id | 0 <= i < |tail| && id in parts[tail[i]] && 0 <= id < n ensures id in st.shards[tail[i]] {
        assert tail[i] == order[i + 1];
      }
    }
  }

  /** Conversely, a stored first walk and a stored rest make the whole plan stored. */
  lemma StoredJoin(st: Store, parts: map<int, set<Id>>, order: seq<int>, n: int, regs: seq<Id>)
    requires forall i :: 0 <= i < |order| ==> order[i] in parts && 0 <= order[i] < |st.shards|
    requires |order| > 0
    requires forall i :: 0 <= i < |regs| ==> regs[i] in parts[order[0]] && 0 <= regs[i] < n
    requires forall x :: x in parts[order[0]] && 0 <= x < n ==> x in regs
    requires forall i :: 0 <= i < |regs| ==> regs[i] in st.shards[order[0]]
    requires AllStored(st, parts, order[1..], n)
    ensures AllStored(st, parts, order, n)
  {
    var tail := order[1..];
    forall i, id | 0 <= i < |order| && id in parts[order[i]] && 0 <= id < n ensures id in st.shards[order[i]] {
      if i == 0 {
        var j :| 0 <= j < |regs| && regs[j] == id;
      } else {
        assert order[i] == tail[i - 1];
      }
    }
  }

  /** A record visited over a plan is one of its first walk `regs` or one visited over the rest. */
  lemma VisitedSplit(st: Store, parts: map<int, set<Id>>, order: seq<int>, n: int, regs: seq<Id>, d: Stored)
    requires forall i :: 0 <= i < |order| ==> order[i] in parts && 0 <= order[i] < |st.shards|
    requires |order| > 0
    requires forall i :: 0 <= i < |regs| ==> regs[i] in parts[order[0]] && 0 <= regs[i] < n
    requires forall x :: x in parts[order[0]] && 0 <= x < n ==> x in regs
    requires Visited(st, parts, order, n, d)
    ensures (exists i :: 0 <= i < |regs| && DecodedAt(st, order[0], regs[i]) == Some(d)) || Visited(st, parts, order[1..], n, d)
  {
    var tail := order[1..];
    var i, id :| 0 <= i < |order| && id in parts[order[i]] && 0 <= id < n && DecodedAt(st, order[i], id) == Some(d);
    if i == 0 {
      var j :| 0 <= j < |regs| && regs[j] == id;
    } else {
      assert order[i] == tail[i - 1];
    }
  }

  /** Conversely, the records of the first walk and those visited over the rest are visited over the plan. */
  lemma VisitedJoin(st: Store, parts: map<int, set<Id>>, order: seq<int>, n: int, regs: seq<Id>, d: Stored)
    requires forall i :: 0 <= i < |order| ==> order[i] in parts && 0 <= order[i] < |st.shards|
    requires |order| > 0
    requires forall i :: 0 <= i < |regs| ==> regs[i] in parts[order[0]] && 0 <= regs[i] < n
    requires forall x :: x in parts[order[0]] && 0 <= x < n ==> x in regs
    requires (exists i :: 0 <= i < |regs| && DecodedAt(st, order[0], regs[i]) == Some(d)) || Visited(st, parts, order[1..], n, d)
    ensures Visited(st, parts, order, n, d)
  {
    var tail := order[1..];
    if exists i :: 0 <= i < |regs| && DecodedAt(st, order[0], regs[i]) == Some(d) {
      var j :| 0 <= j < |regs| && DecodedAt(st, order[0], regs[j]) == Some(d);
      assert regs[j] in parts[order[0]];
    } else {
      var i, id :| 0 <= i < |tail| && id in parts[tail[i]] && 0 <= id < n && DecodedAt(st, tail[i], id) == Some(d);
      assert order[i + 1] == tail[i];
    }
  }

  /** One step of the loop of `fetch`: the first group's `_fetch` joined with the rest of the loop. */
  lemma FetchAllStep(st: Store, parts: map<int, set<Id>>, order: seq<int>, n: int, regs: seq<Id>,
                     first: Result<seq<Stored>, Error>, rest: Result<seq<Stored>, Error>)
    requires forall i :: 0 <= i < |order| ==> order[i] in parts && 0 <= order[i] < |st.shards|
    requires |order| > 0
    requires forall i :: 0 <= i < |regs| ==> regs[i] in parts[order[0]] && 0 <= regs[i] < n
    requires forall x :: x in parts[order[0]] && 0 <= x < n ==> x in regs
    requires first.Ok? <==> forall i :: 0 <= i < |regs| ==> regs[i] in st.shards[order[0]]
    requires first.Ok? ==> forall d :: d in first.value <==> exists i :: 0 <= i < |regs| && DecodedAt(st, order[0], regs[i]) == Some(d)
    requires rest.Ok? <==> AllStored(st, parts, order[1..], n)
    requires rest.Ok? ==> forall d :: d in rest.value <==> Visited(st, parts, order[1..], n, d)
    ensures first.Ok? && rest.Ok? <==> AllStored(st, parts, order, n)
    ensures first.Ok? && rest.Ok? ==> forall d :: d in first.value + rest.value <==> Visited(st, parts, order, n, d)
  {
    StoredSplit(st, parts, order, n, regs);
    if first.Ok? && rest.Ok? {
      StoredJoin(st, parts, order, n, regs);
      forall d ensures d in first.value + rest.value <==> Visited(st, parts, order, n, d) {
        if d in first.value + rest.value { VisitedJoin(st, parts, order, n, regs, d); }
        if Visited(st, parts, order, n, d) { VisitedSplit(st, parts, order, n, regs, d); }
      }
    }
  }

  /** Concatenation of `_fetch` over the shards in `order`, as the loop of `fetch` extends its list. */
  function FetchAll(st: Store, parts: map<int, set<Id>>, order: seq<int>, n: int): (r: Result<seq<Stored>, Error>)
    requires forall i :: 0 <= i < |order| ==> order[i] in parts && 0 <= order[i] < |st.shards|
    ensures r.Ok? <==> AllStored(st, parts, order, n)
    ensures r.Ok? ==> forall d :: d in r.value <==> Visited(st, parts, order, n, d)
    decreases |order|
  {
    if |order| == 0 then
      Ok([])
    else
      var g := order[0];
      var regs := Ascending(parts[g], n);
      var first := FetchShard(st, regs, g);
      assert forall i :: 1 <= i < |order| ==> order[i] == order[1..][i - 1];
      var rest := FetchAll(st, parts, order[1..], n);
      FetchAllStep(st, parts, order, n, regs, first, rest);
      if first.Err? then
        Err(first.error)
      else if rest.Err? then
        Err(rest.error)
      else
        Ok(first.value + rest.value)
  }

  /** The record `fetch` would return for `id`, looked up in its own shard. */
  function DecodedRecord(st: Store, id: Id): Option<Stored>
    requires Shaped(st)
  {
    DecodedAt(st, ShardOf(st, id), id)
  }

  /** Fetching the groups of a filter result fails exactly when one of its ids has no record. */
  lemma FetchAllOk(st: Store, ids: set<Id>, order: seq<int>)
    requires Shaped(st)
    requires forall id :: id in ids ==> 0 <= id < st.meta.total
    requires forall g :: g in order <==> g in Partition(ids, st.meta.groups)
    requires forall i :: 0 <= i < |order| ==> 0 <= order[i] < |st.shards|
    ensures FetchAll(st, Partition(ids, st.meta.groups), order, st.meta.total).Ok? <==>
      forall id :: id in ids ==> Lookup(st, id).Some?
  {
    var parts := Partition(ids, st.meta.groups);
    var n := st.meta.total;
    if forall id :: id in ids ==> Lookup(st, id).Some? {
      forall i, id | 0 <= i < |order| && id in parts[order[i]] && 0 <= id < n ensures id in st.shards[order[i]] {
        assert id in ids && id % st.meta.groups == order[i];
        assert Lookup(st, id).Some?;
      }
    }
    if FetchAll(st, parts, order, n).Ok? {
      forall id | id in ids ensures Lookup(st, id).Some? {
        var g := id % st.meta.groups;
        assert g in order;
        var i :| 0 <= i < |order| && order[i] == g;
        assert id in parts[order[i]] && 0 <= id < n;
      }
    }
  }

  /** A successful fetch of a filter result returns the decoded record of each of its ids. */
  lemma FetchAllContent(st: Store, ids: set<Id>, order: seq<int>)
    requires Shaped(st)
    requires forall id :: id in ids ==> 0 <= id < st.meta.total
    requires forall g :: g in order <==> g in Partition(ids, st.meta.groups)
    requires forall i :: 0 <= i < |order| ==> 0 <= order[i] < |st.shards|
    ensures var r := FetchAll(st, Partition(ids, st.meta.groups), order, st.meta.total);
      r.Ok? ==> forall d :: d in r.value <==> exists id :: id in ids && DecodedRecord(st, id) == Some(d)
  {
    var parts := Partition(ids, st.meta.groups);
    var n := st.meta.total;
    var r := FetchAll(st, parts, order, n);
    if r.Ok? {
      forall d | d in r.value ensures exists id :: id in ids && DecodedRecord(st, id) == Some(d) {
        var i, id :| 0 <= i < |order| && id in parts[order[i]] && 0 <= id < n && DecodedAt(st, order[i], id) == Some(d);
        assert id in ids && ShardOf(st, id) == order[i];
        assert DecodedRecord(st, id) == Some(d);
      }
      forall d | exists id :: id in ids && DecodedRecord(st, id) == Some(d) ensures d in r.value {
        var id :| id in ids && DecodedRecord(st, id) == Some(d);
        var g := id % st.meta.groups;
        assert g in parts && id in parts[g];
        assert g in order;
        var i :| 0 <= i < |order| && order[i] == g;
        assert id in parts[order[i]] && 0 <= id < n && DecodedAt(st, order[i], id) == Some(d);
      }
    }
  }

  /** The ids the loop of `fetch` reads: shard by shard in `order`, each shard's ids below `n` smallest first. */
  function Walk(parts: map<int, set<Id>>, order: seq<int>, n: int): seq<Id>
    requires forall i :: 0 <= i < |order| ==> order[i] in parts
    decreases |order|
  {
    if |order| == 0 then [] else Ascending(parts[order[0]], n) + Walk(parts, order[1..], n)
  }

  /** When every visited record reads back, `fetch` returns one record per id of the walk. */
  lemma {:induction false} FetchAllCount(st: Store, parts: map<int, set<Id>>, order: seq<int>, n: int)
    requires forall i :: 0 <= i < |order| ==> order[i] in parts && 0 <= order[i] < |st.shards|
    requires forall i, id :: 0 <= i < |order| && id in parts[order[i]] && 0 <= id < n ==> DecodedAt(st, order[i], id).Some?
    ensures FetchAll(st, parts, order, n).Ok? && |FetchAll(st, parts, order, n).value| == |Walk(parts, order, n)|
    decreases |order|
  {
    if |order| > 0 {
      var g := order[0];
      var regs := Ascending(parts[g], n);
      assert Decodes(st, regs, g) by {
        forall i | 0 <= i < |regs| ensures DecodedAt(st, g, regs[i]).Some? {
          assert regs[i] in parts[order[0]] && 0 <= regs[i] < n;
        }
      }
      assert forall i :: 1 <= i < |order| ==> order[i] == order[1..][i - 1];
      FetchShardCount(st, regs, g);
      FetchAllCount(st, parts, order[1..], n);
    }
  }

  /** The walk reads exactly the ids below `n` of the groups in `order`. */
  lemma {:induction false} WalkMembers(parts: map<int, set<Id>>, order: seq<int>, n: int)
    requires forall i :: 0 <= i < |order| ==> order[i] in parts
    ensures forall x :: x in Walk(parts, order, n) <==> 0 <= x < n && exists i :: 0 <= i < |order| && x in parts[order[i]]
    decreases |order|
  {
    if |order| > 0 {
      var a := Ascending(parts[order[0]], n);
      var rest := Walk(parts, order[1..], n);
      assert forall i :: 1 <= i < |order| ==> order[i] == order[1..][i - 1];
      WalkMembers(parts, order[1..], n);
      forall x | 0 <= x < n && exists i :: 0 <= i < |order| && x in parts[order[i]] ensures x in a + rest {
        var i :| 0 <= i < |order| && x in parts[order[i]];
        if i > 0 {
          assert x in parts[order[1..][i - 1]];
        }
      }
      forall x | x in rest ensures exists i :: 0 <= i < |order| && x in parts[order[i]] {
        var i :| 0 <= i < |order[1..]| && x in parts[order[1..][i]];
        assert x in parts[order[i + 1]];
      }
    }
  }

  /** Over the groups of a partition, each group visited once, the walk repeats no id. */
  lemma {:induction false} WalkDistinct(parts: map<int, set<Id>>, order: seq<int>, n: int, groups: int)
    requires groups > 0
    requires forall g, x :: g in parts && x in parts[g] ==> x % groups == g
    requires forall i :: 0 <= i < |order| ==> order[i] in parts
    requires forall i, j :: 0 <= i < j < |order| ==> order[i] != order[j]
    ensures forall k, l :: 0 <= k < l < |Walk(parts, order, n)| ==> Walk(parts, order, n)[k] != Walk(parts, order, n)[l]
    decreases |order|
  {
    if |order| > 0 {
      var a := Ascending(parts[order[0]], n);
      var rest := Walk(parts, order[1..], n);
      var w := a + rest;
      assert forall i :: 1 <= i < |order| ==> order[i] == order[1..][i - 1];
      WalkDistinct(parts, order[1..], n, groups);
      WalkMembers(parts, order[1..], n);
      forall k, l | 0 <= k < l < |w| ensures w[k] != w[l] {
        if l >= |a| && k < |a| {
          var y := rest[l - |a|];
          assert y in rest;
          var i :| 0 <= i < |order[1..]| && y in parts[order[1..][i]];
          assert y % groups == order[i + 1];
          assert w[k] in parts[order[0]];
        } else if k >= |a| {
          assert w[k] == rest[k - |a|] && w[l] == rest[l - |a|];
        }
      }
    }
  }

  /** A list without repetitions has as many elements as its set of members. */
  lemma {:induction false} DistinctCard(xs: seq<Id>)
    requires forall k, l :: 0 <= k < l < |xs| ==> xs[k] != xs[l]
    ensures |Members(xs)| == |xs|
    decreases |xs|
  {
    if |xs| > 0 {
      var init := xs[..|xs| - 1];
      DistinctCard(init);
      assert xs[|xs| - 1] !in Members(init);
    }
  }

  /** Walking the groups of a partition of `ids`, each group once and all of them, reads `|ids|` ids. */
  lemma WalkCount(ids: set<Id>, parts: map<int, set<Id>>, order: seq<int>, n: int, groups: int)
    requires groups > 0
    requires forall id :: id in ids ==> 0 <= id < n && id % groups in parts && id in parts[id % groups]
    requires forall g, x :: g in parts && x in parts[g] ==> x in ids
    requires forall g, x :: g in parts && x in parts[g] ==> x % groups == g
    requires forall i :: 0 <= i < |order| ==> order[i] in parts
    requires forall g :: g in parts ==> g in order
    requires forall i, j :: 0 <= i < j < |order| ==> order[i] != order[j]
    ensures |Walk(parts, order, n)| == |ids|
  {
    WalkMembers(parts, order, n);
    WalkDistinct(parts, order, n, groups);
    var w := Walk(parts, order, n);
    DistinctCard(w);
    assert Members(w) == ids by {
      forall x ensures x in Members(w) <==> x in ids {
        if x in w {
          var i :| 0 <= i < |order| && x in parts[order[i]];
          assert order[i] in parts;
        }
        if x in ids {
          var g := x % groups;
          assert g in order;
          var i :| 0 <= i < |order| && order[i] == g;
          assert x in parts[order[i]];
        }
      }
    }
  }

  /**
   * The `fetch` verb: the decoded records of every id the filter selects,
   * shard by shard. It fails when the filter fails, or with KeyError when a
   * selected id has no record (an id dropped below `total`).
   */
  function Fetch(st: Store, filter: Query): (r: Result<seq<Stored>, Error>)
    requires Shaped(st)
    ensures r.Ok? <==> Filter(st, filter).Ok? && forall id :: id in Filter(st, filter).value ==> Lookup(st, id).Some?
    ensures r.Ok? ==> forall d :: d in r.value <==>
      exists id :: id in Filter(st, filter).value && DecodedRecord(st, id) == Some(d)
    ensures r.Ok? && Wf(st) ==> |r.value| == |Filter(st, filter).value|
  {
    var ids :- Filter(st, filter);
    assert Wf(st) && FetchIds(st, ids).Ok? ==> forall id :: id in ids ==> DecodedRecord(st, id).Some? by {
      if Wf(st) && FetchIds(st, ids).Ok? {
        forall id | id in ids ensures DecodedRecord(st, id).Some? {
          StoredDecodes(st, ShardOf(st, id), id);
        }
      }
    }
    FetchIds(st, ids)
  }

  /** When every requested record decodes, the loop of `fetch` returns exactly `len(ids)` records. */
  lemma FetchAllLength(st: Store, ids: set<Id>, order: seq<int>)
    requires Shaped(st)
    requires forall id :: id in ids ==> 0 <= id < st.meta.total
    requires forall i :: 0 <= i < |order| ==> order[i] in Partition(ids, st.meta.groups) && 0 <= order[i] < |st.shards|
    requires forall g :: g in Partition(ids, st.meta.groups) ==> g in order
    requires forall i, j :: 0 <= i < j < |order| ==> order[i] != order[j]
    ensures var r := FetchAll(st, Partition(ids, st.meta.groups), order, st.meta.total);
      (forall id :: id in ids ==> DecodedRecord(st, id).Some?) ==> r.Ok? && |r.value| == |ids|
  {
    var parts := Partition(ids, st.meta.groups);
    if forall id :: id in ids ==> DecodedRecord(st, id).Some? {
      forall i, id | 0 <= i < |order| && id in parts[order[i]] && 0 <= id < st.meta.total
        ensures DecodedAt(st, order[i], id).Some?
      {
        assert id in ids && ShardOf(st, id) == order[i];
      }
      FetchAllCount(st, parts, order, st.meta.total);
      WalkCount(ids, parts, order, st.meta.total, st.meta.groups);
    }
  }

  /** Reading a set of ids below `total` group by group, in the order the ids first reach each shard. */
  function FetchIds(st: Store, ids: set<Id>): (r: Result<seq<Stored>, Error>)
    requires Shaped(st)
    requires forall id :: id in ids ==> 0 <= id < st.meta.total
    ensures r.Ok? <==> forall id :: id in ids ==> Lookup(st, id).Some?
    ensures r.Ok? ==> forall d :: d in r.value <==> exists id :: id in ids && DecodedRecord(st, id) == Some(d)
    ensures (forall id :: id in ids ==> DecodedRecord(st, id).Some?) ==> r.Ok? && |r.value| == |ids|
  {
    var groups := st.meta.groups;
    var parts := Partition(ids, groups);
    var asc := Ascending(ids, st.meta.total);
    var order := ShardOrder(asc, groups);
    assert forall g :: g in order <==> g in parts by {
      forall g | g in parts ensures g in order {
        var id :| id in parts[g];
        var i :| 0 <= i < |asc| && asc[i] == id;
      }
    }
    assert forall i :: 0 <= i < |order| ==> order[i] in parts && 0 <= order[i] < |st.shards| by {
      forall i | 0 <= i < |order| ensures order[i] in parts && 0 <= order[i] < |st.shards| {
        assert order[i] in order;
      }
    }
    FetchAllOk(st, ids, order);
    FetchAllContent(st, ids, order);
    FetchAllLength(st, ids, order);
    FetchAll(st, parts, order, st.meta.total)
  }
}
