/**
 * The concrete states the repository's unit test expects
 * (tests/shelvemodels_test.py): a collection with two shards and indexes on
 * `a` and `b`, one `post` of `{a: 1, b: 2, c: 3}` and one `put` over filter
 * `{a: 1}` with `{a: 4, b: 5, c: 5}`.
 */
module Scenarios {
  import opened Wrappers
  import opened Values
  import opened Store
  import Query
  import Mutations
  import Writer

  const Data1: Doc := map["a" := Int(1), "b" := Int(2), "c" := Int(3)]
  const Data2: Doc := map["a" := Int(4), "b" := Int(5), "c" := Int(5)]

  /** `ShelveModel(path, 2, index_fields=["a", "b"])` on an empty directory. */
  function Fresh(): (st: Store)
    ensures Wf(st) && st.meta == Meta(0, 0, 2) && st.headers.None?
    ensures st.index.Keys == {"a", "b"} && forall f, k, x :: !InIndex(st.index, f, k, x)
    ensures forall id :: Lookup(st, id) == None
  {
    Init(2, ["a", "b"], None)
  }

  /** `id` is the one id index `f` lists under `k`. */
  ghost predicate ListsOnly(st: Store, f: Field, k: string, id: Id) {
    forall x :: InIndex(st.index, f, k, x) <==> x == id
  }

  /** The entry of index `f` under `k` is exactly `{id}`. */
  lemma OnlyEntry(st: Store, f: Field, k: string, id: Id)
    requires ListsOnly(st, f, k, id)
    ensures f in st.index && k in st.index[f] && st.index[f][k] == {id}
  {
    assert InIndex(st.index, f, k, id);
    forall x | x in st.index[f][k] ensures x == id {
      assert InIndex(st.index, f, k, x);
    }
  }

  /** Filtering on an indexed field whose key lists one id below `total` selects exactly that id. */
  lemma SelectsOnly(st: Store, f: Field, v: Value, id: Id)
    requires f != IdField && ListsOnly(st, f, Key(v), id) && 0 <= id < st.meta.total
    ensures Query.Filter(st, [(f, v)]) == Ok({id})
  {
    OnlyEntry(st, f, Key(v), id);
    Query.FilterByField(st, f, v);
    assert id in Query.Universe(st);
    assert Query.Universe(st) * {id} == {id};
  }

  /** What test_1_post expects after posting `Data1`: record 0 in `data_0`, listed under `"1"` and `"2"`. */
  ghost predicate PostState(st: Store) {
    && Wf(st)
    && st.meta == Meta(1, 1, 2) && st.headers.None? && st.index.Keys == {"a", "b"}
    && (forall id :: Lookup(st, id) == if id == 0 then Some(Mapped(Data1)) else None)
    && 0 in st.shards[0]
    && ListsOnly(st, "a", "1", 0) && ListsOnly(st, "b", "2", 0)
  }

  /** What test_3_put expects after the replace: record 0 is `Data2`, listed under `"4"` and `"5"`. */
  ghost predicate PutState(st: Store) {
    && Wf(st)
    && st.meta == Meta(1, 1, 2) && st.headers.None? && st.index.Keys == {"a", "b"}
    && Lookup(st, 0) == Some(Mapped(Data2))
    && ListsOnly(st, "a", "4", 0) && ListsOnly(st, "b", "5", 0)
  }

  /** test_1_post: record 0 is stored as given in shard `data_0`, and both counters become 1. */
  lemma PostStores()
    ensures var st := Mutations.NewRecord(Fresh(), Data1);
      && st.meta == Meta(1, 1, 2) && st.headers.None? && st.index.Keys == {"a", "b"}
      && (forall id :: Lookup(st, id) == if id == 0 then Some(Mapped(Data1)) else None)
      && 0 in st.shards[0]
  {
  }

  /** The first record added to an empty index is the only id listed under its key. */
  lemma FirstListing(st: Store, data: Doc, f: Field)
    requires Wf(st) && st.headers.None? && f in st.index && f in data
    requires forall g, k, x :: !InIndex(st.index, g, k, x)
    ensures ListsOnly(Mutations.NewRecord(st, data), f, Key(data[f]), st.meta.next)
  {
  }

  /** test_1_post: index `a` lists only id 0 under `"1"`, index `b` only under `"2"`. */
  lemma PostIndexes()
    ensures var st := Mutations.NewRecord(Fresh(), Data1);
      ListsOnly(st, "a", "1", 0) && ListsOnly(st, "b", "2", 0)
  {
    var st0 := Fresh();
    assert Key(Int(1)) == "1" && Key(Int(2)) == "2";
    FirstListing(st0, Data1, "a");
    FirstListing(st0, Data1, "b");
  }

  /** test_1_post: the `post` replies with the record and `_id` 0, and leaves the expected state. */
  lemma Post()
    ensures var r := Writer.Step(Fresh(), Writer.New(Data1));
      r.Ok? && r.value.1 == Writer.Created(Data1[IdField := Int(0)]) && PostState(r.value.0)
  {
    PostStores();
    PostIndexes();
  }

  /** test_2_get: fetching `{a: 1}` from that state gives back the record with its `_id`. */
  lemma GetAfterPost(st: Store)
    requires PostState(st)
    ensures Query.Fetch(st, [("a", Int(1))]) == Ok([Mapped(Data1[IdField := Int(0)])])
  {
    assert Key(Int(1)) == "1";
    SelectsOnly(st, "a", Int(1), 0);
    assert Query.Filter(st, [("a", Int(1))]) == Ok({0});
    assert Lookup(st, 0) == Some(Mapped(Data1));
    assert ShardOf(st, 0) == 0 && st.shards[0][0] == Mapped(Data1);
    assert Query.DecodedRecord(st, 0) == Some(Mapped(Data1[IdField := Int(0)]));
    var r := Query.Fetch(st, [("a", Int(1))]).value;
    assert |r| == 1 && r[0] in r;
    assert r[0] == Mapped(Data1[IdField := Int(0)]);
    assert r == [r[0]];
  }

  /** test_3_put: the replace over `{a: 1}` goes through, replies `0` and reaches the expected state. */
  lemma Put(st: Store)
    requires PostState(st)
    ensures var r := Writer.Step(st, Writer.Replace([("a", Int(1))], Data2));
      r.Ok? && r.value.1 == Writer.Ack && PutState(r.value.0)
  {
    var filter: Query.Query := [("a", Int(1))];
    assert Key(Int(1)) == "1";
    SelectsOnly(st, "a", Int(1), 0);
    assert Query.Filter(st, filter) == Ok({0});
    var r := Writer.Filtered(st, Writer.Merge(Data2), filter).value;
    PutRecord(st, r);
    PutIndexes(r);
  }

  /** The record the replace leaves: `Data2`, every field of the old record being overwritten. */
  lemma PutRecord(st: Store, r: Store)
    requires PostState(st)
    requires Writer.Filtered(st, Writer.Merge(Data2), [("a", Int(1))]) == Ok(r)
    requires Query.Filter(st, [("a", Int(1))]) == Ok({0})
    ensures Lookup(r, 0) == Some(Mapped(Data2))
  {
    Writer.FilteredMerges(st, Data2, [("a", Int(1))]);
    assert Lookup(r, 0).value.Mapped? by {
      assert Fits(r.headers, r.shards[0][0]);
    }
    MergedOverData1(Lookup(r, 0).value);
  }

  /** Without headers, merging `Data2` over `Data1`, which shares its fields and has no `_id`, gives `Data2`. */
  lemma MergedOverData1(v: Stored)
    requires v.Mapped? && Mutations.MergedFrom(None, Data2, Mapped(Data1), v)
    ensures v == Mapped(Data2)
  {
    var a := v.doc;
    assert forall f :: f in a <==> f in Data2;
    assert forall f :: f in a ==> a[f] == Data2[f];
    assert a == Data2;
  }

  /** A coherent store holding only record 0 as `Data2` lists it exactly under `"4"` and `"5"`. */
  lemma PutIndexes(r: Store)
    requires Wf(r) && r.meta.next == 1 && r.headers.None? && r.index.Keys == {"a", "b"}
    requires Lookup(r, 0) == Some(Mapped(Data2))
    ensures ListsOnly(r, "a", "4", 0) && ListsOnly(r, "b", "5", 0)
  {
    assert Key(Int(4)) == "4" && Key(Int(5)) == "5";
    assert HasValue(r, "a", "4", 0) && HasValue(r, "b", "5", 0);
  }

  /** test_3_put, last check: fetching `{a: 4}` from that state gives back the new record. */
  lemma GetAfterPut(st: Store)
    requires PutState(st)
    ensures Query.Fetch(st, [("a", Int(4))]) == Ok([Mapped(Data2[IdField := Int(0)])])
  {
    assert Key(Int(4)) == "4";
    SelectsOnly(st, "a", Int(4), 0);
    assert Query.Filter(st, [("a", Int(4))]) == Ok({0});
    assert Query.DecodedRecord(st, 0) == Some(Mapped(Data2[IdField := Int(0)]));
    var r := Query.Fetch(st, [("a", Int(4))]).value;
    assert |r| == 1 && r[0] in r;
    assert r[0] == Mapped(Data2[IdField := Int(0)]);
    assert r == [r[0]];
  }

  /** The whole unit test in sequence: post, get, put, get. */
  lemma UnitTest()
    ensures var r1 := Writer.Step(Fresh(), Writer.New(Data1));
      && r1.Ok? && PostState(r1.value.0)
      && var r2 := Writer.Step(r1.value.0, Writer.Replace([("a", Int(1))], Data2));
      && r2.Ok? && PutState(r2.value.0)
  {
    Post();
    Put(Writer.Step(Fresh(), Writer.New(Data1)).value.0);
  }
}
