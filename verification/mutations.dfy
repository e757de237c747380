/**
 * The three mutations the writer applies: `_new`, `_replace` (which `_edit`
 * calls unchanged) and `_drop`, each as a transition of the store.
 */
module Mutations {
  import opened Wrappers
  import opened Values
  import opened Store
  import opened Index
  import Query

  /** What `_new` writes for `data`: the dict itself, or its header-ordered row. */
  function Layout(headers: Option<seq<Field>>, data: Doc): (s: Stored)
    ensures Fits(headers, s)
  {
    match headers
    case None => Mapped(data)
    case Some(h) => Tupled(Encode(h, data))
  }

  /** `data` as the stored record reads back: unchanged, or projected on the headers. */
  function Seen(headers: Option<seq<Field>>, data: Doc): Doc {
    match headers
    case None => data
    case Some(h) => Project(h, data)
  }

  lemma LayoutReadsBack(headers: Option<seq<Field>>, data: Doc)
    ensures DocOf(headers, Layout(headers, data)) == Seen(headers, data)
  {
    if headers.Some? {
      ZipEncode(headers.value, data);
    }
  }

  /** `shelf[str(id)] = s` in the shard of `id`. */
  function Put(st: Store, id: Id, s: Stored): (r: Store)
    requires Shaped(st) && 0 <= id < st.meta.next
    ensures Shaped(r) && r.meta == st.meta && r.headers == st.headers && r.index == st.index
    ensures Lookup(r, id) == Some(s)
    ensures forall x :: x != id ==> Lookup(r, x) == Lookup(st, x)
    ensures Count(r.shards) == Count(st.shards) + (if Lookup(st, id).Some? then 0 else 1)
    ensures forall h, x :: 0 <= h < |st.shards| && x in st.shards[h] ==> x in r.shards[h]
    ensures forall g, x :: 0 <= g < |r.shards| && x in r.shards[g] ==>
      (x == id && r.shards[g][x] == s) || (x != id && x in st.shards[g] && r.shards[g][x] == st.shards[g][x])
  {
    var g := ShardOf(st, id);
    var m := st.shards[g][id := s];
    CountUpdate(st.shards, g, m);
    assert |m| == |st.shards[g]| + (if id in st.shards[g] then 0 else 1);
    st.(shards := st.shards[g := m])
  }

  /** `del shelf[str(id)]` in the shard of `id`. */
  function Remove(st: Store, id: Id): (r: Store)
    requires Shaped(st) && Lookup(st, id).Some?
    ensures Shaped(r) && r.meta == st.meta && r.headers == st.headers && r.index == st.index
    ensures Lookup(r, id) == None
    ensures forall x :: x != id ==> Lookup(r, x) == Lookup(st, x)
    ensures Count(r.shards) == Count(st.shards) - 1
    ensures forall h, x :: 0 <= h < |st.shards| && x in st.shards[h] && x != id ==> x in r.shards[h]
    ensures forall g, x :: 0 <= g < |r.shards| && x in r.shards[g] ==> x in st.shards[g] && r.shards[g][x] == st.shards[g][x]
  {
    var g := ShardOf(st, id);
    var m := st.shards[g] - {id};
    CountUpdate(st.shards, g, m);
    assert |m| == |st.shards[g]| - 1;
    st.(shards := st.shards[g := m])
  }

  /**
   * Coherence survives a change confined to one record `id`: other records
   * and their index entries are untouched, and `id` is listed exactly under
   * its own values.
   */
  lemma CoherentAfter(st: Store, r: Store, id: Id)
    requires Shaped(st) && Shaped(r) && Coherent(st)
    requires r.headers == st.headers && r.index.Keys == st.index.Keys
    requires forall x :: x != id ==> Lookup(r, x) == Lookup(st, x)
    requires forall f, k, x :: x != id ==> (InIndex(r.index, f, k, x) <==> InIndex(st.index, f, k, x))
    requires Lookup(r, id).Some? ==>
      forall f, k :: f in r.index ==> (InIndex(r.index, f, k, id) <==> HasValue(r, f, k, id))
    ensures Coherent(r)
  {
    forall f, k, x | f in r.index && Lookup(r, x).Some?
      ensures InIndex(r.index, f, k, x) <==> HasValue(r, f, k, x)
    {
      if x != id {
        assert HasValue(r, f, k, x) == HasValue(st, f, k, x);
      }
    }
  }

  /**
   * `_new(data, next, shard)` as the writer runs it: the record is stored under
   * id `next` in shard `next % groups`, both counters rise by one, and the new
   * id is indexed under the value of every indexed field the stored record has.
   */
  function NewRecord(st: Store, data: Doc): (r: Store)
    requires Wf(st)
    ensures Wf(r)
    ensures r.meta == st.meta.(total := st.meta.total + 1, next := st.meta.next + 1)
    ensures r.headers == st.headers && r.index.Keys == st.index.Keys
    ensures Lookup(r, st.meta.next) == Some(Layout(st.headers, data))
    ensures DocOf(r.headers, Lookup(r, st.meta.next).value) == Seen(st.headers, data)
    ensures forall x :: x != st.meta.next ==> Lookup(r, x) == Lookup(st, x)
    ensures forall f, k, x :: InIndex(r.index, f, k, x) <==>
      InIndex(st.index, f, k, x) ||
      (x == st.meta.next && f in st.index && f in Seen(st.headers, data) && k == Key(Seen(st.headers, data)[f]))
  {
    var id := st.meta.next;
    var s := Layout(st.headers, data);
    LayoutReadsBack(st.headers, data);
    var stored := Put(st.(meta := st.meta.(next := id + 1)), id, s);
    var r := stored.(meta := stored.meta.(total := st.meta.total + 1), index := SetIndex(st.index, DocOf(st.headers, s), id));
    assert Lookup(st, id).None?;
    assert forall f, k :: !InIndex(st.index, f, k, id);
    CoherentAfter(st, r, id);
    r
  }

  /** The record `_replace` writes: the old record without `_id`, overridden by `data`. */
  function Merged(prior: Doc, data: Doc): Doc {
    (prior - {IdField}) + data
  }

  /** The store after `_replace` rewrote record `id` with `data`. */
  function Rewrite(st: Store, data: Doc, id: Id): Store
    requires Wf(st) && Lookup(st, id).Some?
  {
    var before := DocOf(st.headers, Lookup(st, id).value);
    var s := Layout(st.headers, Merged(before, data));
    var ix := SetIndex(DelIndex(st.index, before - {IdField}, id), DocOf(st.headers, s), id);
    Put(st, id, s).(index := ix)
  }

  /** Under coherence a stored record is listed exactly under its own values, `_id` aside. */
  lemma ListedUnder(st: Store, id: Id)
    requires Wf(st) && Lookup(st, id).Some?
    ensures var stale := DocOf(st.headers, Lookup(st, id).value) - {IdField};
      forall f, k :: f in st.index ==> (InIndex(st.index, f, k, id) <==> f in stale && k == Key(stale[f]))
  {
    assert forall f, k :: f in st.index ==> (InIndex(st.index, f, k, id) <==> HasValue(st, f, k, id));
  }

  /** Index of the rewritten store: `id` is listed exactly under its new values. */
  lemma RewriteIndex(st: Store, data: Doc, id: Id)
    requires Wf(st) && Lookup(st, id).Some?
    ensures var r := Rewrite(st, data, id);
      && Shaped(r)
      && forall f, k, x :: InIndex(r.index, f, k, x) <==>
        (x != id && InIndex(st.index, f, k, x)) || (x == id && f in st.index && HasValue(r, f, k, id))
  {
    var stale := DocOf(st.headers, Lookup(st, id).value) - {IdField};
    var s := Layout(st.headers, Merged(DocOf(st.headers, Lookup(st, id).value), data));
    var after := DocOf(st.headers, s);
    var del := DelIndex(st.index, stale, id);
    var r := Rewrite(st, data, id);
    assert r == Put(st, id, s).(index := SetIndex(del, after, id));
    assert Lookup(r, id) == Some(s);
    assert forall f, k :: HasValue(r, f, k, id) <==> f in after && Key(after[f]) == k;
    ListedUnder(st, id);
    assert forall f, k :: !InIndex(del, f, k, id);
    assert forall f, k, x :: x != id ==> (InIndex(del, f, k, x) <==> InIndex(st.index, f, k, x));
  }

  /**
   * `_replace(data, {id}, shard)` for one stored record: the record is
   * rewritten in place, counters do not move and no other record changes
   * (the new contents: `ReplaceOneFields`; the index: `ReplaceOneIndex`).
   */
  function ReplaceOne(st: Store, data: Doc, id: Id): (r: Store)
    requires Wf(st) && Lookup(st, id).Some?
    ensures Wf(r)
    ensures r.meta == st.meta && r.headers == st.headers && r.index.Keys == st.index.Keys
    ensures Lookup(r, id).Some?
    ensures forall x :: x != id ==> Lookup(r, x) == Lookup(st, x)
  {
    var r := Rewrite(st, data, id);
    RewriteIndex(st, data, id);
    assert Count(r.shards) == Count(st.shards);
    assert forall g, x :: 0 <= g < |r.shards| && x in r.shards[g] ==> Fits(r.headers, r.shards[g][x]) by {
      LayoutReadsBack(st.headers, Merged(DocOf(st.headers, Lookup(st, id).value), data));
    }
    CoherentAfter(st, r, id);
    r
  }

  /**
   * `after` is what `_replace` writes over `before` for `data`, both read as
   * dicts: a field of `data` takes the new value (when the headers keep it),
   * any other field but `_id` keeps its old value, a header row stays a
   * header row, and a dict carries `_id` only when `data` does.
   */
  ghost predicate MergedFrom(headers: Option<seq<Field>>, data: Doc, before: Stored, after: Stored) {
    var b := DocOf(headers, before);
    var a := DocOf(headers, after);
    && (forall f :: f in data && (headers.None? || f in headers.value) ==> f in a && a[f] == data[f])
    && (forall f :: f !in data && f != IdField ==> (f in a <==> f in b) && (f in b ==> a[f] == b[f]))
    && (headers.Some? ==> forall f :: f in a <==> f in headers.value)
    && (headers.None? ==> (IdField in a <==> IdField in data))
  }

  /** The record `_replace` writes is the old one merged with `data`. */
  lemma ReplaceOneFields(st: Store, data: Doc, id: Id)
    requires Wf(st) && Lookup(st, id).Some?
    ensures MergedFrom(st.headers, data, Lookup(st, id).value, Lookup(ReplaceOne(st, data, id), id).value)
  {
    var before := DocOf(st.headers, Lookup(st, id).value);
    LayoutReadsBack(st.headers, Merged(before, data));
    assert Fits(st.headers, Lookup(st, id).value);
    assert st.headers.Some? ==> forall f :: f in before <==> f in st.headers.value;
  }

  /** `_del_index` then `_set_index`: the replaced id moves to the keys of its new values. */
  lemma ReplaceOneIndex(st: Store, data: Doc, id: Id)
    requires Wf(st) && Lookup(st, id).Some?
    ensures var r := ReplaceOne(st, data, id);
      forall f, k, x :: InIndex(r.index, f, k, x) <==>
        (x != id && InIndex(st.index, f, k, x)) || (x == id && f in st.index && HasValue(r, f, k, id))
  {
    RewriteIndex(st, data, id);
  }

  /**
   * `_replace(data, regs, shard)`: each listed id is read back from shard `g`
   * (KeyError when absent; rows always read back, see `Query.StoredDecodes`)
   * and replaced in turn.
   */
  function ReplaceShard(st: Store, data: Doc, regs: seq<Id>, g: int): (r: Result<Store, Error>)
    requires Wf(st) && 0 <= g < |st.shards|
    requires forall i :: 0 <= i < |regs| ==> regs[i] % st.meta.groups == g
    ensures r.Err? ==> r.error == KeyError
    ensures r.Ok? ==> Wf(r.value) && r.value.meta == st.meta && r.value.headers == st.headers
    ensures r.Ok? ==> r.value.index.Keys == st.index.Keys
    decreases |regs|
  {
    if |regs| == 0 then
      Ok(st)
    else if regs[0] !in st.shards[g] then
      assert Lookup(st, regs[0]) == None;
      Err(KeyError)
    else
      assert Lookup(st, regs[0]).Some?;
      var next := ReplaceOne(st, data, regs[0]);
      var rest := regs[1..];
      assert forall i :: 1 <= i < |regs| ==> regs[i] == rest[i - 1];
      ReplaceShard(next, data, rest, g)
  }

  /** `_replace` over a shard succeeds exactly when every listed id is stored. */
  lemma {:induction false} ReplaceShardOk(st: Store, data: Doc, regs: seq<Id>, g: int)
    requires Wf(st) && 0 <= g < |st.shards|
    requires forall i :: 0 <= i < |regs| ==> regs[i] % st.meta.groups == g
    ensures ReplaceShard(st, data, regs, g).Ok? <==> AllLive(st, regs)
    decreases |regs|
  {
    if |regs| > 0 {
      if regs[0] in st.shards[g] {
        assert Lookup(st, regs[0]).Some?;
        var next := ReplaceOne(st, data, regs[0]);
        var rest := regs[1..];
        assert forall i :: 1 <= i < |regs| ==> regs[i] == rest[i - 1];
        assert ReplaceShard(st, data, regs, g) == ReplaceShard(next, data, rest, g);
        ReplaceShardOk(next, data, rest, g);
        LiveAfter(st, next, regs[0], rest);
      }
      LiveSplit(st, regs);
    }
  }

  /** A successful `_replace` leaves every record it does not list as it was. */
  lemma {:induction false} ReplaceShardKeeps(st: Store, data: Doc, regs: seq<Id>, g: int)
    requires Wf(st) && 0 <= g < |st.shards|
    requires forall i :: 0 <= i < |regs| ==> regs[i] % st.meta.groups == g
    requires ReplaceShard(st, data, regs, g).Ok?
    ensures forall x :: x !in regs ==> Lookup(ReplaceShard(st, data, regs, g).value, x) == Lookup(st, x)
    decreases |regs|
  {
    if |regs| > 0 {
      var next := ReplaceOne(st, data, regs[0]);
      var rest := regs[1..];
      assert forall i :: 1 <= i < |regs| ==> regs[i] == rest[i - 1];
      assert ReplaceShard(st, data, regs, g) == ReplaceShard(next, data, rest, g);
      ReplaceShardKeeps(next, data, rest, g);
    }
  }

  /** Every id a successful `_replace` lists ends up merged with `data`, once. */
  lemma {:induction false} ReplaceShardMerges(st: Store, data: Doc, regs: seq<Id>, g: int)
    requires Wf(st) && 0 <= g < |st.shards|
    requires forall i :: 0 <= i < |regs| ==> regs[i] % st.meta.groups == g
    requires forall i, j :: 0 <= i < j < |regs| ==> regs[i] != regs[j]
    requires ReplaceShard(st, data, regs, g).Ok?
    ensures var r := ReplaceShard(st, data, regs, g).value;
      forall x :: x in regs ==>
        && Lookup(st, x).Some? && Lookup(r, x).Some?
        && MergedFrom(st.headers, data, Lookup(st, x).value, Lookup(r, x).value)
    decreases |regs|
  {
    if |regs| > 0 {
      var x0 := regs[0];
      var next := ReplaceOne(st, data, x0);
      ReplaceOneFields(st, data, x0);
      var rest := regs[1..];
      assert forall i :: 1 <= i < |regs| ==> regs[i] == rest[i - 1];
      assert ReplaceShard(st, data, regs, g) == ReplaceShard(next, data, rest, g);
      var r := ReplaceShard(next, data, rest, g).value;
      assert MergedFrom(st.headers, data, Lookup(st, x0).value, Lookup(r, x0).value) by {
        assert x0 !in rest;
        ReplaceShardKeeps(next, data, rest, g);
      }
      forall x | x in rest
        ensures Lookup(st, x).Some? && Lookup(r, x).Some?
        ensures MergedFrom(st.headers, data, Lookup(st, x).value, Lookup(r, x).value)
      {
        ReplaceShardMerges(next, data, rest, g);
        assert Lookup(next, x) == Lookup(st, x);
      }
      assert forall x :: x in regs ==> x == x0 || x in rest;
    }
  }

  /**
   * `_drop(data, {id}, shard)` for one record: the record is deleted and
   * `total` falls by one; its index entries are left in place.
   */
  function DropOne(st: Store, id: Id): (r: Store)
    requires Shaped(st) && Lookup(st, id).Some?
    ensures Wf(st) ==> Wf(r)
    ensures Shaped(r)
    ensures r.meta == st.meta.(total := st.meta.total - 1)
    ensures r.headers == st.headers && r.index == st.index
    ensures Lookup(r, id) == None
    ensures forall h, x :: 0 <= h < |st.shards| && x in st.shards[h] && x != id ==> x in r.shards[h]
    ensures forall x :: x != id ==> Lookup(r, x) == Lookup(st, x)
  {
    var gone := Remove(st, id);
    var r := gone.(meta := gone.meta.(total := st.meta.total - 1));
    assert Wf(st) ==> Coherent(r) by {
      if Wf(st) {
        CoherentAfter(st, r, id);
      }
    }
    r
  }

  /**
   * `_drop` as written: after the first deletion the loop's `file` names the
   * meta shelf, already closed, so the next deletion in the same shard raises.
   * `open` says whether `file` still names the data shelf.
   */
  function DropShardAsWritten(st: Store, regs: seq<Id>, g: int, open: bool): (r: Result<Store, Error>)
    requires Shaped(st) && 0 <= g < |st.shards|
    decreases |regs|
  {
    if |regs| == 0 then
      Ok(st)
    else if regs[0] !in st.shards[g] then
      Err(KeyError)
    else if Query.Decode(st.headers, regs[0], st.shards[g][regs[0]]).None? then
      DropShardAsWritten(st, regs[1..], g, open)
    else if !open then
      Err(ClosedShelf)
    else
      var next := DropOne(st, regs[0]);
      DropShardAsWritten(next, regs[1..], g, false)
  }

  /** Two distinct stored records in one shard: the as-written drop never gets past the second. */
  lemma DropAsWrittenFailsOnSecond(st: Store, regs: seq<Id>, g: int)
    requires Wf(st) && 0 <= g < |st.shards|
    requires |regs| >= 2 && regs[0] != regs[1]
    requires regs[0] in st.shards[g] && regs[1] in st.shards[g]
    ensures DropShardAsWritten(st, regs, g, true) == Err(ClosedShelf)
  {
    assert Fits(st.headers, st.shards[g][regs[0]]);
    var next := DropOne(st, regs[0]);
    assert Lookup(st, regs[1]).Some?;
    assert regs[1] in next.shards[g] by {
      assert Lookup(next, regs[1]) == Lookup(st, regs[1]);
    }
    assert next.shards[g][regs[1]] == st.shards[g][regs[1]] by {
      assert Lookup(next, regs[1]) == Lookup(st, regs[1]);
    }
    assert Fits(st.headers, st.shards[g][regs[1]]);
    assert regs[1..][0] == regs[1];
  }

  /**
   * `_drop(data, regs, shard)` with the data shelf kept open for the whole
   * loop: every listed record is deleted and `total` falls once per deletion;
   * `next` and the index are untouched.
   */
  function DropShard(st: Store, regs: seq<Id>, g: int): (r: Result<Store, Error>)
    requires Wf(st) && 0 <= g < |st.shards|
    requires forall i :: 0 <= i < |regs| ==> regs[i] % st.meta.groups == g
    requires forall i, j :: 0 <= i < j < |regs| ==> regs[i] != regs[j]
    ensures r.Err? ==> r.error == KeyError
    ensures r.Ok? ==> Wf(r.value) && r.value.headers == st.headers && r.value.index == st.index
    ensures r.Ok? ==> r.value.meta == st.meta.(total := st.meta.total - |regs|)
    decreases |regs|
  {
    if |regs| == 0 then
      Ok(st)
    else if regs[0] !in st.shards[g] then
      assert Lookup(st, regs[0]) == None;
      Err(KeyError)
    else
      assert Lookup(st, regs[0]).Some?;
      var next := DropOne(st, regs[0]);
      var rest := regs[1..];
      assert forall i :: 1 <= i < |regs| ==> regs[i] == rest[i - 1];
      DropShard(next, rest, g)
  }

  /** Dropping a shard's ids succeeds exactly when every listed id is stored. */
  lemma {:induction false} DropShardOk(st: Store, regs: seq<Id>, g: int)
    requires Wf(st) && 0 <= g < |st.shards|
    requires forall i :: 0 <= i < |regs| ==> regs[i] % st.meta.groups == g
    requires forall i, j :: 0 <= i < j < |regs| ==> regs[i] != regs[j]
    ensures DropShard(st, regs, g).Ok? <==> AllLive(st, regs)
    decreases |regs|
  {
    if |regs| > 0 {
      if regs[0] in st.shards[g] {
        assert Lookup(st, regs[0]).Some?;
        var next := DropOne(st, regs[0]);
        var rest := regs[1..];
        assert forall i :: 1 <= i < |regs| ==> regs[i] == rest[i - 1];
        assert DropShard(st, regs, g) == DropShard(next, rest, g);
        DropShardOk(next, rest, g);
        assert regs[0] !in rest;
        LiveAfter(st, next, regs[0], rest);
      }
      LiveSplit(st, regs);
    }
  }

  /** A successful `_drop` removes exactly the listed records. */
  lemma {:induction false} DropShardRemoves(st: Store, regs: seq<Id>, g: int)
    requires Wf(st) && 0 <= g < |st.shards|
    requires forall i :: 0 <= i < |regs| ==> regs[i] % st.meta.groups == g
    requires forall i, j :: 0 <= i < j < |regs| ==> regs[i] != regs[j]
    requires DropShard(st, regs, g).Ok?
    ensures var r := DropShard(st, regs, g).value;
      && (forall x :: x in regs ==> Lookup(r, x) == None)
      && (forall x :: x !in regs ==> Lookup(r, x) == Lookup(st, x))
    decreases |regs|
  {
    if |regs| > 0 {
      var next := DropOne(st, regs[0]);
      var rest := regs[1..];
      assert forall i :: 1 <= i < |regs| ==> regs[i] == rest[i - 1];
      assert DropShard(st, regs, g) == DropShard(next, rest, g);
      DropShardRemoves(next, rest, g);
      assert forall x :: x in regs <==> x == regs[0] || x in rest;
    }
  }
}
