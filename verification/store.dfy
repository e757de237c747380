/**
 * The state of one `ShelveModel` collection with the shelve files replaced by
 * values: the meta record, one map per data shard, and one map per indexed
 * field from `str(value)` to the ids holding that value.
 */
module Store {
  import opened Wrappers
  import opened Values

  type Id = int

  /** What a data shelf holds under `str(id)`: a dict, or a positional list when headers are set. */
  datatype Stored = Mapped(doc: Doc) | Tupled(cells: seq<Value>)

  type Shard = map<Id, Stored>

  /** One entry per index shelf: `str(value)` to the set of ids. */
  type Index = map<Field, map<string, set<Id>>>

  datatype Meta = Meta(total: int, next: int, groups: int)

  datatype Store = Store(meta: Meta, headers: Option<seq<Field>>, shards: seq<Shard>, index: Index)

  /** The exceptions a storage operation can end in. */
  datatype Error =
    | KeyError     // a shelf has no entry under `str(id)`
    | ValueError   // `int(v)` on text that is not a number
    | ClosedShelf  // an operation on a shelf already closed

  /** Every shard is where `groups` says and holds only ids below `next`. */
  predicate Shaped(st: Store) {
    && st.meta.groups > 0
    && |st.shards| == st.meta.groups
    && (forall g, id :: 0 <= g < |st.shards| && id in st.shards[g] ==>
          id % st.meta.groups == g && 0 <= id < st.meta.next)
  }

  /** The shard file `_data_path(id % groups)` a record lives in. */
  function ShardOf(st: Store, id: Id): (g: int)
    requires Shaped(st)
    ensures 0 <= g < |st.shards|
  {
    id % st.meta.groups
  }

  /** The record stored under `id` in its shard `id % groups`, if any. */
  function Lookup(st: Store, id: Id): Option<Stored> {
    if st.meta.groups > 0 && id % st.meta.groups < |st.shards| && id in st.shards[id % st.meta.groups] then
      Some(st.shards[id % st.meta.groups][id])
    else
      None
  }

  /** Every listed id has a stored record. */
  predicate AllLive(st: Store, regs: seq<Id>) {
    forall i :: 0 <= i < |regs| ==> Lookup(st, regs[i]).Some?
  }

  /** A non-empty list is all live when its head is and its tail is. */
  lemma LiveSplit(st: Store, regs: seq<Id>)
    requires |regs| > 0
    ensures AllLive(st, regs) <==> Lookup(st, regs[0]).Some? && AllLive(st, regs[1..])
  {
    assert forall i :: 1 <= i < |regs| ==> regs[i] == regs[1..][i - 1];
  }

  /** A change confined to one record, which keeps it stored if listed, keeps the list equally live. */
  lemma LiveAfter(st: Store, r: Store, id: Id, regs: seq<Id>)
    requires forall x :: x != id ==> Lookup(r, x) == Lookup(st, x)
    requires id in regs ==> Lookup(r, id).Some? == Lookup(st, id).Some?
    ensures AllLive(r, regs) <==> AllLive(st, regs)
  {
    assert forall i :: 0 <= i < |regs| ==> (Lookup(r, regs[i]).Some? <==> Lookup(st, regs[i]).Some?);
  }

  /** Number of records over all shards. */
  function Count(shards: seq<Shard>): nat
    decreases |shards|
  {
    if |shards| == 0 then 0 else Count(shards[..|shards| - 1]) + |shards[|shards| - 1]|
  }

  /** Replacing one shard changes the count by the difference in that shard's size. */
  lemma {:induction false} CountUpdate(shards: seq<Shard>, g: int, m: Shard)
    requires 0 <= g < |shards|
    ensures Count(shards[g := m]) == Count(shards) - |shards[g]| + |m|
    decreases |shards|
  {
    var n := |shards| - 1;
    if g < n {
      assert shards[g := m][..n] == shards[..n][g := m];
      CountUpdate(shards[..n], g, m);
    } else {
      assert shards[g := m][..n] == shards[..n];
    }
  }

  /** The ids stored in a list of shards. */
  function ShardKeys(shards: seq<Shard>): set<Id>
    decreases |shards|
  {
    if |shards| == 0 then {} else ShardKeys(shards[..|shards| - 1]) + shards[|shards| - 1].Keys
  }

  /** An id is in `ShardKeys` exactly when some shard holds it. */
  lemma {:induction false} ShardKeysHold(shards: seq<Shard>)
    ensures forall x :: x in ShardKeys(shards) <==> exists g :: 0 <= g < |shards| && x in shards[g]
    decreases |shards|
  {
    if |shards| > 0 {
      var n := |shards| - 1;
      var init := shards[..n];
      ShardKeysHold(init);
      forall x | x in ShardKeys(shards) ensures exists g :: 0 <= g < |shards| && x in shards[g] {
        if x in shards[n] {
          assert 0 <= n < |shards| && x in shards[n];
        } else {
          assert x in ShardKeys(init);
          var g :| 0 <= g < n && x in init[g];
          assert shards[g] == init[g];
        }
      }
      forall g, x | 0 <= g < |shards| && x in shards[g] ensures x in ShardKeys(shards) {
        if g < n {
          assert x in init[g];
        }
      }
    }
  }

  /** Shards whose ids all sit in their own residue class hold `Count` distinct ids. */
  lemma {:induction false} CountKeys(shards: seq<Shard>, groups: int)
    requires groups > 0 && |shards| <= groups
    requires forall g, x :: 0 <= g < |shards| && x in shards[g] ==> x % groups == g
    ensures Count(shards) == |ShardKeys(shards)|
    decreases |shards|
  {
    if |shards| > 0 {
      var n := |shards| - 1;
      var init := shards[..n];
      CountKeys(init, groups);
      assert ShardKeys(init) !! shards[n].Keys by {
        ShardKeysHold(init);
        forall x | x in ShardKeys(init) ensures x % groups < n {
          var g :| 0 <= g < n && x in init[g];
          assert init[g] == shards[g];
        }
      }
      assert |shards[n].Keys| == |shards[n]|;
      assert |ShardKeys(init) + shards[n].Keys| == |ShardKeys(init)| + |shards[n].Keys|;
    }
  }

  /** The ids with a stored record. */
  ghost function LiveIds(st: Store): set<Id> {
    set x | 0 <= x < st.meta.next && Lookup(st, x).Some?
  }

  /** `Count` is the number of live ids, so under the invariant `total == |LiveIds|`. */
  lemma LiveCount(st: Store)
    requires Shaped(st)
    ensures Count(st.shards) == |LiveIds(st)|
  {
    CountKeys(st.shards, st.meta.groups);
    ShardKeysHold(st.shards);
    forall x | x in ShardKeys(st.shards) ensures x in LiveIds(st) {
      var g :| 0 <= g < |st.shards| && x in st.shards[g];
    }
    assert ShardKeys(st.shards) == LiveIds(st);
  }

  /** A stored value has the shape the collection writes: a list of header length, or a dict. */
  predicate Fits(headers: Option<seq<Field>>, s: Stored) {
    match headers
    case None => s.Mapped?
    case Some(h) => s.Tupled? && |s.cells| == |h|
  }

  /** The record as a dict, the way `_set_index` and `_replace` see it. */
  function DocOf(headers: Option<seq<Field>>, s: Stored): Doc {
    match s
    case Mapped(d) => d
    case Tupled(c) => if headers.Some? && |c| == |headers.value| then Zip(headers.value, c) else map[]
  }

  /** `id` is listed under `str` key `k` of the index of field `f`. */
  predicate InIndex(ix: Index, f: Field, k: string, id: Id) {
    f in ix && k in ix[f] && id in ix[f][k]
  }

  /** Record `id` is stored and its field `f` has index key `k`. */
  predicate HasValue(st: Store, f: Field, k: string, id: Id) {
    match Lookup(st, id)
    case None => false
    case Some(s) => var d := DocOf(st.headers, s); f in d && Key(d[f]) == k
  }

  /**
   * Index coherence for live records: a stored record is listed under exactly
   * the keys of its own indexed field values. Entries of dropped ids are not
   * constrained, since `_drop` leaves them behind.
   */
  ghost predicate Coherent(st: Store) {
    forall f, k, id :: f in st.index && Lookup(st, id).Some? ==>
      (InIndex(st.index, f, k, id) <==> HasValue(st, f, k, id))
  }

  /** The invariant every request of the writer preserves. */
  ghost predicate Wf(st: Store) {
    && Shaped(st)
    && 0 <= st.meta.total <= st.meta.next
    && st.meta.total == Count(st.shards)
    && (st.headers.Some? ==> IdField !in st.headers.value)
    && IdField !in st.index
    && (forall g, id :: 0 <= g < |st.shards| && id in st.shards[g] ==> Fits(st.headers, st.shards[g][id]))
    && (forall f, k, id :: InIndex(st.index, f, k, id) ==> 0 <= id < st.meta.next)
    && Coherent(st)
  }

  /** `Count` of shards that are all empty. */
  lemma {:induction false} CountEmpty(shards: seq<Shard>)
    requires forall g :: 0 <= g < |shards| ==> shards[g] == map[]
    ensures Count(shards) == 0
    decreases |shards|
  {
    if |shards| > 0 {
      CountEmpty(shards[..|shards| - 1]);
    }
  }

  /**
   * A freshly created collection (`__init__` on a new directory): counters at
   * zero, `groups` empty shards, an empty index for each declared field.
   */
  function Init(groups: int, indexFields: seq<Field>, headers: Option<seq<Field>>): (st: Store)
    requires groups > 0
    ensures st.meta.groups == groups && st.meta.total == 0 && st.meta.next == 0
    ensures Shaped(st)
    ensures forall f :: f in st.index <==> f in indexFields
    ensures forall id :: Lookup(st, id) == None
    ensures IdField !in indexFields && (headers.Some? ==> IdField !in headers.value) ==> Wf(st)
  {
    var shards := seq(groups, g => map[]);
    CountEmpty(shards);
    Store(Meta(0, 0, groups), headers, shards, map f | f in indexFields :: map[])
  }
}
