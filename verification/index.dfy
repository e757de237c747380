/**
 * Index maintenance (`_set_index`, `_del_index`): for every field of a record
 * that has an index shelf, add or remove the record's id under `str(value)`.
 */
module Index {
  import opened Values
  import opened Store

  /** `shelf[key] |= {id}`, creating the entry when missing. */
  function AddId(entries: map<string, set<Id>>, key: string, id: Id): map<string, set<Id>> {
    entries[key := (if key in entries then entries[key] else {}) + {id}]
  }

  /**
   * `_set_index(doc, id)`: `id` is added under the key of each indexed field
   * `doc` carries, and nothing else changes.
   */
  function SetIndex(ix: Index, doc: Doc, id: Id): (r: Index)
    ensures r.Keys == ix.Keys
    ensures forall f :: f in r ==> r[f].Keys == ix[f].Keys + (if f in doc then {Key(doc[f])} else {})
    ensures forall f, k, x :: InIndex(r, f, k, x) <==>
      InIndex(ix, f, k, x) || (x == id && f in ix && f in doc && k == Key(doc[f]))
  {
    map f | f in ix :: if f in doc then AddId(ix[f], Key(doc[f]), id) else ix[f]
  }

  /**
   * `_del_index(doc, id)`: `id` is removed from the key of each indexed field
   * `doc` carries; an entry left empty stays in the shelf.
   */
  function DelIndex(ix: Index, doc: Doc, id: Id): (r: Index)
    ensures r.Keys == ix.Keys
    ensures forall f :: f in r ==> r[f].Keys == ix[f].Keys
    ensures forall f, k, x :: InIndex(r, f, k, x) <==>
      InIndex(ix, f, k, x) && !(x == id && f in doc && k == Key(doc[f]))
  {
    map f | f in ix ::
      if f in doc && Key(doc[f]) in ix[f] then ix[f][Key(doc[f]) := ix[f][Key(doc[f])] - {id}] else ix[f]
  }

  /** Removing with the record just added restores every membership of an id not yet listed. */
  lemma DelUndoesSet(ix: Index, doc: Doc, id: Id)
    requires forall f, k :: !InIndex(ix, f, k, id)
    ensures forall f, k, x :: InIndex(DelIndex(SetIndex(ix, doc, id), doc, id), f, k, x) <==> InIndex(ix, f, k, x)
  {
  }
}
