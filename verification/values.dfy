/**
 * Field values of stored records and the conversions the store applies to
 * them: `str(v)` to key an index, `int(v)` to read an `_id` filter, and the
 * header-ordered tuple form records take when a collection has `headers`.
 */
module Values {
  import opened Wrappers
  import Decimal

  type Field = string

  /** The JSON scalars a record field holds. */
  datatype Value = Int(i: int) | Str(s: string)

  /** A record as a Python dict. */
  type Doc = map<Field, Value>

  /** The pseudo-field carrying a record's id in fetched records and filters. */
  const IdField: Field := "_id"

  /** What `_new` stores for a header the record does not carry. */
  const Blank: Value := Str("")

  /** `str(v)`: the text an index entry is keyed by. */
  function Key(v: Value): string {
    match v
    case Int(i) => Decimal.Show(i)
    case Str(s) => s
  }

  /** `int(v)`; `None` stands for the ValueError raised on non-numeric text. */
  function AsId(v: Value): Option<int> {
    match v
    case Int(i) => Some(i)
    case Str(s) => Decimal.Parse(s)
  }

  /** An id written as text selects the same id as the number itself. */
  lemma AsIdOfKey(i: int)
    ensures AsId(Str(Key(Int(i)))) == AsId(Int(i)) == Some(i)
  {
    Decimal.ParseShow(i);
  }

  /** A number and its decimal text share one index key. */
  lemma KeyIgnoresType(i: int)
    ensures Key(Int(i)) == Key(Str(Decimal.Show(i)))
    ensures Int(i) != Str(Decimal.Show(i))
  {
  }

  /**
   * `dict(zip(headers, cells))`: each header names the cell at its position;
   * of repeated headers the last one wins (see `ZipAt`).
   */
  function Zip(headers: seq<Field>, cells: seq<Value>): (d: Doc)
    requires |headers| == |cells|
    ensures forall h :: h in d <==> h in headers
    decreases |headers|
  {
    if |headers| == 0 then
      map[]
    else
      var n := |headers| - 1;
      assert headers == headers[..n] + [headers[n]];
      Zip(headers[..n], cells[..n])[headers[n] := cells[n]]
  }

  /** A header not repeated later in the list maps to the cell at its position. */
  lemma {:induction false} ZipAt(headers: seq<Field>, cells: seq<Value>, i: int)
    requires |headers| == |cells| && 0 <= i < |headers|
    requires headers[i] !in headers[i + 1..]
    ensures Zip(headers, cells)[headers[i]] == cells[i]
    decreases |headers|
  {
    var n := |headers| - 1;
    if i < n {
      assert headers[i + 1..] == headers[..n][i + 1..] + [headers[n]];
      ZipAt(headers[..n], cells[..n], i);
    }
  }

  /**
   * The positional row `_new` stores for `doc` under `headers`: the value of
   * each header in header order, `""` for a header `doc` does not carry.
   */
  function Encode(headers: seq<Field>, doc: Doc): (cells: seq<Value>)
    ensures |cells| == |headers|
    ensures forall i :: 0 <= i < |headers| && headers[i] in doc ==> cells[i] == doc[headers[i]]
    ensures forall i :: 0 <= i < |headers| && headers[i] !in doc ==> cells[i] == Blank
  {
    seq(|headers|, i requires 0 <= i < |headers| => if headers[i] in doc then doc[headers[i]] else Blank)
  }

  /** `doc` seen through `headers`: exactly the headers, blank where absent. */
  function Project(headers: seq<Field>, doc: Doc): Doc {
    map h | h in headers :: if h in doc then doc[h] else Blank
  }

  /** Reading back an encoded row gives the record projected on the headers. */
  lemma {:induction false} ZipEncode(headers: seq<Field>, doc: Doc)
    ensures Zip(headers, Encode(headers, doc)) == Project(headers, doc)
    decreases |headers|
  {
    if |headers| > 0 {
      var n := |headers| - 1;
      assert Encode(headers, doc)[..n] == Encode(headers[..n], doc);
      ZipEncode(headers[..n], doc);
      assert headers == headers[..n] + [headers[n]];
    }
  }

  /** A record that carries every header survives encoding unchanged on the headers. */
  lemma ZipEncodeKeeps(headers: seq<Field>, doc: Doc)
    requires forall h :: h in headers ==> h in doc
    ensures Zip(headers, Encode(headers, doc)) == map h | h in headers :: doc[h]
  {
    ZipEncode(headers, doc);
  }
}
