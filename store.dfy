/** The flat, ordered key/value store that every persistent array is laid
    over, and the tagged records it holds.

    A key is a path: the owning container's prefix followed by one index.
    A record is a two-element packed array whose first element is a magic
    tag; the model keeps the tag as the datatype's constructor. */
module Store {

  datatype Option<+T> = None | Some(value: T)

  /** What an operation raises instead of returning. */
  datatype Fault =
    | BadMagic          // a record's tag is not the one expected ("Bad magic!")
    | NotFound          // the engine was asked to delete an absent key
    | CursorDecreasing  // the cursor went back to a smaller index
    | CursorMissed      // the cursor passed over an item that get still finds
    | DataCorrupt       // a stored sentence differs from the corpus ("Data bad/corrput?")
    | NilValue          // a Ruby method was called on nil (NoMethodError, TypeError)

  datatype Outcome<+T> = Ok(value: T) | Raise(fault: Fault)

  const SUBARRAY_MAGIC: int := 1
  const PACKED_MAGIC: int := 3

  /** A stored record: a child-array marker carrying a count, a packed
      payload, or a record whose tag is neither of the two. */
  datatype Tagged = SubArray(count: int) | Packed(payload: seq<int>) | Other(magic: int)

  type Key = seq<int>
  type Records = map<Key, Tagged>

  /** What a container read returns, with a child container given by the
      path it is bound to. */
  datatype Shape = Nil | ChildAt(path: Key) | Scalar(payload: seq<int>)

  function Magic(t: Tagged): int
  {
    match t
    case SubArray(_) => SUBARRAY_MAGIC
    case Packed(_) => PACKED_MAGIC
    case Other(m) => m
  }

  function Lookup(records: Records, k: Key): Option<Tagged>
  {
    if k in records then Some(records[k]) else None
  }

  /** The record of the container at `path` as its parent reads it. */
  function DecodeRecord(rec: Option<Tagged>, path: Key): (r: Outcome<Shape>)
    ensures r.Raise? <==> rec.Some? && rec.value.Other?
    ensures r == Ok(Nil) <==> rec == None
  {
    match rec
    case None => Ok(Nil)
    case Some(SubArray(_)) => Ok(ChildAt(path))
    case Some(Packed(p)) => Ok(Scalar(p))
    case Some(Other(_)) => Raise(BadMagic)
  }

  function Decode(records: Records, path: Key): Outcome<Shape>
  {
    DecodeRecord(Lookup(records, path), path)
  }

  /** The size a container bound to `prefix` starts with: the count in its
      own record, 0 when that record is absent, and "Bad magic!" when the
      record is not a child-array marker. */
  function OwnSize(records: Records, prefix: Key): (r: Outcome<int>)
    ensures r.Raise? <==> prefix in records && !records[prefix].SubArray?
    ensures r.Raise? ==> r.fault == BadMagic
    ensures prefix !in records ==> r == Ok(0)
  {
    if prefix !in records then Ok(0)
    else if records[prefix].SubArray? then Ok(records[prefix].count)
    else Raise(BadMagic)
  }

  /** The store after a container bound to `prefix` records its size `n`:
      a positive size is written to its own key, any other size removes
      that key (an absent key is tolerated). */
  function WithSize(records: Records, prefix: Key, n: int): (r: Records)
    ensures OwnSize(r, prefix) == Ok(if n > 0 then n else 0)
    ensures forall k :: k != prefix ==> Lookup(r, k) == Lookup(records, k)
  {
    if n > 0 then records[prefix := SubArray(n)] else records - {prefix}
  }

  /** One database of the embedded engine. Keys stand for their packed
      encoding; the engine's byte order is not modelled. */
  class Database {
    var records: Records

    constructor (records: Records)
      ensures this.records == records
    {
      this.records := records;
    }

    method Put(k: Key, t: Tagged)
      modifies this
      ensures records == old(records)[k := t]
    {
      records := records[k := t];
    }

    /** The engine's delete, which raises NOTFOUND on an absent key. */
    method Delete(k: Key) returns (o: Outcome<()>)
      modifies this
      ensures o.Raise? <==> k !in old(records)
      ensures o.Raise? ==> o.fault == NotFound && records == old(records)
      ensures o.Ok? ==> records == old(records) - {k}
    {
      if k in records {
        records := records - {k};
        o := Ok(());
      } else {
        o := Raise(NotFound);
      }
    }

    method Clear()
      modifies this
      ensures records == map[]
    {
      records := map[];
    }
  }
}
