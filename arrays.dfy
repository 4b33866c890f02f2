/** The growable, nested, possibly sparse array laid over the store, as a
    state machine on values.

    A container bound to `prefix` keeps its elements at the keys
    `prefix + [i]` and its size in a child-array record at `prefix` itself,
    which is also the record its parent sees in the slot that holds it.
    `View` is what one container object can observe: the store, its own size
    field and the indices its cache holds a child for. Both array classes
    are proved against these functions; the older class has no cache, and
    keeps the cache component empty. */
module ArraySpec {
  import opened Store

  datatype View = View(records: Records, size: int, cached: set<int>)

  /** The state after an operation, and what it returned or raised. */
  datatype Step<+T> = Step(view: View, out: Outcome<T>)

  /** What a read hands back to a caller: nothing, a child container of
      type `A`, or a payload. `path` says which prefix a child is bound to,
      so that a value can be compared with the `Shape` the store holds. */
  datatype Value<A> = Absent | Child(arr: A) | Payload(data: seq<int>)

  function ShapeOf<A>(x: Value<A>, path: A -> Key): (s: Shape)
    ensures s == Shape.Nil <==> x == Absent
    ensures x.Child? ==> s == ChildAt(path(x.arr))
  {
    match x
    case Absent => Shape.Nil
    case Child(a) => ChildAt(path(a))
    case Payload(p) => Scalar(p)
  }

  function ShapesOf<A>(xs: seq<Value<A>>, path: A -> Key): (r: seq<Shape>)
    ensures |r| == |xs|
  {
    if xs == [] then [] else [ShapeOf(xs[0], path)] + ShapesOf(xs[1..], path)
  }

  lemma {:induction false} ShapesOfSnoc<A>(xs: seq<Value<A>>, x: Value<A>, path: A -> Key)
    ensures ShapesOf(xs + [x], path) == ShapesOf(xs, path) + [ShapeOf(x, path)]
    decreases |xs|
  {
    if xs != [] {
      assert (xs + [x])[1..] == xs[1..] + [x];
      ShapesOfSnoc(xs[1..], x, path);
    } else {
      assert [] + [x] == [x];
    }
  }

  function OutShape<A>(o: Outcome<Value<A>>, path: A -> Key): Outcome<Shape>
  {
    match o
    case Ok(x) => Ok(ShapeOf(x, path))
    case Raise(f) => Raise(f)
  }

  function Slot(prefix: Key, key: int): (k: Key)
    ensures |k| == |prefix| + 1 && k[..|prefix|] == prefix && k[|prefix|] == key
  {
    prefix + [key]
  }

  lemma SlotsDiffer(prefix: Key, i: int, j: int)
    requires i != j
    ensures Slot(prefix, i) != Slot(prefix, j) && Slot(prefix, i) != prefix
  {
    assert Slot(prefix, i)[|prefix|] != Slot(prefix, j)[|prefix|];
  }

  /** The record at slot `key`, unless it is the slot `except`. */
  ghost predicate SlotsAgree(r1: Records, r2: Records, prefix: Key, except: int)
  {
    forall j :: j != except ==> Lookup(r1, Slot(prefix, j)) == Lookup(r2, Slot(prefix, j))
  }

  // ---------------------------------------------------------------------
  // setsize, getv, get

  /** `setsize(n)`: the own record says `n` when `n` is positive and is
      removed otherwise; the size field becomes `n` either way. */
  function SetSizeStep(v: View, prefix: Key, n: int): (w: View)
    ensures w.size == n && w.cached == v.cached
    ensures OwnSize(w.records, prefix) == Ok(if n > 0 then n else 0)
    ensures forall k :: k != prefix ==> Lookup(w.records, k) == Lookup(v.records, k)
  {
    v.(records := WithSize(v.records, prefix, n), size := n)
  }

  /** `getv(rec, key)`: decode a record read for slot `key`. A child-array
      marker binds a new child at the slot, which reads its size from the
      store and is put in the cache. */
  function GetVStep(v: View, prefix: Key, rec: Option<Tagged>, key: int): (s: Step<Shape>)
    ensures s.view.records == v.records && s.view.size == v.size
    ensures rec == None ==> s == Step(v, Ok(Nil))
    ensures s.out.Ok? && s.out.value.ChildAt? <==>
              rec.Some? && rec.value.SubArray? && OwnSize(v.records, Slot(prefix, key)).Ok?
    ensures s.out.Ok? && s.out.value.ChildAt? ==>
              s.out.value.path == Slot(prefix, key) && s.view.cached == v.cached + {key}
    ensures !(s.out.Ok? && s.out.value.ChildAt?) ==> s.view.cached == v.cached
  {
    match rec
    case None => Step(v, Ok(Nil))
    case Some(SubArray(_)) =>
      (match OwnSize(v.records, Slot(prefix, key))
       case Raise(f) => Step(v, Raise(f))
       case Ok(_) => Step(v.(cached := v.cached + {key}), Ok(ChildAt(Slot(prefix, key)))))
    case Some(Packed(p)) => Step(v, Ok(Scalar(p)))
    case Some(Other(_)) => Step(v, Raise(BadMagic))
  }

  /** `get(key)`: a cached child first; otherwise the record at the slot. */
  function GetStep(v: View, prefix: Key, key: int): (s: Step<Shape>)
    ensures s.out == if key in v.cached then Ok(ChildAt(Slot(prefix, key)))
                     else Decode(v.records, Slot(prefix, key))
    ensures s.view.records == v.records && s.view.size == v.size
    ensures s.view.cached == v.cached + (if s.out.Ok? && s.out.value.ChildAt? then {key} else {})
  {
    if key in v.cached then Step(v, Ok(ChildAt(Slot(prefix, key))))
    else GetVStep(v, prefix, Lookup(v.records, Slot(prefix, key)), key)
  }

  // ---------------------------------------------------------------------
  // delete, put, append

  /** `delete(key)`: the engine refuses an absent key; otherwise the record
      goes, the size shrinks to `key` only when `key` was the last index,
      and the cache forgets the slot. */
  function DeleteStep(v: View, prefix: Key, key: int): (s: Step<()>)
    ensures s.out.Raise? <==> Slot(prefix, key) !in v.records
    ensures s.out.Raise? ==> s == Step(v, Raise(NotFound))
    ensures s.out.Ok? ==>
              && Slot(prefix, key) !in s.view.records
              && s.view.size == (if key == v.size - 1 then key else v.size)
              && s.view.cached == v.cached - {key}
              && SlotsAgree(s.view.records, v.records, prefix, key)
              && (s.view.size != v.size ==> OwnSize(s.view.records, prefix) == Ok(if key > 0 then key else 0))
              && (s.view.size == v.size ==> Lookup(s.view.records, prefix) == Lookup(v.records, prefix))
  {
    var slot := Slot(prefix, key);
    if slot !in v.records then Step(v, Raise(NotFound))
    else
      var v1 := v.(records := v.records - {slot});
      var v2 := if key == v.size - 1 then SetSizeStep(v1, prefix, key) else v1;
      assert forall j :: j != key ==> Slot(prefix, j) != slot by {
        forall j | j != key { SlotsDiffer(prefix, j, key); }
      }
      SlotsDiffer(prefix, key, key + 1);
      Step(v2.(cached := v2.cached - {key}), Ok(()))
  }

  /** `put(key, value)`. An index at or past the size first extends the
      size to `key + 1`. Then the empty array binds a new child at the slot
      (its own size record, of count 0, is the slot's record) and caches
      it; nil deletes the slot; anything else is stored packed and leaves
      the cache alone, so a child cached at the slot survives. */
  function PutStep(v: View, prefix: Key, key: int, value: Option<seq<int>>): (s: Step<Shape>)
    ensures value.Some? ==> s.out.Ok? && s.view.size == (if key >= v.size then key + 1 else v.size)
    ensures value == Some([]) ==>
              && s.out == Ok(ChildAt(Slot(prefix, key)))
              && Lookup(s.view.records, Slot(prefix, key)) == Some(SubArray(0))
              && OwnSize(s.view.records, Slot(prefix, key)) == Ok(0)
              && s.view.cached == v.cached + {key}
    ensures value.Some? && value.value != [] ==>
              && s.out == Ok(Scalar(value.value))
              && Lookup(s.view.records, Slot(prefix, key)) == Some(Packed(value.value))
              && s.view.cached == v.cached
    ensures value == None ==>
              && (s.out.Raise? <==> Slot(prefix, key) !in v.records)
              && (s.out.Raise? ==> s.out.fault == NotFound && s.view.cached == v.cached)
              && (s.out.Ok? ==> s.out.value == Nil && Slot(prefix, key) !in s.view.records
                                && s.view.cached == v.cached - {key}
                                && s.view.size == (if key >= v.size - 1 then key else v.size))
    ensures SlotsAgree(s.view.records, v.records, prefix, key)
    ensures s.view.size != v.size ==> OwnSize(s.view.records, prefix) == Ok(if s.view.size > 0 then s.view.size else 0)
  {
    var slot := Slot(prefix, key);
    var v1 := if key > v.size - 1 then SetSizeStep(v, prefix, key + 1) else v;
    assert slot != prefix;
    assert forall j :: j != key ==> Slot(prefix, j) != slot by {
      forall j | j != key { SlotsDiffer(prefix, j, key); }
    }
    match value
    case Some(p) =>
      if p == [] then
        Step(v1.(records := v1.records[slot := SubArray(0)], cached := v1.cached + {key}), Ok(ChildAt(slot)))
      else
        Step(v1.(records := v1.records[slot := Packed(p)]), Ok(Scalar(p)))
    case None =>
      var d := DeleteStep(v1, prefix, key);
      if d.out.Raise? then Step(d.view, Raise(d.out.fault))
      else Step(d.view.(cached := d.view.cached - {key}), Ok(Nil))
  }

  /** `append(o)` is `self[size] = o` followed by `setsize(size + 1)`; the
      put has already raised the size to the old size plus one. */
  function AppendStep(v: View, prefix: Key, value: Option<seq<int>>): (s: Step<()>)
  {
    var p := PutStep(v, prefix, v.size, value);
    if p.out.Raise? then Step(p.view, Raise(p.out.fault))
    else Step(SetSizeStep(p.view, prefix, p.view.size + 1), Ok(()))
  }

  /** Appending a value grows the size by two: the value lands at the old
      size, the slot after it is left as it was (a hole, in an array built
      by appends) and the own record says the new size. Appending nil
      raises unless the old size's slot happens to be present. */
  lemma {:induction false} AppendGrowsByTwo(v: View, prefix: Key, value: Option<seq<int>>)
    ensures var s := AppendStep(v, prefix, value);
      && (value.Some? ==>
            && s.out.Ok?
            && s.view.size == v.size + 2
            && Lookup(s.view.records, Slot(prefix, v.size)) ==
                 Some(if value.value == [] then SubArray(0) else Packed(value.value))
            && Lookup(s.view.records, Slot(prefix, v.size + 1)) == Lookup(v.records, Slot(prefix, v.size + 1))
            && OwnSize(s.view.records, prefix) == Ok(if v.size + 2 > 0 then v.size + 2 else 0))
      && (value == None ==> (s.out.Raise? <==> Slot(prefix, v.size) !in v.records))
  {
    var p := PutStep(v, prefix, v.size, value);
    SlotsDiffer(prefix, v.size, v.size + 1);
    if value.Some? {
      assert p.view.size == v.size + 1;
      assert Slot(prefix, v.size) != prefix && Slot(prefix, v.size + 1) != prefix;
    }
  }

  /** A value stored at `key` is what `get(key)` then returns, unless a
      child is still cached there: the cache is consulted first and a
      scalar put does not evict it. */
  lemma PutThenGet(v: View, prefix: Key, key: int, p: seq<int>)
    requires p != []
    ensures GetStep(PutStep(v, prefix, key, Some(p)).view, prefix, key).out ==
              if key in v.cached then Ok(ChildAt(Slot(prefix, key))) else Ok(Scalar(p))
  {
  }

  /** A put changes what `get` returns at no other index. */
  lemma PutKeepsOtherSlots(v: View, prefix: Key, key: int, value: Option<seq<int>>, j: int)
    requires j != key
    ensures GetStep(PutStep(v, prefix, key, value).view, prefix, j).out == GetStep(v, prefix, j).out
  {
    var s := PutStep(v, prefix, key, value);
    assert Lookup(s.view.records, Slot(prefix, j)) == Lookup(v.records, Slot(prefix, j));
    assert j in s.view.cached <==> j in v.cached;
  }

  /** After a delete, `get` finds a hole at the deleted index. */
  lemma DeleteThenGet(v: View, prefix: Key, key: int)
    requires Slot(prefix, key) in v.records
    ensures GetStep(DeleteStep(v, prefix, key).view, prefix, key).out == Ok(Nil)
  {
  }

  /** A child bound at slot `key` that records its size `n` rewrites the
      very record its parent reads at that slot: the parent then sees a
      child when `n` is positive and a hole otherwise, and no other slot of
      the parent changes. */
  lemma ChildSizeIsParentSlot(records: Records, prefix: Key, key: int, n: int)
    ensures var r := WithSize(records, Slot(prefix, key), n);
      && Decode(r, Slot(prefix, key)) == (if n > 0 then Ok(ChildAt(Slot(prefix, key))) else Ok(Nil))
      && SlotsAgree(r, records, prefix, key)
  {
    forall j | j != key ensures Slot(prefix, j) != Slot(prefix, key) {
      SlotsDiffer(prefix, j, key);
    }
  }

  // ---------------------------------------------------------------------
  // clear

  /** The `for i in 0..(n-1)` loop of deletes, with `n` fixed when the loop
      starts. */
  function DeleteRange(v: View, prefix: Key, i: int, n: int): (s: Step<()>)
    decreases n - i
  {
    if i >= n then Step(v, Ok(()))
    else
      var d := DeleteStep(v, prefix, i);
      if d.out.Raise? then d else DeleteRange(d.view, prefix, i + 1, n)
  }

  /** `clear`: a nested container deletes every index below its size and
      then its own record; the top-level container clears the whole
      database and keeps its size field and its cache. */
  function ClearStep(v: View, prefix: Key): (s: Step<()>)
    ensures prefix == [] ==> s == Step(View(map[], v.size, v.cached), Ok(()))
  {
    if |prefix| > 0 then
      var d := DeleteRange(v, prefix, 0, v.size);
      if d.out.Raise? then d else Step(SetSizeStep(d.view, prefix, 0), Ok(()))
    else Step(v.(records := map[]), Ok(()))
  }

  /** The deletes from `i` on succeed exactly when every slot in `i..n-1` is
      present; they then remove those slots and nothing else of the
      container's slots, and forget the cached children there. */
  lemma {:induction false} DeleteRangeSucceeds(v: View, prefix: Key, i: int, n: int)
    ensures var d := DeleteRange(v, prefix, i, n);
      && (d.out.Ok? <==> forall j :: i <= j < n ==> Slot(prefix, j) in v.records)
      && (d.out.Raise? ==> d.out.fault == NotFound)
      && (d.out.Ok? ==>
            && (forall j :: i <= j < n ==> Slot(prefix, j) !in d.view.records && j !in d.view.cached)
            && (forall j :: (j < i || j >= n) ==> Lookup(d.view.records, Slot(prefix, j)) == Lookup(v.records, Slot(prefix, j)))
            && (forall j :: (j < i || j >= n) ==> (j in d.view.cached <==> j in v.cached)))
    decreases n - i
  {
    if i < n {
      var d := DeleteStep(v, prefix, i);
      if d.out.Ok? {
        DeleteRangeSucceeds(d.view, prefix, i + 1, n);
      }
    }
  }

  /** Clearing a nested container succeeds exactly when it has no hole
      below its size; it then leaves no slot below the old size, no own
      record and size 0. A hole makes the engine raise NOTFOUND. */
  lemma ClearNested(v: View, prefix: Key)
    requires |prefix| > 0
    ensures var s := ClearStep(v, prefix);
      && (s.out.Ok? <==> forall j :: 0 <= j < v.size ==> Slot(prefix, j) in v.records)
      && (s.out.Raise? ==> s.out.fault == NotFound)
      && (s.out.Ok? ==>
            && s.view.size == 0
            && prefix !in s.view.records
            && (forall j :: 0 <= j < v.size ==> Slot(prefix, j) !in s.view.records && j !in s.view.cached))
  {
    DeleteRangeSucceeds(v, prefix, 0, v.size);
    var d := DeleteRange(v, prefix, 0, v.size);
    if d.out.Ok? {
      forall j | 0 <= j < v.size ensures Slot(prefix, j) != prefix {
        SlotsDiffer(prefix, j, j + 1);
      }
    }
  }

  // ---------------------------------------------------------------------
  // each (cursor version)

  /** The cursor key is one of this container's slots. */
  predicate InPrefix(prefix: Key, k: Key)
  {
    |k| == |prefix| + 1 && k[..|prefix|] == prefix
  }

  /** A key at which the cursor loop stops: its prefix differs. (The empty
      key under the top-level container instead makes the loop compare nil
      with an index.) */
  predicate Foreign(prefix: Key, k: Key)
  {
    !InPrefix(prefix, k) && !(k == [] && prefix == [])
  }

  /** The index a cursor key ends with (0 for the empty key). */
  function KeyIndex(k: Key): int
  {
    if |k| == 0 then 0 else k[|k| - 1]
  }

  /** What the cursor loop produced: the values yielded, the last index
      seen, the indices at which it bound (and cached) a child, and the
      fault it raised, if any. */
  datatype Walk = Walk(items: seq<Shape>, last: int, created: set<int>, fault: Option<Fault>)

  /** The cursor loop over the keys the engine returns, starting with
      `lastindex = last`. */
  function CursorWalk(records: Records, prefix: Key, cursor: seq<Key>, last: int): Walk
    decreases |cursor|
  {
    if cursor == [] then Walk([], last, {}, None)
    else WalkCons(records, prefix, cursor[0], last, CursorWalk(records, prefix, cursor[1..], KeyIndex(cursor[0])))
  }

  /** What one turn of the cursor loop does at key `k`: stop, raise, or
      visit the decoded record (yielding it unless it is nil). */
  datatype Turn = Stop | Fail(fault: Fault) | Visit(shape: Shape)

  function TurnAt(records: Records, prefix: Key, k: Key, last: int): Turn
  {
    if k == [] && prefix == [] then Fail(NilValue)
    else if !InPrefix(prefix, k) then Stop
    else if KeyIndex(k) < last then Fail(CursorDecreasing)
    else
      match DecodeRecord(Lookup(records, k), k)
      case Raise(f) => Fail(f)
      case Ok(s) => Visit(s)
  }

  /** One turn of the cursor loop at key `k`, given how the loop goes on
      from the next key. */
  function WalkCons(records: Records, prefix: Key, k: Key, last: int, rest: Walk): Walk
  {
    match TurnAt(records, prefix, k, last)
    case Stop => Walk([], last, {}, None)
    case Fail(f) => Walk([], last, {}, Some(f))
    case Visit(s) =>
      Walk((if s == Nil then [] else [s]) + rest.items, rest.last,
           (if s.ChildAt? then {KeyIndex(k)} else {}) + rest.created, rest.fault)
  }

  /** The walk over the whole cursor is what the loop has yielded and
      created so far, followed by the walk from position `pos` on. */
  ghost predicate WalkSoFar(w: Walk, records: Records, prefix: Key, cursor: seq<Key>, pos: nat, last: int,
                            items: seq<Shape>, created: set<int>)
  {
    pos <= |cursor| &&
    var r := CursorWalk(records, prefix, cursor[pos..], last);
    w == Walk(items + r.items, r.last, created + r.created, r.fault)
  }

  /** One turn of the cursor loop keeps `WalkSoFar`, or ends the walk. */
  lemma WalkTurn(w: Walk, records: Records, prefix: Key, cursor: seq<Key>, pos: nat, last: int,
                 items: seq<Shape>, created: set<int>)
    requires WalkSoFar(w, records, prefix, cursor, pos, last, items, created) && pos < |cursor|
    ensures match TurnAt(records, prefix, cursor[pos], last)
      case Stop => w == Walk(items, last, created, None)
      case Fail(f) => w == Walk(items, last, created, Some(f))
      case Visit(s) =>
        WalkSoFar(w, records, prefix, cursor, pos + 1, KeyIndex(cursor[pos]),
                  items + (if s == Nil then [] else [s]),
                  created + (if s.ChildAt? then {KeyIndex(cursor[pos])} else {}))
  {
    var k := cursor[pos];
    assert cursor[pos..][0] == k && cursor[pos..][1..] == cursor[pos + 1..];
    var next := CursorWalk(records, prefix, cursor[pos + 1..], KeyIndex(k));
    match TurnAt(records, prefix, k, last)
    case Stop =>
      assert items + [] == items && created + {} == created;
    case Fail(f) =>
      assert items + [] == items && created + {} == created;
    case Visit(s) =>
      var y := if s == Nil then [] else [s];
      assert items + (y + next.items) == (items + y) + next.items;
  }

  /** At the end of the cursor the walk is complete. */
  lemma WalkDone(w: Walk, records: Records, prefix: Key, cursor: seq<Key>, last: int,
                 items: seq<Shape>, created: set<int>)
    requires WalkSoFar(w, records, prefix, cursor, |cursor|, last, items, created)
    ensures w == Walk(items, last, created, None)
  {
    assert cursor[|cursor|..] == [];
    assert items + [] == items && created + {} == created;
  }

  /** The cursor hands the loop the record stored at its key, so binding
      a child there reads the same record: the getv of a cursor key agrees
      with decoding it. */
  lemma GetVOfCursorKey(v: View, prefix: Key, k: Key)
    requires InPrefix(prefix, k)
    ensures Slot(prefix, KeyIndex(k)) == k
    ensures GetVStep(v, prefix, Lookup(v.records, k), KeyIndex(k)).out == DecodeRecord(Lookup(v.records, k), k)
  {
    assert k == k[..|prefix|] + [k[|prefix|]];
  }

  /** The fallback loop `for i in lo..(hi-1)`: `get(i)` must find nothing;
      an item found there raises "cursor didn't get them all!". */
  function Fallback(v: View, prefix: Key, i: int, hi: int): (s: Step<()>)
    decreases hi - i
  {
    if i >= hi then Step(v, Ok(()))
    else
      var g := GetStep(v, prefix, i);
      if g.out.Raise? then Step(g.view, Raise(g.out.fault))
      else if g.out.value != Nil then Step(g.view, Raise(CursorMissed))
      else Fallback(g.view, prefix, i + 1, hi)
  }

  datatype EachEnd = EachEnd(view: View, items: seq<Shape>, fault: Option<Fault>)

  /** `each`: walk the cursor from the slot 0 key, then check the indices
      after the last one seen, up to the size, with `get`. */
  function EachStep(v: View, prefix: Key, cursor: seq<Key>): EachEnd
  {
    var w := CursorWalk(v.records, prefix, cursor, 0);
    var v1 := v.(cached := v.cached + w.created);
    if w.fault.Some? then EachEnd(v1, w.items, w.fault)
    else if w.last < v.size - 1 then
      var f := Fallback(v1, prefix, w.last + 1, v.size);
      EachEnd(f.view, w.items, if f.out.Raise? then Some(f.out.fault) else None)
    else EachEnd(v1, w.items, None)
  }

  /** Whether the record at `k` has a tag that is neither of the two. */
  predicate Corrupt(records: Records, k: Key)
  {
    k in records && records[k].Other?
  }

  /** The indices the cursor visits never decrease, starting from `last`. */
  predicate Ordered(last: int, cursor: seq<Key>)
  {
    && (|cursor| > 0 ==> KeyIndex(cursor[0]) >= last)
    && forall j :: 0 < j < |cursor| ==> KeyIndex(cursor[j - 1]) <= KeyIndex(cursor[j])
  }

  /** What a record of proper tag decodes to. */
  function RecordShape(t: Tagged, path: Key): Shape
  {
    match t
    case SubArray(_) => ChildAt(path)
    case Packed(p) => Scalar(p)
    case Other(_) => Nil
  }

  /** The values of the records present at the keys, in order. */
  function Present(records: Records, keys: seq<Key>): seq<Shape>
  {
    if keys == [] then []
    else
      (if keys[0] in records then [RecordShape(records[keys[0]], keys[0])] else [])
      + Present(records, keys[1..])
  }

  lemma OrderedCons(last: int, cursor: seq<Key>)
    requires |cursor| > 0
    ensures Ordered(last, cursor) <==>
              KeyIndex(cursor[0]) >= last && Ordered(KeyIndex(cursor[0]), cursor[1..])
  {
    var rest := cursor[1..];
    assert forall j :: 0 <= j < |rest| ==> rest[j] == cursor[j + 1];
    if KeyIndex(cursor[0]) >= last && Ordered(KeyIndex(cursor[0]), rest) {
      forall j | 0 < j < |cursor|
        ensures KeyIndex(cursor[j - 1]) <= KeyIndex(cursor[j])
      {
        if j > 1 { assert cursor[j - 1] == rest[j - 2] && cursor[j] == rest[j - 1]; }
      }
    }
    if Ordered(last, cursor) && |rest| > 0 {
      assert KeyIndex(cursor[0]) <= KeyIndex(cursor[1]);
      forall j | 0 < j < |rest|
        ensures KeyIndex(rest[j - 1]) <= KeyIndex(rest[j])
      {
        assert KeyIndex(cursor[j]) <= KeyIndex(cursor[j + 1]);
      }
    }
  }

  /** Over keys that all belong to the container, the cursor loop raises
      nothing exactly when the indices never decrease and no record is
      corrupt; a decrease is what it raises "cursor decreasing" for. */
  lemma {:induction false} WalkFaultFree(records: Records, prefix: Key, cursor: seq<Key>, last: int)
    requires forall j :: 0 <= j < |cursor| ==> InPrefix(prefix, cursor[j])
    ensures var w := CursorWalk(records, prefix, cursor, last);
      && (w.fault == None <==>
            Ordered(last, cursor) && forall j :: 0 <= j < |cursor| ==> !Corrupt(records, cursor[j]))
      && (w.fault == Some(CursorDecreasing) ==> !Ordered(last, cursor))
    decreases |cursor|
  {
    if cursor != [] {
      var rest := cursor[1..];
      assert forall j :: 0 <= j < |rest| ==> rest[j] == cursor[j + 1];
      OrderedCons(last, cursor);
      WalkFaultFree(records, prefix, rest, KeyIndex(cursor[0]));
      assert (forall j :: 0 <= j < |cursor| ==> !Corrupt(records, cursor[j])) <==>
             !Corrupt(records, cursor[0]) && forall j :: 0 <= j < |rest| ==> !Corrupt(records, rest[j]);
      assert CursorWalk(records, prefix, cursor, last) ==
             WalkCons(records, prefix, cursor[0], last, CursorWalk(records, prefix, rest, KeyIndex(cursor[0])));
    }
  }

  /** When the cursor loop raises nothing, it has yielded the present
      values in cursor order and its last index is the last key's. */
  lemma {:induction false} WalkYieldsPresent(records: Records, prefix: Key, cursor: seq<Key>, last: int)
    requires forall j :: 0 <= j < |cursor| ==> InPrefix(prefix, cursor[j])
    ensures var w := CursorWalk(records, prefix, cursor, last);
      && (w.fault == None ==> w.items == Present(records, cursor))
      && (w.fault == None ==> w.last == if cursor == [] then last else KeyIndex(cursor[|cursor| - 1]))
    decreases |cursor|
  {
    if cursor != [] {
      var rest := cursor[1..];
      assert forall j :: 0 <= j < |rest| ==> rest[j] == cursor[j + 1];
      WalkYieldsPresent(records, prefix, rest, KeyIndex(cursor[0]));
    }
  }

  /** The cursor loop ignores everything from the first key of another
      prefix on. */
  lemma {:induction false} WalkStopsAtForeignKey(records: Records, prefix: Key, cursor: seq<Key>, j: nat, last: int)
    requires j < |cursor| && Foreign(prefix, cursor[j])
    ensures CursorWalk(records, prefix, cursor, last) == CursorWalk(records, prefix, cursor[..j], last)
    decreases j
  {
    if j > 0 {
      var k := cursor[0];
      assert cursor[..j][0] == k;
      if !(k == [] && prefix == []) && InPrefix(prefix, k) {
        assert cursor[..j][1..] == cursor[1..][..j - 1];
        WalkStopsAtForeignKey(records, prefix, cursor[1..], j - 1, KeyIndex(k));
      }
    }
  }

  /** The fallback from `i` to `hi` raises nothing exactly when `get` finds
      nothing there: no cached child and no record. It raises "cursor
      didn't get them all!" when it finds an item with a proper tag, and it
      never changes the store or the size. */
  lemma {:induction false} FallbackFindsNothing(v: View, prefix: Key, i: int, hi: int)
    ensures var f := Fallback(v, prefix, i, hi);
      && (f.out.Ok? <==> forall j :: i <= j < hi ==> j !in v.cached && Slot(prefix, j) !in v.records)
      && (f.out.Ok? ==> f.view == v)
      && (f.out.Raise? ==> f.out.fault == CursorMissed || f.out.fault == BadMagic)
      && (f.out.Raise? && f.out.fault == BadMagic ==> exists j :: i <= j < hi && Corrupt(v.records, Slot(prefix, j)))
      && f.view.records == v.records && f.view.size == v.size
    decreases hi - i
  {
    if i < hi {
      var g := GetStep(v, prefix, i);
      if g.out.Ok? && g.out.value == Nil {
        assert g.view == v;
        FallbackFindsNothing(v, prefix, i + 1, hi);
      }
    }
  }

  // ---------------------------------------------------------------------
  // each (linear version of the older class)

  /** The older class's `each`: `get(i)` for every index below the size, in
      ascending order, holes included. */
  function PlainEach(records: Records, prefix: Key, i: int, n: int): (it: (seq<Shape>, Option<Fault>))
    ensures it.1.None? ==> |it.0| == (if i < n then n - i else 0)
    decreases n - i
  {
    if i >= n then ([], None)
    else
      match Decode(records, Slot(prefix, i))
      case Raise(f) => ([], Some(f))
      case Ok(s) =>
        var rest := PlainEach(records, prefix, i + 1, n);
        ([s] + rest.0, rest.1)
  }

  /** The linear `each` visits every index of `i..n-1`: element `j - i` of
      what it yields is what `get(j)` returns, holes as nil. It raises only
      at a corrupt record. */
  lemma {:induction false} PlainEachVisitsAll(records: Records, prefix: Key, i: int, n: int)
    ensures var it := PlainEach(records, prefix, i, n);
      && (it.1.None? <==> forall j :: i <= j < n ==> !Corrupt(records, Slot(prefix, j)))
      && (it.1.Some? ==> it.1.value == BadMagic)
      && (it.1.None? ==> forall j :: i <= j < n ==> it.0[j - i] == Decode(records, Slot(prefix, j)).value)
    decreases n - i
  {
    if i < n {
      PlainEachVisitsAll(records, prefix, i + 1, n);
    }
  }

  function NonNil(s: seq<Shape>): (r: seq<Shape>)
    ensures forall y :: y in r ==> y in s && y != Nil
  {
    if s == [] then [] else (if s[0] == Nil then [] else [s[0]]) + NonNil(s[1..])
  }

  /** The indices of `lo..hi-1` whose slot holds a record, ascending. */
  function PresentSlots(records: Records, prefix: Key, lo: int, hi: int): seq<int>
    decreases hi - lo
  {
    if lo >= hi then []
    else (if Slot(prefix, lo) in records then [lo] else []) + PresentSlots(records, prefix, lo + 1, hi)
  }

  function Slots(prefix: Key, idxs: seq<int>): (r: seq<Key>)
    ensures |r| == |idxs|
  {
    if idxs == [] then [] else [Slot(prefix, idxs[0])] + Slots(prefix, idxs[1..])
  }

  /** The cursor loop over the present slots of `lo..hi-1`, in ascending
      order, started with a last index at most `lo`: it raises nothing,
      yields what the linear `each` yields without the holes, and binds
      children only within the run; every slot after its last index is a
      hole. */
  lemma {:induction false} WalkOverPresentSlots(records: Records, prefix: Key, lo: int, hi: int, last: int)
    requires last <= lo
    requires forall j :: lo <= j < hi ==> !Corrupt(records, Slot(prefix, j))
    ensures var w := CursorWalk(records, prefix, Slots(prefix, PresentSlots(records, prefix, lo, hi)), last);
      && w.fault == None
      && w.items == NonNil(PlainEach(records, prefix, lo, hi).0)
      && w.last >= last
      && (forall j :: j in w.created ==> lo <= j <= w.last)
      && (forall j :: lo <= j < hi && w.last < j ==> Slot(prefix, j) !in records)
    decreases hi - lo
  {
    if lo < hi {
      WalkOverPresentSlots(records, prefix, lo + 1, hi, if Slot(prefix, lo) in records then lo else last);
      var rest := PresentSlots(records, prefix, lo + 1, hi);
      var it := PlainEach(records, prefix, lo + 1, hi);
      var s := Decode(records, Slot(prefix, lo)).value;
      assert PlainEach(records, prefix, lo, hi).0 == [s] + it.0;
      assert NonNil([s] + it.0) == (if s == Nil then [] else [s]) + NonNil(it.0) by {
        assert ([s] + it.0)[1..] == it.0;
      }
      if Slot(prefix, lo) in records {
        assert PresentSlots(records, prefix, lo, hi) == [lo] + rest;
        var keys := Slots(prefix, [lo] + rest);
        assert keys == [Slot(prefix, lo)] + Slots(prefix, rest) by {
          assert ([lo] + rest)[1..] == rest;
        }
        assert keys[1..] == Slots(prefix, rest);
        assert keys[0] == Slot(prefix, lo);
        assert KeyIndex(keys[0]) == lo;
      } else {
        assert PresentSlots(records, prefix, lo, hi) == rest;
      }
    }
  }

  /** The reference for the cursor version: when the cursor returns this
      container's present slots below its size in ascending order (then
      nothing, or a key of another prefix), `each` raises nothing and
      yields exactly what the linear `each` yields, without the holes. */
  lemma EachMatchesPlainEach(v: View, prefix: Key, rest: seq<Key>)
    requires forall j :: 0 <= j < v.size ==> !Corrupt(v.records, Slot(prefix, j))
    requires forall j :: j in v.cached && 0 <= j < v.size ==> Slot(prefix, j) in v.records
    requires rest == [] || Foreign(prefix, rest[0])
    ensures var e := EachStep(v, prefix, Slots(prefix, PresentSlots(v.records, prefix, 0, v.size)) + rest);
      && e.fault == None
      && PlainEach(v.records, prefix, 0, v.size).1 == None
      && e.items == NonNil(PlainEach(v.records, prefix, 0, v.size).0)
  {
    var keys := Slots(prefix, PresentSlots(v.records, prefix, 0, v.size));
    var cursor := keys + rest;
    if rest != [] {
      WalkStopsAtForeignKey(v.records, prefix, cursor, |keys|, 0);
      assert cursor[..|keys|] == keys;
    } else {
      assert cursor == keys;
    }
    WalkOverPresentSlots(v.records, prefix, 0, v.size, 0);
    PlainEachVisitsAll(v.records, prefix, 0, v.size);
    var w := CursorWalk(v.records, prefix, keys, 0);
    var v1 := v.(cached := v.cached + w.created);
    if w.last < v.size - 1 {
      FallbackFindsNothing(v1, prefix, w.last + 1, v.size);
    }
  }

  // ---------------------------------------------------------------------
  // arrays built by appends

  /** The layout `n` appends of non-empty values leave: the size is `2n`,
      the own record says so, the values sit at the even indices and the
      odd ones are holes. */
  ghost predicate AppendedLayout(v: View, prefix: Key, ps: seq<seq<int>>)
  {
    && v.size == 2 * |ps|
    && OwnSize(v.records, prefix) == Ok(v.size)
    && v.cached == {}
    && forall i :: 0 <= i ==> HalfSlot(v.records, prefix, ps, i)
  }

  /** Slot `i` of that layout: the value `ps[i / 2]` at even `i`, a hole at odd `i`. */
  ghost predicate HalfSlot(records: Records, prefix: Key, ps: seq<seq<int>>, i: int)
  {
    Lookup(records, Slot(prefix, i)) == if 0 <= i < 2 * |ps| && i % 2 == 0 then Some(Packed(ps[i / 2])) else None
  }

  /** Appending each value in turn. */
  function AppendAll(v: View, prefix: Key, ps: seq<seq<int>>): Step<()>
    decreases |ps|
  {
    if ps == [] then Step(v, Ok(()))
    else
      var a := AppendStep(v, prefix, Some(ps[0]));
      if a.out.Raise? then a else AppendAll(a.view, prefix, ps[1..])
  }

  lemma AppendKeepsLayout(v: View, prefix: Key, ps: seq<seq<int>>, p: seq<int>)
    requires AppendedLayout(v, prefix, ps) && p != []
    ensures var a := AppendStep(v, prefix, Some(p));
      a.out.Ok? && AppendedLayout(a.view, prefix, ps + [p])
  {
    AppendGrowsByTwo(v, prefix, Some(p));
    var a := AppendStep(v, prefix, Some(p));
    var pt := PutStep(v, prefix, v.size, Some(p));
    var n := |ps|;
    forall i | 0 <= i
      ensures HalfSlot(a.view.records, prefix, ps + [p], i)
    {
      assert HalfSlot(v.records, prefix, ps, i);
      if i != 2 * n {
        SlotsDiffer(prefix, i, 2 * n);
        assert Lookup(pt.view.records, Slot(prefix, i)) == Lookup(v.records, Slot(prefix, i));
        if i < 2 * n && i % 2 == 0 { assert (ps + [p])[i / 2] == ps[i / 2]; }
      }
    }
  }

  /** Appending `n` non-empty values keeps the layout. */
  lemma {:induction false} AppendAllLayout(v: View, prefix: Key, qs: seq<seq<int>>, ps: seq<seq<int>>)
    requires AppendedLayout(v, prefix, qs)
    requires forall m :: 0 <= m < |ps| ==> ps[m] != []
    ensures var a := AppendAll(v, prefix, ps); a.out.Ok? && AppendedLayout(a.view, prefix, qs + ps)
    decreases |ps|
  {
    if ps == [] {
      assert qs + ps == qs;
    } else {
      AppendKeepsLayout(v, prefix, qs, ps[0]);
      var a := AppendStep(v, prefix, Some(ps[0]));
      AppendAllLayout(a.view, prefix, qs + [ps[0]], ps[1..]);
      assert qs + [ps[0]] + ps[1..] == qs + ps;
    }
  }

  /** Values with a hole after each. */
  function Interleave(ps: seq<seq<int>>): (r: seq<Shape>)
    ensures |r| == 2 * |ps|
  {
    if ps == [] then [] else [Scalar(ps[0]), Nil] + Interleave(ps[1..])
  }

  function Scalars(ps: seq<seq<int>>): (r: seq<Shape>)
    ensures |r| == |ps| && forall m :: 0 <= m < |ps| ==> r[m] == Scalar(ps[m])
  {
    if ps == [] then [] else [Scalar(ps[0])] + Scalars(ps[1..])
  }

  lemma {:induction false} PlainEachOfLayout(v: View, prefix: Key, ps: seq<seq<int>>, m: nat)
    requires AppendedLayout(v, prefix, ps) && m <= |ps|
    ensures PlainEach(v.records, prefix, 2 * m, 2 * |ps|) == (Interleave(ps[m..]), None)
    decreases |ps| - m
  {
    if m < |ps| {
      PlainEachOfLayout(v, prefix, ps, m + 1);
      assert ps[m..][1..] == ps[m + 1..];
      assert HalfSlot(v.records, prefix, ps, 2 * m) && HalfSlot(v.records, prefix, ps, 2 * m + 1);
      assert Lookup(v.records, Slot(prefix, 2 * m)) == Some(Packed(ps[m]));
      assert Lookup(v.records, Slot(prefix, 2 * m + 1)) == None;
      var tail := PlainEach(v.records, prefix, 2 * m + 2, 2 * |ps|);
      assert PlainEach(v.records, prefix, 2 * m + 1, 2 * |ps|) == ([Nil] + tail.0, tail.1);
      assert Decode(v.records, Slot(prefix, 2 * m)) == Ok(Scalar(ps[m]));
      assert [Scalar(ps[m])] + ([Nil] + tail.0) == [Scalar(ps[m]), Nil] + tail.0;
    }
  }

  lemma {:induction false} NonNilInterleave(ps: seq<seq<int>>)
    ensures NonNil(Interleave(ps)) == Scalars(ps)
    decreases |ps|
  {
    if ps != [] {
      NonNilInterleave(ps[1..]);
      var r := Interleave(ps[1..]);
      assert ([Scalar(ps[0]), Nil] + r)[1..] == [Nil] + r;
      assert ([Nil] + r)[1..] == r;
    }
  }

  /** An array built by appending non-empty values to an empty container
      has size twice their number. The linear `each` yields each value
      followed by a nil; the cursor `each`, over the present slots, yields
      exactly the values in order and raises nothing. */
  lemma AppendsThenEach(v: View, prefix: Key, ps: seq<seq<int>>, rest: seq<Key>)
    requires AppendedLayout(v, prefix, [])
    requires forall m :: 0 <= m < |ps| ==> ps[m] != []
    requires rest == [] || Foreign(prefix, rest[0])
    ensures var a := AppendAll(v, prefix, ps);
      && a.out.Ok?
      && a.view.size == 2 * |ps|
      && PlainEach(a.view.records, prefix, 0, a.view.size) == (Interleave(ps), None)
      && var e := EachStep(a.view, prefix, Slots(prefix, PresentSlots(a.view.records, prefix, 0, a.view.size)) + rest);
         e.fault == None && e.items == Scalars(ps)
  {
    AppendAllLayout(v, prefix, [], ps);
    assert [] + ps == ps;
    var a := AppendAll(v, prefix, ps);
    PlainEachOfLayout(a.view, prefix, ps, 0);
    assert ps[0..] == ps;
    forall j | 0 <= j < a.view.size
      ensures !Corrupt(a.view.records, Slot(prefix, j))
    {
      assert HalfSlot(a.view.records, prefix, ps, j);
    }
    EachMatchesPlainEach(a.view, prefix, rest);
    NonNilInterleave(ps);
  }

  // ---------------------------------------------------------------------
  // append as intended: `put` at the old size, nothing more

  /** `self[size] = o` alone: the put already raises the size past the new
      slot. */
  function AppendOnceStep(v: View, prefix: Key, value: Option<seq<int>>): (s: Step<Shape>)
  {
    PutStep(v, prefix, v.size, value)
  }

  /** The intended append grows the size by exactly one and stores the
      value at the old size. */
  lemma AppendOnceGrowsByOne(v: View, prefix: Key, value: seq<int>)
    ensures var s := AppendOnceStep(v, prefix, Some(value));
      && s.out.Ok?
      && s.view.size == v.size + 1
      && Lookup(s.view.records, Slot(prefix, v.size)) == Some(if value == [] then SubArray(0) else Packed(value))
      && OwnSize(s.view.records, prefix) == Ok(if v.size + 1 > 0 then v.size + 1 else 0)
  {
  }

  /** The values `ps` at the indices `0..|ps|-1`, and nothing after them. */
  ghost predicate DenseLayout(v: View, prefix: Key, ps: seq<seq<int>>)
  {
    && v.size == |ps|
    && OwnSize(v.records, prefix) == Ok(v.size)
    && v.cached == {}
    && forall i :: 0 <= i ==>
         (Lookup(v.records, Slot(prefix, i)) == if i < |ps| then Some(Packed(ps[i])) else None)
  }

  function AppendOnceAll(v: View, prefix: Key, ps: seq<seq<int>>): Step<()>
    decreases |ps|
  {
    if ps == [] then Step(v, Ok(()))
    else
      var a := AppendOnceStep(v, prefix, Some(ps[0]));
      if a.out.Raise? then Step(a.view, Raise(a.out.fault)) else AppendOnceAll(a.view, prefix, ps[1..])
  }

  lemma AppendOnceKeepsLayout(v: View, prefix: Key, ps: seq<seq<int>>, p: seq<int>)
    requires DenseLayout(v, prefix, ps) && p != []
    ensures var a := AppendOnceStep(v, prefix, Some(p));
      a.out.Ok? && DenseLayout(a.view, prefix, ps + [p])
  {
    var a := AppendOnceStep(v, prefix, Some(p));
    var n := |ps|;
    forall i | 0 <= i
      ensures Lookup(a.view.records, Slot(prefix, i)) == (if i < n + 1 then Some(Packed((ps + [p])[i])) else None)
    {
      if i != n {
        SlotsDiffer(prefix, i, n);
        if i < n { assert (ps + [p])[i] == ps[i]; }
      }
    }
  }

  lemma {:induction false} AppendOnceAllLayout(v: View, prefix: Key, qs: seq<seq<int>>, ps: seq<seq<int>>)
    requires DenseLayout(v, prefix, qs)
    requires forall m :: 0 <= m < |ps| ==> ps[m] != []
    ensures var a := AppendOnceAll(v, prefix, ps); a.out.Ok? && DenseLayout(a.view, prefix, qs + ps)
    decreases |ps|
  {
    if ps == [] {
      assert qs + ps == qs;
    } else {
      AppendOnceKeepsLayout(v, prefix, qs, ps[0]);
      var a := AppendOnceStep(v, prefix, Some(ps[0]));
      AppendOnceAllLayout(a.view, prefix, qs + [ps[0]], ps[1..]);
      assert qs + [ps[0]] + ps[1..] == qs + ps;
    }
  }

  lemma {:induction false} PlainEachOfDense(v: View, prefix: Key, ps: seq<seq<int>>, m: nat)
    requires DenseLayout(v, prefix, ps) && m <= |ps|
    ensures PlainEach(v.records, prefix, m, |ps|) == (Scalars(ps[m..]), None)
    decreases |ps| - m
  {
    if m < |ps| {
      PlainEachOfDense(v, prefix, ps, m + 1);
      assert ps[m..][1..] == ps[m + 1..];
      assert Decode(v.records, Slot(prefix, m)) == Ok(Scalar(ps[m]));
    }
  }

  lemma {:induction false} NonNilScalars(ps: seq<seq<int>>)
    ensures NonNil(Scalars(ps)) == Scalars(ps)
    decreases |ps|
  {
    if ps != [] {
      NonNilScalars(ps[1..]);
      assert Scalars(ps)[1..] == Scalars(ps[1..]);
    }
  }

  /** With the intended append, an array built by appending non-empty
      values has exactly their number as its size, and both `each`
      variants yield exactly the values, in order, with no holes. */
  lemma AppendsOnceThenEach(v: View, prefix: Key, ps: seq<seq<int>>, rest: seq<Key>)
    requires DenseLayout(v, prefix, [])
    requires forall m :: 0 <= m < |ps| ==> ps[m] != []
    requires rest == [] || Foreign(prefix, rest[0])
    ensures var a := AppendOnceAll(v, prefix, ps);
      && a.out.Ok?
      && a.view.size == |ps|
      && PlainEach(a.view.records, prefix, 0, a.view.size) == (Scalars(ps), None)
      && var e := EachStep(a.view, prefix, Slots(prefix, PresentSlots(a.view.records, prefix, 0, a.view.size)) + rest);
         e.fault == None && e.items == Scalars(ps)
  {
    AppendOnceAllLayout(v, prefix, [], ps);
    assert [] + ps == ps;
    var a := AppendOnceAll(v, prefix, ps);
    PlainEachOfDense(a.view, prefix, ps, 0);
    assert ps[0..] == ps;
    EachMatchesPlainEach(a.view, prefix, rest);
    NonNilScalars(ps);
  }
}
