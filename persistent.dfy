/** The cached persistent array: an object per container, bound to a
    database and a key prefix, with its size and the children it has bound
    so far. Every method is proved to move the object's view of the store
    exactly as the corresponding step of `ArraySpec` does. */
module Persistent {
  import opened Store
  import opened ArraySpec

  /** The prefix a child container is bound to. */
  function PathOf(a: LMDBBackedArray): Key
  {
    a.prefix
  }

  class LMDBBackedArray {
    const db: Database
    const prefix: Key
    var size: int
    var cache: map<int, LMDBBackedArray>

    /** Every cached child shares the database and is bound to its slot. */
    ghost predicate Valid()
      reads this
    {
      forall k :: k in cache ==> cache[k].db == db && cache[k].prefix == Slot(prefix, k)
    }

    ghost function Abs(): View
      reads this, db
    {
      View(db.records, size, cache.Keys)
    }

    constructor Bind(db: Database, prefix: Key, size: int)
      ensures this.db == db && this.prefix == prefix && this.size == size && cache == map[]
      ensures Valid()
    {
      this.db := db;
      this.prefix := prefix;
      this.size := size;
      this.cache := map[];
    }

    /** `new(db, prefix)`: the size is read from the container's own
        record; a record of another kind is "Bad magic!". */
    static method Open(db: Database, prefix: Key) returns (r: Outcome<LMDBBackedArray>)
      ensures r.Raise? <==> OwnSize(db.records, prefix).Raise?
      ensures r.Raise? ==> r.fault == BadMagic
      ensures r.Ok? ==>
                && fresh(r.value) && r.value.Valid()
                && r.value.db == db && r.value.prefix == prefix
                && r.value.size == OwnSize(db.records, prefix).value
                && r.value.cache == map[]
    {
      if prefix !in db.records {
        var a := new LMDBBackedArray.Bind(db, prefix, 0);
        r := Ok(a);
      } else if db.records[prefix].SubArray? {
        var a := new LMDBBackedArray.Bind(db, prefix, db.records[prefix].count);
        r := Ok(a);
      } else {
        r := Raise(BadMagic);
      }
    }

    /** `getv(rec, key)`. */
    method GetV(rec: Option<Tagged>, key: int) returns (r: Outcome<Value<LMDBBackedArray>>)
      requires Valid()
      modifies this
      ensures Valid()
      ensures var s := GetVStep(old(Abs()), prefix, rec, key); Abs() == s.view && OutShape(r, PathOf) == s.out
      ensures r.Ok? && r.value.Child? ==>
                && fresh(r.value.arr)
                && r.value.arr.cache == map[]
                && r.value.arr.size == OwnSize(db.records, Slot(prefix, key)).value
                && cache == old(cache)[key := r.value.arr]
      ensures !(r.Ok? && r.value.Child?) ==> cache == old(cache)
    {
      if rec.None? {
        r := Ok(Absent);
      } else if rec.value.SubArray? {
        var o := Open(db, Slot(prefix, key));
        if o.Raise? {
          r := Raise(o.fault);
        } else {
          cache := cache[key := o.value];
          r := Ok(Child(o.value));
        }
      } else if rec.value.Packed? {
        r := Ok(Payload(rec.value.payload));
      } else {
        r := Raise(BadMagic);
      }
    }

    /** `get(key)`: a cached child is returned as it is. */
    method Get(key: int) returns (r: Outcome<Value<LMDBBackedArray>>)
      requires Valid()
      modifies this
      ensures Valid()
      ensures var s := GetStep(old(Abs()), prefix, key); Abs() == s.view && OutShape(r, PathOf) == s.out
      ensures key in old(cache) ==> r == Ok(Child(old(cache)[key])) && cache == old(cache)
      ensures key !in old(cache) && r.Ok? && r.value.Child? ==>
                fresh(r.value.arr) && cache == old(cache)[key := r.value.arr]
      ensures !(r.Ok? && r.value.Child?) ==> cache == old(cache)
    {
      if key in cache {
        r := Ok(Child(cache[key]));
      } else {
        r := GetV(Lookup(db.records, Slot(prefix, key)), key);
      }
    }

    /** `setsize(n)`. */
    method SetSize(n: int)
      requires Valid()
      modifies this, db
      ensures Valid() && cache == old(cache)
      ensures Abs() == SetSizeStep(old(Abs()), prefix, n)
    {
      if n > 0 {
        db.Put(prefix, SubArray(n));
      } else {
        var ignored := db.Delete(prefix);
        assert db.records == old(db.records) - {prefix};
      }
      size := n;
    }

    /** `delete(key)`. */
    method Delete(key: int) returns (o: Outcome<()>)
      requires Valid()
      modifies this, db
      ensures Valid()
      ensures var s := DeleteStep(old(Abs()), prefix, key); Abs() == s.view && o == s.out
      ensures o.Ok? ==> cache == old(cache) - {key}
      ensures o.Raise? ==> cache == old(cache)
    {
      var d := db.Delete(Slot(prefix, key));
      if d.Raise? {
        return d;
      }
      if key == size - 1 {
        SetSize(key);
      }
      cache := cache - {key};
      o := Ok(());
    }

    /** `put(key, value)`, with nil as `None`. */
    method Put(key: int, value: Option<seq<int>>) returns (r: Outcome<Value<LMDBBackedArray>>)
      requires Valid()
      modifies this, db
      ensures Valid()
      ensures var s := PutStep(old(Abs()), prefix, key, value); Abs() == s.view && OutShape(r, PathOf) == s.out
      ensures value == Some([]) ==>
                && r.Ok? && r.value.Child? && fresh(r.value.arr)
                && r.value.arr.size == 0 && r.value.arr.cache == map[]
                && cache == old(cache)[key := r.value.arr]
      ensures value.Some? && value.value != [] ==> cache == old(cache)
      ensures value.None? && r.Ok? ==> cache == old(cache) - {key}
      ensures value.None? && r.Raise? ==> cache == old(cache)
    {
      if key > size - 1 {
        SetSize(key + 1);
      }
      var slot := Slot(prefix, key);
      if value == Some([]) {
        db.Put(slot, SubArray(0));
        var o := Open(db, slot);
        assert o.Ok?;
        cache := cache[key := o.value];
        r := Ok(Child(o.value));
      } else if value.None? {
        var d := Delete(key);
        if d.Raise? {
          r := Raise(d.fault);
          return;
        }
        cache := cache - {key};
        r := Ok(Absent);
      } else {
        db.Put(slot, Packed(value.value));
        r := Ok(Payload(value.value));
      }
    }

    /** `clear`. */
    method Clear() returns (o: Outcome<()>)
      requires Valid()
      modifies this, db
      ensures Valid()
      ensures var s := ClearStep(old(Abs()), prefix); Abs() == s.view && o == s.out
      ensures forall k :: k in cache ==> k in old(cache) && cache[k] == old(cache)[k]
    {
      if |prefix| > 0 {
        ghost var v0 := Abs();
        var n := size;
        var i := 0;
        while i < n
          invariant 0 <= i && (i <= n || i == 0)
          invariant Valid()
          invariant DeleteRange(Abs(), prefix, i, n) == DeleteRange(v0, prefix, 0, n)
          invariant forall k :: k in cache ==> k in old(cache) && cache[k] == old(cache)[k]
        {
          var d := Delete(i);
          if d.Raise? {
            o := d;
            return;
          }
          i := i + 1;
        }
        SetSize(0);
        o := Ok(());
      } else {
        db.Clear();
        o := Ok(());
      }
    }

    /** One turn of the cursor loop at key `k`: the key's record is read
        with `getv`, which binds and caches a child for a child-array
        marker. */
    method CursorTurn(k: Key, last: int) returns (t: Turn, value: Value<LMDBBackedArray>)
      requires Valid()
      modifies this
      ensures Valid() && size == old(size) && db.records == old(db.records)
      ensures t == TurnAt(old(db.records), prefix, k, last)
      ensures t.Visit? ==> ShapeOf(value, PathOf) == t.shape
      ensures cache.Keys == old(cache).Keys + (if t.Visit? && t.shape.ChildAt? then {KeyIndex(k)} else {})
    {
      value := Absent;
      if k == [] && prefix == [] {
        return Fail(NilValue), value;
      }
      if !InPrefix(prefix, k) {
        return Stop, value;
      }
      var index := KeyIndex(k);
      if index < last {
        return Fail(CursorDecreasing), value;
      }
      GetVOfCursorKey(Abs(), prefix, k);
      var g := GetV(Lookup(db.records, k), index);
      if g.Raise? {
        return Fail(g.fault), value;
      }
      value := g.value;
      t := Visit(ShapeOf(value, PathOf));
    }

    /** The cursor loop of `each` (the `until stop` loop), from `lastindex
        = 0`. */
    method CursorLoop(cursor: seq<Key>) returns (values: seq<Value<LMDBBackedArray>>, last: int, fault: Option<Fault>)
      requires Valid()
      modifies this
      ensures Valid() && size == old(size) && db.records == old(db.records)
      ensures var w := CursorWalk(old(db.records), prefix, cursor, 0);
        && ShapesOf(values, PathOf) == w.items && last == w.last && fault == w.fault
        && cache.Keys == old(cache).Keys + w.created
    {
      ghost var records := db.records;
      ghost var w0 := CursorWalk(records, prefix, cursor, 0);
      values := [];
      fault := None;
      var pos := 0;
      last := 0;
      ghost var created: set<int> := {};
      assert cursor[0..] == cursor;
      while pos < |cursor|
        invariant 0 <= pos <= |cursor|
        invariant Valid()
        invariant db.records == records && size == old(size)
        invariant cache.Keys == old(cache).Keys + created
        invariant WalkSoFar(w0, records, prefix, cursor, pos, last, ShapesOf(values, PathOf), created)
      {
        var k := cursor[pos];
        WalkTurn(w0, records, prefix, cursor, pos, last, ShapesOf(values, PathOf), created);
        var t, x := CursorTurn(k, last);
        if t.Stop? {
          return;
        }
        if t.Fail? {
          fault := Some(t.fault);
          return;
        }
        ghost var s := t.shape;
        ghost var items' := ShapesOf(values, PathOf) + (if s == Nil then [] else [s]);
        ghost var created' := created + (if s.ChildAt? then {KeyIndex(k)} else {});
        assert WalkSoFar(w0, records, prefix, cursor, pos + 1, KeyIndex(k), items', created');
        if x != Absent {
          ShapesOfSnoc(values, x, PathOf);
          values := values + [x];
        } else {
          assert items' == ShapesOf(values, PathOf);
        }
        if s.ChildAt? {
          created := created + {KeyIndex(k)};
        } else {
          assert created' == created;
        }
        last := KeyIndex(k);
        pos := pos + 1;
      }
      WalkDone(w0, records, prefix, cursor, last, ShapesOf(values, PathOf), created);
    }

    /** The fallback loop of `each`: every index from `lo` to the last
        must be a hole. */
    method FallbackLoop(lo: int) returns (o: Outcome<()>)
      requires Valid()
      modifies this
      ensures Valid() && size == old(size) && db.records == old(db.records)
      ensures var f := Fallback(old(Abs()), prefix, lo, old(size)); Abs() == f.view && o == f.out
    {
      ghost var v0 := Abs();
      var i := lo;
      while i < size
        invariant Valid()
        invariant db.records == v0.records && size == v0.size
        invariant Fallback(Abs(), prefix, i, size) == Fallback(v0, prefix, lo, size)
        decreases size - i
      {
        var item := Get(i);
        if item.Raise? {
          return Raise(item.fault);
        }
        if item.value != Absent {
          return Raise(CursorMissed);
        }
        i := i + 1;
      }
      o := Ok(());
    }

    /** `each`, over the keys the engine's cursor returns from the slot 0
        key on. The values are those the block would receive; the fault is
        what the loop raised, after which nothing more is yielded. */
    method Each(cursor: seq<Key>) returns (values: seq<Value<LMDBBackedArray>>, fault: Option<Fault>)
      requires Valid()
      modifies this
      ensures Valid()
      ensures var e := EachStep(old(Abs()), prefix, cursor);
        Abs() == e.view && ShapesOf(values, PathOf) == e.items && fault == e.fault
    {
      var last;
      values, last, fault := CursorLoop(cursor);
      if fault.None? && last < size - 1 {
        var o := FallbackLoop(last + 1);
        if o.Raise? {
          fault := Some(o.fault);
        }
      }
    }

    /** `append(o)`. */
    method Append(value: Option<seq<int>>) returns (r: Outcome<()>)
      requires Valid()
      modifies this, db
      ensures Valid()
      ensures var s := AppendStep(old(Abs()), prefix, value); Abs() == s.view && r == s.out
    {
      var p := Put(size, value);
      if p.Raise? {
        return Raise(p.fault);
      }
      SetSize(size + 1);
      r := Ok(());
    }

    /** `cachereset`: later reads bind fresh children. */
    method CacheReset()
      modifies this
      ensures cache == map[] && size == old(size)
      ensures Abs() == old(Abs()).(cached := {})
    {
      cache := map[];
    }
  }
}
