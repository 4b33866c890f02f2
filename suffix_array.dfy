/** The older, cache-less persistent array that the suffix generator's
    containers are built from. It shares the record layout and the size
    bookkeeping of the cached class; reads bind a new child object every
    time, and `each` reads every index below the size in turn. */
module SuffixArray {
  import opened Store
  import opened ArraySpec

  /** The prefix a child container is bound to. */
  function PathOf(a: LMDBBackedArray): Key
  {
    a.prefix
  }

  class LMDBBackedArray {
    const db: Database
    const prefix: Key
    var size: int

    ghost function Abs(): View
      reads this, db
    {
      View(db.records, size, {})
    }

    constructor Bind(db: Database, prefix: Key, size: int)
      ensures this.db == db && this.prefix == prefix && this.size == size
    {
      this.db := db;
      this.prefix := prefix;
      this.size := size;
    }

    /** `new(db, prefix)`: the size is read from the container's own
        record; a record of another kind is "Bad magic!". */
    static method Open(db: Database, prefix: Key) returns (r: Outcome<LMDBBackedArray>)
      ensures r.Raise? <==> OwnSize(db.records, prefix).Raise?
      ensures r.Raise? ==> r.fault == BadMagic
      ensures r.Ok? ==>
                && fresh(r.value)
                && r.value.db == db && r.value.prefix == prefix
                && r.value.size == OwnSize(db.records, prefix).value
    {
      if prefix !in db.records {
        var a := new LMDBBackedArray.Bind(db, prefix, 0);
        r := Ok(a);
      } else if db.records[prefix].SubArray? {
        var a := new LMDBBackedArray.Bind(db, prefix, db.records[prefix].count);
        r := Ok(a);
      } else {
        r := Raise(BadMagic);
      }
    }

    /** `get(key)`: nil for a hole, a newly bound child for a child-array
        marker, the payload of a packed record, and "Bad magic!" for any
        other tag. */
    method Get(key: int) returns (r: Outcome<Value<LMDBBackedArray>>)
      ensures OutShape(r, PathOf) == Decode(db.records, Slot(prefix, key))
      ensures r.Ok? && r.value.Child? ==>
                && fresh(r.value.arr)
                && r.value.arr.db == db
                && r.value.arr.size == OwnSize(db.records, Slot(prefix, key)).value
    {
      var slot := Slot(prefix, key);
      if slot !in db.records {
        r := Ok(Absent);
      } else if db.records[slot].SubArray? {
        var o := Open(db, slot);
        assert o.Ok?;
        r := Ok(Child(o.value));
      } else if db.records[slot].Packed? {
        r := Ok(Payload(db.records[slot].payload));
      } else {
        r := Raise(BadMagic);
      }
    }

    /** `setsize(n)`. */
    method SetSize(n: int)
      modifies this, db
      ensures Abs() == SetSizeStep(old(Abs()), prefix, n)
    {
      if n > 0 {
        db.Put(prefix, SubArray(n));
      } else {
        var ignored := db.Delete(prefix);
        assert db.records == old(db.records) - {prefix};
      }
      size := n;
    }

    /** `delete(key)`. */
    method Delete(key: int) returns (o: Outcome<()>)
      modifies this, db
      ensures var s := DeleteStep(old(Abs()), prefix, key); Abs() == s.view && o == s.out
    {
      var d := db.Delete(Slot(prefix, key));
      if d.Raise? {
        return d;
      }
      if key == size - 1 {
        SetSize(key);
      }
      o := Ok(());
    }

    /** `put(key, value)`, with nil as `None`; nothing is cached. */
    method Put(key: int, value: Option<seq<int>>) returns (r: Outcome<Value<LMDBBackedArray>>)
      modifies this, db
      ensures var s := PutStep(old(Abs()), prefix, key, value);
        Abs() == s.view.(cached := {}) && OutShape(r, PathOf) == s.out
      ensures value == Some([]) ==> r.Ok? && r.value.Child? && fresh(r.value.arr) && r.value.arr.size == 0
    {
      if key > size - 1 {
        SetSize(key + 1);
      }
      var slot := Slot(prefix, key);
      if value == Some([]) {
        db.Put(slot, SubArray(0));
        var o := Open(db, slot);
        assert o.Ok?;
        r := Ok(Child(o.value));
      } else if value.None? {
        var d := Delete(key);
        if d.Raise? {
          r := Raise(d.fault);
          return;
        }
        r := Ok(Absent);
      } else {
        db.Put(slot, Packed(value.value));
        r := Ok(Payload(value.value));
      }
    }

    /** `clear`. */
    method Clear() returns (o: Outcome<()>)
      modifies this, db
      ensures var s := ClearStep(old(Abs()), prefix); Abs() == s.view && o == s.out
    {
      if |prefix| > 0 {
        ghost var v0 := Abs();
        var n := size;
        var i := 0;
        while i < n
          invariant 0 <= i && (i <= n || i == 0)
          invariant DeleteRange(Abs(), prefix, i, n) == DeleteRange(v0, prefix, 0, n)
        {
          var d := Delete(i);
          if d.Raise? {
            o := d;
            return;
          }
          i := i + 1;
        }
        SetSize(0);
        o := Ok(());
      } else {
        db.Clear();
        o := Ok(());
      }
    }

    /** `each`: what `get(i)` returns for every index below the size, in
        ascending order and holes included, up to the first fault. */
    method Each() returns (values: seq<Value<LMDBBackedArray>>, fault: Option<Fault>)
      ensures ShapesOf(values, PathOf) == PlainEach(db.records, prefix, 0, size).0
      ensures fault == PlainEach(db.records, prefix, 0, size).1
    {
      values := [];
      fault := None;
      var i := 0;
      while i < size
        invariant 0 <= i && (i <= size || i == 0)
        invariant PlainEach(db.records, prefix, 0, size).0 == ShapesOf(values, PathOf) + PlainEach(db.records, prefix, i, size).0
        invariant PlainEach(db.records, prefix, 0, size).1 == PlainEach(db.records, prefix, i, size).1
      {
        var item := Get(i);
        if item.Raise? {
          fault := Some(item.fault);
          return;
        }
        var rest := PlainEach(db.records, prefix, i + 1, size);
        ShapesOfSnoc(values, item.value, PathOf);
        assert ShapesOf(values, PathOf) + ([ShapeOf(item.value, PathOf)] + rest.0) == (ShapesOf(values, PathOf) + [ShapeOf(item.value, PathOf)]) + rest.0;
        values := values + [item.value];
        i := i + 1;
      }
    }

    /** `append(o)`. */
    method Append(value: Option<seq<int>>) returns (r: Outcome<()>)
      modifies this, db
      ensures var s := AppendStep(old(Abs()), prefix, value);
        Abs() == s.view.(cached := {}) && r == s.out
    {
      var p := Put(size, value);
      if p.Raise? {
        return Raise(p.fault);
      }
      SetSize(size + 1);
      r := Ok(());
    }
  }
}
