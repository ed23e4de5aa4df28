/** The cached store itself: each operation performs one step of the state machine. */
module StoreAccess {
  import opened Bytes
  import opened Cache
  import opened Codecs
  import opened Database
  import opened DbKeys
  import opened StoreModel
  import opened StoreRecent
  import opened StoreRuns

  class CachedDbAccess<T(==, !new)> {
    const db: Db
    const cache: Cache<Bytes, T>
    const layout: Layout<T>

    constructor (db: Db, policy: CachePolicy<T>, layout: Layout<T>)
      ensures this.db == db && this.layout == layout && fresh(cache)
      ensures cache.Valid() && cache.entries == map[]
    {
      this.db := db;
      this.cache := new Cache<Bytes, T>(policy);
      this.layout := layout;
    }

    ghost function View(w: Writer): State<T>
      reads db, w, cache
    {
      State(db.rows, w.batch, cache.entries)
    }

    method Has(k: Bytes) returns (b: bool)
      ensures b <==> k in cache.entries || layout.HasRow(db.rows, k)
    {
      if k in cache.entries { return true; }
      var key := new DbKey.New(layout.prefix, k);
      if layout.suffix.Some? {
        var first := db.ScanFirst(key.path);
        return first.Some?;
      }
      var row := db.Get(key.path);
      return row.Some?;
    }

    method Read(k: Bytes) returns (r: Result<T>)
      requires cache.Valid()
      modifies cache
      ensures cache.Valid()
      ensures ReadStep(layout, db.rows, old(cache.entries), k, cache.entries, r)
      ensures k !in old(cache.entries) && r.Ok? ==> cache.Inserts(old(cache.entries), k, r.value, cache.entries)
    {
      if k in cache.entries { return Ok(cache.entries[k]); }
      if layout.suffix.Some? {
        r := ReadVersioned(k, layout.suffix.value);
        return;
      }
      var key := new DbKey.New(layout.prefix, k);
      var row := db.Get(key.path);
      match row
      case Some(bytes) =>
        r := Decoded(layout.codec.decode(bytes));
        if r.Ok? { cache.Insert(k, r.value); }
      case None =>
        r := Err(KeyNotFound);
    }

    /** Takes the first row of the prefix scan and dispatches on its key's tail. */
    method ReadVersioned(k: Bytes, suffix: Byte) returns (r: Result<T>)
      requires cache.Valid() && k !in cache.entries && layout.suffix == Some(suffix)
      modifies cache
      ensures cache.Valid()
      ensures ReadStep(layout, db.rows, old(cache.entries), k, cache.entries, r)
      ensures k !in old(cache.entries) && r.Ok? ==> cache.Inserts(old(cache.entries), k, r.value, cache.entries)
    {
      var scan := new DbKey.New(layout.prefix, k);
      var scanLen := |scan.path|;
      var first := db.ScanFirst(scan.path);
      if first.None? { return Err(KeyNotFound); }
      var (found, bytes) := first.value;
      if |found| == scanLen {
        r := Decoded(layout.codec.decodeLegacy(bytes));
      } else if |found| == scanLen + 1 {
        if found[scanLen] != suffix { return Err(DataInconsistency); }
        r := Decoded(layout.codec.decode(bytes));
      } else {
        return Err(DataInconsistency);
      }
      if r.Ok? { cache.Insert(k, r.value); }
    }

    method BuildWriteKey(k: Bytes) returns (key: DbKey)
      ensures fresh(key) && key.path == layout.WriteKey(k)
    {
      key := new DbKey.New(layout.prefix, k);
      if layout.suffix.Some? { key.AddSuffix([layout.suffix.value]); }
    }

    method Write(w: Writer, k: Bytes, v: T)
      requires cache.Valid() && w.db == db
      modifies cache, w`batch, db
      ensures cache.Valid()
      ensures Next(layout, old(View(w)), Op.Write(w.direct, k, v), View(w), Done)
      ensures cache.Inserts(old(cache.entries), k, v, cache.entries)
      ensures !cache.tracked ==> CountStep(cache.maxSize, old(View(w)), Event(Op.Write(w.direct, k, v), Done), View(w))
    {
      cache.Insert(k, v);
      PutItem(w, (k, v));
    }

    method PutItem(w: Writer, item: (Bytes, T))
      requires w.db == db
      modifies w`batch, db
      ensures Emitted(old(View(w)), View(w), w.direct, Puts(layout, [item]))
    {
      var bytes := layout.codec.encode(item.1);
      var key := BuildWriteKey(item.0);
      assert Puts(layout, [item]) == [Put(key.path, bytes)];
      ApplyOne(db.rows, Put(key.path, bytes));
      w.Emit(Put(key.path, bytes));
    }

    /** Emits one put per item, in order. */
    method PutItems(w: Writer, items: seq<(Bytes, T)>)
      requires w.db == db
      modifies w`batch, db
      ensures Emitted(old(View(w)), View(w), w.direct, Puts(layout, items))
    {
      ghost var s := View(w);
      var i := 0;
      while i < |items|
        invariant 0 <= i <= |items|
        invariant cache.entries == old(cache.entries)
        invariant Emitted(s, View(w), w.direct, Puts(layout, items[..i]))
      {
        ghost var mid := View(w);
        PutItem(w, items[i]);
        EmittedPut(layout, s, mid, View(w), w.direct, items, i);
        i := i + 1;
      }
      assert items[..i] == items;
    }

    method WriteMany(w: Writer, items: seq<(Bytes, T)>)
      requires cache.Valid() && w.db == db
      modifies cache, w`batch, db
      ensures cache.Valid()
      ensures Next(layout, old(View(w)), Op.WriteMany(w.direct, items), View(w), Done)
      ensures cache.InsertsAll(old(cache.entries), items, cache.entries)
      ensures !cache.tracked ==> CountStep(cache.maxSize, old(View(w)), Event(Op.WriteMany(w.direct, items), Done), View(w))
    {
      cache.InsertMany(items);
      PutItems(w, items);
      if !cache.tracked { cache.InsertsAllCount(old(cache.entries), items, cache.entries); }
    }

    method WriteManyWithoutCache(w: Writer, items: seq<(Bytes, T)>)
      requires cache.Valid() && w.db == db
      modifies cache, w`batch, db
      ensures cache.Valid()
      ensures Next(layout, old(View(w)), Op.WriteManyWithoutCache(w.direct, items), View(w), Done)
    {
      PutItems(w, items);
      cache.RemoveAll();
    }

    method DeleteBothLayouts(w: Writer, k: Bytes)
      requires w.db == db
      modifies w`batch, db
      ensures Emitted(old(View(w)), View(w), w.direct, DeletesOf(layout, k))
    {
      ghost var s := View(w);
      var legacy := new DbKey.New(layout.prefix, k);
      ApplyOne(s.rows, Delete(legacy.path));
      if layout.suffix.Some? {
        var current := BuildWriteKey(k);
        w.Emit(Delete(current.path));
        ApplyOne(s.rows, Delete(current.path));
        ApplySnoc(s.rows, [Delete(current.path)], Delete(legacy.path));
      }
      w.Emit(Delete(legacy.path));
    }

    method Remove(w: Writer, k: Bytes)
      requires cache.Valid() && w.db == db
      modifies cache, w`batch, db
      ensures cache.Valid()
      ensures Next(layout, old(View(w)), Op.Remove(w.direct, k), View(w), Done)
    {
      var _ := cache.Remove(k);
      DeleteBothLayouts(w, k);
    }

    method DeleteKeys(w: Writer, ks: seq<Bytes>)
      requires w.db == db
      modifies w`batch, db
      ensures Emitted(old(View(w)), View(w), w.direct, Deletes(layout, ks))
    {
      ghost var s := View(w);
      DeletedNone(layout, s, w.direct, ks);
      var i := 0;
      while i < |ks|
        invariant cache.entries == old(cache.entries)
        invariant Deleted(layout, s, View(w), w.direct, ks, i)
      {
        ghost var mid := View(w);
        DeleteBothLayouts(w, ks[i]);
        DeletedNext(layout, s, mid, View(w), w.direct, ks, i);
        i := i + 1;
      }
      DeletedAll(layout, s, View(w), w.direct, ks);
    }

    method RemoveMany(w: Writer, ks: seq<Bytes>)
      requires cache.Valid() && w.db == db
      modifies cache, w`batch, db
      ensures cache.Valid()
      ensures Next(layout, old(View(w)), Op.RemoveMany(w.direct, ks), View(w), Done)
    {
      cache.RemoveMany(ks);
      DeleteKeys(w, ks);
    }

    /** Deletes the whole store by one range; a store prefix must have an upper bound. */
    method RemoveAll(w: Writer)
      requires cache.Valid() && w.db == db && NextPrefix(layout.prefix).Some?
      modifies cache, w`batch, db
      ensures cache.Valid()
      ensures Next(layout, old(View(w)), Op.RemoveAll(w.direct), View(w), Done)
    {
      cache.RemoveAll();
      var from := new DbKey.New(layout.prefix, []);
      assert from.path == layout.prefix;
      var range := DeleteRange(from.path, NextPrefix(from.path).value);
      ApplyOne(db.rows, range);
      w.Emit(range);
    }

    /** `insert` of the owning stores: refuses to write a key that already has a row.
        It keeps whatever map the store stands for, with one row per key. */
    method Insert(w: Writer, k: Bytes, v: T) returns (r: Result<()>)
      requires cache.Valid() && w.db == db
      modifies cache, w`batch, db
      ensures cache.Valid()
      ensures r == if k in old(cache.entries) || old(layout.HasRow(db.rows, k)) then Err(AlreadyExists) else Ok(())
      ensures Next(layout, old(View(w)), Op.Insert(w.direct, k, v), View(w), Inserted(r.Ok?))
      ensures r.Ok? ==> cache.Inserts(old(cache.entries), k, v, cache.entries)
      ensures RoundTrips(layout.codec) && old(Allowed(layout, View(w), Op.Insert(w.direct, k, v))) ==>
                forall d, c | old(Refines(layout, View(w), Maps(d, c))) ::
                  Refines(layout, View(w), if r.Ok? then MapsNext(Maps(d, c), Op.Write(w.direct, k, v)) else Maps(d, c))
    {
      ghost var s := View(w);
      var exists_ := Has(k);
      if exists_ {
        r := Err(AlreadyExists);
      } else {
        Write(w, k, v);
        r := Ok(());
      }
      InsertRefines(s, w, k, v, r.Ok?);
    }

    lemma InsertRefines(s: State<T>, w: Writer, k: Bytes, v: T, ok: bool)
      requires Next(layout, s, Op.Insert(w.direct, k, v), View(w), Inserted(ok))
      ensures RoundTrips(layout.codec) && Allowed(layout, s, Op.Insert(w.direct, k, v)) ==>
                forall g | Refines(layout, s, g) ::
                  Refines(layout, View(w), if ok then MapsNext(g, Op.Write(w.direct, k, v)) else g)
    {
      if RoundTrips(layout.codec) && Allowed(layout, s, Op.Insert(w.direct, k, v)) {
        forall g | Refines(layout, s, g)
          ensures Refines(layout, View(w), if ok then MapsNext(g, Op.Write(w.direct, k, v)) else g)
        {
          StepIsMapStep(layout, s, Event(Op.Insert(w.direct, k, v), Inserted(ok)), View(w), g);
        }
      }
    }
  }
}
