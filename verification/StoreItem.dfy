/** The cached item itself: each call performs one step of the item's state machine. */
module StoreItem {
  import opened Bytes
  import opened Codecs
  import opened Database
  import opened ItemModel

  class CachedDbItem<T(==, !new)> {
    const db: Db
    const place: Place<T>
    var cachedItem: Option<T>

    constructor New(db: Db, key: Bytes, codec: Codec<T>)
      ensures this.db == db && place == Place(key, None, codec) && cachedItem == None
    {
      this.db := db;
      place := Place(key, None, codec);
      cachedItem := None;
    }

    constructor NewWithVersionSuffix(db: Db, keyPrefix: Bytes, current: Byte, legacySuffix: Option<Byte>, codec: Codec<T>)
      ensures this.db == db && cachedItem == None && place.codec == codec
      ensures place.live == keyPrefix + [current]
      ensures place.legacy == Some(if legacySuffix.Some? then keyPrefix + [legacySuffix.value] else keyPrefix)
    {
      var legacyKey := keyPrefix;
      match legacySuffix {
        case None =>
        case Some(v) => legacyKey := keyPrefix + [v];
      }
      this.db := db;
      place := Place(keyPrefix + [current], Some(legacyKey), codec);
      cachedItem := None;
    }

    ghost function View(w: Writer): ItemState<T>
      reads db, w, this
    {
      ItemState(db.rows, w.batch, cachedItem)
    }

    method Read() returns (r: Result<T>)
      modifies this`cachedItem, db
      ensures ReadStep(place, old(db.rows), old(cachedItem), db.rows, cachedItem, r)
    {
      if cachedItem.Some? { return Ok(cachedItem.value); }
      var row := db.Get(place.live);
      if row.Some? {
        r := Decoded(place.codec.decode(row.value));
        if r.Ok? { cachedItem := Some(r.value); }
        return;
      }
      if place.legacy.Some? {
        var old_ := db.Get(place.legacy.value);
        if old_.Some? {
          r := Decoded(place.codec.decodeLegacy(old_.value));
          if r.Ok? {
            db.rows := db.rows[place.live := place.codec.encode(r.value)];
            db.rows := db.rows - {place.legacy.value};
            cachedItem := Some(r.value);
          }
          return;
        }
      }
      r := Err(KeyNotFound);
    }

    method Write(w: Writer, x: T)
      requires w.db == db
      modifies this`cachedItem, w`batch, db
      ensures Next(place, old(View(w)), ItemOp.Write(w.direct, x), View(w), Ok(x))
    {
      cachedItem := Some(x);
      var put := Put(place.live, place.codec.encode(x));
      ApplyOne(db.rows, put);
      w.Emit(put);
    }

    method Remove(w: Writer)
      requires w.db == db
      modifies this`cachedItem, w`batch, db
      ensures Next(place, old(View(w)), ItemOp.Remove(w.direct), View(w), Err(KeyNotFound))
    {
      DeletesApply(place, db.rows);
      cachedItem := None;
      w.Emit(Delete(place.live));
      if place.legacy.Some? {
        w.Emit(Delete(place.legacy.value));
        assert old(w.batch) + [Delete(place.live)] + [Delete(place.legacy.value)] == old(w.batch) + place.Deletes();
      } else {
        assert place.Deletes() == [Delete(place.live)];
      }
    }

    method Update(w: Writer, f: T -> T) returns (r: Result<T>)
      requires w.db == db
      modifies this`cachedItem, w`batch, db
      ensures Next(place, old(View(w)), ItemOp.Update(w.direct, f), View(w), r)
    {
      var found := cachedItem;
      var error := KeyNotFound;
      cachedItem := None;
      if found.None? {
        var row := db.Get(place.live);
        if row.Some? {
          found := place.codec.decode(row.value);
          error := DeserializationError;
        } else if place.legacy.Some? {
          row := db.Get(place.legacy.value);
          if row.Some? {
            found := place.codec.decodeLegacy(row.value);
            error := DeserializationError;
          }
        }
      }
      if found.None? { return Err(error); }
      var item := f(found.value);
      cachedItem := Some(item);
      var put := Put(place.live, place.codec.encode(item));
      ApplyOne(db.rows, put);
      w.Emit(put);
      r := Ok(item);
    }
  }
}
