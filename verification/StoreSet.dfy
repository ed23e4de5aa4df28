/** The set stores: uncached bucket access, the cached map of sets, the cached single set. */
module StoreSet {
  import opened Bytes
  import opened Cache
  import opened Codecs
  import opened Database
  import opened DbKeys
  import opened SetModel

  class DbSetAccess<T(==, !new)> {
    const db: Db
    const layout: SetLayout<T>

    constructor (db: Db, layout: SetLayout<T>)
      ensures this.db == db && this.layout == layout
    {
      this.db := db;
      this.layout := layout;
    }

    method GetDbKey(k: Bytes, x: T) returns (key: DbKey)
      ensures fresh(key) && key.path == layout.MemberKey(k, x)
    {
      key := new DbKey.NewWithBucket(layout.prefix, k, layout.encode(x));
    }

    method Add(w: Writer, k: Bytes, x: T)
      requires w.db == db
      modifies w`batch, db
      ensures w.direct ==> db.rows == old(db.rows)[layout.MemberKey(k, x) := []] && w.batch == old(w.batch)
      ensures !w.direct ==> db.rows == old(db.rows) && w.batch == old(w.batch) + [Put(layout.MemberKey(k, x), [])]
      ensures (w.direct ==> old(w.batch) == []) ==> w.Staged() == old(w.Staged())[layout.MemberKey(k, x) := []]
    {
      var key := GetDbKey(k, x);
      w.Emit(Put(key.path, []));
    }

    method Discard(w: Writer, k: Bytes, x: T)
      requires w.db == db
      modifies w`batch, db
      ensures w.direct ==> db.rows == old(db.rows) - {layout.MemberKey(k, x)} && w.batch == old(w.batch)
      ensures !w.direct ==> db.rows == old(db.rows) && w.batch == old(w.batch) + [Delete(layout.MemberKey(k, x))]
      ensures (w.direct ==> old(w.batch) == []) ==> w.Staged() == old(w.Staged()) - {layout.MemberKey(k, x)}
    {
      var key := GetDbKey(k, x);
      w.Emit(Delete(key.path));
    }

    method DeleteBucket(w: Writer, k: Bytes)
      requires w.db == db && NextPrefix(layout.prefix).Some?
      modifies w`batch, db
      ensures NextPrefix(layout.Bucket(k)).Some?
      ensures var range := DeleteRange(layout.Bucket(k), NextPrefix(layout.Bucket(k)).value);
              if w.direct then db.rows == ApplyOp(old(db.rows), range) && w.batch == old(w.batch)
              else db.rows == old(db.rows) && w.batch == old(w.batch) + [range]
    {
      var key := new DbKey.NewWithBucket(layout.prefix, k, []);
      assert key.path == layout.Bucket(k);
      NextPrefixExtends(layout.prefix, k);
      w.Emit(DeleteRange(key.path, NextPrefix(key.path).value));
    }

    /** Collects the bucket's rows, stripping the bucket path from each row key. */
    method CollectBucket(k: Bytes) returns (r: Result<set<T>>)
      ensures r == layout.Collect(db.rows, k)
    {
      var key := new DbKey.NewWithBucket(layout.prefix, k, []);
      ghost var b := layout.Bucket(k);
      assert key.path == b && key.prefixLen == |b|;
      var ks := db.ScanKeys(key.path);
      var members := {};
      var i := 0;
      while i < |ks|
        invariant 0 <= i <= |ks|
        invariant key.path == b && key.prefixLen == |b|
        invariant forall j | 0 <= j < i :: layout.Decodable(k, ks[j]) && layout.decode(ks[j][|b|..]).value in members
        invariant forall x | x in members :: exists j :: 0 <= j < i && layout.decode(ks[j][|b|..]) == Some(x)
      {
        var item := layout.decode(ks[i][key.prefixLen..]);
        if item.None? {
          assert !layout.Decodable(k, ks[i]);
          return Err(DeserializationError);
        }
        members := members + {item.value};
        i := i + 1;
      }
      forall row | row in db.rows && b <= row
        ensures layout.Decodable(k, row) && layout.decode(row[|b|..]).value in members
      {
        assert row in ks;
      }
      assert layout.Collect(db.rows, k).Ok?;
      forall x | x in members ensures x in layout.Collect(db.rows, k).value {
        var j :| 0 <= j < |ks| && layout.decode(ks[j][|b|..]) == Some(x);
        assert ks[j] in db.rows && b <= ks[j] && layout.Decodable(k, ks[j]);
      }
      assert members == layout.Collect(db.rows, k).value;
      r := Ok(members);
    }
  }

  class CachedDbSetAccess<T(==, !new)> {
    const inner: DbSetAccess<T>
    const cache: Cache<Bytes, set<T>>

    constructor (db: Db, policy: CachePolicy<set<T>>, layout: SetLayout<T>)
      ensures inner.db == db && inner.layout == layout && fresh(inner) && fresh(cache)
      ensures cache.Valid() && cache.entries == map[]
    {
      inner := new DbSetAccess<T>(db, layout);
      cache := new Cache<Bytes, set<T>>(policy);
    }

    ghost function View(w: Writer): SetState<T>
      reads inner.db, w, cache
    {
      SetState(inner.db.rows, w.batch, cache.entries)
    }

    method Read(k: Bytes) returns (r: Result<set<T>>)
      requires cache.Valid()
      modifies cache
      ensures cache.Valid()
      ensures SetModel.ReadStep(inner.layout, inner.db.rows, old(cache.entries), k, cache.entries, r)
      ensures k !in old(cache.entries) && r.Ok? ==> cache.Inserts(old(cache.entries), k, r.value, cache.entries)
    {
      if k in cache.entries { return Ok(cache.entries[k]); }
      r := inner.CollectBucket(k);
      if r.Ok? { cache.Insert(k, r.value); }
    }

    method Write(w: Writer, k: Bytes, x: T)
      requires cache.Valid() && w.db == inner.db
      modifies cache, w`batch, inner.db
      ensures cache.Valid()
      ensures SetModel.Next(inner.layout, old(View(w)), SetOp.Add(w.direct, k, x), View(w), None)
      ensures k in old(cache.entries) ==>
                cache.Updates(old(cache.entries), k, old(cache.entries)[k] + {x}, cache.entries)
    {
      cache.UpdateIfEntryExists(k, members => members + {x});
      inner.Add(w, k, x);
    }

    method Remove(w: Writer, k: Bytes, x: T)
      requires cache.Valid() && w.db == inner.db
      modifies cache, w`batch, inner.db
      ensures cache.Valid()
      ensures SetModel.Next(inner.layout, old(View(w)), SetOp.Discard(w.direct, k, x), View(w), None)
      ensures k in old(cache.entries) ==>
                cache.Updates(old(cache.entries), k, old(cache.entries)[k] - {x}, cache.entries)
    {
      cache.UpdateIfEntryExists(k, members => members - {x});
      inner.Discard(w, k, x);
    }

    method DeleteBucket(w: Writer, k: Bytes)
      requires cache.Valid() && w.db == inner.db && NextPrefix(inner.layout.prefix).Some?
      modifies cache, w`batch, inner.db
      ensures cache.Valid()
      ensures SetModel.Next(inner.layout, old(View(w)), SetOp.DeleteBucket(w.direct, k), View(w), None)
    {
      var _ := cache.Remove(k);
      inner.DeleteBucket(w, k);
    }
  }

  // ---- The single cached set ----

  lemma ElementsSnoc<T>(done: seq<T>, y: T, next: seq<T>)
    requires next == done + [y]
    ensures (set x | x in next) == (set x | x in done) + {y}
  {
  }

  function DiscardOps<T>(xs: seq<T>): seq<SetOp<T>> {
    seq(|xs|, i requires 0 <= i < |xs| => SetOp.Discard(true, [], xs[i]))
  }

  function AddOps<T>(xs: seq<T>): seq<SetOp<T>> {
    seq(|xs|, i requires 0 <= i < |xs| => SetOp.Add(true, [], xs[i]))
  }

  function ApplyAll<T>(l: SetLayout<T>, rows: Rows, ops: seq<SetOp<T>>): Rows
    requires forall i | 0 <= i < |ops| :: ops[i].Add? || ops[i].Discard?
  {
    if ops == [] then rows
    else ApplyOp(ApplyAll(l, rows, ops[..|ops| - 1]), WriteOf(l, ops[|ops| - 1]))
  }

  function FoldAll<T>(m: map<Bytes, set<T>>, ops: seq<SetOp<T>>): map<Bytes, set<T>> {
    if ops == [] then m else SetModel.MapNext(FoldAll(m, ops[..|ops| - 1]), ops[|ops| - 1])
  }

  lemma {:induction false} AllRepresent<T(!new)>(l: SetLayout<T>, rows: Rows, ops: seq<SetOp<T>>, m: map<Bytes, set<T>>)
    requires SetModel.RoundTrips(l) && l.keyLen == 0 && SetModel.Represents(l, rows, m)
    requires forall i | 0 <= i < |ops| :: (ops[i].Add? || ops[i].Discard?) && ops[i].k == []
    ensures SetModel.Represents(l, ApplyAll(l, rows, ops), FoldAll(m, ops))
  {
    if ops != [] {
      var n := |ops| - 1;
      AllRepresent(l, rows, ops[..n], m);
      forall j | l.ValidKey(j) ensures SetModel.RepresentsAt(l, ApplyAll(l, rows, ops), FoldAll(m, ops), j) {
        assert SetModel.RepresentsAt(l, ApplyAll(l, rows, ops[..n]), FoldAll(m, ops[..n]), j);
        WriteAt(l, ApplyAll(l, rows, ops[..n]), ops[n], FoldAll(m, ops[..n]), j);
      }
    }
  }

  lemma {:induction false} DiscardMeaning<T>(m: map<Bytes, set<T>>, xs: seq<T>)
    ensures Get(FoldAll(m, DiscardOps(xs)), []) == Get(m, []) - (set x | x in xs)
  {
    if xs != [] {
      var n := |xs| - 1;
      assert DiscardOps(xs)[..n] == DiscardOps(xs[..n]);
      assert xs == xs[..n] + [xs[n]];
      DiscardMeaning(m, xs[..n]);
    }
  }

  lemma {:induction false} AddMeaning<T>(m: map<Bytes, set<T>>, xs: seq<T>)
    ensures Get(FoldAll(m, AddOps(xs)), []) == Get(m, []) + (set x | x in xs)
  {
    if xs != [] {
      var n := |xs| - 1;
      assert AddOps(xs)[..n] == AddOps(xs[..n]);
      assert xs == xs[..n] + [xs[n]];
      AddMeaning(m, xs[..n]);
    }
  }

  /** Removals first, then additions: an item that is in both ends up in the set. */
  lemma UpdateRepresents<T(!new)>(l: SetLayout<T>, rows: Rows, members: set<T>, added: seq<T>, removed: seq<T>)
    requires SetModel.RoundTrips(l) && l.keyLen == 0 && SetModel.Represents(l, rows, map[[] := members])
    ensures SetModel.Represents(l, ApplyAll(l, ApplyAll(l, rows, DiscardOps(removed)), AddOps(added)),
                                map[[] := (members - (set x | x in removed)) + (set x | x in added)])
  {
    var m, m' := map[[] := members], map[[] := (members - (set x | x in removed)) + (set x | x in added)];
    var mid := FoldAll(m, DiscardOps(removed));
    var end := FoldAll(mid, AddOps(added));
    var rows1 := ApplyAll(l, rows, DiscardOps(removed));
    var rows2 := ApplyAll(l, rows1, AddOps(added));
    AllRepresent(l, rows, DiscardOps(removed), m);
    AllRepresent(l, rows1, AddOps(added), mid);
    DiscardMeaning(m, removed);
    AddMeaning(mid, added);
    forall j | l.ValidKey(j) ensures SetModel.RepresentsAt(l, rows2, m', j) {
      assert j == [];
      assert SetModel.RepresentsAt(l, rows2, end, j);
      KeptAt(l, rows2, rows2, end, m', j);
    }
  }

  class CachedDbSetItem<T(==, !new)> {
    const access: DbSetAccess<T>
    var cachedSet: Option<set<T>>

    constructor (db: Db, layout: SetLayout<T>)
      ensures access.db == db && access.layout == layout && cachedSet == None
    {
      access := new DbSetAccess<T>(db, layout);
      cachedSet := None;
    }

    /** What a read answers. */
    ghost function Content(): Result<set<T>>
      reads this, access.db
    {
      if cachedSet.Some? then Ok(cachedSet.value) else access.layout.Collect(access.db.rows, [])
    }

    method Read() returns (r: Result<set<T>>)
      modifies this`cachedSet
      ensures r == old(Content())
      ensures cachedSet == if r.Ok? then Some(r.value) else old(cachedSet)
    {
      if cachedSet.Some? { return Ok(cachedSet.value); }
      r := access.CollectBucket([]);
      if r.Ok? { cachedSet := Some(r.value); }
    }

    /** The new content is the old one without the removed and with the added items,
        in the cache and, if the staged rows stood for the old content, in them too. */
    method Update(w: Writer, added: seq<T>, removed: seq<T>) returns (r: Result<set<T>>)
      requires w.db == access.db && (w.direct ==> w.batch == [])
      modifies this`cachedSet, w`batch, access.db
      ensures old(Content()).Err? ==> r == old(Content()) && w.Staged() == old(w.Staged()) && cachedSet == None
      ensures w.direct ==> w.batch == []
      ensures !w.direct ==> access.db.rows == old(access.db.rows) && old(w.batch) <= w.batch
      ensures old(Content()).Ok? ==>
                w.Staged() == ApplyAll(access.layout, ApplyAll(access.layout, old(w.Staged()), DiscardOps(removed)), AddOps(added))
      ensures old(Content()).Ok? ==>
                && r == Ok((old(Content()).value - (set x | x in removed)) + (set x | x in added))
                && cachedSet == Some(r.value)
      ensures (&& SetModel.RoundTrips(access.layout) && access.layout.keyLen == 0 && old(Content()).Ok?
               && SetModel.Represents(access.layout, old(w.Staged()), map[[] := old(Content()).value]))
              ==> SetModel.Represents(access.layout, w.Staged(), map[[] := r.value])
    {
      var current := Read();
      if current.Err? { return current; }
      ghost var rows := w.Staged();
      var members := DiscardAll(w, current.value, removed);
      members := AddAll(w, members, added);
      cachedSet := Some(members);
      r := Ok(members);
      if && SetModel.RoundTrips(access.layout) && access.layout.keyLen == 0
         && SetModel.Represents(access.layout, rows, map[[] := current.value])
      {
        UpdateRepresents(access.layout, rows, current.value, added, removed);
      }
    }

    method DiscardAll(w: Writer, start: set<T>, xs: seq<T>) returns (members: set<T>)
      requires w.db == access.db && (w.direct ==> w.batch == [])
      modifies w`batch, access.db
      ensures w.direct ==> w.batch == []
      ensures !w.direct ==> access.db.rows == old(access.db.rows) && old(w.batch) <= w.batch
      ensures w.Staged() == ApplyAll(access.layout, old(w.Staged()), DiscardOps(xs))
      ensures members == start - (set x | x in xs)
    {
      members := start;
      var i := 0;
      while i < |xs|
        invariant 0 <= i <= |xs| && (w.direct ==> w.batch == [])
        invariant !w.direct ==> access.db.rows == old(access.db.rows) && old(w.batch) <= w.batch
        invariant w.Staged() == ApplyAll(access.layout, old(w.Staged()), DiscardOps(xs[..i]))
        invariant members == start - (set x | x in xs[..i])
      {
        assert DiscardOps(xs[..i + 1])[..i] == DiscardOps(xs[..i]);
        access.Discard(w, [], xs[i]);
        members := members - {xs[i]};
        ElementsSnoc(xs[..i], xs[i], xs[..i + 1]);
        i := i + 1;
      }
      assert xs[..i] == xs;
    }

    method AddAll(w: Writer, start: set<T>, xs: seq<T>) returns (members: set<T>)
      requires w.db == access.db && (w.direct ==> w.batch == [])
      modifies w`batch, access.db
      ensures w.direct ==> w.batch == []
      ensures !w.direct ==> access.db.rows == old(access.db.rows) && old(w.batch) <= w.batch
      ensures w.Staged() == ApplyAll(access.layout, old(w.Staged()), AddOps(xs))
      ensures members == start + (set x | x in xs)
    {
      members := start;
      var i := 0;
      while i < |xs|
        invariant 0 <= i <= |xs| && (w.direct ==> w.batch == [])
        invariant !w.direct ==> access.db.rows == old(access.db.rows) && old(w.batch) <= w.batch
        invariant w.Staged() == ApplyAll(access.layout, old(w.Staged()), AddOps(xs[..i]))
        invariant members == start + (set x | x in xs[..i])
      {
        assert AddOps(xs[..i + 1])[..i] == AddOps(xs[..i]);
        access.Add(w, [], xs[i]);
        members := members + {xs[i]};
        ElementsSnoc(xs[..i], xs[i], xs[..i + 1]);
        i := i + 1;
      }
      assert xs[..i] == xs;
    }
  }
}
