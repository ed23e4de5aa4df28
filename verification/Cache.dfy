/** The bounded in-memory cache with random eviction. */
module Cache {
  import opened Bytes

  datatype CachePolicy<!V> =
    | Empty
    | Count(max: nat)
    | Tracked(maxSize: nat, minItems: nat, size: V -> nat)

  predicate Submap<K(==), V(==)>(a: map<K, V>, b: map<K, V>) {
    forall k | k in a :: k in b && a[k] == b[k]
  }

  /** An insertion with room for `max` entries: the key is there afterwards, and one entry
      goes if the cache was full, none otherwise. */
  ghost predicate CountInsert<K(!new), V>(max: nat, m: map<K, V>, key: K, data: V, m': map<K, V>) {
    if max == 0 then m' == m
    else if |m| < max then m' == m[key := data]
    else exists victim :: victim in m && m' == (m - {victim})[key := data]
  }

  /** Insertions one after the other. */
  ghost predicate CountInserts<K(!new), V(!new)>(max: nat, m: map<K, V>, items: seq<(K, V)>, m': map<K, V>) {
    if items == [] then m' == m
    else
      var n := |items| - 1;
      exists mid :: CountInserts(max, m, items[..n], mid) && CountInsert(max, mid, items[n].0, items[n].1, m')
  }

  /** What was inserted last is there. */
  lemma LastInserted<K(!new), V(!new)>(max: nat, m: map<K, V>, items: seq<(K, V)>, m': map<K, V>)
    requires CountInserts(max, m, items, m') && max > 0 && items != []
    ensures var (k, v) := items[|items| - 1]; k in m' && m'[k] == v
  {
  }

  /** With room for all of them, all insertions stay. */
  lemma {:induction false} AllInserted<K(!new), V(!new)>(max: nat, m: map<K, V>, items: seq<(K, V)>, m': map<K, V>)
    requires CountInserts(max, m, items, m') && |m| + |items| <= max
    ensures m' == Overwrite(m, items) && |m'| <= |m| + |items|
  {
    if items != [] {
      var n := |items| - 1;
      var mid :| CountInserts(max, m, items[..n], mid) && CountInsert(max, mid, items[n].0, items[n].1, m');
      AllInserted(max, m, items[..n], mid);
      assert m'.Keys == mid.Keys + {items[n].0};
    }
  }

  /** Sum of the estimated sizes of all values. */
  ghost function Total<K(!new), V>(m: map<K, V>, size: V -> nat): nat {
    if m == map[] then 0
    else
      var k :| k in m;
      size(m[k]) + Total(m - {k}, size)
  }

  lemma {:induction false} TotalRemove<K(!new), V>(m: map<K, V>, size: V -> nat, k: K)
    requires k in m
    ensures Total(m, size) == size(m[k]) + Total(m - {k}, size)
    decreases |m|
  {
    var j :| j in m && Total(m, size) == size(m[j]) + Total(m - {j}, size);
    if j != k {
      TotalRemove(m - {j}, size, k);
      TotalRemove(m - {k}, size, j);
      assert m - {j} - {k} == m - {k} - {j};
    }
  }

  lemma TotalInsert<K(!new), V>(m: map<K, V>, size: V -> nat, k: K, v: V)
    ensures Total(m[k := v], size) == size(v) + Total(m - {k}, size)
    ensures k !in m ==> m - {k} == m
  {
    TotalRemove(m[k := v], size, k);
    assert m[k := v] - {k} == m - {k};
  }

  lemma {:induction false} SubmapTotal<K(!new), V>(a: map<K, V>, b: map<K, V>, size: V -> nat)
    requires Submap(a, b)
    ensures Total(a, size) <= Total(b, size) && |a| <= |b|
    decreases |a|
  {
    if a != map[] {
      var k :| k in a;
      TotalRemove(a, size, k);
      TotalRemove(b, size, k);
      SubmapTotal(a - {k}, b - {k}, size);
      assert (a - {k}).Keys == a.Keys - {k} && (b - {k}).Keys == b.Keys - {k};
    }
  }

  class Cache<K(==, !new), V(==, !new)> {
    const tracked: bool
    const maxSize: nat
    const minItems: nat
    const size: V -> nat
    var entries: map<K, V>
    var trackedSize: nat

    constructor (policy: CachePolicy<V>)
      ensures Valid() && entries == map[]
      ensures maxSize == (match policy case Empty => 0 case Count(m) => m case Tracked(m, _, _) => m)
      ensures tracked == policy.Tracked?
      ensures policy.Tracked? ==> minItems == policy.minItems && size == policy.size
    {
      match policy {
        case Empty => tracked, maxSize, minItems, size := false, 0, 0, v => 0;
        case Count(m) => tracked, maxSize, minItems, size := false, m, 0, v => 0;
        case Tracked(m, n, s) => tracked, maxSize, minItems, size := true, m, n, s;
      }
      entries := map[];
      trackedSize := 0;
    }

    /** The bound the policy promises. */
    ghost predicate WithinPolicy()
      reads this
    {
      if tracked then trackedSize <= maxSize || |entries| <= minItems
      else |entries| <= maxSize
    }

    ghost predicate Accounted()
      reads this
    {
      trackedSize == if tracked then Total(entries, size) else 0
    }

    ghost predicate Valid()
      reads this
    {
      Accounted() && WithinPolicy() && (maxSize == 0 ==> entries == map[])
    }

    /** An eviction sequence led from `full` to `left`, and its last step was needed. */
    ghost predicate EvictedFrom(full: map<K, V>, left: map<K, V>) {
      && Submap(left, full)
      && (left != full ==>
            exists k :: k in full && k !in left
              && Total(left, size) + size(full[k]) > maxSize && |left| + 1 > minItems)
    }

    /** What fits is not evicted. */
    lemma FittingKept(full: map<K, V>, left: map<K, V>)
      requires EvictedFrom(full, left) && Fits(full)
      ensures left == full
    {
      if left != full {
        var k :| k in full && k !in left && Total(left, size) + size(full[k]) > maxSize && |left| + 1 > minItems;
        TotalRemove(full, size, k);
        assert (full - {k}).Keys == full.Keys - {k};
        SubmapTotal(left, full - {k}, size);
      }
    }

    ghost predicate Fits(m: map<K, V>) {
      Total(m, size) <= maxSize || |m| <= minItems
    }

    /** The new content after inserting one entry, by the policy. */
    ghost predicate Inserts(m: map<K, V>, key: K, data: V, m': map<K, V>) {
      if tracked && maxSize > 0 then EvictedFrom(m[key := data], m') else CountInsert(maxSize, m, key, data, m')
    }

    /** The new content after inserting items one after the other. */
    ghost predicate InsertsAll(m: map<K, V>, items: seq<(K, V)>, m': map<K, V>) {
      if items == [] then m' == m
      else
        var n := |items| - 1;
        exists mid :: InsertsAll(m, items[..n], mid) && Inserts(mid, items[n].0, items[n].1, m')
    }

    lemma InsertsAllSnoc(m: map<K, V>, items: seq<(K, V)>, i: nat, mid: map<K, V>, m': map<K, V>)
      requires i < |items| && InsertsAll(m, items[..i], mid) && Inserts(mid, items[i].0, items[i].1, m')
      ensures InsertsAll(m, items[..i + 1], m')
    {
      assert items[..i + 1][..i] == items[..i];
    }

    lemma {:induction false} EmptyInserts(m: map<K, V>, items: seq<(K, V)>)
      requires maxSize == 0
      ensures InsertsAll(m, items, m)
    {
      if items != [] { EmptyInserts(m, items[..|items| - 1]); }
    }

    lemma {:induction false} InsertsAllCount(m: map<K, V>, items: seq<(K, V)>, m': map<K, V>)
      requires InsertsAll(m, items, m') && !tracked
      ensures CountInserts(maxSize, m, items, m')
    {
      if items != [] {
        var n := |items| - 1;
        var mid :| InsertsAll(m, items[..n], mid) && Inserts(mid, items[n].0, items[n].1, m');
        InsertsAllCount(m, items[..n], mid);
      }
    }

    /** The new content after changing one entry, if it is there. */
    ghost predicate Updates(m: map<K, V>, key: K, data: V, m': map<K, V>) {
      if key !in m then m' == m
      else if tracked then EvictedFrom(m[key := data], m')
      else m' == m[key := data]
    }

    method TrackedEvict()
      requires tracked && Accounted()
      modifies this`entries, this`trackedSize
      ensures Accounted() && WithinPolicy()
      ensures EvictedFrom(old(entries), entries)
    {
      while trackedSize > maxSize && |entries| > minItems
        invariant Accounted() && EvictedFrom(old(entries), entries)
        decreases |entries|
      {
        var k :| k in entries;
        TotalRemove(entries, size, k);
        var v := entries[k];
        entries := entries - {k};
        trackedSize := trackedSize - size(v);
        assert k in old(entries) && k !in entries;
      }
    }

    /** Inserts into a non-empty cache; what remains is a part of the old content
        with the new entry, and the new entry itself always survives in count mode. */
    method InnerInsert(key: K, data: V)
      requires Valid() && maxSize > 0
      modifies this`entries, this`trackedSize
      ensures Valid()
      ensures Submap(entries, old(entries)[key := data])
      ensures Inserts(old(entries), key, data, entries)
    {
      if tracked {
        TotalInsert(entries, size, key, data);
        if key in entries { TotalRemove(entries, size, key); }
        trackedSize := trackedSize + size(data);
        if key in entries {
          var removed := entries[key];
          entries := entries[key := data];
          trackedSize := trackedSize - size(removed);
        } else {
          entries := entries[key := data];
        }
        TrackedEvict();
      } else {
        if |entries| == maxSize {
          var victim :| victim in entries;
          entries := entries - {victim};
        }
        entries := entries[key := data];
      }
    }

    method Insert(key: K, data: V)
      requires Valid()
      modifies this`entries, this`trackedSize
      ensures Valid()
      ensures Submap(entries, old(entries)[key := data])
      ensures Inserts(old(entries), key, data, entries)
    {
      if maxSize != 0 { InnerInsert(key, data); }
    }

    method InsertMany(items: seq<(K, V)>)
      requires Valid()
      modifies this`entries, this`trackedSize
      ensures Valid()
      ensures Submap(entries, Overwrite(old(entries), items))
      ensures InsertsAll(old(entries), items, entries)
    {
      if maxSize == 0 {
        EmptyInserts(entries, items);
        return;
      }
      var i := 0;
      while i < |items|
        invariant 0 <= i <= |items| && Valid()
        invariant Submap(entries, Overwrite(old(entries), items[..i]))
        invariant InsertsAll(old(entries), items[..i], entries)
      {
        ghost var before := entries;
        OverwriteSnoc(old(entries), items, i);
        InnerInsert(items[i].0, items[i].1);
        InsertsAllSnoc(old(entries), items, i, before, entries);
        i := i + 1;
      }
      assert items[..i] == items;
    }

    /** Applies `op` to a cached value in place; an absent key stays absent. */
    method UpdateIfEntryExists(key: K, op: V -> V)
      requires Valid()
      modifies this`entries, this`trackedSize
      ensures Valid()
      ensures key !in old(entries) ==> entries == old(entries)
      ensures key in old(entries) ==> Submap(entries, old(entries)[key := op(old(entries)[key])])
      ensures key in old(entries) ==> Updates(old(entries), key, op(old(entries)[key]), entries)
    {
      if maxSize == 0 { return; }
      if key in entries {
        var data := op(entries[key]);
        if tracked {
          TotalRemove(entries, size, key);
          TotalInsert(entries, size, key, data);
          trackedSize := trackedSize - size(entries[key]);
          entries := entries[key := data];
          trackedSize := trackedSize + size(data);
          TrackedEvict();
        } else {
          entries := entries[key := data];
        }
      }
    }

    method Remove(key: K) returns (r: Option<V>)
      requires Valid()
      modifies this`entries, this`trackedSize
      ensures Valid() && entries == old(entries) - {key}
      ensures r == if key in old(entries) then Some(old(entries)[key]) else None
    {
      if maxSize == 0 { return None; }
      if key in entries {
        r := Some(entries[key]);
        if tracked {
          TotalRemove(entries, size, key);
          trackedSize := trackedSize - size(entries[key]);
        }
        assert entries.Keys - {key} == (entries - {key}).Keys;
        entries := entries - {key};
      } else {
        r := None;
      }
    }

    method RemoveMany(keys: seq<K>)
      requires Valid()
      modifies this`entries, this`trackedSize
      ensures Valid() && entries == old(entries) - (set k | k in keys)
    {
      if maxSize == 0 { return; }
      var i := 0;
      while i < |keys|
        invariant 0 <= i <= |keys| && Valid()
        invariant entries == old(entries) - (set k | k in keys[..i])
      {
        RemoveSnoc(old(entries), keys[..i], keys[i], keys[..i + 1]);
        var _ := Remove(keys[i]);
        i := i + 1;
      }
      assert keys[..i] == keys;
    }

    method RemoveAll()
      requires Valid()
      modifies this`entries, this`trackedSize
      ensures Valid() && entries == map[]
    {
      if maxSize == 0 { return; }
      entries := map[];
      if tracked { trackedSize := 0; }
    }
  }

  lemma RemoveSnoc<K, V>(m: map<K, V>, done: seq<K>, x: K, next: seq<K>)
    requires next == done + [x]
    ensures m - (set k | k in next) == m - (set k | k in done) - {x}
  {
    assert (set k | k in next) == (set k | k in done) + {x};
  }

  lemma OverwriteSnoc<K, V>(m: map<K, V>, items: seq<(K, V)>, i: nat)
    requires i < |items|
    ensures Overwrite(m, items[..i + 1]) == Overwrite(m, items[..i])[items[i].0 := items[i].1]
  {
    assert items[..i + 1][..i] == items[..i];
  }

  /** Later items win, as with one insert after another. */
  function Overwrite<K, V>(m: map<K, V>, items: seq<(K, V)>): map<K, V> {
    if items == [] then m
    else
      var n := |items| - 1;
      Overwrite(m, items[..n])[items[n].0 := items[n].1]
  }
}
