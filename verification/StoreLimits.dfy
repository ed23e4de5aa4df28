/** Where the store's guarantees end: exact conditions for the two calls that
    callers must not make, with a concrete run for each. */
module StoreLimits {
  import opened Bytes
  import opened Codecs
  import opened Database
  import opened StoreModel
  import opened StoreRuns

  /** An unguarded write over a legacy row: the legacy row still sorts first, so the
      written value can be read back exactly when there is no legacy row to shadow
      it or the legacy row converts to that very value. */
  lemma UnguardedWriteReadBack<T(!new)>(l: Layout<T>, rows: Rows, k: Bytes, v: T)
    requires RoundTrips(l.codec) && l.suffix.Some? && l.OneRow(rows, k)
    ensures l.Lookup(rows[l.WriteKey(k) := l.codec.encode(v)], k) == Ok(v)
            <==> l.RowKey(k) !in rows || l.codec.decodeLegacy(rows[l.RowKey(k)]) == Some(v)
  {
    LookupLegacyFirst(l, rows[l.WriteKey(k) := l.codec.encode(v)], k);
  }

  /** A cache-filling read while writes are staged, in either layout: the filled entry
      agrees with what the commit will store exactly when the batch leaves alone the legacy
      row that was read, or leaves a current row with the value that was read. */
  lemma StagedReadExact<T>(l: Layout<T>, s: State<T>, k: Bytes, v: T)
    requires Inv(l, s) && l.ValidKey(k) && k !in s.cache && KnownRows(l, s.rows, k) && l.Lookup(s.rows, k) == Ok(v)
    ensures Coherent(l, Overlay(s), s.cache[k := v]) <==> ValueLeft(l, s, k, v)
  {
    FillCoherent(l, s, k, v);
    StagedValue(l, s, k, v);
  }

  /** A direct write of a row that is staged: what was just written is what the commit leaves
      exactly when the batch does not touch that row or ends with putting the same value. */
  lemma DirectOverStagedExact<T(!new)>(l: Layout<T>, s: State<T>, s': State<T>, k: Bytes, v: T)
    requires RoundTrips(l.codec) && Inv(l, s) && l.ValidKey(k) && l.Writable(s.rows, k)
    requires Next(l, s, Write(true, k, v), s', Done)
    ensures l.Lookup(Overlay(s'), k) == Ok(v) <==>
            match LastTouch(s.batch, l.WriteKey(k))
            case None => true
            case Some(Put(_, data)) => l.codec.decode(data) == Some(v)
            case Some(_) => false
  {
    var put := Put(l.WriteKey(k), l.codec.encode(v));
    assert Puts(l, [(k, v)]) == [put];
    ApplyOne(s.rows, put);
    WriteKeyRelevant(l, k);
    StagedRows(l, s', k);
    LookupLegacyFirst(l, Overlay(s'), k);
    LastTouchDecides(s'.rows, s.batch, l.WriteKey(k));
  }

  /** The guard of an insert over staged writes: its answer is the map's if and only if the
      key is cached or the batch changes nothing about whether the key has a row. */
  lemma InsertAnswerExact<T(!new)>(l: Layout<T>, s: State<T>, op: Op<T>, s': State<T>, r: Response<T>, g: Maps<T>)
    requires RoundTrips(l.codec) && Refines(l, s, g) && op.Insert? && Step(l, s, Event(op, r), s')
    ensures r == MapResponse(g.current, op) <==>
            op.k in s.cache || ((l.WriteKey(op.k) in s.rows || l.RowKey(op.k) in s.rows) <==>
                                CurrentLeft(l, s, op.k) || LegacyLeft(l, s, op.k))
  {
    QueryExact(l, s, op, s', r, g);
    RefinesKnown(l, s, g, op.k);
    if Unstaged(l, s, op.k) { UnstagedKeeps(l, s, op.k); }
  }

  /** A staged insert that goes through and is evicted from the cache at once. */
  lemma EvictedInsert<T(!new)>(l: Layout<T>, s: State<T>, k: Bytes, v: T) returns (s': State<T>)
    requires RoundTrips(l.codec) && l.ValidKey(k) && s.rows == map[] && s.cache == map[] && l.Writable(Overlay(s), k)
    ensures Step(l, s, Event(Insert(false, k, v), Inserted(true)), s')
    ensures s'.rows == map[] && s'.cache == map[]
    ensures l.Writable(Overlay(s'), k) && l.Lookup(Overlay(s'), k) == Ok(v)
  {
    s' := State(map[], s.batch + Puts(l, [(k, v)]), map[]);
    LookupNoRow(l, s.rows, k);
    ApplyConcat(s.rows, s.batch, Puts(l, [(k, v)]));
    PutOne(l, Overlay(s), k, v);
  }

  /** In every store: insert a key in a batch, let the cache evict it, insert it again, and the
      second insert goes through although the store has the key. */
  lemma StagedInsertRepeats<T(!new)>(l: Layout<T>, k: Bytes, v: T, w: T)
    returns (s0: State<T>, s1: State<T>, s2: State<T>)
    requires RoundTrips(l.codec) && l.ValidKey(k)
    ensures s0 == State(map[], [], map[])
    ensures Step(l, s0, Event(Insert(false, k, v), Inserted(true)), s1) && l.Lookup(Overlay(s1), k) == Ok(v)
    ensures Step(l, s1, Event(Insert(false, k, w), Inserted(true)), s2) && l.Lookup(Overlay(s2), k) == Ok(w)
  {
    s0 := State(map[], [], map[]);
    s1 := EvictedInsert(l, s0, k, v);
    s2 := EvictedInsert(l, s1, k, w);
  }

  lemma PutOne<T(!new)>(l: Layout<T>, rows: Rows, k: Bytes, v: T)
    requires RoundTrips(l.codec) && l.ValidKey(k) && l.Writable(rows, k)
    ensures var after := Apply(rows, Puts(l, [(k, v)])); l.Writable(after, k) && l.Lookup(after, k) == Ok(v)
  {
    var put := PutOf(l, (k, v));
    assert Puts(l, [(k, v)]) == [put];
    ApplyOne(rows, put);
    LookupAfterPut(l, rows, k, v);
  }

  /** One-byte values; a legacy byte converts to its successor. */
  const BYTE_CODEC: Codec<Byte> :=
    Codec((x: Byte) => [x],
          (b: Bytes) => if |b| == 1 then Some(b[0]) else None,
          (b: Bytes) => if |b| == 1 && b[0] < 255 then Some(b[0] + 1) else None)

  lemma ByteCodecRoundTrips()
    ensures RoundTrips(BYTE_CODEC)
  {
    forall x: Byte ensures BYTE_CODEC.decode(BYTE_CODEC.encode(x)) == Some(x) {
    }
  }

  /** In every store: delete a key in a batch, read it before the commit, commit, and the
      cache still answers with the deleted value, the database no longer has it. */
  lemma StagedReadGoesStale<T(!new)>(l: Layout<T>, k: Bytes, v: T)
    returns (s0: State<T>, s1: State<T>, s2: State<T>, s3: State<T>)
    requires RoundTrips(l.codec) && l.ValidKey(k)
    ensures Inv(l, s0) && s0.batch == [] && l.Lookup(s0.rows, k) == Ok(v)
    ensures Next(l, s0, Remove(false, k), s1, Done)
    ensures Next(l, s1, Read(k), s2, Data(Ok(v)))
    ensures Next(l, s2, Commit, s3, Done)
    ensures Next(l, s3, Read(k), s3, Data(Ok(v)))
    ensures l.Lookup(s3.rows, k) == Err(KeyNotFound)
  {
    var rows: Rows := map[l.WriteKey(k) := l.codec.encode(v)];
    WriteKeyRelevant(l, k);
    assert l.WriteKey(k) == l.RowKey(k) <==> l.suffix.None?;
    LookupOneRow(l, rows, k);
    DeletesOfApply(l, rows, k);
    assert rows - {l.WriteKey(k), l.RowKey(k)} == map[];
    s0 := State(rows, [], map[]);
    s1 := State(rows, DeletesOf(l, k), map[]);
    s2 := State(rows, DeletesOf(l, k), map[k := v]);
    s3 := State(map[], [], map[k := v]);
    assert s0.batch + DeletesOf(l, k) == DeletesOf(l, k);
    LookupNoRow(l, map[], k);
  }

  /** A write that skips the `has` guard over a legacy row: the cache answers with
      the written value, a fresh process reads the converted legacy value. */
  lemma UnguardedWriteDisagrees() returns (s: State<Byte>, s': State<Byte>, l: Layout<Byte>)
    ensures RoundTrips(l.codec) && Inv(l, s) && s.batch == []
    ensures Next(l, s, Write(true, [7], 5), s', Done)
    ensures Next(l, s', Read([7]), s', Data(Ok(5)))
    ensures l.Lookup(s'.rows, [7]) == Ok(10)
  {
    ByteCodecRoundTrips();
    l := Layout([42], Some(1), 1, BYTE_CODEC);
    var rows: Rows := map[[42, 7] := [9]];
    assert l.RowKey([7]) == [42, 7] && l.WriteKey([7]) == [42, 7, 1];
    s := State(rows, [], map[]);
    s' := State(rows[[42, 7, 1] := [5]], [], map[[7] := 5]);
    assert Puts(l, [([7], 5)]) == [Put([42, 7, 1], [5])];
    ApplyOne(rows, Put([42, 7, 1], [5]));
    var p := [42, 7];
    assert IsFirst(s'.rows, p, p) by {
      forall j | j in s'.rows && p <= j ensures !Less(j, p) { ExtensionNotLess(p, j); }
    }
    FirstUnique(s'.rows, p, p, FirstRow(s'.rows, p).value);
  }
}
