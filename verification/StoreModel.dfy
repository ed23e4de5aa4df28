/** What a typed store means on disk, the steps of the cached store, and what each step
    does to the cache, the staged view and the map that the rows stand for. */
module StoreModel {
  import opened Bytes
  import opened Cache
  import opened Codecs
  import opened Database

  /** A store's place in the database.  With a version suffix, logical keys have one fixed length. */
  datatype Layout<!T> = Layout(prefix: Bytes, suffix: Option<Byte>, keyLen: nat, codec: Codec<T>)
  {
    predicate ValidKey(k: Bytes) {
      suffix.Some? ==> |k| == keyLen
    }

    function RowKey(k: Bytes): Bytes {
      prefix + k
    }

    function WriteKey(k: Bytes): Bytes {
      match suffix
      case None => prefix + k
      case Some(v) => prefix + k + [v]
    }

    /** The rows that a lookup of `k` may read. */
    predicate Relevant(k: Bytes, row: Bytes) {
      if suffix.None? then row == RowKey(k) else RowKey(k) <= row
    }

    ghost predicate HasRow(rows: Rows, k: Bytes) {
      if suffix.None? then RowKey(k) in rows else FirstRow(rows, RowKey(k)).Some?
    }

    /** The answer of an uncached read. */
    ghost function Lookup(rows: Rows, k: Bytes): Result<T> {
      var p := RowKey(k);
      match suffix
      case None => if p in rows then Decoded(codec.decode(rows[p])) else Err(KeyNotFound)
      case Some(v) =>
        match FirstRow(rows, p)
        case None => Err(KeyNotFound)
        case Some(found) =>
          if |found| == |p| then Decoded(codec.decodeLegacy(rows[found]))
          else if |found| == |p| + 1 && found[|p|] == v then Decoded(codec.decode(rows[found]))
          else Err(DataInconsistency)
    }

    ghost predicate SameFor(a: Rows, b: Rows, k: Bytes) {
      forall row | Relevant(k, row) :: SameAt(a, b, row)
    }

    /** Nothing but a current row can be found for `k`. */
    ghost predicate Writable(rows: Rows, k: Bytes) {
      forall row | row in rows && Relevant(k, row) :: row == WriteKey(k)
    }

    /** At most one row for `k`, in one of the two known places. */
    ghost predicate OneRow(rows: Rows, k: Bytes) {
      && (forall row | row in rows && Relevant(k, row) :: row == WriteKey(k) || row == RowKey(k))
      && (suffix.Some? ==> !(WriteKey(k) in rows && RowKey(k) in rows))
    }
  }

  // ---- Lookups ----

  lemma LookupSame<T>(l: Layout<T>, a: Rows, b: Rows, k: Bytes)
    requires l.SameFor(a, b, k)
    ensures l.Lookup(a, k) == l.Lookup(b, k) && l.HasRow(a, k) == l.HasRow(b, k)
  {
    assert l.Relevant(k, l.RowKey(k));
    assert SameAt(a, b, l.RowKey(k));
    if l.suffix.Some? {
      assert SameUnder(l.RowKey(k), a, b) by {
        forall row: Bytes | l.RowKey(k) <= row ensures SameAt(a, b, row) { assert l.Relevant(k, row); }
      }
      FirstRowSame(l.RowKey(k), a, b);
      if FirstRow(a, l.RowKey(k)).Some? {
        assert SameAt(a, b, FirstRow(a, l.RowKey(k)).value);
      }
    }
  }

  lemma LookupNoRow<T>(l: Layout<T>, rows: Rows, k: Bytes)
    requires forall row | row in rows :: !l.Relevant(k, row)
    ensures l.Lookup(rows, k) == Err(KeyNotFound) && !l.HasRow(rows, k)
  {
    assert l.Relevant(k, l.RowKey(k));
    if l.suffix.Some? && FirstRow(rows, l.RowKey(k)).Some? {
      assert l.Relevant(k, FirstRow(rows, l.RowKey(k)).value);
    }
  }

  /** The two layouts, dispatched on the row that is there. */
  lemma LookupOneRow<T>(l: Layout<T>, rows: Rows, k: Bytes)
    requires l.OneRow(rows, k)
    ensures l.Lookup(rows, k) ==
            if l.WriteKey(k) in rows then Decoded(l.codec.decode(rows[l.WriteKey(k)]))
            else if l.RowKey(k) in rows then Decoded(l.codec.decodeLegacy(rows[l.RowKey(k)]))
            else Err(KeyNotFound)
    ensures l.HasRow(rows, k) <==> l.WriteKey(k) in rows || l.RowKey(k) in rows
  {
    if l.suffix.Some? {
      var p := l.RowKey(k);
      assert l.Relevant(k, p) && l.Relevant(k, l.WriteKey(k));
      var f := FirstRow(rows, p);
      if f.Some? {
        assert l.Relevant(k, f.value);
      }
    }
  }

  /** No row but the two known ones can be found for `k`. */
  ghost predicate KnownRows<T>(l: Layout<T>, rows: Rows, k: Bytes) {
    forall row | row in rows && l.Relevant(k, row) :: row == l.WriteKey(k) || row == l.RowKey(k)
  }

  /** Of two rows the legacy one sorts first. */
  lemma LookupLegacyFirst<T>(l: Layout<T>, rows: Rows, k: Bytes)
    requires KnownRows(l, rows, k)
    ensures l.Lookup(rows, k) ==
            if l.suffix.Some? && l.RowKey(k) in rows then Decoded(l.codec.decodeLegacy(rows[l.RowKey(k)]))
            else if l.WriteKey(k) in rows then Decoded(l.codec.decode(rows[l.WriteKey(k)]))
            else Err(KeyNotFound)
    ensures l.HasRow(rows, k) <==> l.WriteKey(k) in rows || l.RowKey(k) in rows
  {
    var p := l.RowKey(k);
    assert l.Relevant(k, p) && l.Relevant(k, l.WriteKey(k));
    if l.suffix.Some? && p in rows {
      assert IsFirst(rows, p, p) by {
        LessIrreflexive(p);
        forall j | j in rows && p <= j ensures !Less(j, p) { ExtensionNotLess(p, j); }
      }
      FirstUnique(rows, p, p, FirstRow(rows, p).value);
    } else {
      LookupOneRow(l, rows, k);
    }
  }

  /** A versioned lookup finds an inconsistency if and only if there is no legacy row and some
      other row extends the key and sorts before the current one. */
  lemma InconsistentExact<T>(l: Layout<T>, rows: Rows, k: Bytes)
    requires l.suffix.Some?
    ensures l.Lookup(rows, k) == Err(DataInconsistency) <==>
            && l.RowKey(k) !in rows
            && exists row :: row in rows && l.RowKey(k) <= row && row != l.WriteKey(k)
                             && (l.WriteKey(k) in rows ==> Less(row, l.WriteKey(k)))
  {
    var p, w := l.RowKey(k), l.WriteKey(k);
    var f := FirstRow(rows, p);
    if f.Some? {
      var found := f.value;
      assert |found| == |p| <==> found == p;
      assert |found| == |p| + 1 && found[|p|] == l.suffix.value <==> found == w;
      if found != p && found != w {
        if p in rows { FirstBefore(rows, p, p); }
        if w in rows { FirstBefore(rows, p, w); }
      }
    }
  }

  lemma FirstBefore(rows: Rows, p: Bytes, row: Bytes)
    requires row in rows && p <= row
    ensures FirstRow(rows, p).Some? && (FirstRow(rows, p).value == row || Less(FirstRow(rows, p).value, row))
    ensures p in rows ==> FirstRow(rows, p).value == p
  {
    var f := FirstRow(rows, p).value;
    LessTotal(f, row);
    if p in rows {
      LessTotal(f, p);
      ExtensionNotLess(p, f);
    }
  }

  lemma LookupAfterPut<T(!new)>(l: Layout<T>, rows: Rows, k: Bytes, v: T)
    requires RoundTrips(l.codec) && l.Writable(rows, k)
    ensures l.Lookup(rows[l.WriteKey(k) := l.codec.encode(v)], k) == Ok(v)
    ensures l.Writable(rows[l.WriteKey(k) := l.codec.encode(v)], k)
  {
    var after := rows[l.WriteKey(k) := l.codec.encode(v)];
    assert l.OneRow(after, k) by {
      if l.suffix.Some? {
        assert l.Relevant(k, l.RowKey(k)) && l.RowKey(k) != l.WriteKey(k);
      }
    }
    LookupOneRow(l, after, k);
  }

  // ---- Keys do not interfere ----

  lemma RelevantDisjoint<T>(l: Layout<T>, j: Bytes, k: Bytes, row: Bytes)
    requires l.ValidKey(j) && l.ValidKey(k) && l.Relevant(j, row) && l.Relevant(k, row)
    ensures j == k
  {
    if l.suffix.Some? {
      SameLengthPrefixes(l.RowKey(j), l.RowKey(k), row);
    }
    assert l.RowKey(j)[|l.prefix|..] == j && l.RowKey(k)[|l.prefix|..] == k;
  }

  lemma WriteKeyRelevant<T>(l: Layout<T>, k: Bytes)
    ensures l.Relevant(k, l.WriteKey(k)) && l.Relevant(k, l.RowKey(k))
    ensures l.prefix <= l.WriteKey(k) && l.prefix <= l.RowKey(k)
  {
  }

  lemma RelevantHasPrefix<T>(l: Layout<T>, k: Bytes, row: Bytes)
    requires l.Relevant(k, row)
    ensures l.prefix <= row
  {
    assert l.prefix <= l.RowKey(k);
  }

  // ---- The cached store as a state machine ----

  datatype State<!T> = State(rows: Rows, batch: seq<WriteOp>, cache: map<Bytes, T>)

  /** What the database holds once the batch is committed. */
  function Overlay<T>(s: State<T>): Rows {
    Apply(s.rows, s.batch)
  }

  datatype Op<!T> =
    | Has(k: Bytes)
    | Read(k: Bytes)
    | Insert(direct: bool, k: Bytes, v: T) // a write guarded by `has`
    | Write(direct: bool, k: Bytes, v: T)
    | WriteMany(direct: bool, items: seq<(Bytes, T)>)
    | WriteManyWithoutCache(direct: bool, items: seq<(Bytes, T)>)
    | Remove(direct: bool, k: Bytes)
    | RemoveMany(direct: bool, ks: seq<Bytes>)
    | RemoveAll(direct: bool)
    | Commit
    | Crash                              // the batch and the cache are lost
    | Foreign(direct: bool, op: WriteOp) // another store of the same database

  datatype Response<+T> = Done | Answer(b: bool) | Inserted(b: bool) | Data(r: Result<T>)

  function PutOf<T>(l: Layout<T>, item: (Bytes, T)): WriteOp {
    Put(l.WriteKey(item.0), l.codec.encode(item.1))
  }

  function Puts<T>(l: Layout<T>, items: seq<(Bytes, T)>): seq<WriteOp> {
    seq(|items|, i requires 0 <= i < |items| => PutOf(l, items[i]))
  }

  lemma PutsSnoc<T>(l: Layout<T>, items: seq<(Bytes, T)>, i: nat)
    requires i < |items|
    ensures Puts(l, items[..i + 1]) == Puts(l, items[..i]) + Puts(l, [items[i]])
  {
  }

  /** Both layouts of a versioned row are deleted. */
  function DeletesOf<T>(l: Layout<T>, k: Bytes): seq<WriteOp> {
    (if l.suffix.Some? then [Delete(l.WriteKey(k))] else []) + [Delete(l.RowKey(k))]
  }

  function Deletes<T>(l: Layout<T>, ks: seq<Bytes>): seq<WriteOp> {
    if ks == [] then []
    else Deletes(l, ks[..|ks| - 1]) + DeletesOf(l, ks[|ks| - 1])
  }

  lemma DeletesSnoc<T>(l: Layout<T>, ks: seq<Bytes>, i: nat)
    requires i < |ks|
    ensures Deletes(l, ks[..i + 1]) == Deletes(l, ks[..i]) + DeletesOf(l, ks[i])
  {
    assert ks[..i + 1][..i] == ks[..i];
  }

  function Writes<T>(l: Layout<T>, op: Op<T>): seq<WriteOp>
    requires op.RemoveAll? ==> NextPrefix(l.prefix).Some?
  {
    match op
    case Has(_) => []
    case Read(_) => []
    case Insert(_, k, v) => Puts(l, [(k, v)])
    case Write(_, k, v) => Puts(l, [(k, v)])
    case WriteMany(_, items) => Puts(l, items)
    case WriteManyWithoutCache(_, items) => Puts(l, items)
    case Remove(_, k) => DeletesOf(l, k)
    case RemoveMany(_, ks) => Deletes(l, ks)
    case RemoveAll(_) => [DeleteRange(l.prefix, NextPrefix(l.prefix).value)]
    case Commit => []
    case Crash => []
    case Foreign(_, w) => [w]
  }

  predicate IsWrite<T>(op: Op<T>) {
    !op.Has? && !op.Read? && !op.Commit? && !op.Crash?
  }

  predicate Direct<T>(op: Op<T>) {
    IsWrite(op) && op.direct
  }

  /** A direct writer changes the rows, a batch writer extends the batch. */
  predicate Emitted<T(==)>(s: State<T>, s': State<T>, direct: bool, ops: seq<WriteOp>) {
    if direct then s'.rows == Apply(s.rows, ops) && s'.batch == s.batch
    else s'.rows == s.rows && s'.batch == s.batch + ops
  }

  lemma EmittedConcat<T>(s: State<T>, mid: State<T>, s': State<T>, direct: bool, a: seq<WriteOp>, b: seq<WriteOp>)
    requires Emitted(s, mid, direct, a) && Emitted(mid, s', direct, b)
    ensures Emitted(s, s', direct, a + b)
  {
    if direct { ApplyConcat(s.rows, a, b); }
  }

  ghost predicate ReadStep<T>(l: Layout<T>, rows: Rows, cache: map<Bytes, T>, k: Bytes,
                                  cache': map<Bytes, T>, r: Result<T>)
  {
    if k in cache then r == Ok(cache[k]) && cache' == cache
    else
      && r == l.Lookup(rows, k)
      && if r.Ok? then Submap(cache', cache[k := r.value]) else cache' == cache
  }

  ghost predicate CacheStep<T>(l: Layout<T>, op: Op<T>, cache: map<Bytes, T>, cache': map<Bytes, T>) {
    match op
    case Write(_, k, v) => Submap(cache', cache[k := v])
    case WriteMany(_, items) => Submap(cache', Overwrite(cache, items))
    case WriteManyWithoutCache(_, _) => cache' == map[]
    case Remove(_, k) => cache' == cache - {k}
    case RemoveMany(_, ks) => cache' == cache - (set k | k in ks)
    case RemoveAll(_) => cache' == map[]
    case _ => cache' == cache
  }

  ghost predicate Next<T>(l: Layout<T>, s: State<T>, op: Op<T>, s': State<T>, r: Response<T>) {
    match op
    case Has(k) => s' == s && r == Answer(k in s.cache || l.HasRow(s.rows, k))
    case Read(k) =>
      && r.Data? && ReadStep(l, s.rows, s.cache, k, s'.cache, r.r)
      && s'.rows == s.rows && s'.batch == s.batch
    case Insert(d, k, v) =>
      if k in s.cache || l.HasRow(s.rows, k) then s' == s && r == Inserted(false)
      else r == Inserted(true) && Emitted(s, s', d, Writes(l, op)) && Submap(s'.cache, s.cache[k := v])
    case Crash => r.Done? && s' == State(s.rows, [], map[])
    case Commit => r.Done? && s'.rows == Overlay(s) && s'.batch == [] && s'.cache == s.cache
    case _ =>
      && (op.RemoveAll? ==> NextPrefix(l.prefix).Some?)
      && r.Done? && Emitted(s, s', op.direct, Writes(l, op)) && CacheStep(l, op, s.cache, s'.cache)
  }

  lemma EmittedPut<T>(l: Layout<T>, s: State<T>, mid: State<T>, s': State<T>, direct: bool, items: seq<(Bytes, T)>, i: nat)
    requires i < |items| && Emitted(s, mid, direct, Puts(l, items[..i])) && Emitted(mid, s', direct, Puts(l, [items[i]]))
    ensures Emitted(s, s', direct, Puts(l, items[..i + 1]))
  {
    EmittedConcat(s, mid, s', direct, Puts(l, items[..i]), Puts(l, [items[i]]));
    PutsSnoc(l, items, i);
  }

  /** The deletes of the first `i` keys have been emitted. */
  ghost predicate Deleted<T>(l: Layout<T>, s: State<T>, s': State<T>, direct: bool, ks: seq<Bytes>, i: nat) {
    i <= |ks| && Emitted(s, s', direct, Deletes(l, ks[..i]))
  }

  lemma DeletedNone<T>(l: Layout<T>, s: State<T>, direct: bool, ks: seq<Bytes>)
    ensures Deleted(l, s, s, direct, ks, 0)
  {
  }

  lemma DeletedNext<T>(l: Layout<T>, s: State<T>, mid: State<T>, s': State<T>, direct: bool, ks: seq<Bytes>, i: nat)
    requires i < |ks| && Deleted(l, s, mid, direct, ks, i) && Emitted(mid, s', direct, DeletesOf(l, ks[i]))
    ensures Deleted(l, s, s', direct, ks, i + 1)
  {
    EmittedConcat(s, mid, s', direct, Deletes(l, ks[..i]), DeletesOf(l, ks[i]));
    DeletesSnoc(l, ks, i);
  }

  lemma DeletedAll<T>(l: Layout<T>, s: State<T>, s': State<T>, direct: bool, ks: seq<Bytes>)
    requires Deleted(l, s, s', direct, ks, |ks|)
    ensures Emitted(s, s', direct, Deletes(l, ks))
  {
    assert ks[..|ks|] == ks;
  }

  // ---- What callers must respect ----

  /** No staged write touches a row that a lookup of `k` may read. */
  ghost predicate Unstaged<T>(l: Layout<T>, s: State<T>, k: Bytes) {
    forall row | l.Relevant(k, row) :: !Touched(s.batch, row)
  }

  /** A direct write stays off the rows of this store that the batch writes. */
  ghost predicate Apart<T>(l: Layout<T>, s: State<T>, op: Op<T>)
    requires op.RemoveAll? ==> NextPrefix(l.prefix).Some?
  {
    forall row: Bytes | l.prefix <= row && Touched(Writes(l, op), row) :: !Touched(s.batch, row)
  }

  /** The batch leaves a current row for `k`. */
  predicate CurrentLeft<T>(l: Layout<T>, s: State<T>, k: Bytes) {
    match LastTouch(s.batch, l.WriteKey(k))
    case None => l.WriteKey(k) in s.rows
    case Some(w) => w.Put?
  }

  /** The batch leaves alone a row at the place of the legacy layout. */
  predicate LegacyLeft<T>(l: Layout<T>, s: State<T>, k: Bytes) {
    l.RowKey(k) in s.rows && LastTouch(s.batch, l.RowKey(k)).None?
  }

  /** What a lookup of `k` finds once the batch is committed is `v`, as it was before. */
  predicate ValueLeft<T(==)>(l: Layout<T>, s: State<T>, k: Bytes, v: T) {
    LegacyLeft(l, s, k) ||
    match LastTouch(s.batch, l.WriteKey(k))
    case None => l.WriteKey(k) in s.rows && l.codec.decode(s.rows[l.WriteKey(k)]) == Some(v)
    case Some(Put(_, data)) => l.codec.decode(data) == Some(v)
    case Some(_) => false
  }

  /** The batch does not change whether `k` has a row, or the cache knows. */
  ghost predicate PresenceKept<T>(l: Layout<T>, s: State<T>, k: Bytes) {
    || k in s.cache || Unstaged(l, s, k)
    || (&& KnownRows(l, s.rows, k)
        && ((l.WriteKey(k) in s.rows || l.RowKey(k) in s.rows) <==> CurrentLeft(l, s, k) || LegacyLeft(l, s, k)))
  }

  /** The batch does not change what a lookup of `k` answers, or the cache knows. */
  ghost predicate AnswerKept<T>(l: Layout<T>, s: State<T>, k: Bytes) {
    || k in s.cache || Unstaged(l, s, k)
    || (&& KnownRows(l, s.rows, k)
        && match l.Lookup(s.rows, k)
           case Ok(v) => ValueLeft(l, s, k, v)
           case Err(e) => e == KeyNotFound && !CurrentLeft(l, s, k) && !LegacyLeft(l, s, k))
  }

  /** A read must not fill the cache with a value that the batch changes.  An unguarded
      write must find no legacy row for its key; a guarded one is always allowed.  Direct
      writes, of this store and of others, may come between staged ones. */
  ghost predicate Allowed<T>(l: Layout<T>, s: State<T>, op: Op<T>) {
    && (op.RemoveAll? ==> NextPrefix(l.prefix).Some?)
    && (Direct(op) ==> Apart(l, s, op))
    && match op
       case Has(k) => l.ValidKey(k)
       case Read(k) => l.ValidKey(k) && (l.Lookup(s.rows, k).Err? || AnswerKept(l, s, k))
       case Insert(_, k, _) => l.ValidKey(k)
       case Write(_, k, _) => l.ValidKey(k) && l.Writable(Overlay(s), k)
       case WriteMany(_, items) => WritableItems(l, Overlay(s), items)
       case WriteManyWithoutCache(_, items) => WritableItems(l, Overlay(s), items)
       case Remove(_, k) => l.ValidKey(k)
       case RemoveMany(_, ks) => forall k | k in ks :: l.ValidKey(k)
       case RemoveAll(_) => true
       case Commit => true
       case Crash => true
       case Foreign(_, w) => forall row: Bytes | l.prefix <= row :: !w.Touches(row)
  }

  ghost predicate WritableItems<T>(l: Layout<T>, rows: Rows, items: seq<(Bytes, T)>) {
    forall i | 0 <= i < |items| :: l.ValidKey(items[i].0) && l.Writable(rows, items[i].0)
  }

  // ---- Coherence ----

  ghost predicate Coherent<T>(l: Layout<T>, rows: Rows, cache: map<Bytes, T>) {
    forall k | k in cache :: l.ValidKey(k) && l.Lookup(rows, k) == Ok(cache[k])
  }

  /** The batch puts current rows only. */
  ghost predicate CurrentPuts<T>(l: Layout<T>, ops: seq<WriteOp>) {
    forall i | 0 <= i < |ops| && ops[i].Put? && l.prefix <= ops[i].key ::
      exists k :: l.ValidKey(k) && ops[i].key == l.WriteKey(k)
  }

  ghost predicate Inv<T>(l: Layout<T>, s: State<T>) {
    Coherent(l, Overlay(s), s.cache) && CurrentPuts(l, s.batch)
  }

  lemma LookupUntouched<T>(l: Layout<T>, rows: Rows, ops: seq<WriteOp>, k: Bytes)
    requires forall row | l.Relevant(k, row) :: !Touched(ops, row)
    ensures l.SameFor(rows, Apply(rows, ops), k)
    ensures l.Lookup(Apply(rows, ops), k) == l.Lookup(rows, k)
    ensures l.HasRow(Apply(rows, ops), k) == l.HasRow(rows, k)
  {
    forall row | l.Relevant(k, row) ensures SameAt(rows, Apply(rows, ops), row) {
      UntouchedSame(rows, ops, row);
    }
    LookupSame(l, rows, Apply(rows, ops), k);
  }

  lemma NoLegacyPut<T>(l: Layout<T>, s: State<T>, k: Bytes, i: nat)
    requires CurrentPuts(l, s.batch) && l.ValidKey(k) && i < |s.batch| && s.batch[i].Put? && l.Relevant(k, s.batch[i].key)
    ensures s.batch[i].key == l.WriteKey(k)
  {
    var row := s.batch[i].key;
    RelevantHasPrefix(l, k, row);
    var j :| l.ValidKey(j) && row == l.WriteKey(j);
    WriteKeyRelevant(l, j);
    RelevantDisjoint(l, j, k, row);
  }

  /** The rows that a lookup of `k` finds once the batch is committed. */
  lemma StagedRows<T>(l: Layout<T>, s: State<T>, k: Bytes)
    requires CurrentPuts(l, s.batch) && l.ValidKey(k) && KnownRows(l, s.rows, k)
    ensures KnownRows(l, Overlay(s), k)
    ensures l.WriteKey(k) in Overlay(s) <==> CurrentLeft(l, s, k)
    ensures l.suffix.Some? ==> (l.RowKey(k) in Overlay(s) <==> LegacyLeft(l, s, k))
  {
    forall row | row in Overlay(s) && l.Relevant(k, row) ensures row == l.WriteKey(k) || row == l.RowKey(k) {
      RowOrigin(s.rows, s.batch, row);
      if row !in s.rows {
        var i :| 0 <= i < |s.batch| && s.batch[i].Put? && s.batch[i].key == row;
        NoLegacyPut(l, s, k, i);
      }
    }
    LastTouchDecides(s.rows, s.batch, l.WriteKey(k));
    LastTouchDecides(s.rows, s.batch, l.RowKey(k));
    WriteKeyRelevant(l, k);
    if LastTouch(s.batch, l.RowKey(k)).Some? {
      var i := LastTouchStaged(s.batch, l.RowKey(k));
      if s.batch[i].Put? { NoLegacyPut(l, s, k, i); }
    }
  }

  /** A value that was there before the batch is there after it exactly when it is left. */
  lemma StagedValue<T>(l: Layout<T>, s: State<T>, k: Bytes, v: T)
    requires CurrentPuts(l, s.batch) && l.ValidKey(k) && KnownRows(l, s.rows, k) && l.Lookup(s.rows, k) == Ok(v)
    ensures l.Lookup(Overlay(s), k) == Ok(v) <==> ValueLeft(l, s, k, v)
  {
    StagedRows(l, s, k);
    LookupLegacyFirst(l, s.rows, k);
    LookupLegacyFirst(l, Overlay(s), k);
    LastTouchDecides(s.rows, s.batch, l.WriteKey(k));
    LastTouchDecides(s.rows, s.batch, l.RowKey(k));
  }

  lemma FillCoherent<T>(l: Layout<T>, s: State<T>, k: Bytes, v: T)
    requires Inv(l, s) && l.ValidKey(k) && k !in s.cache
    ensures Coherent(l, Overlay(s), s.cache[k := v]) <==> l.Lookup(Overlay(s), k) == Ok(v)
  {
    var cache := s.cache[k := v];
    if l.Lookup(Overlay(s), k) == Ok(v) {
      forall j | j in cache ensures l.ValidKey(j) && l.Lookup(Overlay(s), j) == Ok(cache[j]) {
        if j != k { assert j in s.cache; }
      }
    } else {
      assert k in cache;
    }
  }

  /** The keys an operation writes. */
  function Keys<T>(op: Op<T>): set<Bytes> {
    match op
    case Insert(_, k, _) => {k}
    case Write(_, k, _) => {k}
    case WriteMany(_, items) => set i | 0 <= i < |items| :: items[i].0
    case WriteManyWithoutCache(_, items) => set i | 0 <= i < |items| :: items[i].0
    case Remove(_, k) => {k}
    case RemoveMany(_, ks) => set k | k in ks
    case _ => {}
  }

  lemma {:induction false} DeletesTouch<T>(l: Layout<T>, ks: seq<Bytes>, row: Bytes)
    requires Touched(Deletes(l, ks), row)
    ensures exists k :: k in ks && l.Relevant(k, row)
  {
    var n := |ks| - 1;
    var a, b := Deletes(l, ks[..n]), DeletesOf(l, ks[n]);
    var i :| 0 <= i < |Deletes(l, ks)| && Deletes(l, ks)[i].Touches(row);
    WriteKeyRelevant(l, ks[n]);
    if i < |a| {
      assert a[i].Touches(row);
      DeletesTouch(l, ks[..n], row);
      var k :| k in ks[..n] && l.Relevant(k, row);
      assert k in ks;
    } else {
      assert Deletes(l, ks)[i] == b[i - |a|];
      assert ks[n] in ks && l.Relevant(ks[n], row);
    }
  }

  /** A write touches rows of its own keys only. */
  lemma WritesTouch<T>(l: Layout<T>, op: Op<T>, row: Bytes)
    requires !op.RemoveAll? && !op.Foreign?
    requires Touched(Writes(l, op), row)
    ensures exists k :: k in Keys(op) && l.Relevant(k, row)
  {
    match op
    case Remove(_, k) => WriteKeyRelevant(l, k);
    case RemoveMany(_, ks) => DeletesTouch(l, ks, row);
    case Insert(_, k, v) =>
      WriteKeyRelevant(l, k);
      var i :| 0 <= i < |Writes(l, op)| && Writes(l, op)[i].Touches(row);
    case Write(_, k, v) =>
      WriteKeyRelevant(l, k);
      var i :| 0 <= i < |Writes(l, op)| && Writes(l, op)[i].Touches(row);
    case WriteMany(_, items) => PutsTouch(l, op, items, row);
    case WriteManyWithoutCache(_, items) => PutsTouch(l, op, items, row);
  }

  lemma PutsTouch<T>(l: Layout<T>, op: Op<T>, items: seq<(Bytes, T)>, row: Bytes)
    requires op.WriteMany? || op.WriteManyWithoutCache?
    requires items == op.items
    requires Touched(Puts(l, items), row)
    ensures exists k :: k in Keys(op) && l.Relevant(k, row)
  {
    var i :| 0 <= i < |Puts(l, items)| && Puts(l, items)[i].Touches(row);
    WriteKeyRelevant(l, items[i].0);
    assert items[i].0 in Keys(op) && l.Relevant(items[i].0, row);
  }

  /** Every key an operation does not write keeps its lookup. */
  lemma OtherKeysKept<T>(l: Layout<T>, rows: Rows, op: Op<T>, j: Bytes)
    requires !op.RemoveAll? && !op.Foreign? && l.ValidKey(j)
    requires j !in Keys(op) && forall k | k in Keys(op) :: l.ValidKey(k)
    ensures l.SameFor(rows, Apply(rows, Writes(l, op)), j)
    ensures l.Lookup(Apply(rows, Writes(l, op)), j) == l.Lookup(rows, j)
  {
    forall row | l.Relevant(j, row) ensures !Touched(Writes(l, op), row) {
      if Touched(Writes(l, op), row) {
        WritesTouch(l, op, row);
        var k :| k in Keys(op) && l.Relevant(k, row);
        RelevantDisjoint(l, j, k, row);
      }
    }
    LookupUntouched(l, rows, Writes(l, op), j);
  }

  lemma ForeignKept<T>(l: Layout<T>, rows: Rows, w: WriteOp, j: Bytes)
    requires forall row: Bytes | l.prefix <= row :: !w.Touches(row)
    ensures l.SameFor(rows, Apply(rows, [w]), j)
    ensures l.Lookup(Apply(rows, [w]), j) == l.Lookup(rows, j)
  {
    forall row | l.Relevant(j, row) ensures !Touched([w], row) {
      RelevantHasPrefix(l, j, row);
    }
    LookupUntouched(l, rows, [w], j);
  }

  lemma PutsLast<T>(l: Layout<T>, rows: Rows, items: seq<(Bytes, T)>, n: nat)
    requires |items| == n + 1
    ensures var put := PutOf(l, items[n]);
            Apply(rows, Puts(l, items)) == Apply(rows, Puts(l, items[..n]))[put.key := put.data]
  {
    var put := PutOf(l, items[n]);
    assert Puts(l, items) == Puts(l, items[..n]) + [put];
    ApplySnoc(rows, Puts(l, items[..n]), put);
  }

  lemma PutElsewhere<T>(l: Layout<T>, rows: Rows, item: (Bytes, T), k: Bytes)
    requires l.ValidKey(k) && l.ValidKey(item.0) && k != item.0 && l.Writable(rows, k)
    ensures var after := rows[PutOf(l, item).key := PutOf(l, item).data];
            l.Lookup(after, k) == l.Lookup(rows, k) && l.Writable(after, k)
  {
    var put := PutOf(l, item);
    var after := rows[put.key := put.data];
    forall row | l.Relevant(k, row) ensures SameAt(rows, after, row) {
      WriteKeyRelevant(l, item.0);
      if row == put.key { RelevantDisjoint(l, k, item.0, row); }
    }
    LookupSame(l, rows, after, k);
    forall row | row in after && l.Relevant(k, row) ensures row == l.WriteKey(k) { assert SameAt(rows, after, row); }
  }

  /** Written values can be read back, the last one winning, even while later puts follow. */
  lemma {:induction false} PutsVisible<T(!new)>(l: Layout<T>, rows: Rows, items: seq<(Bytes, T)>, k: Bytes)
    requires RoundTrips(l.codec) && l.ValidKey(k) && WritableItems(l, rows, items)
    requires exists i :: 0 <= i < |items| && items[i].0 == k
    ensures l.Writable(Apply(rows, Puts(l, items)), k)
    ensures k in Overwrite(map[], items)
    ensures l.Lookup(Apply(rows, Puts(l, items)), k) == Ok(Overwrite(map[], items)[k])
  {
    var n := |items| - 1;
    var before := items[..n];
    var mid := Apply(rows, Puts(l, before));
    var put := PutOf(l, items[n]);
    PutsLast(l, rows, items, n);
    if items[n].0 == k {
      PutsWritable(l, rows, before, k);
      LookupAfterPut(l, mid, k, items[n].1);
    } else {
      var i :| 0 <= i < |items| && items[i].0 == k;
      assert before[i] == items[i];
      PutsVisible(l, rows, before, k);
      PutElsewhere(l, mid, items[n], k);
    }
  }

  lemma {:induction false} PutsWritable<T>(l: Layout<T>, rows: Rows, items: seq<(Bytes, T)>, k: Bytes)
    requires l.ValidKey(k) && l.Writable(rows, k)
    requires forall i | 0 <= i < |items| :: l.ValidKey(items[i].0)
    ensures l.Writable(Apply(rows, Puts(l, items)), k)
  {
    forall row | row in Apply(rows, Puts(l, items)) && l.Relevant(k, row) ensures row == l.WriteKey(k) {
      RowOrigin(rows, Puts(l, items), row);
      if row !in rows {
        var i :| 0 <= i < |items| && Puts(l, items)[i].key == row;
        WriteKeyRelevant(l, items[i].0);
        RelevantDisjoint(l, k, items[i].0, row);
      }
    }
  }

  lemma OverwriteKeys<T>(items: seq<(Bytes, T)>, n: nat, before: map<Bytes, T>)
    requires |items| == n + 1
    requires forall k | k in before :: exists i :: 0 <= i < n && items[..n][i].0 == k
    requires forall i | 0 <= i < n :: items[..n][i].0 in before
    ensures var after := before[items[n].0 := items[n].1];
            && (forall k | k in after :: exists i :: 0 <= i < |items| && items[i].0 == k)
            && (forall i | 0 <= i < |items| :: items[i].0 in after)
  {
    var after := before[items[n].0 := items[n].1];
    forall k | k in after ensures exists i :: 0 <= i < |items| && items[i].0 == k {
      if k != items[n].0 {
        var i :| 0 <= i < n && items[..n][i].0 == k;
        assert items[i].0 == k;
      }
    }
    forall i | 0 <= i < |items| ensures items[i].0 in after {
      if i < n { assert items[..n][i] == items[i]; }
    }
  }

  lemma {:induction false} OverwriteHas<T>(items: seq<(Bytes, T)>)
    ensures forall k | k in Overwrite(map[], items) :: exists i :: 0 <= i < |items| && items[i].0 == k
    ensures forall i | 0 <= i < |items| :: items[i].0 in Overwrite(map[], items)
  {
    if items != [] {
      var n := |items| - 1;
      OverwriteHas(items[..n]);
      OverwriteKeys(items, n, Overwrite(map[], items[..n]));
    }
  }

  lemma {:induction false} OverwriteSum<T>(m: map<Bytes, T>, items: seq<(Bytes, T)>)
    ensures Overwrite(m, items) == m + Overwrite(map[], items)
  {
    if items != [] { OverwriteSum(m, items[..|items| - 1]); }
  }

  lemma OverwriteSplit<T>(m: map<Bytes, T>, items: seq<(Bytes, T)>)
    ensures Overwrite(m, items) == m + Overwrite(map[], items)
    ensures forall k | k in Overwrite(map[], items) :: exists i :: 0 <= i < |items| && items[i].0 == k
    ensures forall i | 0 <= i < |items| :: items[i].0 in Overwrite(map[], items)
  {
    OverwriteSum(m, items);
    OverwriteHas(items);
  }

  // ---- One step ----

  /** The uncached store: rows only, every write applied at once. */
  function PlainRows<T>(l: Layout<T>, rows: Rows, op: Op<T>): Rows
    requires op.RemoveAll? ==> NextPrefix(l.prefix).Some?
  {
    Apply(rows, Writes(l, op))
  }

  ghost function PlainResponse<T>(l: Layout<T>, rows: Rows, op: Op<T>): Response<T> {
    match op
    case Has(k) => Answer(l.HasRow(rows, k))
    case Read(k) => Data(l.Lookup(rows, k))
    case Insert(_, k, _) => Inserted(!l.HasRow(rows, k))
    case _ => Done
  }

  /** What an operation with this answer amounts to: an insert is a write or a mere query. */
  function Effect<T>(op: Op<T>, r: Response<T>): Op<T> {
    match op
    case Insert(d, k, v) => if r == Inserted(true) then Write(d, k, v) else Has(k)
    case _ => op
  }

  /** Queries look at the cache and the rows only: they are answered as if the batch were
      committed if it does not change the answer. */
  ghost predicate Sure<T>(l: Layout<T>, s: State<T>, op: Op<T>) {
    match op
    case Has(k) => PresenceKept(l, s, k)
    case Insert(_, k, _) => PresenceKept(l, s, k)
    case Read(k) => AnswerKept(l, s, k)
    case _ => true
  }

  lemma OverlayStep<T>(l: Layout<T>, s: State<T>, op: Op<T>, s': State<T>, r: Response<T>)
    requires Allowed(l, s, op) && Next(l, s, op, s', r) && !op.Insert? && !op.Crash?
    ensures SameUnder(l.prefix, PlainRows(l, Overlay(s), op), Overlay(s'))
  {
    if IsWrite(op) {
      if op.direct {
        forall row: Bytes | l.prefix <= row ensures SameAt(PlainRows(l, Overlay(s), op), Overlay(s'), row) {
          Commute(s.rows, Writes(l, op), s.batch, row);
        }
      } else {
        ApplyConcat(s.rows, s.batch, Writes(l, op));
      }
    }
  }

  lemma SameUnderPrefix<T>(l: Layout<T>, a: Rows, b: Rows, k: Bytes)
    requires SameUnder(l.prefix, a, b)
    ensures l.SameFor(a, b, k)
  {
    forall row | l.Relevant(k, row) ensures SameAt(a, b, row) { RelevantHasPrefix(l, k, row); }
  }

  lemma CoherentSame<T>(l: Layout<T>, a: Rows, b: Rows, cache: map<Bytes, T>)
    requires SameUnder(l.prefix, a, b) && Coherent(l, a, cache)
    ensures Coherent(l, b, cache)
  {
    forall k | k in cache ensures l.ValidKey(k) && l.Lookup(b, k) == Ok(cache[k]) {
      SameUnderPrefix(l, a, b, k);
      LookupSame(l, a, b, k);
    }
  }

  /** The range of `RemoveAll` is the store, no more and no less. */
  lemma RemoveAllExact<T>(l: Layout<T>, rows: Rows, op: Op<T>, row: Bytes)
    requires op.RemoveAll? && NextPrefix(l.prefix).Some?
    ensures row in PlainRows(l, rows, op) <==> row in rows && !(l.prefix <= row)
    ensures row in PlainRows(l, rows, op) ==> PlainRows(l, rows, op)[row] == rows[row]
  {
    ApplyOne(rows, Writes(l, op)[0]);
    PrefixInterval(l.prefix, row);
  }

  lemma WritesCoherent<T(!new)>(l: Layout<T>, rows: Rows, op: Op<T>, items: seq<(Bytes, T)>, cache: map<Bytes, T>)
    requires RoundTrips(l.codec) && WritableItems(l, rows, items) && Coherent(l, rows, cache)
    requires op == WriteMany(op.WriteMany? && op.direct, items)
    ensures Coherent(l, PlainRows(l, rows, op), Overwrite(cache, items))
  {
    OverwriteSplit(cache, items);
    var after := PlainRows(l, rows, op);
    forall k | k in Overwrite(cache, items)
      ensures l.ValidKey(k) && l.Lookup(after, k) == Ok(Overwrite(cache, items)[k])
    {
      if k in Overwrite(map[], items) {
        PutsVisible(l, rows, items, k);
      } else {
        OtherKeysKept(l, rows, op, k);
      }
    }
  }

  lemma WriteCoherent<T(!new)>(l: Layout<T>, rows: Rows, d: bool, k: Bytes, v: T, cache: map<Bytes, T>)
    requires RoundTrips(l.codec) && WritableItems(l, rows, [(k, v)]) && Coherent(l, rows, cache)
    ensures Coherent(l, PlainRows(l, rows, Write(d, k, v)), cache[k := v])
  {
    var items := [(k, v)];
    assert items[..0] == [];
    assert Overwrite(cache, items) == Overwrite(cache, [])[k := v];
    WritesCoherent(l, rows, WriteMany(d, items), items, cache);
  }

  lemma SubmapCoherent<T>(l: Layout<T>, rows: Rows, a: map<Bytes, T>, b: map<Bytes, T>)
    requires Submap(a, b) && Coherent(l, rows, b)
    ensures Coherent(l, rows, a)
  {
  }

  lemma HasAnswer<T>(l: Layout<T>, s: State<T>, k: Bytes)
    requires Inv(l, s) && l.ValidKey(k) && PresenceKept(l, s, k)
    ensures (k in s.cache || l.HasRow(s.rows, k)) <==> l.HasRow(Overlay(s), k)
  {
    if k in s.cache {
      LookupOkHasRow(l, Overlay(s), k);
    } else if Unstaged(l, s, k) {
      LookupUntouched(l, s.rows, s.batch, k);
    } else {
      StagedRows(l, s, k);
      LookupLegacyFirst(l, s.rows, k);
      LookupLegacyFirst(l, Overlay(s), k);
    }
  }

  lemma ReadAnswer<T>(l: Layout<T>, s: State<T>, k: Bytes)
    requires Inv(l, s) && l.ValidKey(k) && AnswerKept(l, s, k)
    ensures (if k in s.cache then Ok(s.cache[k]) else l.Lookup(s.rows, k)) == l.Lookup(Overlay(s), k)
  {
    if k !in s.cache {
      if Unstaged(l, s, k) {
        LookupUntouched(l, s.rows, s.batch, k);
      } else if l.Lookup(s.rows, k).Ok? {
        StagedValue(l, s, k, l.Lookup(s.rows, k).value);
      } else {
        StagedRows(l, s, k);
        LookupLegacyFirst(l, Overlay(s), k);
      }
    }
  }

  lemma ReadCoherent<T(!new)>(l: Layout<T>, s: State<T>, op: Op<T>, s': State<T>, r: Response<T>)
    requires Inv(l, s) && Allowed(l, s, op) && Next(l, s, op, s', r) && op.Read?
    ensures Coherent(l, Overlay(s), s'.cache)
  {
    if op.k !in s.cache && r.r.Ok? {
      ReadAnswer(l, s, op.k);
      FillCoherent(l, s, op.k, r.r.value);
      SubmapCoherent(l, Overlay(s), s'.cache, s.cache[op.k := r.r.value]);
    }
  }

  lemma ForeignCoherent<T>(l: Layout<T>, rows: Rows, w: WriteOp, cache: map<Bytes, T>)
    requires Coherent(l, rows, cache) && forall row: Bytes | l.prefix <= row :: !w.Touches(row)
    ensures Coherent(l, Apply(rows, [w]), cache)
  {
    forall k | k in cache ensures l.ValidKey(k) && l.Lookup(Apply(rows, [w]), k) == Ok(cache[k]) {
      ForeignKept(l, rows, w, k);
    }
  }

  lemma WriterCoherent<T(!new)>(l: Layout<T>, s: State<T>, op: Op<T>, cache': map<Bytes, T>)
    requires RoundTrips(l.codec) && Allowed(l, s, op) && Coherent(l, Overlay(s), s.cache)
    requires (op.Write? || op.WriteMany?) && CacheStep(l, op, s.cache, cache')
    ensures Coherent(l, PlainRows(l, Overlay(s), op), cache')
  {
    var rows := Overlay(s);
    if op.Write? {
      WriteCoherent(l, rows, op.direct, op.k, op.v, s.cache);
      SubmapCoherent(l, PlainRows(l, rows, op), cache', s.cache[op.k := op.v]);
    } else {
      WritesCoherent(l, rows, op, op.items, s.cache);
      SubmapCoherent(l, PlainRows(l, rows, op), cache', Overwrite(s.cache, op.items));
    }
  }

  lemma RestCoherent<T>(l: Layout<T>, s: State<T>, op: Op<T>, cache': map<Bytes, T>)
    requires Allowed(l, s, op) && Coherent(l, Overlay(s), s.cache)
    requires (op.WriteManyWithoutCache? || op.Remove? || op.RemoveMany?) && CacheStep(l, op, s.cache, cache')
    ensures Coherent(l, PlainRows(l, Overlay(s), op), cache')
  {
    var rows := Overlay(s);
    forall k | k in cache' ensures l.Lookup(PlainRows(l, rows, op), k) == l.Lookup(rows, k) {
      OtherKeysKept(l, rows, op, k);
    }
  }

  lemma PlainCoherent<T(!new)>(l: Layout<T>, s: State<T>, op: Op<T>, s': State<T>, r: Response<T>)
    requires RoundTrips(l.codec) && Inv(l, s) && Allowed(l, s, op) && Next(l, s, op, s', r) && !op.Insert? && !op.Crash?
    ensures Coherent(l, PlainRows(l, Overlay(s), op), s'.cache)
  {
    match op {
      case Has(_) =>
      case Commit =>
      case Read(_) => ReadCoherent(l, s, op, s', r);
      case Write(_, _, _) => WriterCoherent(l, s, op, s'.cache);
      case WriteMany(_, _) => WriterCoherent(l, s, op, s'.cache);
      case Foreign(_, w) => ForeignCoherent(l, Overlay(s), w, s.cache);
      case RemoveAll(_) =>
      case _ => RestCoherent(l, s, op, s'.cache);
    }
  }

  lemma {:induction false} DeletesOnlyDelete<T>(l: Layout<T>, ks: seq<Bytes>)
    ensures forall i | 0 <= i < |Deletes(l, ks)| :: Deletes(l, ks)[i].Delete?
  {
    if ks != [] { DeletesOnlyDelete(l, ks[..|ks| - 1]); }
  }

  lemma WritesCurrent<T>(l: Layout<T>, s: State<T>, op: Op<T>)
    requires Allowed(l, s, op)
    ensures CurrentPuts(l, Writes(l, op))
  {
    var ops := Writes(l, op);
    if op.RemoveMany? { DeletesOnlyDelete(l, op.ks); }
    forall i | 0 <= i < |ops| && ops[i].Put? && l.prefix <= ops[i].key
      ensures exists k :: l.ValidKey(k) && ops[i].key == l.WriteKey(k)
    {
      match op
      case Insert(_, k, _) => assert l.ValidKey(k) && ops[i].key == l.WriteKey(k);
      case Write(_, k, _) => assert l.ValidKey(k) && ops[i].key == l.WriteKey(k);
      case WriteMany(_, items) => assert l.ValidKey(items[i].0) && ops[i].key == l.WriteKey(items[i].0);
      case WriteManyWithoutCache(_, items) => assert l.ValidKey(items[i].0) && ops[i].key == l.WriteKey(items[i].0);
      case Foreign(_, w) => assert w.Touches(ops[i].key); assert false;
    }
  }

  lemma StepCurrent<T>(l: Layout<T>, s: State<T>, op: Op<T>, s': State<T>)
    requires Allowed(l, s, op) && CurrentPuts(l, s.batch)
    requires s'.batch == s.batch || s'.batch == [] || s'.batch == s.batch + Writes(l, op)
    ensures CurrentPuts(l, s'.batch)
  {
    WritesCurrent(l, s, op);
    forall i | 0 <= i < |s'.batch| && s'.batch[i].Put? && l.prefix <= s'.batch[i].key
      ensures exists k :: l.ValidKey(k) && s'.batch[i].key == l.WriteKey(k)
    {
      if i < |s.batch| {
        assert s'.batch[i] == s.batch[i];
      } else {
        assert s'.batch[i] == Writes(l, op)[i - |s.batch|];
      }
    }
  }

  lemma PlainTransparent<T(!new)>(l: Layout<T>, s: State<T>, op: Op<T>, s': State<T>, r: Response<T>)
    requires RoundTrips(l.codec) && Inv(l, s) && Allowed(l, s, op) && Next(l, s, op, s', r) && !op.Insert? && !op.Crash?
    ensures Inv(l, s')
    ensures SameUnder(l.prefix, PlainRows(l, Overlay(s), op), Overlay(s'))
  {
    OverlayStep(l, s, op, s', r);
    PlainCoherent(l, s, op, s', r);
    CoherentSame(l, PlainRows(l, Overlay(s), op), Overlay(s'), s'.cache);
    StepCurrent(l, s, op, s');
  }

  lemma SureAnswer<T>(l: Layout<T>, s: State<T>, op: Op<T>, s': State<T>, r: Response<T>)
    requires Inv(l, s) && Allowed(l, s, op) && Next(l, s, op, s', r) && Sure(l, s, op)
    ensures r == PlainResponse(l, Overlay(s), op)
  {
    if op.Has? || op.Insert? { HasAnswer(l, s, op.k); }
    if op.Read? { ReadAnswer(l, s, op.k); }
  }

  /** An insert that goes through is an allowed write, although its guard looks at
      neither the batch nor the version byte. */
  lemma InsertIsWrite<T>(l: Layout<T>, s: State<T>, op: Op<T>, s': State<T>, r: Response<T>)
    requires Inv(l, s) && Allowed(l, s, op) && Next(l, s, op, s', r) && op.Insert? && r == Inserted(true)
    ensures Allowed(l, s, Effect(op, r)) && Next(l, s, Effect(op, r), s', Done)
  {
    GuardSuffices(l, s, op.k);
  }

  /** Every step keeps the cache coherent with the staged view and answers as the
      uncached store holding the staged view would, whatever was evicted; a crash falls
      back to the rows. */
  lemma StepTransparent<T(!new)>(l: Layout<T>, s: State<T>, op: Op<T>, s': State<T>, r: Response<T>)
    requires RoundTrips(l.codec) && Inv(l, s) && Allowed(l, s, op) && Next(l, s, op, s', r)
    ensures Inv(l, s')
    ensures if op.Crash? then Overlay(s') == s.rows
            else SameUnder(l.prefix, PlainRows(l, Overlay(s), Effect(op, r)), Overlay(s'))
    ensures Sure(l, s, op) ==> r == PlainResponse(l, Overlay(s), op)
  {
    if Sure(l, s, op) { SureAnswer(l, s, op, s', r); }
    if op.Insert? {
      if r == Inserted(true) {
        InsertIsWrite(l, s, op, s', r);
        PlainTransparent(l, s, Effect(op, r), s', Done);
      }
    } else if !op.Crash? {
      PlainTransparent(l, s, op, s', r);
    }
  }

  lemma LookupOkHasRow<T>(l: Layout<T>, rows: Rows, k: Bytes)
    requires l.Lookup(rows, k).Ok?
    ensures l.HasRow(rows, k)
  {
  }

  /** The guard of `insert`: a negative `has` means that the key may be written,
      although `has` looks at neither the batch nor the version byte. */
  lemma GuardSuffices<T>(l: Layout<T>, s: State<T>, k: Bytes)
    requires Inv(l, s) && l.ValidKey(k) && !l.HasRow(s.rows, k)
    ensures l.Writable(Overlay(s), k)
  {
    forall row | row in Overlay(s) && l.Relevant(k, row) && l.suffix.Some? ensures row == l.WriteKey(k) {
      RowOrigin(s.rows, s.batch, row);
      var i :| 0 <= i < |s.batch| && s.batch[i].Put? && s.batch[i].key == row;
      RelevantHasPrefix(l, k, row);
      var j :| l.ValidKey(j) && s.batch[i].key == l.WriteKey(j);
      WriteKeyRelevant(l, j);
      RelevantDisjoint(l, j, k, row);
    }
  }

  // ---- A plain map ----

  /** `k` has at most one row, and looking it up gives `m`'s answer. */
  ghost predicate RepresentsAt<T>(l: Layout<T>, rows: Rows, m: map<Bytes, T>, k: Bytes) {
    l.OneRow(rows, k) && l.Lookup(rows, k) == if k in m then Ok(m[k]) else Err(KeyNotFound)
  }

  /** The rows mean the map `m`. */
  ghost predicate Represents<T>(l: Layout<T>, rows: Rows, m: map<Bytes, T>) {
    forall k | l.ValidKey(k) :: RepresentsAt(l, rows, m, k)
  }

  function MapNext<T>(m: map<Bytes, T>, op: Op<T>): map<Bytes, T> {
    match op
    case Write(_, k, v) => m[k := v]
    case WriteMany(_, items) => Overwrite(m, items)
    case WriteManyWithoutCache(_, items) => Overwrite(m, items)
    case Remove(_, k) => m - {k}
    case RemoveMany(_, ks) => m - (set k | k in ks)
    case RemoveAll(_) => map[]
    case _ => m
  }

  function MapResponse<T>(m: map<Bytes, T>, op: Op<T>): Response<T> {
    match op
    case Has(k) => Answer(k in m)
    case Read(k) => Data(if k in m then Ok(m[k]) else Err(KeyNotFound))
    case Insert(_, k, _) => Inserted(k !in m)
    case _ => Done
  }

  lemma SameForOneRow<T>(l: Layout<T>, a: Rows, b: Rows, k: Bytes)
    requires l.SameFor(a, b, k) && l.OneRow(a, k)
    ensures l.OneRow(b, k)
  {
    WriteKeyRelevant(l, k);
    assert SameAt(a, b, l.WriteKey(k)) && SameAt(a, b, l.RowKey(k));
    forall row | row in b && l.Relevant(k, row) ensures row == l.WriteKey(k) || row == l.RowKey(k) {
      assert SameAt(a, b, row);
    }
  }

  lemma WritableOneRow<T>(l: Layout<T>, rows: Rows, k: Bytes)
    requires l.Writable(rows, k)
    ensures l.OneRow(rows, k)
  {
    WriteKeyRelevant(l, k);
  }

  lemma DeletesLast<T>(l: Layout<T>, rows: Rows, ks: seq<Bytes>, n: nat)
    requires |ks| == n + 1
    ensures Apply(rows, Deletes(l, ks)) == Apply(rows, Deletes(l, ks[..n])) - {l.WriteKey(ks[n]), l.RowKey(ks[n])}
  {
    ApplyConcat(rows, Deletes(l, ks[..n]), DeletesOf(l, ks[n]));
    DeletesOfApply(l, Apply(rows, Deletes(l, ks[..n])), ks[n]);
  }

  lemma {:induction false} DeletesErase<T>(l: Layout<T>, rows: Rows, ks: seq<Bytes>, k: Bytes, row: Bytes)
    requires k in ks && (row == l.WriteKey(k) || row == l.RowKey(k))
    ensures row !in Apply(rows, Deletes(l, ks))
  {
    var n := |ks| - 1;
    DeletesLast(l, rows, ks, n);
    if k != ks[n] { DeletesErase(l, rows, ks[..n], k, row); }
  }

  lemma DeletesOfApply<T>(l: Layout<T>, rows: Rows, k: Bytes)
    ensures Apply(rows, DeletesOf(l, k)) == rows - {l.WriteKey(k), l.RowKey(k)}
  {
    var d := Delete(l.RowKey(k));
    match l.suffix
    case None =>
      assert DeletesOf(l, k) == [d];
      ApplyOne(rows, d);
    case Some(_) =>
      var e := Delete(l.WriteKey(k));
      assert DeletesOf(l, k) == [e] + [d];
      ApplyConcat(rows, [e], [d]);
      ApplyOne(rows, e);
      ApplyOne(ApplyOp(rows, e), d);
  }

  lemma {:induction false} DeletesShrink<T>(l: Layout<T>, rows: Rows, ks: seq<Bytes>)
    ensures Submap(Apply(rows, Deletes(l, ks)), rows)
  {
    if ks != [] {
      var n := |ks| - 1;
      DeletesShrink(l, rows, ks[..n]);
      DeletesLast(l, rows, ks, n);
    }
  }

  lemma RemovedKey<T>(l: Layout<T>, rows: Rows, ks: seq<Bytes>, k: Bytes)
    requires k in ks && l.OneRow(rows, k)
    ensures l.OneRow(Apply(rows, Deletes(l, ks)), k)
    ensures l.Lookup(Apply(rows, Deletes(l, ks)), k) == Err(KeyNotFound)
  {
    var after := Apply(rows, Deletes(l, ks));
    DeletesShrink(l, rows, ks);
    forall row | row in after ensures !l.Relevant(k, row) {
      if l.Relevant(k, row) {
        assert row in rows;
        DeletesErase(l, rows, ks, k, row);
      }
    }
    LookupNoRow(l, after, k);
    WriteKeyRelevant(l, k);
  }

  lemma PutsAt<T(!new)>(l: Layout<T>, rows: Rows, op: Op<T>, m: map<Bytes, T>, k: Bytes)
    requires RoundTrips(l.codec) && (op.WriteMany? || op.WriteManyWithoutCache?)
    requires WritableItems(l, rows, op.items) && RepresentsAt(l, rows, m, k) && l.ValidKey(k)
    ensures RepresentsAt(l, PlainRows(l, rows, op), Overwrite(m, op.items), k)
  {
    OverwriteSplit(m, op.items);
    if k in Overwrite(map[], op.items) {
      WrittenAt(l, rows, op.items, m, k);
    } else {
      KeptAt(l, rows, op, m, k);
    }
  }

  lemma WrittenAt<T(!new)>(l: Layout<T>, rows: Rows, items: seq<(Bytes, T)>, m: map<Bytes, T>, k: Bytes)
    requires RoundTrips(l.codec) && WritableItems(l, rows, items) && l.ValidKey(k)
    requires exists i :: 0 <= i < |items| && items[i].0 == k
    ensures RepresentsAt(l, Apply(rows, Puts(l, items)), Overwrite(m, items), k)
  {
    PutsVisible(l, rows, items, k);
    WritableOneRow(l, Apply(rows, Puts(l, items)), k);
    OverwriteSum(m, items);
  }

  lemma KeptAt<T>(l: Layout<T>, rows: Rows, op: Op<T>, m: map<Bytes, T>, k: Bytes)
    requires !op.RemoveAll? && !op.Foreign? && l.ValidKey(k) && k !in Keys(op) && (forall j | j in Keys(op) :: l.ValidKey(j))
    requires RepresentsAt(l, rows, m, k)
    ensures RepresentsAt(l, PlainRows(l, rows, op), m, k)
  {
    OtherKeysKept(l, rows, op, k);
    SameForOneRow(l, rows, PlainRows(l, rows, op), k);
  }

  lemma RepresentsOther<T>(l: Layout<T>, rows: Rows, m: map<Bytes, T>, m': map<Bytes, T>, k: Bytes)
    requires RepresentsAt(l, rows, m, k) && (k in m <==> k in m') && (k in m ==> m[k] == m'[k])
    ensures RepresentsAt(l, rows, m', k)
  {
  }

  lemma RepresentsNothing<T>(l: Layout<T>, rows: Rows, m: map<Bytes, T>, k: Bytes)
    requires l.OneRow(rows, k) && l.Lookup(rows, k) == Err(KeyNotFound) && k !in m
    ensures RepresentsAt(l, rows, m, k)
  {
  }

  lemma RemovesOthers<T>(l: Layout<T>, rows: Rows, op: Op<T>, m: map<Bytes, T>, k: Bytes)
    requires op.RemoveMany? && (forall j | j in op.ks :: l.ValidKey(j)) && k !in op.ks
    requires RepresentsAt(l, rows, m, k) && l.ValidKey(k)
    ensures RepresentsAt(l, PlainRows(l, rows, op), MapNext(m, op), k)
  {
    KeptAt(l, rows, op, m, k);
    RepresentsOther(l, PlainRows(l, rows, op), m, MapNext(m, op), k);
  }

  lemma RemovesAt<T>(l: Layout<T>, rows: Rows, op: Op<T>, m: map<Bytes, T>, k: Bytes)
    requires op.RemoveMany? && (forall j | j in op.ks :: l.ValidKey(j))
    requires RepresentsAt(l, rows, m, k) && l.ValidKey(k)
    ensures RepresentsAt(l, PlainRows(l, rows, op), MapNext(m, op), k)
  {
    if k in op.ks {
      RemovedKey(l, rows, op.ks, k);
      RepresentsNothing(l, PlainRows(l, rows, op), MapNext(m, op), k);
    } else {
      RemovesOthers(l, rows, op, m, k);
    }
  }

  lemma RemoveAllAt<T>(l: Layout<T>, rows: Rows, op: Op<T>, m: map<Bytes, T>, k: Bytes)
    requires op.RemoveAll? && NextPrefix(l.prefix).Some?
    ensures RepresentsAt(l, PlainRows(l, rows, op), map[], k)
  {
    var after := PlainRows(l, rows, op);
    forall row | row in after ensures !l.Relevant(k, row) {
      RemoveAllExact(l, rows, op, row);
      if l.Relevant(k, row) { RelevantHasPrefix(l, k, row); }
    }
    LookupNoRow(l, after, k);
    WriteKeyRelevant(l, k);
  }

  lemma WriteAt<T(!new)>(l: Layout<T>, s: State<T>, op: Op<T>, m: map<Bytes, T>, k: Bytes)
    requires RoundTrips(l.codec) && Allowed(l, s, op) && RepresentsAt(l, Overlay(s), m, k) && l.ValidKey(k) && op.Write?
    ensures RepresentsAt(l, PlainRows(l, Overlay(s), op), MapNext(m, op), k)
  {
    var items := [(op.k, op.v)];
    assert items[..0] == [];
    assert Overwrite(m, items) == Overwrite(m, [])[op.k := op.v];
    PutsAt(l, Overlay(s), WriteMany(op.direct, items), m, k);
  }

  lemma RemovedOne<T>(l: Layout<T>, rows: Rows, k: Bytes)
    requires l.OneRow(rows, k)
    ensures var after := Apply(rows, DeletesOf(l, k)); l.OneRow(after, k) && l.Lookup(after, k) == Err(KeyNotFound)
  {
    var after := Apply(rows, DeletesOf(l, k));
    DeletesOfApply(l, rows, k);
    LookupNoRow(l, after, k);
    WriteKeyRelevant(l, k);
  }

  lemma RemoveAt<T>(l: Layout<T>, s: State<T>, op: Op<T>, m: map<Bytes, T>, k: Bytes)
    requires Allowed(l, s, op) && RepresentsAt(l, Overlay(s), m, k) && l.ValidKey(k) && op.Remove?
    ensures RepresentsAt(l, PlainRows(l, Overlay(s), op), MapNext(m, op), k)
  {
    if k == op.k { RemovedOne(l, Overlay(s), k); } else { KeptAt(l, Overlay(s), op, m, k); }
  }

  lemma MapStepAt<T(!new)>(l: Layout<T>, s: State<T>, op: Op<T>, m: map<Bytes, T>, k: Bytes)
    requires RoundTrips(l.codec) && Allowed(l, s, op) && RepresentsAt(l, Overlay(s), m, k) && l.ValidKey(k) && !op.Insert? && !op.Crash?
    ensures RepresentsAt(l, PlainRows(l, Overlay(s), op), MapNext(m, op), k)
  {
    var rows := Overlay(s);
    match op {
      case Write(_, _, _) => WriteAt(l, s, op, m, k);
      case WriteMany(_, _) => PutsAt(l, rows, op, m, k);
      case WriteManyWithoutCache(_, _) => PutsAt(l, rows, op, m, k);
      case Remove(_, _) => RemoveAt(l, s, op, m, k);
      case RemoveMany(_, _) => RemovesAt(l, rows, op, m, k);
      case RemoveAll(_) => RemoveAllAt(l, rows, op, m, k);
      case Foreign(_, w) =>
        ForeignKept(l, rows, w, k);
        SameForOneRow(l, rows, PlainRows(l, rows, op), k);
      case _ =>
    }
  }

  lemma MapAnswer<T>(l: Layout<T>, rows: Rows, m: map<Bytes, T>, k: Bytes)
    requires RepresentsAt(l, rows, m, k)
    ensures l.HasRow(rows, k) <==> k in m
  {
    LookupOneRow(l, rows, k);
  }

  /** A step of the uncached two-layout store is a step of the map. */
  lemma PlainStepIsMapStep<T(!new)>(l: Layout<T>, s: State<T>, op: Op<T>, m: map<Bytes, T>)
    requires RoundTrips(l.codec) && Allowed(l, s, op) && Represents(l, Overlay(s), m)
    ensures !op.Insert? && !op.Crash? ==> Represents(l, PlainRows(l, Overlay(s), op), MapNext(m, op))
    ensures PlainResponse(l, Overlay(s), op) == MapResponse(m, op)
  {
    if !op.Insert? && !op.Crash? {
      forall k | l.ValidKey(k) ensures RepresentsAt(l, PlainRows(l, Overlay(s), op), MapNext(m, op), k) {
        assert RepresentsAt(l, Overlay(s), m, k);
        MapStepAt(l, s, op, m, k);
      }
    }
    if op.Has? || op.Read? || op.Insert? {
      assert RepresentsAt(l, Overlay(s), m, op.k);
      MapAnswer(l, Overlay(s), m, op.k);
    }
  }

  lemma RepresentsSame<T>(l: Layout<T>, a: Rows, b: Rows, m: map<Bytes, T>)
    requires SameUnder(l.prefix, a, b) && Represents(l, a, m)
    ensures Represents(l, b, m)
  {
    forall k | l.ValidKey(k) ensures RepresentsAt(l, b, m, k) {
      assert RepresentsAt(l, a, m, k);
      SameUnderPrefix(l, a, b, k);
      SameForOneRow(l, a, b, k);
      LookupSame(l, a, b, k);
    }
  }
}
