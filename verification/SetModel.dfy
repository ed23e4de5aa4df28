/** Sets kept as one row per member, with whole sets cached: a map of sets. */
module SetModel {
  import opened Bytes
  import opened Cache
  import opened Codecs
  import opened Database

  datatype SetLayout<!T> = SetLayout(prefix: Bytes, keyLen: nat, encode: T -> Bytes, decode: Bytes -> Option<T>)
  {
    predicate ValidKey(k: Bytes) {
      |k| == keyLen
    }

    function Bucket(k: Bytes): Bytes {
      prefix + k
    }

    function MemberKey(k: Bytes, x: T): Bytes {
      Bucket(k) + encode(x)
    }

    predicate Decodable(k: Bytes, row: Bytes)
      requires Bucket(k) <= row
    {
      decode(row[|Bucket(k)|..]).Some?
    }

    /** What reading the bucket's rows yields. */
    ghost function Collect(rows: Rows, k: Bytes): Result<set<T>> {
      var b := Bucket(k);
      if forall row | row in rows && b <= row :: Decodable(k, row) then
        Ok(set row | row in rows && b <= row && Decodable(k, row) :: decode(row[|b|..]).value)
      else
        Err(DeserializationError)
    }
  }

  ghost predicate RoundTrips<T(!new)>(l: SetLayout<T>) {
    forall x: T :: l.decode(l.encode(x)) == Some(x)
  }

  function Get<T>(m: map<Bytes, set<T>>, k: Bytes): set<T> {
    if k in m then m[k] else {}
  }

  /** The rows of bucket `k` are the members of `m`'s set, one row each. */
  ghost predicate RepresentsAt<T(!new)>(l: SetLayout<T>, rows: Rows, m: map<Bytes, set<T>>, k: Bytes) {
    && (forall row | row in rows && l.Bucket(k) <= row :: exists x: T :: row == l.MemberKey(k, x))
    && (forall x: T :: l.MemberKey(k, x) in rows <==> x in Get(m, k))
  }

  ghost predicate Represents<T(!new)>(l: SetLayout<T>, rows: Rows, m: map<Bytes, set<T>>) {
    forall k | l.ValidKey(k) :: RepresentsAt(l, rows, m, k)
  }

  lemma MemberTail<T>(l: SetLayout<T>, k: Bytes, x: T)
    ensures l.Bucket(k) <= l.MemberKey(k, x)
    ensures l.MemberKey(k, x)[|l.Bucket(k)|..] == l.encode(x)
  {
  }

  lemma MemberKeyInjective<T(!new)>(l: SetLayout<T>, k: Bytes, x: T, y: T)
    requires RoundTrips(l) && l.MemberKey(k, x) == l.MemberKey(k, y)
    ensures x == y
  {
    MemberTail(l, k, x);
    MemberTail(l, k, y);
    assert l.decode(l.encode(x)) == Some(x) && l.decode(l.encode(y)) == Some(y);
  }

  /** The bucket iterator returns exactly the members. */
  lemma CollectMembers<T(!new)>(l: SetLayout<T>, rows: Rows, m: map<Bytes, set<T>>, k: Bytes)
    requires RoundTrips(l) && RepresentsAt(l, rows, m, k)
    ensures l.Collect(rows, k) == Ok(Get(m, k))
  {
    var b := l.Bucket(k);
    forall row | row in rows && b <= row
      ensures l.Decodable(k, row) && l.decode(row[|b|..]).value in Get(m, k)
    {
      var x: T :| row == l.MemberKey(k, x);
      MemberTail(l, k, x);
      assert l.decode(l.encode(x)) == Some(x);
    }
    var got := l.Collect(rows, k).value;
    forall x | x in Get(m, k) ensures x in got {
      MemberTail(l, k, x);
      var row := l.MemberKey(k, x);
      assert l.decode(l.encode(x)) == Some(x);
      assert row in rows && b <= row && l.Decodable(k, row);
    }
    assert got == Get(m, k);
  }

  /** Reading a bucket fails if and only if one of its rows does not decode; otherwise it yields
      what its rows decode to. */
  lemma CollectExact<T>(l: SetLayout<T>, rows: Rows, k: Bytes, x: T)
    ensures l.Collect(rows, k).Err? <==>
            exists row :: row in rows && l.Bucket(k) <= row && l.decode(row[|l.Bucket(k)|..]) == None
    ensures l.Collect(rows, k).Err? ==> l.Collect(rows, k) == Err(DeserializationError)
    ensures l.Collect(rows, k).Ok? ==>
              (x in l.Collect(rows, k).value <==>
               exists row :: row in rows && l.Bucket(k) <= row && l.decode(row[|l.Bucket(k)|..]) == Some(x))
  {
    var b := l.Bucket(k);
    if l.Collect(rows, k).Ok? {
      forall row | row in rows && b <= row ensures l.Decodable(k, row) {}
      if row :| row in rows && b <= row && l.decode(row[|b|..]) == Some(x) { assert l.Decodable(k, row); }
    } else {
      var row :| row in rows && b <= row && !l.Decodable(k, row);
      assert l.decode(row[|b|..]) == None;
    }
  }

  // ---- State machine ----

  datatype SetState<!T> = SetState(rows: Rows, batch: seq<WriteOp>, cache: map<Bytes, set<T>>)

  function Overlay<T>(s: SetState<T>): Rows {
    Apply(s.rows, s.batch)
  }

  datatype SetOp<!T> =
    | ReadSet(k: Bytes)
    | Add(direct: bool, k: Bytes, x: T)
    | Discard(direct: bool, k: Bytes, x: T)
    | DeleteBucket(direct: bool, k: Bytes)
    | Commit
    | Crash // the batch and the cache are lost
    | Foreign(direct: bool, op: WriteOp)

  predicate IsWrite<T>(op: SetOp<T>) {
    !op.ReadSet? && !op.Commit? && !op.Crash?
  }

  predicate Bounded<T>(l: SetLayout<T>, op: SetOp<T>) {
    match op
    case DeleteBucket(_, k) => NextPrefix(l.Bucket(k)).Some?
    case _ => true
  }

  function WriteOf<T>(l: SetLayout<T>, op: SetOp<T>): WriteOp
    requires IsWrite(op) && Bounded(l, op)
  {
    match op
    case Add(_, k, x) => Put(l.MemberKey(k, x), [])
    case Discard(_, k, x) => Delete(l.MemberKey(k, x))
    case DeleteBucket(_, k) => DeleteRange(l.Bucket(k), NextPrefix(l.Bucket(k)).value)
    case Foreign(_, w) => w
  }

  predicate Emitted<T>(s: SetState<T>, s': SetState<T>, direct: bool, op: WriteOp) {
    if direct then s'.rows == ApplyOp(s.rows, op) && s'.batch == s.batch
    else s'.rows == s.rows && s'.batch == s.batch + [op]
  }

  /** A set is updated in the cache only if it is there already, and may then be evicted. */
  predicate CacheStep<T(==)>(op: SetOp<T>, cache: map<Bytes, set<T>>, cache': map<Bytes, set<T>>) {
    match op
    case Add(_, k, x) =>
      if k in cache then Submap(cache', cache[k := cache[k] + {x}]) else cache' == cache
    case Discard(_, k, x) =>
      if k in cache then Submap(cache', cache[k := cache[k] - {x}]) else cache' == cache
    case DeleteBucket(_, k) => cache' == cache - {k}
    case _ => cache' == cache
  }

  ghost predicate ReadStep<T>(l: SetLayout<T>, rows: Rows, cache: map<Bytes, set<T>>, k: Bytes,
                              cache': map<Bytes, set<T>>, r: Result<set<T>>)
  {
    if k in cache then r == Ok(cache[k]) && cache' == cache
    else
      && r == l.Collect(rows, k)
      && if r.Ok? then Submap(cache', cache[k := r.value]) else cache' == cache
  }

  ghost predicate Next<T>(l: SetLayout<T>, s: SetState<T>, op: SetOp<T>, s': SetState<T>, r: Option<Result<set<T>>>) {
    match op
    case ReadSet(k) =>
      && r.Some? && ReadStep(l, s.rows, s.cache, k, s'.cache, r.value)
      && s'.rows == s.rows && s'.batch == s.batch
    case Commit => r == None && s' == SetState(Overlay(s), [], s.cache)
    case Crash => r == None && s' == SetState(s.rows, [], map[])
    case _ =>
      && Bounded(l, op)
      && r == None && Emitted(s, s', op.direct, WriteOf(l, op)) && CacheStep(op, s.cache, s'.cache)
  }

  /** The batch leaves the presence of the member `x` as it is. */
  predicate MemberKept<T>(l: SetLayout<T>, s: SetState<T>, k: Bytes, x: T) {
    match LastTouch(s.batch, l.MemberKey(k, x))
    case None => true
    case Some(Put(_, _)) => l.MemberKey(k, x) in s.rows
    case Some(_) => l.MemberKey(k, x) !in s.rows
  }

  /** The batch adds and removes no member of the bucket. */
  ghost predicate BucketKept<T(!new)>(l: SetLayout<T>, s: SetState<T>, k: Bytes) {
    forall x: T :: MemberKept(l, s, k, x)
  }

  /** A direct write stays off the rows of this store that the batch writes. */
  ghost predicate Apart<T>(l: SetLayout<T>, s: SetState<T>, w: WriteOp) {
    forall row: Bytes | l.prefix <= row && w.Touches(row) :: !Touched(s.batch, row)
  }

  /** A read of a set that is not cached must not find a bucket that the batch changes. */
  ghost predicate Allowed<T(!new)>(l: SetLayout<T>, s: SetState<T>, op: SetOp<T>) {
    && Bounded(l, op)
    && (IsWrite(op) && op.direct ==> Apart(l, s, WriteOf(l, op)))
    && match op
       case ReadSet(k) => l.ValidKey(k) && (k in s.cache || BucketKept(l, s, k))
       case Add(_, k, _) => l.ValidKey(k)
       case Discard(_, k, _) => l.ValidKey(k)
       case DeleteBucket(_, k) => l.ValidKey(k) && NextPrefix(l.prefix).Some?
       case Commit => true
       case Crash => true
       case Foreign(_, w) => forall row: Bytes | l.prefix <= row :: !w.Touches(row)
  }

  /** What a restart would find, and what the process sees with its batch. */
  datatype Sets<T> = Sets(durable: map<Bytes, set<T>>, current: map<Bytes, set<T>>)

  function SetsNext<T>(g: Sets<T>, op: SetOp<T>): Sets<T> {
    match op
    case ReadSet(_) => g
    case Commit => Sets(g.current, g.current)
    case Crash => Sets(g.durable, g.durable)
    case _ => Sets(if op.direct then MapNext(g.durable, op) else g.durable, MapNext(g.current, op))
  }

  /** The state stands for the maps of sets `g`: the rows for the durable one, the rows with the
      batch and the cached sets for the current one. */
  ghost predicate Refines<T(!new)>(l: SetLayout<T>, s: SetState<T>, g: Sets<T>) {
    Represents(l, s.rows, g.durable) && Represents(l, Overlay(s), g.current) && Cached(l, s.cache, g.current)
  }

  ghost predicate Cached<T>(l: SetLayout<T>, cache: map<Bytes, set<T>>, m: map<Bytes, set<T>>) {
    forall k | k in cache :: l.ValidKey(k) && cache[k] == Get(m, k)
  }

  lemma CacheStepKeeps<T>(l: SetLayout<T>, op: SetOp<T>, cache: map<Bytes, set<T>>, cache': map<Bytes, set<T>>, m: map<Bytes, set<T>>)
    requires Cached(l, cache, m) && CacheStep(op, cache, cache')
    ensures Cached(l, cache', MapNext(m, op))
  {
  }

  function MapNext<T>(m: map<Bytes, set<T>>, op: SetOp<T>): map<Bytes, set<T>> {
    match op
    case Add(_, k, x) => m[k := Get(m, k) + {x}]
    case Discard(_, k, x) => m[k := Get(m, k) - {x}]
    case DeleteBucket(_, k) => m - {k}
    case _ => m
  }

  lemma OtherBucket<T>(l: SetLayout<T>, j: Bytes, k: Bytes, row: Bytes)
    requires l.ValidKey(j) && l.ValidKey(k) && j != k && l.Bucket(k) <= row
    ensures !(l.Bucket(j) <= row)
  {
    assert l.Bucket(j)[|l.prefix|..] == j && l.Bucket(k)[|l.prefix|..] == k;
    if l.Bucket(j) <= row { SameLengthPrefixes(l.Bucket(j), l.Bucket(k), row); }
  }

  /** The range of a bucket is that bucket's rows and nothing else. */
  lemma BucketRangeExact<T>(l: SetLayout<T>, rows: Rows, k: Bytes, row: Bytes)
    requires NextPrefix(l.Bucket(k)).Some?
    ensures var after := ApplyOp(rows, DeleteRange(l.Bucket(k), NextPrefix(l.Bucket(k)).value));
            row in after <==> row in rows && !(l.Bucket(k) <= row)
  {
    PrefixInterval(l.Bucket(k), row);
  }

  lemma KeptAt<T(!new)>(l: SetLayout<T>, a: Rows, b: Rows, m: map<Bytes, set<T>>, m': map<Bytes, set<T>>, k: Bytes)
    requires RepresentsAt(l, a, m, k) && Get(m, k) == Get(m', k)
    requires forall row | l.Bucket(k) <= row :: row in a <==> row in b
    ensures RepresentsAt(l, b, m', k)
  {
    forall x: T ensures l.MemberKey(k, x) in b <==> x in Get(m', k) { MemberTail(l, k, x); }
  }

  lemma WriteAt<T(!new)>(l: SetLayout<T>, rows: Rows, op: SetOp<T>, m: map<Bytes, set<T>>, j: Bytes)
    requires RoundTrips(l) && (op.Add? || op.Discard?) && l.ValidKey(op.k) && l.ValidKey(j) && RepresentsAt(l, rows, m, j)
    ensures RepresentsAt(l, ApplyOp(rows, WriteOf(l, op)), MapNext(m, op), j)
  {
    var after := ApplyOp(rows, WriteOf(l, op));
    var key := l.MemberKey(op.k, op.x);
    MemberTail(l, op.k, op.x);
    if j == op.k {
      forall y: T ensures l.MemberKey(j, y) in after <==> y in Get(MapNext(m, op), j) {
        if l.MemberKey(j, y) == key { MemberKeyInjective(l, j, y, op.x); }
      }
      forall row | row in after && l.Bucket(j) <= row ensures exists x: T :: row == l.MemberKey(j, x) {
        if row == key { assert row == l.MemberKey(j, op.x); }
      }
    } else {
      OtherBucket(l, j, op.k, key);
      KeptAt(l, rows, after, m, MapNext(m, op), j);
    }
  }

  lemma DeleteAt<T(!new)>(l: SetLayout<T>, rows: Rows, op: SetOp<T>, m: map<Bytes, set<T>>, j: Bytes)
    requires op.DeleteBucket? && NextPrefix(l.Bucket(op.k)).Some?
    requires l.ValidKey(op.k) && l.ValidKey(j) && RepresentsAt(l, rows, m, j)
    ensures RepresentsAt(l, ApplyOp(rows, WriteOf(l, op)), MapNext(m, op), j)
  {
    var after := ApplyOp(rows, WriteOf(l, op));
    forall row: Bytes ensures row in after <==> row in rows && !(l.Bucket(op.k) <= row) {
      BucketRangeExact(l, rows, op.k, row);
    }
    if j == op.k {
      forall x: T ensures l.MemberKey(j, x) !in after { MemberTail(l, j, x); }
    } else {
      forall row | l.Bucket(j) <= row ensures row in rows <==> row in after { OtherBucket(l, op.k, j, row); }
      KeptAt(l, rows, after, m, MapNext(m, op), j);
    }
  }

  lemma ForeignAt<T(!new)>(l: SetLayout<T>, rows: Rows, w: WriteOp, m: map<Bytes, set<T>>, j: Bytes)
    requires forall row: Bytes | l.prefix <= row :: !w.Touches(row)
    requires RepresentsAt(l, rows, m, j)
    ensures RepresentsAt(l, ApplyOp(rows, w), m, j)
  {
    forall row | l.Bucket(j) <= row ensures row in rows <==> row in ApplyOp(rows, w) {
      assert l.prefix <= l.Bucket(j) <= row;
      assert !w.Touches(row);
    }
    KeptAt(l, rows, ApplyOp(rows, w), m, m, j);
  }

  lemma WriteRepresents<T(!new)>(l: SetLayout<T>, s: SetState<T>, op: SetOp<T>, rows: Rows, m: map<Bytes, set<T>>)
    requires RoundTrips(l) && IsWrite(op) && Allowed(l, s, op) && Represents(l, rows, m)
    ensures Represents(l, ApplyOp(rows, WriteOf(l, op)), MapNext(m, op))
  {
    forall j | l.ValidKey(j) ensures RepresentsAt(l, ApplyOp(rows, WriteOf(l, op)), MapNext(m, op), j) {
      assert RepresentsAt(l, rows, m, j);
      match op
      case Foreign(_, w) => ForeignAt(l, rows, w, m, j);
      case DeleteBucket(_, _) => DeleteAt(l, rows, op, m, j);
      case _ => WriteAt(l, rows, op, m, j);
    }
  }

  /** What is read from the rows is the durable set; it is the current one if and only if the
      batch adds and removes no member. */
  lemma StagedReadExact<T(!new)>(l: SetLayout<T>, s: SetState<T>, k: Bytes, g: Sets<T>)
    requires RoundTrips(l) && Refines(l, s, g) && l.ValidKey(k)
    ensures l.Collect(s.rows, k) == Ok(Get(g.durable, k))
    ensures Get(g.durable, k) == Get(g.current, k) <==> BucketKept(l, s, k)
  {
    assert RepresentsAt(l, s.rows, g.durable, k) && RepresentsAt(l, Overlay(s), g.current, k);
    CollectMembers(l, s.rows, g.durable, k);
    forall x: T ensures MemberKept(l, s, k, x) <==> (x in Get(g.durable, k) <==> x in Get(g.current, k)) {
      LastTouchDecides(s.rows, s.batch, l.MemberKey(k, x));
    }
    if BucketKept(l, s, k) {
      assert forall x: T :: MemberKept(l, s, k, x);
      assert forall x | x in Get(g.durable, k) + Get(g.current, k) :: x in Get(g.durable, k) <==> x in Get(g.current, k);
    }
  }

  lemma OverlayStep<T>(l: SetLayout<T>, s: SetState<T>, s': SetState<T>, direct: bool, op: WriteOp)
    requires Emitted(s, s', direct, op) && (direct ==> Apart(l, s, op))
    ensures SameUnder(l.prefix, ApplyOp(Overlay(s), op), Overlay(s'))
  {
    if direct {
      forall row: Bytes | l.prefix <= row ensures SameAt(ApplyOp(Overlay(s), op), Overlay(s'), row) {
        Commute(s.rows, [op], s.batch, row);
        ApplyOne(s.rows, op);
        ApplyOne(Overlay(s), op);
      }
    } else {
      ApplySnoc(s.rows, s.batch, op);
    }
  }

  lemma RepresentsSame<T(!new)>(l: SetLayout<T>, a: Rows, b: Rows, m: map<Bytes, set<T>>)
    requires SameUnder(l.prefix, a, b) && Represents(l, a, m)
    ensures Represents(l, b, m)
  {
    forall k | l.ValidKey(k) ensures RepresentsAt(l, b, m, k) {
      assert RepresentsAt(l, a, m, k);
      forall row | l.Bucket(k) <= row ensures row in a <==> row in b {
        assert l.prefix <= l.Bucket(k) <= row;
        assert SameAt(a, b, row);
      }
      KeptAt(l, a, b, m, m, k);
    }
  }

  lemma WriteStep<T(!new)>(l: SetLayout<T>, s: SetState<T>, op: SetOp<T>, s': SetState<T>, g: Sets<T>)
    requires RoundTrips(l) && Refines(l, s, g) && Allowed(l, s, op) && IsWrite(op)
    requires Emitted(s, s', op.direct, WriteOf(l, op)) && CacheStep(op, s.cache, s'.cache)
    ensures Refines(l, s', SetsNext(g, op))
  {
    WriteRepresents(l, s, op, s.rows, g.durable);
    WriteRepresents(l, s, op, Overlay(s), g.current);
    OverlayStep(l, s, s', op.direct, WriteOf(l, op));
    RepresentsSame(l, ApplyOp(Overlay(s), WriteOf(l, op)), Overlay(s'), MapNext(g.current, op));
    CacheStepKeeps(l, op, s.cache, s'.cache, g.current);
  }

  lemma StepIsMapStep<T(!new)>(l: SetLayout<T>, s: SetState<T>, op: SetOp<T>, s': SetState<T>, r: Option<Result<set<T>>>, g: Sets<T>)
    requires RoundTrips(l) && Refines(l, s, g) && Allowed(l, s, op) && Next(l, s, op, s', r)
    ensures Refines(l, s', SetsNext(g, op))
    ensures r == if op.ReadSet? then Some(Ok(Get(g.current, op.k))) else None
  {
    match op
    case ReadSet(k) =>
      if k !in s.cache { StagedReadExact(l, s, k, g); }
    case Commit =>
    case Crash => assert Apply(s.rows, []) == s.rows;
    case _ =>
      WriteStep(l, s, op, s', g);
  }

  datatype SetEvent<!T> = SetEvent(op: SetOp<T>, r: Option<Result<set<T>>>)

  ghost predicate Step<T(!new)>(l: SetLayout<T>, s: SetState<T>, e: SetEvent<T>, s': SetState<T>) {
    Allowed(l, s, e.op) && Next(l, s, e.op, s', e.r)
  }

  /** The run takes step `i`. */
  ghost predicate StepsAt<T(!new)>(l: SetLayout<T>, states: seq<SetState<T>>, events: seq<SetEvent<T>>, i: nat)
    requires |states| == |events| + 1 && i < |events|
  {
    Step(l, states[i], events[i], states[i + 1])
  }

  ghost predicate Run<T(!new)>(l: SetLayout<T>, states: seq<SetState<T>>, events: seq<SetEvent<T>>) {
    && |states| == |events| + 1
    && forall i | 0 <= i < |events| :: StepsAt(l, states, events, i)
  }

  lemma RunStep<T(!new)>(l: SetLayout<T>, states: seq<SetState<T>>, events: seq<SetEvent<T>>, i: nat)
    requires Run(l, states, events) && i < |events|
    ensures Step(l, states[i], events[i], states[i + 1])
  {
    assert StepsAt(l, states, events, i);
  }

  function SetsRun<T>(g: Sets<T>, events: seq<SetEvent<T>>): Sets<T> {
    if events == [] then g
    else SetsNext(SetsRun(g, events[..|events| - 1]), events[|events| - 1].op)
  }

  lemma SetsRunSnoc<T>(g: Sets<T>, events: seq<SetEvent<T>>, n: nat)
    requires n < |events|
    ensures SetsRun(g, events[..n + 1]) == SetsNext(SetsRun(g, events[..n]), events[n].op)
  {
    assert events[..n + 1][..n] == events[..n];
  }

  /** Over every run, crashes included, in which no set is read from a bucket that the batch
      changes: each read returns exactly the members added and not removed, every cached set
      equals its bucket's rows with the batch, and the rows are the durable sets. */
  lemma {:induction false} StoreIsMapOfSets<T(!new)>(l: SetLayout<T>, states: seq<SetState<T>>, events: seq<SetEvent<T>>, g: Sets<T>, n: nat)
    requires RoundTrips(l) && Run(l, states, events) && Refines(l, states[0], g) && n <= |events|
    ensures Refines(l, states[n], SetsRun(g, events[..n]))
    ensures n < |events| && events[n].op.ReadSet? ==>
              events[n].r == Some(Ok(Get(SetsRun(g, events[..n]).current, events[n].op.k)))
  {
    if n > 0 {
      StoreIsMapOfSets(l, states, events, g, n - 1);
      RunStep(l, states, events, n - 1);
      StepIsMapStep(l, states[n - 1], events[n - 1].op, states[n], events[n - 1].r, SetsRun(g, events[..n - 1]));
      SetsRunSnoc(g, events, n - 1);
    }
    if n < |events| {
      RunStep(l, states, events, n);
      StepIsMapStep(l, states[n], events[n].op, states[n + 1], events[n].r, SetsRun(g, events[..n]));
    }
  }

  // ---- Where it ends ----

  lemma OneMember<T(!new)>(l: SetLayout<T>, k: Bytes, x: T)
    requires RoundTrips(l)
    ensures l.Collect(map[l.MemberKey(k, x) := []], k) == Ok({x})
  {
    var rows: Rows := map[l.MemberKey(k, x) := []];
    MemberTail(l, k, x);
    assert RepresentsAt(l, rows, map[k := {x}], k) by {
      forall y: T ensures l.MemberKey(k, y) in rows <==> y == x {
        if l.MemberKey(k, y) == l.MemberKey(k, x) { MemberKeyInjective(l, k, y, x); }
      }
    }
    CollectMembers(l, rows, map[k := {x}], k);
  }

  lemma NoMembers<T(!new)>(l: SetLayout<T>, k: Bytes)
    ensures l.Collect(map[], k) == Ok({})
  {
    var got := l.Collect(map[], k);
    assert got.Ok? && got.value == {};
  }

  /** In every set store: add a member in a batch, read the set before the commit, commit, and
      the cache still answers without the member that the rows have. */
  lemma StagedMemberLost<T(!new)>(l: SetLayout<T>, k: Bytes, x: T)
    returns (s0: SetState<T>, s1: SetState<T>, s2: SetState<T>, s3: SetState<T>)
    requires RoundTrips(l) && l.ValidKey(k)
    ensures s0 == SetState(map[], [], map[])
    ensures Next(l, s0, Add(false, k, x), s1, None)
    ensures Next(l, s1, ReadSet(k), s2, Some(Ok({})))
    ensures Next(l, s2, Commit, s3, None)
    ensures Next(l, s3, ReadSet(k), s3, Some(Ok({})))
    ensures l.Collect(s3.rows, k) == Ok({x})
  {
    var put := Put(l.MemberKey(k, x), []);
    s0 := SetState(map[], [], map[]);
    s1 := SetState(map[], [put], map[]);
    s2 := SetState(map[], [put], map[k := {}]);
    s3 := SetState(map[l.MemberKey(k, x) := []], [], map[k := {}]);
    NoMembers(l, k);
    OneMember(l, k, x);
    ApplyOne(map[], put);
    assert s0.batch + [put] == s1.batch;
  }

  /** A direct write of a member that is staged: what it did is what the commit leaves
      exactly when the batch does not touch the member or ends with doing the same. */
  lemma DirectOverStagedExact<T>(l: SetLayout<T>, s: SetState<T>, op: SetOp<T>, s': SetState<T>)
    requires (op.Add? || op.Discard?) && op.direct && Next(l, s, op, s', None)
    ensures (l.MemberKey(op.k, op.x) in Overlay(s') <==> op.Add?) <==>
            match LastTouch(s.batch, l.MemberKey(op.k, op.x))
            case None => true
            case Some(w) => w.Put? == op.Add?
  {
    LastTouchDecides(s'.rows, s.batch, l.MemberKey(op.k, op.x));
  }
}
