/** What the keyed store remembers of its own writes while they fit into the cache, committed
    or not. */
module StoreRecent {
  import opened Bytes
  import opened Cache
  import opened Codecs
  import opened StoreModel
  import opened StoreRuns

  /** What a call does to a cache with room for `max` entries. */
  ghost predicate CountStep<T(!new)>(max: nat, s: State<T>, e: Event<T>, s': State<T>) {
    match e.op
    case Read(k) =>
      k !in s.cache && e.r.Data? && e.r.r.Ok? ==> CountInsert(max, s.cache, k, e.r.r.value, s'.cache)
    case Insert(_, k, v) => e.r == Inserted(true) ==> CountInsert(max, s.cache, k, v, s'.cache)
    case Write(_, k, v) => CountInsert(max, s.cache, k, v, s'.cache)
    case WriteMany(_, items) => CountInserts(max, s.cache, items, s'.cache)
    case _ => true
  }

  ghost predicate StepsAt<T(!new)>(l: Layout<T>, max: nat, states: seq<State<T>>, events: seq<Event<T>>, i: nat)
    requires |states| == |events| + 1 && i < |events|
  {
    Next(l, states[i], events[i].op, states[i + 1], events[i].r) && CountStep(max, states[i], events[i], states[i + 1])
  }

  /** Any calls, also those that `Allowed` excludes. */
  ghost predicate Run<T(!new)>(l: Layout<T>, max: nat, states: seq<State<T>>, events: seq<Event<T>>) {
    && |states| == |events| + 1
    && forall i | 0 <= i < |events| :: StepsAt(l, max, states, events, i)
  }

  predicate Holds<T(==)>(s: State<T>, k: Bytes, v: T) {
    k in s.cache && s.cache[k] == v
  }

  /** The call writes `v` under `k`, as its only or its last item. */
  predicate Stores<T(==)>(e: Event<T>, k: Bytes, v: T) {
    match e.op
    case Insert(_, j, x) => e.r == Inserted(true) && j == k && x == v
    case Write(_, j, x) => j == k && x == v
    case WriteMany(_, items) => items != [] && items[|items| - 1] == (k, v)
    case _ => false
  }

  lemma StoredHeld<T(!new)>(l: Layout<T>, max: nat, s: State<T>, e: Event<T>, s': State<T>, k: Bytes, v: T)
    requires CountStep(max, s, e, s') && max > 0 && Stores(e, k, v)
    ensures Holds(s', k, v)
  {
    if e.op.WriteMany? { LastInserted(max, s.cache, e.op.items, s'.cache); }
  }

  /** The call neither writes nor removes `k`, and what it caches has room. */
  predicate Spares<T>(max: nat, s: State<T>, op: Op<T>, k: Bytes) {
    match op
    case Read(_) => |s.cache| < max
    case Insert(_, _, _) => |s.cache| < max
    case Write(_, j, _) => j != k && |s.cache| < max
    case WriteMany(_, items) => (forall i | 0 <= i < |items| :: items[i].0 != k) && |s.cache| + |items| <= max
    case WriteManyWithoutCache(_, _) => false
    case Remove(_, j) => j != k
    case RemoveMany(_, ks) => k !in ks
    case RemoveAll(_) => false
    case Crash => false
    case _ => true
  }

  lemma {:induction false} OverwriteOthers<K, V>(m: map<K, V>, items: seq<(K, V)>, k: K)
    requires k in m && forall i | 0 <= i < |items| :: items[i].0 != k
    ensures k in Overwrite(m, items) && Overwrite(m, items)[k] == m[k]
  {
    if items != [] { OverwriteOthers(m, items[..|items| - 1], k); }
  }

  lemma HeldStays<T(!new)>(l: Layout<T>, max: nat, s: State<T>, e: Event<T>, s': State<T>, k: Bytes, v: T)
    requires Next(l, s, e.op, s', e.r) && CountStep(max, s, e, s') && Holds(s, k, v) && Spares(max, s, e.op, k)
    ensures Holds(s', k, v)
  {
    if e.op.WriteMany? {
      AllInserted(max, s.cache, e.op.items, s'.cache);
      OverwriteOthers(s.cache, e.op.items, k);
    }
  }

  /** A value that was written stays the answer, through any reads, writes and removals of other
      keys, commits and writes of other stores, and whether or not it is committed itself, as
      long as what is cached meanwhile has room. */
  lemma {:induction false} WrittenHeld<T(!new)>(l: Layout<T>, max: nat, states: seq<State<T>>, events: seq<Event<T>>,
                                                i: nat, n: nat, k: Bytes, v: T)
    requires Run(l, max, states, events) && i < n <= |events| && max > 0 && Stores(events[i], k, v)
    requires forall m | i < m < n :: Spares(max, states[m], events[m].op, k)
    ensures Holds(states[n], k, v)
  {
    var m := n - 1;
    assert StepsAt(l, max, states, events, m);
    if m == i {
      StoredHeld(l, max, states[m], events[m], states[n], k, v);
    } else {
      WrittenHeld(l, max, states, events, i, m, k, v);
      HeldStays(l, max, states[m], events[m], states[n], k, v);
    }
  }

  /** So a read answers it, `has` knows the key, and a guarded write of it is refused. */
  lemma WrittenAnswered<T(!new)>(l: Layout<T>, max: nat, states: seq<State<T>>, events: seq<Event<T>>,
                                 i: nat, n: nat, k: Bytes, v: T)
    requires Run(l, max, states, events) && i < n < |events| && max > 0 && Stores(events[i], k, v)
    requires forall m | i < m < n :: Spares(max, states[m], events[m].op, k)
    ensures events[n].op == Op.Read(k) ==> events[n].r == Data(Ok(v))
    ensures events[n].op == Op.Has(k) ==> events[n].r == Answer(true)
    ensures events[n].op.Insert? && events[n].op.k == k ==> events[n].r == Inserted(false) && states[n + 1] == states[n]
  {
    WrittenHeld(l, max, states, events, i, n, k, v);
    assert StepsAt(l, max, states, events, n);
  }
}
