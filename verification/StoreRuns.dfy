/** Runs of the cached store: the cached, batched, two-layout store is a plain map, on disk
    and as the process sees it. */
module StoreRuns {
  import opened Bytes
  import opened Cache
  import opened Codecs
  import opened Database
  import opened StoreModel

  datatype Event<!T> = Event(op: Op<T>, r: Response<T>)

  ghost predicate Step<T>(l: Layout<T>, s: State<T>, e: Event<T>, s': State<T>) {
    Allowed(l, s, e.op) && Next(l, s, e.op, s', e.r)
  }

  /** The run takes step `i`. */
  ghost predicate StepsAt<T>(l: Layout<T>, states: seq<State<T>>, events: seq<Event<T>>, i: nat)
    requires |states| == |events| + 1 && i < |events|
  {
    Step(l, states[i], events[i], states[i + 1])
  }

  ghost predicate Run<T>(l: Layout<T>, states: seq<State<T>>, events: seq<Event<T>>) {
    && |states| == |events| + 1
    && forall i | 0 <= i < |events| :: StepsAt(l, states, events, i)
  }

  lemma RunStep<T>(l: Layout<T>, states: seq<State<T>>, events: seq<Event<T>>, i: nat)
    requires Run(l, states, events) && i < |events|
    ensures Step(l, states[i], events[i], states[i + 1])
  {
    assert StepsAt(l, states, events, i);
  }

  // ---- Without cache and batch ----

  /** The step is one of the store that has neither cache nor batch. */
  ghost predicate UncachedStep<T>(l: Layout<T>, s: State<T>, e: Event<T>, s': State<T>) {
    && (e.op.RemoveAll? ==> NextPrefix(l.prefix).Some?)
    && (if e.op.Crash? then Overlay(s') == s.rows
        else SameUnder(l.prefix, PlainRows(l, Overlay(s), Effect(e.op, e.r)), Overlay(s')))
    && (Sure(l, s, e.op) ==> e.r == PlainResponse(l, Overlay(s), e.op))
  }

  lemma StepUncached<T(!new)>(l: Layout<T>, s: State<T>, e: Event<T>, s': State<T>)
    requires RoundTrips(l.codec) && Inv(l, s) && Step(l, s, e, s')
    ensures Inv(l, s') && UncachedStep(l, s, e, s')
  {
    StepTransparent(l, s, e.op, s', e.r);
  }

  lemma {:induction false} RunInv<T(!new)>(l: Layout<T>, states: seq<State<T>>, events: seq<Event<T>>, n: nat)
    requires RoundTrips(l.codec) && Run(l, states, events) && Inv(l, states[0]) && n <= |events|
    ensures Inv(l, states[n])
  {
    if n > 0 {
      var m := n - 1;
      RunInv(l, states, events, m);
      RunStep(l, states, events, m);
      StepUncached(l, states[m], events[m], states[m + 1]);
    }
  }

  /** For any database content, malformed rows included: over every run the cached store
      cannot be told from the store that has neither cache nor batch. */
  lemma StoreIsUncached<T(!new)>(l: Layout<T>, states: seq<State<T>>, events: seq<Event<T>>, n: nat)
    requires RoundTrips(l.codec) && Run(l, states, events) && Inv(l, states[0]) && n < |events|
    ensures Inv(l, states[n + 1]) && UncachedStep(l, states[n], events[n], states[n + 1])
  {
    RunInv(l, states, events, n);
    RunStep(l, states, events, n);
    StepUncached(l, states[n], events[n], states[n + 1]);
  }

  // ---- The maps ----

  /** What a restart would find, and what the process sees with its batch. */
  datatype Maps<+T> = Maps(durable: map<Bytes, T>, current: map<Bytes, T>)

  function MapsNext<T>(g: Maps<T>, op: Op<T>): Maps<T> {
    match op
    case Commit => Maps(g.current, g.current)
    case Crash => Maps(g.durable, g.durable)
    case _ => Maps(if Direct(op) then MapNext(g.durable, op) else g.durable, MapNext(g.current, op))
  }

  function MapsStep<T>(g: Maps<T>, e: Event<T>): Maps<T> {
    MapsNext(g, Effect(e.op, e.r))
  }

  function MapsRun<T>(g: Maps<T>, events: seq<Event<T>>): Maps<T> {
    if events == [] then g
    else MapsStep(MapsRun(g, events[..|events| - 1]), events[|events| - 1])
  }

  lemma MapsRunSnoc<T>(g: Maps<T>, events: seq<Event<T>>, n: nat)
    requires n < |events|
    ensures MapsRun(g, events[..n + 1]) == MapsStep(MapsRun(g, events[..n]), events[n])
  {
    assert events[..n + 1][..n] == events[..n];
  }

  /** The batch deals with a legacy row only together with the current one. */
  ghost predicate Paired<T>(l: Layout<T>, ops: seq<WriteOp>) {
    forall k | l.ValidKey(k) && Touched(ops, l.RowKey(k)) :: Touched(ops, l.WriteKey(k))
  }

  /** The state stands for the maps `g`: the rows for the durable one, the rows overlaid with
      the batch for the current one, each with at most one row per key. */
  ghost predicate Refines<T>(l: Layout<T>, s: State<T>, g: Maps<T>) {
    && Inv(l, s) && Paired(l, s.batch)
    && Represents(l, s.rows, g.durable) && Represents(l, Overlay(s), g.current)
  }

  // ---- Pairs ----

  lemma TouchedConcat(a: seq<WriteOp>, b: seq<WriteOp>, row: Bytes)
    ensures Touched(a + b, row) <==> Touched(a, row) || Touched(b, row)
  {
    if i :| 0 <= i < |a| && a[i].Touches(row) { assert (a + b)[i].Touches(row); }
    if i :| 0 <= i < |b| && b[i].Touches(row) { assert (a + b)[|a| + i].Touches(row); }
  }

  lemma PairedConcat<T>(l: Layout<T>, a: seq<WriteOp>, b: seq<WriteOp>)
    requires Paired(l, a) && Paired(l, b)
    ensures Paired(l, a + b)
  {
    forall k | l.ValidKey(k) && Touched(a + b, l.RowKey(k)) ensures Touched(a + b, l.WriteKey(k)) {
      TouchedConcat(a, b, l.RowKey(k));
      TouchedConcat(a, b, l.WriteKey(k));
    }
  }

  lemma {:induction false} DeletesPaired<T>(l: Layout<T>, ks: seq<Bytes>, k: Bytes)
    requires k in ks
    ensures Touched(Deletes(l, ks), l.WriteKey(k))
  {
    var n := |ks| - 1;
    var a, b := Deletes(l, ks[..n]), DeletesOf(l, ks[n]);
    TouchedConcat(a, b, l.WriteKey(k));
    if k == ks[n] { assert b[0].Touches(l.WriteKey(k)); } else { DeletesPaired(l, ks[..n], k); }
  }

  /** A put of this store never lands on a legacy row. */
  lemma PutsPaired<T>(l: Layout<T>, ops: seq<WriteOp>)
    requires CurrentPuts(l, ops) && forall i | 0 <= i < |ops| :: ops[i].Put?
    ensures Paired(l, ops)
  {
    forall k | l.ValidKey(k) && Touched(ops, l.RowKey(k)) ensures Touched(ops, l.WriteKey(k)) {
      var i :| 0 <= i < |ops| && ops[i].Touches(l.RowKey(k));
      WriteKeyRelevant(l, k);
      var j :| l.ValidKey(j) && ops[i].key == l.WriteKey(j);
      WriteKeyRelevant(l, j);
      RelevantDisjoint(l, j, k, l.RowKey(k));
    }
  }

  lemma KeysPaired<T>(l: Layout<T>, op: Op<T>, k: Bytes)
    requires (op.Remove? && l.ValidKey(op.k)) || (op.RemoveMany? && forall j | j in op.ks :: l.ValidKey(j))
    requires l.ValidKey(k) && Touched(Writes(l, op), l.RowKey(k))
    ensures Touched(Writes(l, op), l.WriteKey(k))
  {
    WritesTouch(l, op, l.RowKey(k));
    var j :| j in Keys(op) && l.Relevant(j, l.RowKey(k));
    WriteKeyRelevant(l, k);
    RelevantDisjoint(l, j, k, l.RowKey(k));
    if op.RemoveMany? { DeletesPaired(l, op.ks, k); } else { assert DeletesOf(l, k)[0].Touches(l.WriteKey(k)); }
  }

  lemma WritesPaired<T>(l: Layout<T>, s: State<T>, op: Op<T>)
    requires Allowed(l, s, op)
    ensures Paired(l, Writes(l, op))
  {
    WritesCurrent(l, s, op);
    if op.Remove? || op.RemoveMany? {
      forall k | l.ValidKey(k) && Touched(Writes(l, op), l.RowKey(k)) ensures Touched(Writes(l, op), l.WriteKey(k)) {
        KeysPaired(l, op, k);
      }
    } else if op.RemoveAll? {
      forall k | l.ValidKey(k) ensures Touched(Writes(l, op), l.WriteKey(k)) {
        WriteKeyRelevant(l, k);
        PrefixInterval(l.prefix, l.WriteKey(k));
        assert Writes(l, op)[0].Touches(l.WriteKey(k));
      }
    } else if op.Foreign? {
      forall k | l.ValidKey(k) ensures !Touched(Writes(l, op), l.RowKey(k)) { WriteKeyRelevant(l, k); }
    } else {
      PutsPaired(l, Writes(l, op));
    }
  }

  // ---- The rows themselves ----

  /** What a direct write finds in the rows is what it was allowed for: the batch does not
      hide a legacy row of a key whose current row it leaves alone. */
  lemma DirectWritable<T>(l: Layout<T>, s: State<T>, op: Op<T>, k: Bytes)
    requires Paired(l, s.batch) && l.ValidKey(k) && l.OneRow(s.rows, k) && l.Writable(Overlay(s), k)
    requires (op.RemoveAll? ==> NextPrefix(l.prefix).Some?) && Apart(l, s, op) && Touched(Writes(l, op), l.WriteKey(k))
    ensures l.Writable(s.rows, k)
  {
    WriteKeyRelevant(l, k);
    assert !Touched(s.batch, l.WriteKey(k));
    UntouchedSame(s.rows, s.batch, l.RowKey(k));
  }

  function Bare<T>(s: State<T>): State<T> {
    State(s.rows, [], map[])
  }

  /** A direct write is allowed on the rows alone. */
  lemma DirectAllowed<T>(l: Layout<T>, s: State<T>, op: Op<T>)
    requires Paired(l, s.batch) && (forall k | l.ValidKey(k) :: l.OneRow(s.rows, k)) && Allowed(l, s, op) && Direct(op)
    ensures Allowed(l, Bare(s), op)
  {
    var ops := Writes(l, op);
    match op {
      case Write(_, k, v) =>
        assert ops[0].Touches(l.WriteKey(k));
        DirectWritable(l, s, op, k);
      case WriteMany(_, items) => DirectItems(l, s, op, items);
      case WriteManyWithoutCache(_, items) => DirectItems(l, s, op, items);
      case _ =>
    }
  }

  lemma DirectItems<T>(l: Layout<T>, s: State<T>, op: Op<T>, items: seq<(Bytes, T)>)
    requires Paired(l, s.batch) && (forall k | l.ValidKey(k) :: l.OneRow(s.rows, k)) && Allowed(l, s, op) && Direct(op)
    requires (op.WriteMany? || op.WriteManyWithoutCache?) && op.items == items
    ensures WritableItems(l, s.rows, items)
  {
    forall i | 0 <= i < |items| ensures l.ValidKey(items[i].0) && l.Writable(s.rows, items[i].0) {
      assert Writes(l, op)[i].Touches(l.WriteKey(items[i].0));
      DirectWritable(l, s, op, items[i].0);
    }
  }

  lemma RepresentsOneRow<T>(l: Layout<T>, rows: Rows, m: map<Bytes, T>)
    requires Represents(l, rows, m)
    ensures forall k | l.ValidKey(k) :: l.OneRow(rows, k)
  {
    forall k | l.ValidKey(k) ensures l.OneRow(rows, k) { assert RepresentsAt(l, rows, m, k); }
  }

  lemma DurableStep<T(!new)>(l: Layout<T>, s: State<T>, op: Op<T>, s': State<T>, r: Response<T>, g: Maps<T>)
    requires RoundTrips(l.codec) && Refines(l, s, g) && Allowed(l, s, op) && Next(l, s, op, s', r) && !op.Insert?
    ensures Represents(l, s'.rows, MapsNext(g, op).durable)
  {
    if Direct(op) {
      RepresentsOneRow(l, s.rows, g.durable);
      DirectAllowed(l, s, op);
      assert Overlay(Bare(s)) == s.rows;
      PlainStepIsMapStep(l, Bare(s), op, g.durable);
    }
  }

  lemma CurrentStep<T(!new)>(l: Layout<T>, s: State<T>, op: Op<T>, s': State<T>, r: Response<T>, g: Maps<T>)
    requires RoundTrips(l.codec) && Refines(l, s, g) && Allowed(l, s, op) && Next(l, s, op, s', r) && !op.Insert?
    ensures Represents(l, Overlay(s'), MapsNext(g, op).current)
  {
    StepTransparent(l, s, op, s', r);
    PlainStepIsMapStep(l, s, op, g.current);
    if !op.Crash? { RepresentsSame(l, PlainRows(l, Overlay(s), op), Overlay(s'), MapNext(g.current, op)); }
  }

  lemma PairedStep<T>(l: Layout<T>, s: State<T>, op: Op<T>, s': State<T>, r: Response<T>)
    requires Paired(l, s.batch) && Allowed(l, s, op) && Next(l, s, op, s', r) && !op.Insert?
    ensures Paired(l, s'.batch)
  {
    WritesPaired(l, s, op);
    PairedConcat(l, s.batch, Writes(l, op));
  }

  lemma PlainStepRefines<T(!new)>(l: Layout<T>, s: State<T>, op: Op<T>, s': State<T>, r: Response<T>, g: Maps<T>)
    requires RoundTrips(l.codec) && Refines(l, s, g) && Allowed(l, s, op) && Next(l, s, op, s', r) && !op.Insert?
    ensures Refines(l, s', MapsNext(g, op))
  {
    StepTransparent(l, s, op, s', r);
    DurableStep(l, s, op, s', r, g);
    CurrentStep(l, s, op, s', r, g);
    PairedStep(l, s, op, s', r);
  }

  // ---- Answers ----

  lemma RefinesKnown<T>(l: Layout<T>, s: State<T>, g: Maps<T>, k: Bytes)
    requires Refines(l, s, g) && l.ValidKey(k)
    ensures KnownRows(l, s.rows, k)
    ensures l.Lookup(s.rows, k) == if k in g.durable then Ok(g.durable[k]) else Err(KeyNotFound)
    ensures l.Lookup(Overlay(s), k) == if k in g.current then Ok(g.current[k]) else Err(KeyNotFound)
    ensures l.HasRow(s.rows, k) <==> k in g.durable
    ensures l.HasRow(Overlay(s), k) <==> k in g.current
  {
    assert RepresentsAt(l, s.rows, g.durable, k) && RepresentsAt(l, Overlay(s), g.current, k);
    MapAnswer(l, s.rows, g.durable, k);
    MapAnswer(l, Overlay(s), g.current, k);
  }

  lemma UnstagedKeeps<T>(l: Layout<T>, s: State<T>, k: Bytes)
    requires Inv(l, s) && l.ValidKey(k) && KnownRows(l, s.rows, k) && Unstaged(l, s, k)
    ensures (l.WriteKey(k) in s.rows || l.RowKey(k) in s.rows) <==> CurrentLeft(l, s, k) || LegacyLeft(l, s, k)
  {
    StagedRows(l, s, k);
    LookupUntouched(l, s.rows, s.batch, k);
    LookupLegacyFirst(l, s.rows, k);
    LookupLegacyFirst(l, Overlay(s), k);
  }

  /** A change of presence shows in the rows. */
  lemma PresenceChanged<T>(l: Layout<T>, s: State<T>, k: Bytes)
    requires Inv(l, s) && l.ValidKey(k) && KnownRows(l, s.rows, k) && !PresenceKept(l, s, k)
    ensures l.HasRow(s.rows, k) <==> !l.HasRow(Overlay(s), k)
  {
    StagedRows(l, s, k);
    LookupLegacyFirst(l, s.rows, k);
    LookupLegacyFirst(l, Overlay(s), k);
  }

  lemma AnswerChanged<T>(l: Layout<T>, s: State<T>, g: Maps<T>, k: Bytes)
    requires Refines(l, s, g) && l.ValidKey(k) && !AnswerKept(l, s, k)
    ensures l.Lookup(s.rows, k) != l.Lookup(Overlay(s), k)
  {
    RefinesKnown(l, s, g, k);
    if l.Lookup(s.rows, k).Ok? {
      StagedValue(l, s, k, l.Lookup(s.rows, k).value);
    } else {
      StagedRows(l, s, k);
      LookupLegacyFirst(l, Overlay(s), k);
    }
  }

  /** A query is answered as by the current map if and only if the key is cached or the batch
      does not change the answer. */
  lemma QueryExact<T(!new)>(l: Layout<T>, s: State<T>, op: Op<T>, s': State<T>, r: Response<T>, g: Maps<T>)
    requires RoundTrips(l.codec) && Refines(l, s, g) && Allowed(l, s, op) && Next(l, s, op, s', r)
    ensures Sure(l, s, op) <==> r == MapResponse(g.current, op)
  {
    PlainStepIsMapStep(l, s, op, g.current);
    if Sure(l, s, op) {
      SureAnswer(l, s, op, s', r);
    } else {
      RefinesKnown(l, s, g, op.k);
      if op.Read? { AnswerChanged(l, s, g, op.k); } else { PresenceChanged(l, s, op.k); }
    }
  }

  // ---- The store is a map ----

  /** A step keeps one row per key, on disk and through the batch, and is the maps' step,
      inserts and crashes included; its answer is the current map's exactly when `Sure`. */
  lemma StepIsMapStep<T(!new)>(l: Layout<T>, s: State<T>, e: Event<T>, s': State<T>, g: Maps<T>)
    requires RoundTrips(l.codec) && Step(l, s, e, s') && Refines(l, s, g)
    ensures Refines(l, s', MapsStep(g, e))
    ensures Sure(l, s, e.op) <==> e.r == MapResponse(g.current, e.op)
  {
    QueryExact(l, s, e.op, s', e.r, g);
    if !e.op.Insert? {
      PlainStepRefines(l, s, e.op, s', e.r, g);
    } else if e.r == Inserted(true) {
      InsertIsWrite(l, s, e.op, s', e.r);
      PlainStepRefines(l, s, Effect(e.op, e.r), s', Done, g);
    }
  }

  /** Over every run, whatever the cache evicts, however writes are batched, whichever layout
      each old row has, and wherever the process crashes: the rows are the durable map and the
      rows with the batch the current one, each with at most one row per key, the cache
      stays coherent, and the store answers as the current map exactly when `Sure`. */
  lemma {:induction false} StoreIsMap<T(!new)>(l: Layout<T>, states: seq<State<T>>, events: seq<Event<T>>, g: Maps<T>, n: nat)
    requires RoundTrips(l.codec) && Run(l, states, events) && Refines(l, states[0], g) && n <= |events|
    ensures Refines(l, states[n], MapsRun(g, events[..n]))
    ensures n < |events| ==>
              (Sure(l, states[n], events[n].op) <==>
               events[n].r == MapResponse(MapsRun(g, events[..n]).current, events[n].op))
  {
    if n > 0 {
      StoreIsMap(l, states, events, g, n - 1);
      RunStep(l, states, events, n - 1);
      StepIsMapStep(l, states[n - 1], events[n - 1], states[n], MapsRun(g, events[..n - 1]));
      MapsRunSnoc(g, events, n - 1);
    }
    if n < |events| {
      RunStep(l, states, events, n);
      StepIsMapStep(l, states[n], events[n], states[n + 1], MapsRun(g, events[..n]));
    }
  }

  /** A run may start from any rows that stand for a map, with nothing staged or cached. */
  lemma StartRefines<T>(l: Layout<T>, rows: Rows, m: map<Bytes, T>)
    requires Represents(l, rows, m)
    ensures Refines(l, State(rows, [], map[]), Maps(m, m))
  {
    assert Apply(rows, []) == rows;
  }

  /** At every point of every run the database itself has at most one row per key: what a
      restart, or another cache over the same rows, reads is the durable map. */
  lemma OneRowOnDisk<T(!new)>(l: Layout<T>, states: seq<State<T>>, events: seq<Event<T>>, m: map<Bytes, T>, n: nat, k: Bytes)
    requires RoundTrips(l.codec) && Run(l, states, events) && n <= |events| && l.ValidKey(k)
    requires states[0] == State(states[0].rows, [], map[]) && Represents(l, states[0].rows, m)
    ensures l.OneRow(states[n].rows, k)
    ensures var durable := MapsRun(Maps(m, m), events[..n]).durable;
            l.Lookup(states[n].rows, k) == if k in durable then Ok(durable[k]) else Err(KeyNotFound)
  {
    StartRefines(l, states[0].rows, m);
    StoreIsMap(l, states, events, Maps(m, m), n);
    assert RepresentsAt(l, states[n].rows, MapsRun(Maps(m, m), events[..n]).durable, k);
  }
}
