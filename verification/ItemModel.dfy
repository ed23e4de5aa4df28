/** The cached single-row item with migration on read: a register that survives crashes. */
module ItemModel {
  import opened Bytes
  import opened Codecs
  import opened Database

  /** Where the current row is, and where an old row may be. */
  datatype Place<!T> = Place(live: Bytes, legacy: Option<Bytes>, codec: Codec<T>)
  {
    /** What an uncached read returns. */
    function Value(rows: Rows): Result<T> {
      if live in rows then Decoded(codec.decode(rows[live]))
      else if HasLegacy(rows) then Decoded(codec.decodeLegacy(rows[legacy.value]))
      else Err(KeyNotFound)
    }

    predicate HasLegacy(rows: Rows) {
      legacy.Some? && legacy.value in rows
    }

    predicate IsMine(k: Bytes) {
      k == live || legacy == Some(k)
    }

    /** Both deletes of `remove`, in the order they are issued. */
    function Deletes(): seq<WriteOp> {
      [Delete(live)] + (if legacy.Some? then [Delete(legacy.value)] else [])
    }

    /** An uncached read finds an old row that it can convert. */
    predicate Migrates(rows: Rows) {
      live !in rows && HasLegacy(rows) && codec.decodeLegacy(rows[legacy.value]).Some?
    }

    function MigrationPut(rows: Rows): Rows
      requires Migrates(rows)
    {
      rows[live := codec.encode(codec.decodeLegacy(rows[legacy.value]).value)]
    }
  }

  datatype ItemState<!T> = ItemState(rows: Rows, batch: seq<WriteOp>, cached: Option<T>)
  {
    function Overlay(): Rows {
      Apply(rows, batch)
    }
  }

  /** `TornRead` and `TornRemove` are crashes between the two row writes of a
      migrating read and of a direct remove; `Crash` is a crash between calls. */
  datatype ItemOp<!T> =
    | Read
    | Write(direct: bool, x: T)
    | Update(direct: bool, f: T -> T)
    | Remove(direct: bool)
    | Commit
    | Foreign(direct: bool, op: WriteOp)
    | Crash
    | TornRead
    | TornRemove

  predicate ReadStep<T(==)>(p: Place<T>, rows: Rows, cached: Option<T>, rows': Rows, cached': Option<T>, r: Result<T>) {
    if cached.Some? then r == Ok(cached.value) && rows' == rows && cached' == cached
    else
      && r == p.Value(rows)
      && cached' == (if r.Ok? then Some(r.value) else None)
      && rows' == if p.Migrates(rows) then p.MigrationPut(rows) - {p.legacy.value} else rows
  }

  predicate Emitted<T>(s: ItemState<T>, s': ItemState<T>, direct: bool, ops: seq<WriteOp>) {
    if direct then s'.rows == Apply(s.rows, ops) && s'.batch == s.batch
    else s'.rows == s.rows && s'.batch == s.batch + ops
  }

  function Current<T>(p: Place<T>, s: ItemState<T>): Result<T> {
    if s.cached.Some? then Ok(s.cached.value) else p.Value(s.rows)
  }

  ghost predicate Next<T>(p: Place<T>, s: ItemState<T>, op: ItemOp<T>, s': ItemState<T>, r: Result<T>) {
    match op
    case Read => ReadStep(p, s.rows, s.cached, s'.rows, s'.cached, r) && s'.batch == s.batch
    case Write(d, x) => Emitted(s, s', d, [Put(p.live, p.codec.encode(x))]) && s'.cached == Some(x) && r == Ok(x)
    case Update(d, f) =>
      (match Current(p, s)
       case Ok(x) =>
         && Emitted(s, s', d, [Put(p.live, p.codec.encode(f(x)))])
         && s'.cached == Some(f(x)) && r == Ok(f(x))
       case Err(e) => s' == s && r == Err(e))
    case Remove(d) => Emitted(s, s', d, p.Deletes()) && s'.cached == None && r == Err(KeyNotFound)
    case Commit => s' == ItemState(s.Overlay(), [], s.cached) && r == Err(KeyNotFound)
    case Foreign(d, w) => Emitted(s, s', d, [w]) && s'.cached == s.cached && r == Err(KeyNotFound)
    case Crash => s' == ItemState(s.rows, [], None) && r == Err(KeyNotFound)
    case TornRead =>
      && s.cached == None && p.Migrates(s.rows)
      && s' == ItemState(p.MigrationPut(s.rows), [], None) && r == Err(KeyNotFound)
    case TornRemove => s' == ItemState(s.rows - {p.live}, [], None) && r == Err(KeyNotFound)
  }

  /** The call writes rows of this item at once. */
  predicate Direct<T>(op: ItemOp<T>) {
    match op
    case Write(d, _) => d
    case Update(d, _) => d
    case Remove(d) => d
    case _ => false
  }

  ghost predicate Unstaged<T>(p: Place<T>, s: ItemState<T>) {
    forall k | p.IsMine(k) :: !Touched(s.batch, k)
  }

  /** The rows may be consulted: nothing of this item is staged, or the rows have no value
      that a staged removal would take away. */
  ghost predicate Consultable<T>(p: Place<T>, s: ItemState<T>) {
    s.cached == None ==> Unstaged(p, s) || !p.Value(s.rows).Ok?
  }

  /** A direct write of this item waits for its staged ones, a value is not read from the
      rows over a staged removal, and a remove is not torn over a leftover old row. */
  ghost predicate Allowed<T>(p: Place<T>, s: ItemState<T>, op: ItemOp<T>) {
    && (Direct(op) ==> Unstaged(p, s))
    && match op
       case Read => Consultable(p, s)
       case Update(_, _) => Consultable(p, s)
       case Foreign(_, w) => forall k | p.IsMine(k) :: !w.Touches(k)
       case TornRemove => p.legacy == Some(p.live) || !p.HasLegacy(s.rows)
       case _ => true
  }

  // ---- The register ----

  /** What a restart would see, and what the process sees with its batch. */
  datatype Register<+T> = Register(durable: Option<T>, current: Option<T>)

  function RegisterNext<T>(g: Register<T>, op: ItemOp<T>): Register<T> {
    match op
    case Read => g
    case Write(d, x) => Register(if d then Some(x) else g.durable, Some(x))
    case Update(d, f) =>
      if g.current.None? then g
      else Register(if d then Some(f(g.current.value)) else g.durable, Some(f(g.current.value)))
    case Remove(d) => Register(if d then None else g.durable, None)
    case Commit => Register(g.current, g.current)
    case Foreign(_, _) => g
    case Crash => Register(g.durable, g.durable)
    case TornRead => Register(g.durable, g.durable)
    case TornRemove => Register(None, None)
  }

  /** What `read` and `update` return; `write` echoes its argument, the rest returns nothing. */
  function RegisterResponse<T>(g: Register<T>, op: ItemOp<T>): Result<T> {
    match op
    case Read => AsResult(g.current)
    case Write(_, x) => Ok(x)
    case Update(_, f) => if g.current.Some? then Ok(f(g.current.value)) else Err(KeyNotFound)
    case _ => Err(KeyNotFound)
  }

  function AsResult<T>(o: Option<T>): Result<T> {
    if o.Some? then Ok(o.value) else Err(KeyNotFound)
  }

  ghost predicate Refines<T>(p: Place<T>, s: ItemState<T>, g: Register<T>) {
    && p.Value(s.rows) == AsResult(g.durable)
    && p.Value(s.Overlay()) == AsResult(g.current)
    && (s.cached.Some? ==> g.current == s.cached)
    && (s.cached.None? ==> Unstaged(p, s) || g.current.None?)
  }

  lemma ValueSame<T>(p: Place<T>, a: Rows, b: Rows)
    requires forall k | p.IsMine(k) :: SameAt(a, b, k)
    ensures p.Value(a) == p.Value(b) && p.Migrates(a) == p.Migrates(b)
  {
    assert p.IsMine(p.live) && SameAt(a, b, p.live);
    if p.legacy.Some? { assert p.IsMine(p.legacy.value) && SameAt(a, b, p.legacy.value); }
  }

  lemma UnstagedSame<T>(p: Place<T>, rows: Rows, ops: seq<WriteOp>)
    requires forall k | p.IsMine(k) :: !Touched(ops, k)
    ensures forall k | p.IsMine(k) :: SameAt(rows, Apply(rows, ops), k)
    ensures p.Value(Apply(rows, ops)) == p.Value(rows)
  {
    forall k | p.IsMine(k) ensures SameAt(rows, Apply(rows, ops), k) { UntouchedSame(rows, ops, k); }
    ValueSame(p, rows, Apply(rows, ops));
  }

  /** Neither write of the migration changes the value. */
  lemma MigrationKeepsValue<T(!new)>(p: Place<T>, rows: Rows)
    requires RoundTrips(p.codec) && p.Migrates(rows)
    ensures p.Value(p.MigrationPut(rows)) == p.Value(rows)
    ensures p.Value(p.MigrationPut(rows) - {p.legacy.value}) == p.Value(rows)
  {
  }

  /** A read that finds a value in the rows leaves it there as a current row: an old row is
      replaced, a current one stays as it is, and no other row changes. */
  lemma ReadMigrates<T(!new)>(p: Place<T>, s: ItemState<T>, s': ItemState<T>, r: Result<T>)
    requires RoundTrips(p.codec) && Next(p, s, Read, s', r) && s.cached == None && r.Ok?
    ensures p.live in s'.rows && p.codec.decode(s'.rows[p.live]) == Some(r.value)
    ensures if p.live in s.rows then s'.rows == s.rows else !p.HasLegacy(s'.rows)
    ensures forall k | !p.IsMine(k) :: SameAt(s.rows, s'.rows, k)
    ensures s'.cached == Some(r.value)
  {
  }

  /** The write position of a batch does not matter to a value it does not touch. */
  lemma ReadStepKeeps<T(!new)>(p: Place<T>, s: ItemState<T>, s': ItemState<T>, r: Result<T>, g: Register<T>)
    requires RoundTrips(p.codec) && Refines(p, s, g) && Allowed(p, s, Read) && Next(p, s, Read, s', r)
    ensures Refines(p, s', g) && r == AsResult(g.current)
  {
    if s.cached.None? && Unstaged(p, s) {
      UnstagedSame(p, s.rows, s.batch);
      UnstagedSame(p, s'.rows, s.batch);
      if p.Migrates(s.rows) { MigrationKeepsValue(p, s.rows); }
    }
  }

  lemma PutSets<T(!new)>(p: Place<T>, rows: Rows, x: T)
    requires RoundTrips(p.codec)
    ensures p.Value(Apply(rows, [Put(p.live, p.codec.encode(x))])) == Ok(x)
  {
    ApplyOne(rows, Put(p.live, p.codec.encode(x)));
  }

  lemma DeletesApply<T>(p: Place<T>, rows: Rows)
    ensures Apply(rows, p.Deletes()) ==
            if p.legacy.Some? then rows - {p.live} - {p.legacy.value} else rows - {p.live}
  {
    var d := Delete(p.live);
    ApplyOne(rows, d);
    if p.legacy.Some? {
      ApplySnoc(rows, [d], Delete(p.legacy.value));
    } else {
      assert p.Deletes() == [d];
    }
  }

  lemma DeletesClear<T>(p: Place<T>, rows: Rows)
    ensures p.Value(Apply(rows, p.Deletes())) == Err(KeyNotFound)
  {
    DeletesApply(p, rows);
  }

  /** The step of a write seen through the batch, for the item's own rows. */
  lemma EmittedOverlay<T>(p: Place<T>, s: ItemState<T>, s': ItemState<T>, direct: bool, ops: seq<WriteOp>)
    requires Emitted(s, s', direct, ops)
    requires direct ==> Unstaged(p, s) || forall k | p.IsMine(k) :: !Touched(ops, k)
    ensures forall k | p.IsMine(k) :: SameAt(Apply(s.Overlay(), ops), s'.Overlay(), k)
    ensures p.Value(s'.Overlay()) == p.Value(Apply(s.Overlay(), ops))
  {
    if direct {
      forall k | p.IsMine(k) ensures SameAt(Apply(s.Overlay(), ops), s'.Overlay(), k) {
        Commute(s.rows, ops, s.batch, k);
      }
    } else {
      ApplyConcat(s.rows, s.batch, ops);
    }
    ValueSame(p, Apply(s.Overlay(), ops), s'.Overlay());
  }

  lemma PutStep<T(!new)>(p: Place<T>, s: ItemState<T>, s': ItemState<T>, direct: bool, x: T)
    requires RoundTrips(p.codec) && (direct ==> Unstaged(p, s))
    requires Emitted(s, s', direct, [Put(p.live, p.codec.encode(x))])
    ensures p.Value(s'.Overlay()) == Ok(x) && p.Value(s'.rows) == if direct then Ok(x) else p.Value(s.rows)
  {
    EmittedOverlay(p, s, s', direct, [Put(p.live, p.codec.encode(x))]);
    PutSets(p, s.Overlay(), x);
    PutSets(p, s.rows, x);
  }

  lemma RemoveStep<T>(p: Place<T>, s: ItemState<T>, s': ItemState<T>, direct: bool)
    requires (direct ==> Unstaged(p, s)) && Emitted(s, s', direct, p.Deletes())
    ensures p.Value(s'.Overlay()) == Err(KeyNotFound)
    ensures p.Value(s'.rows) == if direct then Err(KeyNotFound) else p.Value(s.rows)
  {
    EmittedOverlay(p, s, s', direct, p.Deletes());
    DeletesClear(p, s.Overlay());
    DeletesClear(p, s.rows);
  }

  lemma ForeignStep<T>(p: Place<T>, s: ItemState<T>, s': ItemState<T>, direct: bool, w: WriteOp)
    requires Emitted(s, s', direct, [w]) && forall k | p.IsMine(k) :: !w.Touches(k)
    ensures forall k | p.IsMine(k) :: SameAt(s.rows, s'.rows, k) && SameAt(s.Overlay(), s'.Overlay(), k)
    ensures p.Value(s'.Overlay()) == p.Value(s.Overlay()) && p.Value(s'.rows) == p.Value(s.rows)
  {
    assert forall k | p.IsMine(k) :: !Touched([w], k);
    EmittedOverlay(p, s, s', direct, [w]);
    UnstagedSame(p, s.Overlay(), [w]);
    UnstagedSame(p, s.rows, [w]);
  }

  lemma StepIsRegisterStep<T(!new)>(p: Place<T>, s: ItemState<T>, op: ItemOp<T>, s': ItemState<T>, r: Result<T>, g: Register<T>)
    requires RoundTrips(p.codec) && Refines(p, s, g) && Allowed(p, s, op) && Next(p, s, op, s', r)
    ensures Refines(p, s', RegisterNext(g, op)) && r == RegisterResponse(g, op)
  {
    match op {
      case Read => ReadStepKeeps(p, s, s', r, g);
      case Write(d, x) => PutStep(p, s, s', d, x);
      case Update(d, f) =>
        if s.cached.None? && Unstaged(p, s) { UnstagedSame(p, s.rows, s.batch); }
        if Current(p, s).Ok? {
          PutStep(p, s, s', d, f(Current(p, s).value));
        }
      case Remove(d) => RemoveStep(p, s, s', d);
      case Foreign(d, w) => ForeignStep(p, s, s', d, w);
      case TornRead => MigrationKeepsValue(p, s.rows);
      case _ =>
    }
  }

  datatype ItemEvent<!T> = ItemEvent(op: ItemOp<T>, r: Result<T>)

  ghost predicate Step<T>(p: Place<T>, s: ItemState<T>, e: ItemEvent<T>, s': ItemState<T>) {
    Allowed(p, s, e.op) && Next(p, s, e.op, s', e.r)
  }

  /** The run takes step `i`. */
  ghost predicate StepsAt<T>(p: Place<T>, states: seq<ItemState<T>>, events: seq<ItemEvent<T>>, i: nat)
    requires |states| == |events| + 1 && i < |events|
  {
    Step(p, states[i], events[i], states[i + 1])
  }

  ghost predicate Run<T>(p: Place<T>, states: seq<ItemState<T>>, events: seq<ItemEvent<T>>) {
    && |states| == |events| + 1
    && forall i | 0 <= i < |events| :: StepsAt(p, states, events, i)
  }

  lemma RunStep<T>(p: Place<T>, states: seq<ItemState<T>>, events: seq<ItemEvent<T>>, i: nat)
    requires Run(p, states, events) && i < |events|
    ensures Step(p, states[i], events[i], states[i + 1])
  {
    assert StepsAt(p, states, events, i);
  }

  function RegisterRun<T>(g: Register<T>, events: seq<ItemEvent<T>>): Register<T> {
    if events == [] then g
    else RegisterNext(RegisterRun(g, events[..|events| - 1]), events[|events| - 1].op)
  }

  lemma RegisterRunSnoc<T>(g: Register<T>, events: seq<ItemEvent<T>>, n: nat)
    requires n < |events|
    ensures RegisterRun(g, events[..n + 1]) == RegisterNext(RegisterRun(g, events[..n]), events[n].op)
  {
    assert events[..n + 1][..n] == events[..n];
  }

  lemma EventIsRegisterStep<T(!new)>(p: Place<T>, s: ItemState<T>, e: ItemEvent<T>, s': ItemState<T>, g: Register<T>)
    requires RoundTrips(p.codec) && Refines(p, s, g) && Step(p, s, e, s')
    ensures Refines(p, s', RegisterNext(g, e.op)) && e.r == RegisterResponse(g, e.op)
  {
    StepIsRegisterStep(p, s, e.op, s', e.r, g);
  }

  /** Over every run, with batches and with crashes between and inside calls, in which no value
      is read from the rows over a staged removal, the item is one register: reading migrates
      rows without changing the value. */
  lemma {:induction false} ItemIsRegister<T(!new)>(p: Place<T>, states: seq<ItemState<T>>, events: seq<ItemEvent<T>>, g: Register<T>, n: nat)
    requires RoundTrips(p.codec) && Run(p, states, events) && Refines(p, states[0], g) && n <= |events|
    ensures Refines(p, states[n], RegisterRun(g, events[..n]))
    ensures n < |events| ==> events[n].r == RegisterResponse(RegisterRun(g, events[..n]), events[n].op)
  {
    if n > 0 {
      var m := n - 1;
      ItemIsRegister(p, states, events, g, m);
      RunStep(p, states, events, m);
      EventIsRegisterStep(p, states[m], events[m], states[m + 1], RegisterRun(g, events[..m]));
      RegisterRunSnoc(g, events, m);
    }
    if n < |events| {
      RunStep(p, states, events, n);
      EventIsRegisterStep(p, states[n], events[n], states[n + 1], RegisterRun(g, events[..n]));
    }
  }

  // ---- The old value never returns ----

  /** An uncached read of these rows does not look at the old row. */
  predicate Past<T>(p: Place<T>, rows: Rows) {
    p.live in rows || !p.HasLegacy(rows)
  }

  /** The item's value is settled for good, or, before a commit, for as long as the process lives. */
  ghost predicate Settled<T>(p: Place<T>, s: ItemState<T>) {
    Past(p, s.rows) && Past(p, s.Overlay())
  }

  /** The call decides the value: a write, a removal, or an update that finds a value. */
  predicate Decides<T>(e: ItemEvent<T>) {
    e.op.Write? || e.op.Remove? || (e.op.Update? && e.r.Ok?)
  }

  predicate Crashes<T>(op: ItemOp<T>) {
    op.Crash? || op.TornRead? || op.TornRemove?
  }

  lemma PastSame<T>(p: Place<T>, a: Rows, b: Rows)
    requires forall k | p.IsMine(k) :: SameAt(a, b, k)
    ensures Past(p, a) == Past(p, b)
  {
    assert p.IsMine(p.live) && SameAt(a, b, p.live);
    if p.legacy.Some? { assert p.IsMine(p.legacy.value) && SameAt(a, b, p.legacy.value); }
  }

  lemma PutPast<T>(p: Place<T>, rows: Rows, data: Bytes)
    ensures Past(p, Apply(rows, [Put(p.live, data)]))
  {
    ApplyOne(rows, Put(p.live, data));
  }

  lemma DeletesPast<T>(p: Place<T>, rows: Rows)
    ensures Past(p, Apply(rows, p.Deletes()))
  {
    DeletesApply(p, rows);
  }

  lemma UnstagedPast<T>(p: Place<T>, s: ItemState<T>)
    requires Unstaged(p, s)
    ensures Past(p, s.rows) == Past(p, s.Overlay())
  {
    UnstagedSame(p, s.rows, s.batch);
    PastSame(p, s.rows, s.Overlay());
  }

  lemma EmittedPast<T>(p: Place<T>, s: ItemState<T>, s': ItemState<T>, direct: bool, ops: seq<WriteOp>)
    requires Emitted(s, s', direct, ops) && (direct ==> Unstaged(p, s))
    requires Past(p, Apply(s.rows, ops)) && Past(p, Apply(s.Overlay(), ops))
    ensures Past(p, s'.Overlay()) && (direct || Past(p, s.rows) ==> Past(p, s'.rows))
  {
    EmittedOverlay(p, s, s', direct, ops);
    PastSame(p, Apply(s.Overlay(), ops), s'.Overlay());
  }

  /** A deciding call settles the staged view, and a direct one the rows too. */
  lemma DecidingStep<T>(p: Place<T>, s: ItemState<T>, e: ItemEvent<T>, s': ItemState<T>)
    requires Step(p, s, e, s') && Decides(e)
    ensures Past(p, s'.Overlay()) && (Direct(e.op) || Past(p, s.rows) ==> Past(p, s'.rows))
  {
    match e.op {
      case Write(d, x) => PutEmittedPast(p, s, s', d, p.codec.encode(x));
      case Update(d, f) => PutEmittedPast(p, s, s', d, p.codec.encode(f(Current(p, s).value)));
      case Remove(d) =>
        DeletesPast(p, s.rows);
        DeletesPast(p, s.Overlay());
        EmittedPast(p, s, s', d, p.Deletes());
    }
  }

  lemma PutEmittedPast<T>(p: Place<T>, s: ItemState<T>, s': ItemState<T>, direct: bool, data: Bytes)
    requires Emitted(s, s', direct, [Put(p.live, data)]) && (direct ==> Unstaged(p, s))
    ensures Past(p, s'.Overlay()) && (direct || Past(p, s.rows) ==> Past(p, s'.rows))
  {
    PutPast(p, s.rows, data);
    PutPast(p, s.Overlay(), data);
    EmittedPast(p, s, s', direct, [Put(p.live, data)]);
  }

  /** No call unsettles the staged view, and none the rows either if both are settled; only
      a crash, which drops the batch, falls back to the rows. */
  lemma PastStep<T>(p: Place<T>, s: ItemState<T>, e: ItemEvent<T>, s': ItemState<T>)
    requires Step(p, s, e, s') && Past(p, s.Overlay()) && (Crashes(e.op) ==> Past(p, s.rows))
    ensures Past(p, s'.Overlay())
    ensures Past(p, s.rows) || e.op.Commit? ==> Past(p, s'.rows)
  {
    if Decides(e) {
      DecidingStep(p, s, e, s');
    } else if e.op.Foreign? {
      ForeignStep(p, s, s', e.op.direct, e.op.op);
      PastSame(p, s.rows, s'.rows);
      PastSame(p, s.Overlay(), s'.Overlay());
    } else if e.op.Read? && s.cached.None? {
      if Unstaged(p, s) { UnstagedPast(p, s); }
      assert s'.rows == s.rows;
    }
  }

  /** The same item with another decoder for old rows. */
  function WithLegacy<T>(p: Place<T>, decoder: Bytes -> Option<T>): Place<T> {
    p.(codec := p.codec.(decodeLegacy := decoder))
  }

  /** A settled item takes the same steps whatever the decoder of old rows is. */
  lemma LegacyUnused<T>(p: Place<T>, s: ItemState<T>, e: ItemEvent<T>, s': ItemState<T>, decoder: Bytes -> Option<T>)
    requires Step(p, s, e, s') && Past(p, s.rows)
    ensures Step(WithLegacy(p, decoder), s, e, s')
  {
    var q := WithLegacy(p, decoder);
    assert q.Value(s.rows) == p.Value(s.rows) && !q.Migrates(s.rows) && !p.Migrates(s.rows);
    assert q.Deletes() == p.Deletes();
  }

  lemma {:induction false} SettledRun<T>(p: Place<T>, states: seq<ItemState<T>>, events: seq<ItemEvent<T>>, i: nat, n: nat)
    requires Run(p, states, events) && i <= n <= |events| && Settled(p, states[i])
    ensures Settled(p, states[n])
  {
    if i < n {
      SettledRun(p, states, events, i, n - 1);
      RunStep(p, states, events, n - 1);
      PastStep(p, states[n - 1], events[n - 1], states[n]);
    }
  }

  lemma {:induction false} StagedRun<T>(p: Place<T>, states: seq<ItemState<T>>, events: seq<ItemEvent<T>>, i: nat, n: nat)
    requires Run(p, states, events) && i <= n <= |events| && Past(p, states[i].Overlay())
    requires forall j | i <= j < n :: !Crashes(events[j].op)
    ensures Past(p, states[n].Overlay())
  {
    if i < n {
      StagedRun(p, states, events, i, n - 1);
      RunStep(p, states, events, n - 1);
      PastStep(p, states[n - 1], events[n - 1], states[n]);
    }
  }

  /** The deciding call `i` is durable from state `d` on: it was direct, or its batch was
      committed before any crash. */
  ghost predicate DurableFrom<T>(events: seq<ItemEvent<T>>, i: nat, d: nat)
    requires i < d <= |events|
  {
    || (Direct(events[i].op) && d == i + 1)
    || (events[d - 1].op.Commit? && forall j | i < j < d :: !Crashes(events[j].op))
  }

  lemma DurableSettles<T>(p: Place<T>, states: seq<ItemState<T>>, events: seq<ItemEvent<T>>, i: nat, d: nat)
    requires Run(p, states, events) && i < d <= |events| && Decides(events[i]) && DurableFrom(events, i, d)
    ensures Settled(p, states[d])
  {
    RunStep(p, states, events, i);
    DecidingStep(p, states[i], events[i], states[i + 1]);
    if !(Direct(events[i].op) && d == i + 1) {
      assert d - 1 > i;
      StagedRun(p, states, events, i + 1, d - 1);
      RunStep(p, states, events, d - 1);
      PastStep(p, states[d - 1], events[d - 1], states[d]);
    }
  }

  /** Once a write, an update or a removal is durable, the old row is never consulted again,
      whatever follows, crashes included: the rest of the run is a run of the item with
      any other decoder for old rows. */
  lemma OldValueNeverReturns<T>(p: Place<T>, states: seq<ItemState<T>>, events: seq<ItemEvent<T>>, i: nat, d: nat, n: nat,
                                decoder: Bytes -> Option<T>)
    requires Run(p, states, events) && i < d <= n <= |events| && Decides(events[i]) && DurableFrom(events, i, d)
    ensures Settled(p, states[n])
    ensures n < |events| ==> Step(WithLegacy(p, decoder), states[n], events[n], states[n + 1])
    ensures WithLegacy(p, decoder).Value(states[n].rows) == p.Value(states[n].rows)
  {
    DurableSettles(p, states, events, i, d);
    SettledRun(p, states, events, d, n);
    if n < |events| {
      RunStep(p, states, events, n);
      LegacyUnused(p, states[n], events[n], states[n + 1], decoder);
    }
  }

  /** A direct remove torn by a crash: the item reads as removed exactly when there is
      no separate old row left for the missing second delete. */
  lemma TornRemoveExact<T>(p: Place<T>, rows: Rows)
    ensures p.Value(rows - {p.live}) == Err(KeyNotFound)
            <==> p.legacy == Some(p.live) || !p.HasLegacy(rows)
  {
  }

  /** Write over an old row without reading it first, then tear a remove: the old value is back. */
  lemma TornRemoveResurrects<T(!new)>(p: Place<T>, old_: Bytes, x: T) returns (s0: ItemState<T>, s1: ItemState<T>, s2: ItemState<T>)
    requires RoundTrips(p.codec) && p.legacy.Some? && p.legacy.value != p.live && p.codec.decodeLegacy(old_).Some?
    ensures s0 == ItemState(map[p.legacy.value := old_], [], None)
    ensures Next(p, s0, Write(true, x), s1, Ok(x)) && p.Value(s1.rows) == Ok(x)
    ensures Next(p, s1, TornRemove, s2, Err(KeyNotFound))
    ensures p.Value(s2.rows) == Ok(p.codec.decodeLegacy(old_).value)
  {
    var put := Put(p.live, p.codec.encode(x));
    s0 := ItemState(map[p.legacy.value := old_], [], None);
    ApplyOne(s0.rows, put);
    s1 := ItemState(ApplyOp(s0.rows, put), [], Some(x));
    s2 := ItemState(s1.rows - {p.live}, [], None);
  }

  /** A read or update that goes to the rows answers as the register does if and only if nothing
      of this item is staged or the rows have no value: otherwise a staged removal is overlooked. */
  lemma StagedReadExact<T(!new)>(p: Place<T>, s: ItemState<T>, op: ItemOp<T>, s': ItemState<T>, r: Result<T>, g: Register<T>)
    requires RoundTrips(p.codec) && Refines(p, s, g) && Next(p, s, op, s', r)
    requires op.Read? || (op.Update? && (op.direct ==> Unstaged(p, s)))
    ensures r == RegisterResponse(g, op) <==> Consultable(p, s)
    ensures Consultable(p, s) ==> Refines(p, s', RegisterNext(g, op))
  {
    if Consultable(p, s) { StepIsRegisterStep(p, s, op, s', r, g); }
  }

  lemma DeletesAll<T>(p: Place<T>, data: Bytes)
    ensures Apply(map[p.live := data], p.Deletes()) == map[]
  {
    DeletesApply(p, map[p.live := data]);
  }

  /** For every item and value: remove it in a batch, read it before the commit, commit, and the
      removed value is still answered while the rows have none. */
  lemma StagedRemoveOverlooked<T(!new)>(p: Place<T>, x: T)
    returns (s0: ItemState<T>, s1: ItemState<T>, s2: ItemState<T>, s3: ItemState<T>)
    requires RoundTrips(p.codec)
    ensures s0.batch == [] && p.Value(s0.rows) == Ok(x)
    ensures Next(p, s0, Remove(false), s1, Err(KeyNotFound))
    ensures Next(p, s1, Read, s2, Ok(x))
    ensures Next(p, s2, Commit, s3, Err(KeyNotFound))
    ensures Next(p, s3, Read, s3, Ok(x))
    ensures p.Value(s3.rows) == Err(KeyNotFound)
  {
    var rows: Rows := map[p.live := p.codec.encode(x)];
    s0 := ItemState(rows, [], Some(x));
    s1 := ItemState(rows, p.Deletes(), None);
    s2 := ItemState(rows, p.Deletes(), Some(x));
    s3 := ItemState(map[], [], Some(x));
    assert s0.batch + p.Deletes() == p.Deletes();
    DeletesAll(p, p.codec.encode(x));
  }

  /** The batch puts this item at its live row only, and a removal takes the old row too. */
  predicate OwnStaged<T>(p: Place<T>, ops: seq<WriteOp>) {
    p.legacy.None? || p.legacy == Some(p.live) ||
    match LastTouch(ops, p.legacy.value)
    case None => LastTouch(ops, p.live).None? || LastTouch(ops, p.live).value.Put?
    case Some(w) => !w.Put?
  }

  lemma LastTouchSnoc(ops: seq<WriteOp>, w: WriteOp, k: Bytes)
    ensures LastTouch(ops + [w], k) == if w.Touches(k) then Some(w) else LastTouch(ops, k)
  {
    assert (ops + [w])[..|ops|] == ops;
  }

  lemma OwnSnoc<T>(p: Place<T>, ops: seq<WriteOp>, w: WriteOp)
    requires OwnStaged(p, ops) && (forall k | p.IsMine(k) && w.Touches(k) :: k == p.live && w.Put?)
    ensures OwnStaged(p, ops + [w])
  {
    LastTouchSnoc(ops, w, p.live);
    if p.legacy.Some? { LastTouchSnoc(ops, w, p.legacy.value); }
  }

  lemma OwnDeletes<T>(p: Place<T>, ops: seq<WriteOp>)
    requires OwnStaged(p, ops)
    ensures OwnStaged(p, ops + p.Deletes())
  {
    if p.legacy.Some? {
      assert ops + p.Deletes() == ops + [Delete(p.live)] + [Delete(p.legacy.value)];
      LastTouchSnoc(ops + [Delete(p.live)], Delete(p.legacy.value), p.legacy.value);
    }
  }

  lemma OwnStep<T>(p: Place<T>, s: ItemState<T>, e: ItemEvent<T>, s': ItemState<T>)
    requires Step(p, s, e, s') && OwnStaged(p, s.batch)
    ensures OwnStaged(p, s'.batch)
  {
    match e.op {
      case Write(_, x) => OwnSnoc(p, s.batch, Put(p.live, p.codec.encode(x)));
      case Update(_, f) =>
        if Current(p, s).Ok? { OwnSnoc(p, s.batch, Put(p.live, p.codec.encode(f(Current(p, s).value)))); }
      case Remove(_) => OwnDeletes(p, s.batch);
      case Foreign(_, w) => OwnSnoc(p, s.batch, w);
      case _ =>
    }
  }

  /** A direct write over staged ones: what was just written is what the commit leaves exactly
      when the batch does not touch the live row or ends with putting the same value. */
  lemma DirectOverStagedExact<T(!new)>(p: Place<T>, s: ItemState<T>, x: T, s': ItemState<T>)
    requires RoundTrips(p.codec) && Next(p, s, Write(true, x), s', Ok(x)) && OwnStaged(p, s.batch)
    ensures p.Value(s'.Overlay()) == Ok(x) <==>
            match LastTouch(s.batch, p.live)
            case None => true
            case Some(Put(_, data)) => p.codec.decode(data) == Some(x)
            case Some(_) => false
  {
    ApplyOne(s.rows, Put(p.live, p.codec.encode(x)));
    LastTouchDecides(s'.rows, s.batch, p.live);
    if p.legacy.Some? { LastTouchDecides(s'.rows, s.batch, p.legacy.value); }
  }
}
