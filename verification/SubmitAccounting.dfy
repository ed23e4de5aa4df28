/** Share counters under concurrent submissions: every lock acquisition is one step. */
module SubmitAccounting {
  import opened Bytes
  import opened GuardQueue
  import opened Cache
  import D = DuplicateSubmitGuard

  datatype Field = Shares | Stale | Invalid

  datatype Counts = Counts(shares: nat, stale: nat, invalid: nat)
  {
    function Of(f: Field): nat {
      match f
      case Shares => shares
      case Stale => stale
      case Invalid => invalid
    }

    function Bump(f: Field): Counts {
      match f
      case Shares => this.(shares := shares + 1)
      case Stale => this.(stale := stale + 1)
      case Invalid => this.(invalid := invalid + 1)
    }
  }

  /** What a validated submission ends with. */
  datatype Verdict = Accepted | StaleBlock | LowDiff | BadBlock
  {
    function Field(): Field {
      match this
      case Accepted => Shares
      case StaleBlock => Stale
      case LowDiff => Invalid
      case BadBlock => Invalid
    }

    function Outcome(): D.Outcome {
      match this
      case Accepted => D.Accepted
      case StaleBlock => D.Stale
      case LowDiff => D.LowDiff
      case BadBlock => D.Bad
    }
  }

  datatype Phase =
    | Validating                  // key marked in flight, jobs being tried
    | Judged(v: Verdict)
    | Holding(v: Verdict, obj: nat) // has the worker's counters
    | WorkerBumped(v: Verdict)
    | OverallBumped(v: Verdict)
    | Finished(v: Verdict)
    | Answered(o: D.Outcome)      // a duplicate, answered from the guard

  datatype Task = Task(key: string, worker: string, phase: Phase)

  /** A worker's counters, made under the worker's name. */
  datatype WorkStats = WorkStats(worker: string, counts: Counts)

  /** `objs` are all worker counter objects ever created, `stats` the registered ones. */
  datatype State = State(
    guard: Guard<D.Entry>,
    stats: map<string, nat>,
    objs: map<nat, WorkStats>,
    overall: Counts,
    tasks: map<nat, Task>)

  datatype Step =
    | Begin(t: nat, key: string, worker: string, now: nat)
    | Decide(t: nat, v: Verdict, now: nat)
    | Acquire(t: nat, made: nat) // `get_create_stats`
    | BumpWorker(t: nat)
    | BumpOverall(t: nat)
    | Finish(t: nat, now: nat)
    | PruneStats(gone: set<string>)

  predicate At(s: State, t: nat, p: Phase) {
    t in s.tasks && s.tasks[t].phase == p
  }

  function Move(s: State, t: nat, p: Phase): State
    requires t in s.tasks
  {
    s.(tasks := s.tasks[t := s.tasks[t].(phase := p)])
  }

  predicate Enabled(s: State, e: Step) {
    match e
    case Begin(t, _, _, _) => t !in s.tasks
    case Decide(t, _, _) => At(s, t, Validating)
    case Acquire(t, made) =>
      && t in s.tasks && made !in s.objs
      && (s.tasks[t].phase.Judged? || (s.tasks[t].phase.Holding? && s.tasks[t].phase.v == Accepted))
    case BumpWorker(t) => t in s.tasks && s.tasks[t].phase.Holding?
    case BumpOverall(t) => t in s.tasks && s.tasks[t].phase.WorkerBumped?
    case Finish(t, _) => t in s.tasks && s.tasks[t].phase.OverallBumped?
    case PruneStats(_) => true
  }

  /** `get` and, if the key is unknown, `insert_inflight`, under one lock. */
  function GuardBegin(l: Limits<D.Entry>, g: Guard<D.Entry>, key: string, now: nat): Guard<D.Entry> {
    var g' := D.Next(l, g, D.Get(key, now));
    if key in g'.entries then g' else D.Next(l, g', D.InsertInFlight(key, now))
  }

  predicate IsFresh(l: Limits<D.Entry>, g: Guard<D.Entry>, key: string, now: nat) {
    key !in Prune(l, g, now).entries
  }

  function BeginPhase(l: Limits<D.Entry>, g: Guard<D.Entry>, key: string, now: nat): Phase {
    if IsFresh(l, g, key, now) then Validating else Answered(Prune(l, g, now).entries[key].outcome)
  }

  function BumpStats(o: WorkStats, v: Verdict): WorkStats {
    o.(counts := o.counts.Bump(v.Field()))
  }

  function Next(l: Limits<D.Entry>, s: State, e: Step): State
    requires Enabled(s, e)
  {
    match e
    case Begin(t, key, worker, now) =>
      s.(guard := GuardBegin(l, s.guard, key, now),
         tasks := s.tasks[t := Task(key, worker, BeginPhase(l, s.guard, key, now))])
    case Decide(t, v, now) =>
      // a stale block records its outcome before it counts, the others after
      Move(if v == StaleBlock then s.(guard := D.Next(l, s.guard, D.SetOutcome(s.tasks[t].key, now, D.Stale))) else s,
           t, Judged(v))
    case Acquire(t, made) =>
      var w, v := s.tasks[t].worker, s.tasks[t].phase.v;
      if w in s.stats then Move(s, t, Holding(v, s.stats[w]))
      else Move(s.(stats := s.stats[w := made], objs := s.objs[made := WorkStats(w, Counts(0, 0, 0))]), t, Holding(v, made))
    case BumpWorker(t) =>
      var v, obj := s.tasks[t].phase.v, s.tasks[t].phase.obj;
      Move(if obj in s.objs then s.(objs := s.objs[obj := BumpStats(s.objs[obj], v)]) else s, t, WorkerBumped(v))
    case BumpOverall(t) =>
      var v := s.tasks[t].phase.v;
      Move(s.(overall := s.overall.Bump(v.Field())), t, OverallBumped(v))
    case Finish(t, now) =>
      var v := s.tasks[t].phase.v;
      Move(if v == StaleBlock then s else s.(guard := D.Next(l, s.guard, D.SetOutcome(s.tasks[t].key, now, v.Outcome()))),
           t, Finished(v))
    case PruneStats(gone) => s.(stats := s.stats - gone)
  }

  // ---- Counting ----

  /** `who` is one worker, or all of them. */
  predicate Meant(who: Option<string>, worker: string) {
    who == None || who == Some(worker)
  }

  /** 1 for a task of `who` that has bumped field `f` of its worker. */
  function WorkerWeight(who: Option<string>, f: Field): Task -> nat {
    (t: Task) =>
      match t.phase
      case WorkerBumped(v) => if Meant(who, t.worker) && v.Field() == f then 1 else 0
      case OverallBumped(v) => if Meant(who, t.worker) && v.Field() == f then 1 else 0
      case Finished(v) => if Meant(who, t.worker) && v.Field() == f then 1 else 0
      case _ => 0
  }

  /** 1 for a task that has bumped field `f` of the totals. */
  function OverallWeight(f: Field): Task -> nat {
    (t: Task) =>
      match t.phase
      case OverallBumped(v) => if v.Field() == f then 1 else 0
      case Finished(v) => if v.Field() == f then 1 else 0
      case _ => 0
  }

  /** What a counter object of `who` shows in field `f`. */
  function FieldWeight(who: Option<string>, f: Field): WorkStats -> nat {
    (o: WorkStats) => if Meant(who, o.worker) then o.counts.Of(f) else 0
  }

  /** The counters of `who` show exactly which of its submissions have been counted. */
  ghost predicate WorkerExact(s: State, who: Option<string>, f: Field) {
    Total(s.objs, FieldWeight(who, f)) == Total(s.tasks, WorkerWeight(who, f))
  }

  ghost predicate TotalExact(s: State, f: Field) {
    s.overall.Of(f) == Total(s.tasks, OverallWeight(f))
  }

  /** The object `obj` was made for `worker`. */
  predicate Owns(s: State, worker: string, obj: nat) {
    obj in s.objs && s.objs[obj].worker == worker
  }

  ghost predicate Owned(s: State) {
    && (forall w | w in s.stats :: Owns(s, w, s.stats[w]))
    && (forall t | t in s.tasks && s.tasks[t].phase.Holding? :: Owns(s, s.tasks[t].worker, s.tasks[t].phase.obj))
  }

  ghost predicate Inv(s: State) {
    && (forall who, f: Field :: WorkerExact(s, who, f))
    && (forall f: Field :: TotalExact(s, f))
    && Owned(s)
  }

  lemma TotalReplace<K(!new), V>(m: map<K, V>, size: V -> nat, k: K, v: V)
    ensures Total(m[k := v], size) + (if k in m then size(m[k]) else 0) == Total(m, size) + size(v)
  {
    TotalInsert(m, size, k, v);
    if k in m { TotalRemove(m, size, k); }
  }

  lemma MoveWorker(s: State, t: nat, p: Phase, who: Option<string>, f: Field)
    requires t in s.tasks
    ensures var w, moved := WorkerWeight(who, f), s.tasks[t].(phase := p);
            Total(Move(s, t, p).tasks, w) + w(s.tasks[t]) == Total(s.tasks, w) + w(moved)
  {
    TotalReplace(s.tasks, WorkerWeight(who, f), t, s.tasks[t].(phase := p));
  }

  lemma AcquireExact(l: Limits<D.Entry>, s: State, e: Step, who: Option<string>, f: Field)
    requires WorkerExact(s, who, f) && Enabled(s, e) && e.Acquire?
    ensures WorkerExact(Next(l, s, e), who, f)
  {
    MoveWorker(s, e.t, Next(l, s, e).tasks[e.t].phase, who, f);
    TotalReplace(s.objs, FieldWeight(who, f), e.made, WorkStats(s.tasks[e.t].worker, Counts(0, 0, 0)));
  }

  lemma BumpWeight(who: Option<string>, f: Field, o: WorkStats, t: Task, v: Verdict)
    requires o.worker == t.worker
    ensures FieldWeight(who, f)(BumpStats(o, v)) ==
            FieldWeight(who, f)(o) + WorkerWeight(who, f)(t.(phase := WorkerBumped(v)))
  {
  }

  lemma BumpExact(l: Limits<D.Entry>, s: State, e: Step, who: Option<string>, f: Field)
    requires WorkerExact(s, who, f) && Owned(s) && Enabled(s, e) && e.BumpWorker?
    ensures WorkerExact(Next(l, s, e), who, f)
  {
    var task := s.tasks[e.t];
    var p := task.phase;
    assert Owns(s, task.worker, p.obj);
    MoveWorker(s, e.t, WorkerBumped(p.v), who, f);
    TotalReplace(s.objs, FieldWeight(who, f), p.obj, BumpStats(s.objs[p.obj], p.v));
    BumpWeight(who, f, s.objs[p.obj], task, p.v);
  }

  lemma BeginExact(l: Limits<D.Entry>, s: State, e: Step, who: Option<string>, f: Field)
    requires WorkerExact(s, who, f) && Enabled(s, e) && e.Begin?
    ensures WorkerExact(Next(l, s, e), who, f)
  {
    TotalReplace(s.tasks, WorkerWeight(who, f), e.t, Next(l, s, e).tasks[e.t]);
  }

  lemma NextWorkerExact(l: Limits<D.Entry>, s: State, e: Step, who: Option<string>, f: Field)
    requires WorkerExact(s, who, f) && Owned(s) && Enabled(s, e)
    ensures WorkerExact(Next(l, s, e), who, f)
  {
    match e
    case Begin(_, _, _, _) => BeginExact(l, s, e, who, f);
    case Decide(t, v, _) => MoveWorker(s, t, Judged(v), who, f);
    case Acquire(_, _) => AcquireExact(l, s, e, who, f);
    case BumpWorker(_) => BumpExact(l, s, e, who, f);
    case BumpOverall(t) => MoveWorker(s, t, OverallBumped(s.tasks[t].phase.v), who, f);
    case Finish(t, _) => MoveWorker(s, t, Finished(s.tasks[t].phase.v), who, f);
    case PruneStats(_) =>
  }

  lemma NextTotalExact(l: Limits<D.Entry>, s: State, e: Step, f: Field)
    requires TotalExact(s, f) && Enabled(s, e)
    ensures TotalExact(Next(l, s, e), f)
  {
    if !e.PruneStats? { TotalReplace(s.tasks, OverallWeight(f), e.t, Next(l, s, e).tasks[e.t]); }
  }

  /** Counters are handed out and registered under their own worker's name only. */
  lemma NextOwned(l: Limits<D.Entry>, s: State, e: Step)
    requires Owned(s) && Enabled(s, e)
    ensures Owned(Next(l, s, e))
  {
    var s' := Next(l, s, e);
    forall w | w in s'.stats ensures Owns(s', w, s'.stats[w]) {
      if w in s.stats { assert Owns(s, w, s.stats[w]); }
    }
    forall t | t in s'.tasks && s'.tasks[t].phase.Holding? ensures Owns(s', s'.tasks[t].worker, s'.tasks[t].phase.obj) {
      if e.Acquire? && e.t == t {
        if s'.tasks[t].worker in s.stats { assert Owns(s, s'.tasks[t].worker, s.stats[s'.tasks[t].worker]); }
      } else {
        assert s.tasks[t] == s'.tasks[t];
        assert Owns(s, s.tasks[t].worker, s.tasks[t].phase.obj);
      }
    }
  }

  lemma NextInv(l: Limits<D.Entry>, s: State, e: Step)
    requires Inv(s) && Enabled(s, e)
    ensures Inv(Next(l, s, e))
  {
    forall who, f: Field ensures WorkerExact(Next(l, s, e), who, f) {
      assert WorkerExact(s, who, f);
      NextWorkerExact(l, s, e, who, f);
    }
    forall f: Field ensures TotalExact(Next(l, s, e), f) {
      assert TotalExact(s, f);
      NextTotalExact(l, s, e, f);
    }
    NextOwned(l, s, e);
  }

  // ---- What each counter is the number of ----

  /** 1 for a submission of `who`, or of anyone, with one of the verdicts, counted for its worker. */
  function CountedAs(who: Option<string>, vs: set<Verdict>): Task -> nat {
    (t: Task) =>
      if (who == None || who == Some(t.worker))
         && (t.phase.WorkerBumped? || t.phase.OverallBumped? || t.phase.Finished?) && t.phase.v in vs
      then 1 else 0
  }

  /** 1 for a submission with one of the verdicts, counted in the totals. */
  function TotalledAs(vs: set<Verdict>): Task -> nat {
    (t: Task) => if (t.phase.OverallBumped? || t.phase.Finished?) && t.phase.v in vs then 1 else 0
  }

  function SharesOf(who: Option<string>): WorkStats -> nat {
    (o: WorkStats) => if who == None || who == Some(o.worker) then o.counts.shares else 0
  }

  function StaleOf(who: Option<string>): WorkStats -> nat {
    (o: WorkStats) => if who == None || who == Some(o.worker) then o.counts.stale else 0
  }

  function InvalidOf(who: Option<string>): WorkStats -> nat {
    (o: WorkStats) => if who == None || who == Some(o.worker) then o.counts.invalid else 0
  }

  /** Shares are accepted submissions, stale ones are stale blocks, and invalid ones are
      low-difficulty shares and bad blocks: for one worker, or for all. */
  ghost predicate WorkerTally(s: State, who: Option<string>) {
    && Total(s.objs, SharesOf(who)) == Total(s.tasks, CountedAs(who, {Accepted}))
    && Total(s.objs, StaleOf(who)) == Total(s.tasks, CountedAs(who, {StaleBlock}))
    && Total(s.objs, InvalidOf(who)) == Total(s.tasks, CountedAs(who, {LowDiff, BadBlock}))
  }

  ghost predicate OverallTally(s: State) {
    && s.overall.shares == Total(s.tasks, TotalledAs({Accepted}))
    && s.overall.stale == Total(s.tasks, TotalledAs({StaleBlock}))
    && s.overall.invalid == Total(s.tasks, TotalledAs({LowDiff, BadBlock}))
  }

  lemma {:induction false} TotalEqual<K(!new), V>(m: map<K, V>, f: V -> nat, g: V -> nat)
    requires forall k | k in m :: f(m[k]) == g(m[k])
    ensures Total(m, f) == Total(m, g)
    decreases |m|
  {
    if m != map[] {
      var k :| k in m;
      TotalRemove(m, f, k);
      TotalRemove(m, g, k);
      TotalEqual(m - {k}, f, g);
    }
  }

  lemma FieldsShown(s: State, who: Option<string>)
    ensures Total(s.objs, SharesOf(who)) == Total(s.objs, FieldWeight(who, Shares))
    ensures Total(s.objs, StaleOf(who)) == Total(s.objs, FieldWeight(who, Stale))
    ensures Total(s.objs, InvalidOf(who)) == Total(s.objs, FieldWeight(who, Invalid))
  {
    TotalEqual(s.objs, SharesOf(who), FieldWeight(who, Shares));
    TotalEqual(s.objs, StaleOf(who), FieldWeight(who, Stale));
    TotalEqual(s.objs, InvalidOf(who), FieldWeight(who, Invalid));
  }

  /** `vs` are the verdicts counted in `f`. */
  ghost predicate FieldOf(f: Field, vs: set<Verdict>) {
    forall v: Verdict :: v in vs <==> v.Field() == f
  }

  lemma VerdictsCounted(m: map<nat, Task>, who: Option<string>, f: Field, vs: set<Verdict>)
    requires FieldOf(f, vs)
    ensures Total(m, CountedAs(who, vs)) == Total(m, WorkerWeight(who, f))
  {
    forall k | k in m ensures CountedAs(who, vs)(m[k]) == WorkerWeight(who, f)(m[k]) {}
    TotalEqual(m, CountedAs(who, vs), WorkerWeight(who, f));
  }

  lemma VerdictsTotalled(m: map<nat, Task>, f: Field, vs: set<Verdict>)
    requires FieldOf(f, vs)
    ensures Total(m, TotalledAs(vs)) == Total(m, OverallWeight(f))
  {
    forall k | k in m ensures TotalledAs(vs)(m[k]) == OverallWeight(f)(m[k]) {}
    TotalEqual(m, TotalledAs(vs), OverallWeight(f));
  }

  lemma FieldVerdicts()
    ensures FieldOf(Shares, {Accepted}) && FieldOf(Stale, {StaleBlock}) && FieldOf(Invalid, {LowDiff, BadBlock})
  {
  }

  lemma InvWorkerTally(s: State, who: Option<string>)
    requires Inv(s)
    ensures WorkerTally(s, who)
  {
    FieldVerdicts();
    FieldsShown(s, who);
    VerdictsCounted(s.tasks, who, Shares, {Accepted});
    VerdictsCounted(s.tasks, who, Stale, {StaleBlock});
    VerdictsCounted(s.tasks, who, Invalid, {LowDiff, BadBlock});
    assert WorkerExact(s, who, Shares) && WorkerExact(s, who, Stale) && WorkerExact(s, who, Invalid);
  }

  lemma InvOverallTally(s: State)
    requires Inv(s)
    ensures OverallTally(s)
  {
    FieldVerdicts();
    VerdictsTotalled(s.tasks, Shares, {Accepted});
    VerdictsTotalled(s.tasks, Stale, {StaleBlock});
    VerdictsTotalled(s.tasks, Invalid, {LowDiff, BadBlock});
    assert TotalExact(s, Shares) && TotalExact(s, Stale) && TotalExact(s, Invalid);
  }

  /** The run takes step `i`. */
  ghost predicate StepsAt(l: Limits<D.Entry>, states: seq<State>, steps: seq<Step>, i: nat)
    requires |states| == |steps| + 1 && i < |steps|
  {
    Enabled(states[i], steps[i]) && states[i + 1] == Next(l, states[i], steps[i])
  }

  ghost predicate Run(l: Limits<D.Entry>, states: seq<State>, steps: seq<Step>) {
    && |states| == |steps| + 1
    && forall i | 0 <= i < |steps| :: StepsAt(l, states, steps, i)
  }

  lemma RunStep(l: Limits<D.Entry>, states: seq<State>, steps: seq<Step>, i: nat)
    requires Run(l, states, steps) && i < |steps|
    ensures Enabled(states[i], steps[i]) && states[i + 1] == Next(l, states[i], steps[i])
  {
    assert StepsAt(l, states, steps, i);
  }

  const INITIAL: State := State(Guard(map[], []), map[], map[], Counts(0, 0, 0), map[])

  /** Over every interleaving each worker's counters, and the totals, equal the numbers of
      its submissions with the counter's verdicts: a finished fresh submission is counted once,
      in one field, for its own worker and overall, and a duplicate never. */
  lemma CountersExact(l: Limits<D.Entry>, states: seq<State>, steps: seq<Step>, n: nat)
    requires Run(l, states, steps) && states[0] == INITIAL && n <= |steps|
    ensures OverallTally(states[n]) && forall who :: WorkerTally(states[n], who)
  {
    RunInv(l, states, steps, n);
    InvOverallTally(states[n]);
    forall who ensures WorkerTally(states[n], who) { InvWorkerTally(states[n], who); }
  }

  lemma {:induction false} RunInv(l: Limits<D.Entry>, states: seq<State>, steps: seq<Step>, n: nat)
    requires Run(l, states, steps) && states[0] == INITIAL && n <= |steps|
    ensures Inv(states[n])
  {
    if n > 0 {
      RunInv(l, states, steps, n - 1);
      RunStep(l, states, steps, n - 1);
      NextInv(l, states[n - 1], steps[n - 1]);
    }
  }

  // ---- One worker's registered counters ----

  /** `w` has at most one counter object, the registered one. */
  predicate SoleObject(s: State, w: string) {
    forall o | o in s.objs && s.objs[o].worker == w :: w in s.stats && s.stats[w] == o
  }

  lemma SoleStays(l: Limits<D.Entry>, s: State, e: Step, w: string)
    requires Enabled(s, e) && SoleObject(s, w) && !(e.PruneStats? && w in e.gone)
    ensures SoleObject(Next(l, s, e), w)
  {
  }

  lemma {:induction false} RunSole(l: Limits<D.Entry>, states: seq<State>, steps: seq<Step>, n: nat, w: string)
    requires Run(l, states, steps) && states[0] == INITIAL && n <= |steps|
    requires forall i | 0 <= i < n :: !(steps[i].PruneStats? && w in steps[i].gone)
    ensures SoleObject(states[n], w)
  {
    if n > 0 {
      RunSole(l, states, steps, n - 1, w);
      RunStep(l, states, steps, n - 1);
      SoleStays(l, states[n - 1], steps[n - 1], w);
    }
  }

  lemma {:induction false} TotalZero<K(!new), V>(m: map<K, V>, f: V -> nat)
    requires forall k | k in m :: f(m[k]) == 0
    ensures Total(m, f) == 0
    decreases |m|
  {
    if m != map[] {
      var k :| k in m;
      TotalRemove(m, f, k);
      TotalZero(m - {k}, f);
    }
  }

  lemma TotalSole(s: State, w: string, f: WorkStats -> nat)
    requires SoleObject(s, w) && w in s.stats && s.stats[w] in s.objs
    requires forall o: WorkStats | o.worker != w :: f(o) == 0
    ensures Total(s.objs, f) == f(s.objs[s.stats[w]])
  {
    var k := s.stats[w];
    TotalRemove(s.objs, f, k);
    TotalZero(s.objs - {k}, f);
  }

  /** As long as a worker's statistics are not pruned, its registered counters show all of its
      counted submissions. */
  lemma RegisteredExact(l: Limits<D.Entry>, states: seq<State>, steps: seq<Step>, n: nat, w: string)
    requires Run(l, states, steps) && states[0] == INITIAL && n <= |steps| && w in states[n].stats
    requires forall i | 0 <= i < n :: !(steps[i].PruneStats? && w in steps[i].gone)
    ensures states[n].stats[w] in states[n].objs
    ensures var s := states[n];
            var c := s.objs[s.stats[w]].counts;
            && c.shares == Total(s.tasks, CountedAs(Some(w), {Accepted}))
            && c.stale == Total(s.tasks, CountedAs(Some(w), {StaleBlock}))
            && c.invalid == Total(s.tasks, CountedAs(Some(w), {LowDiff, BadBlock}))
  {
    var s := states[n];
    RunInv(l, states, steps, n);
    RunSole(l, states, steps, n, w);
    InvWorkerTally(s, Some(w));
    assert Owns(s, w, s.stats[w]);
    TotalSole(s, w, SharesOf(Some(w)));
    TotalSole(s, w, StaleOf(Some(w)));
    TotalSole(s, w, InvalidOf(Some(w)));
  }

  // ---- Live and pruned workers ----

  function Live(s: State): map<nat, WorkStats> {
    Only(s.objs, s.stats.Values)
  }

  function Pruned(s: State): map<nat, WorkStats> {
    s.objs - s.stats.Values
  }

  function Only<K, V>(m: map<K, V>, ks: set<K>): map<K, V> {
    map k | k in m && k in ks :: m[k]
  }

  lemma {:induction false} TotalSplit<K(!new), V>(m: map<K, V>, ks: set<K>, size: V -> nat)
    ensures Total(m, size) == Total(Only(m, ks), size) + Total(m - ks, size)
    decreases |m|
  {
    if k :| k in m && k in ks {
      TotalRemove(m, size, k);
      TotalSplit(m - {k}, ks, size);
      SplitOne(m, ks, k);
      TotalRemove(Only(m, ks), size, k);
    } else {
      assert Only(m, ks) == map[] && m - ks == m;
    }
  }

  lemma SplitOne<K, V>(m: map<K, V>, ks: set<K>, k: K)
    requires k in m && k in ks
    ensures Only(m - {k}, ks) == Only(m, ks) - {k} && m - {k} - ks == m - ks
    ensures k in Only(m, ks) && Only(m, ks)[k] == m[k] && |m - {k}| < |m|
  {
    assert (m - {k}).Keys == m.Keys - {k};
  }

  /** When no submission is between its two counts, the totals are the registered
      workers' counts plus the counts of the workers pruned from the table. */
  lemma TotalsConserved(s: State)
    requires Inv(s) && forall t | t in s.tasks :: !s.tasks[t].phase.WorkerBumped?
    ensures s.overall.shares == Total(Live(s), SharesOf(None)) + Total(Pruned(s), SharesOf(None))
    ensures s.overall.stale == Total(Live(s), StaleOf(None)) + Total(Pruned(s), StaleOf(None))
    ensures s.overall.invalid == Total(Live(s), InvalidOf(None)) + Total(Pruned(s), InvalidOf(None))
  {
    InvOverallTally(s);
    InvWorkerTally(s, None);
    TotalSplit(s.objs, s.stats.Values, SharesOf(None));
    TotalSplit(s.objs, s.stats.Values, StaleOf(None));
    TotalSplit(s.objs, s.stats.Values, InvalidOf(None));
    BothCounted(s, {Accepted});
    BothCounted(s, {StaleBlock});
    BothCounted(s, {LowDiff, BadBlock});
  }

  lemma BothCounted(s: State, vs: set<Verdict>)
    requires forall t | t in s.tasks :: !s.tasks[t].phase.WorkerBumped?
    ensures Total(s.tasks, CountedAs(None, vs)) == Total(s.tasks, TotalledAs(vs))
  {
    TotalEqual(s.tasks, CountedAs(None, vs), TotalledAs(vs));
  }

  // ---- At most one fresh submission per guard entry ----

  predicate Clocked(e: Step) {
    e.Begin? || e.Decide? || e.Finish?
  }

  /** A prune at `now` drops `k`: it is past its time or there is no room. */
  predicate DropsFrom(l: Limits<D.Entry>, g: Guard<D.Entry>, now: nat, k: string) {
    && k in g.entries && k !in Prune(l, g, now).entries
    && (l.Expired(g.entries[k], now) || |DropExpired(l, g, now).entries| > l.max)
  }

  /** The step prunes `k` away; the first step of a submission may prune twice. */
  predicate Drops(l: Limits<D.Entry>, s: State, e: Step, k: string) {
    Clocked(e) &&
    (DropsFrom(l, s.guard, e.now, k) || (e.Begin? && DropsFrom(l, Prune(l, s.guard, e.now), e.now, k)))
  }

  lemma KeptByPrune(l: Limits<D.Entry>, g: Guard<D.Entry>, now: nat, k: string)
    requires Listed(g) && k in g.entries && !DropsFrom(l, g, now, k)
    ensures k in Prune(l, g, now).entries && Listed(Prune(l, g, now))
  {
    ListedSize(g);
    PruneDrops(l, g, now, k);
    PruneListed(l, g, now);
  }

  lemma GuardKept(l: Limits<D.Entry>, s: State, e: Step, k: string)
    requires Enabled(s, e) && Listed(s.guard) && k in s.guard.entries && !Drops(l, s, e, k)
    ensures k in Next(l, s, e).guard.entries && (Clocked(e) ==> k in Prune(l, s.guard, e.now).entries)
  {
    if Clocked(e) {
      KeptByPrune(l, s.guard, e.now, k);
      if e.Begin? { KeptByPrune(l, Prune(l, s.guard, e.now), e.now, k); }
    }
  }

  lemma NextGuardListed(l: Limits<D.Entry>, s: State, e: Step)
    requires Enabled(s, e) && Listed(s.guard)
    ensures Listed(Next(l, s, e).guard)
  {
    match e
    case Begin(_, key, _, now) =>
      D.NextListed(l, s.guard, D.Get(key, now));
      D.NextListed(l, D.Next(l, s.guard, D.Get(key, now)), D.InsertInFlight(key, now));
    case Decide(t, _, now) => D.NextListed(l, s.guard, D.SetOutcome(s.tasks[t].key, now, D.Stale));
    case Finish(t, now) => D.NextListed(l, s.guard, D.SetOutcome(s.tasks[t].key, now, s.tasks[t].phase.v.Outcome()));
    case _ =>
  }

  lemma {:induction false} RunGuardListed(l: Limits<D.Entry>, states: seq<State>, steps: seq<Step>, n: nat)
    requires Run(l, states, steps) && Listed(states[0].guard) && n <= |steps|
    ensures Listed(states[n].guard)
  {
    if n > 0 {
      RunGuardListed(l, states, steps, n - 1);
      RunStep(l, states, steps, n - 1);
      NextGuardListed(l, states[n - 1], steps[n - 1]);
    }
  }

  lemma {:induction false} KeptUntil(l: Limits<D.Entry>, states: seq<State>, steps: seq<Step>, k: string, i: nat, j: nat)
    requires Run(l, states, steps) && Listed(states[0].guard) && i <= j <= |steps| && k in states[i].guard.entries
    requires forall m | i <= m < j :: !Drops(l, states[m], steps[m], k)
    ensures k in states[j].guard.entries
  {
    if j > i {
      var m := j - 1;
      KeptUntil(l, states, steps, k, i, m);
      RunGuardListed(l, states, steps, m);
      RunStep(l, states, steps, m);
      var s, e := states[m], steps[m];
      GuardKept(l, s, e, k);
    }
  }

  /** The submission starts validation instead of being answered from the guard. */
  predicate StartsFresh(l: Limits<D.Entry>, s: State, e: Step) {
    e.Begin? && IsFresh(l, s.guard, e.key, e.now)
  }

  lemma FreshIsMarked(l: Limits<D.Entry>, s: State, e: Step)
    requires Enabled(s, e) && StartsFresh(l, s, e)
    ensures e.key in Next(l, s, e).guard.entries && At(Next(l, s, e), e.t, Validating)
  {
  }

  /** Two submissions of one key can both be validated, and so both be credited, only if
      the key's guard entry expired or was evicted in between. */
  lemma TwoFreshDropped(l: Limits<D.Entry>, states: seq<State>, steps: seq<Step>, i: nat, j: nat)
    requires Run(l, states, steps) && Listed(states[0].guard) && i < j < |steps|
    requires StartsFresh(l, states[i], steps[i]) && StartsFresh(l, states[j], steps[j]) && steps[i].key == steps[j].key
    ensures exists m :: i < m <= j && Drops(l, states[m], steps[m], steps[i].key)
  {
    var k := steps[i].key;
    if forall m | i < m <= j :: !Drops(l, states[m], steps[m], k) {
      RunStep(l, states, steps, i);
      FreshIsMarked(l, states[i], steps[i]);
      KeptUntil(l, states, steps, k, i + 1, j);
      RunGuardListed(l, states, steps, j);
      RunStep(l, states, steps, j);
      GuardKept(l, states[j], steps[j], k);
      assert false;
    }
  }

  /** A task that is not answered from the guard has just started fresh, or was so before. */
  lemma TaskStep(l: Limits<D.Entry>, s: State, e: Step, t: nat)
    requires Enabled(s, e) && t in Next(l, s, e).tasks && !Next(l, s, e).tasks[t].phase.Answered?
    ensures var task := Next(l, s, e).tasks[t];
            if e.Begin? && e.t == t then StartsFresh(l, s, e) && e.key == task.key
            else t in s.tasks && !s.tasks[t].phase.Answered? && s.tasks[t].key == task.key
  {
  }

  /** Only a submission that started fresh is ever counted. */
  lemma {:induction false} CountedStartedFresh(l: Limits<D.Entry>, states: seq<State>, steps: seq<Step>, n: nat, t: nat) returns (i: nat)
    requires Run(l, states, steps) && states[0] == INITIAL && n <= |steps|
    requires t in states[n].tasks && !states[n].tasks[t].phase.Answered?
    ensures i < n && steps[i].Begin? && steps[i].t == t && StartsFresh(l, states[i], steps[i])
    ensures steps[i].key == states[n].tasks[t].key
  {
    var m := n - 1;
    RunStep(l, states, steps, m);
    var s, e := states[m], steps[m];
    TaskStep(l, s, e, t);
    if e.Begin? && e.t == t { i := m; } else { i := CountedStartedFresh(l, states, steps, m, t); }
  }

  /** No key is credited twice while its guard entry is retained: two accepted submissions
      of one key mean that the entry expired or was evicted before. */
  lemma NoDoubleCredit(l: Limits<D.Entry>, states: seq<State>, steps: seq<Step>, n: nat, t: nat, u: nat)
    requires Run(l, states, steps) && states[0] == INITIAL && n <= |steps| && t != u
    requires At(states[n], t, Finished(Accepted)) && At(states[n], u, Finished(Accepted))
    requires states[n].tasks[t].key == states[n].tasks[u].key
    ensures exists m | 0 <= m < n :: Drops(l, states[m], steps[m], states[n].tasks[t].key)
  {
    var i := CountedStartedFresh(l, states, steps, n, t);
    var j := CountedStartedFresh(l, states, steps, n, u);
    TwoFreshDropped(l, states, steps, if i < j then i else j, if i < j then j else i);
  }

  // ---- What is recorded and answered ----

  /** A submission at phase `p` has recorded the outcome `o`: a stale block at once, the
      other verdicts when it finishes. */
  predicate Reached(p: Phase, o: D.Outcome) {
    match p
    case Finished(Accepted) => o == D.Accepted
    case Finished(StaleBlock) => o == D.Stale
    case Finished(LowDiff) => o == D.LowDiff
    case Finished(BadBlock) => o == D.Bad
    case Judged(v) => v == StaleBlock && o == D.Stale
    case Holding(v, _) => v == StaleBlock && o == D.Stale
    case WorkerBumped(v) => v == StaleBlock && o == D.Stale
    case OverallBumped(v) => v == StaleBlock && o == D.Stale
    case _ => false
  }

  predicate RecordedBy(s: State, k: string, o: D.Outcome, t: nat) {
    t in s.tasks && s.tasks[t].key == k && Reached(s.tasks[t].phase, o)
  }

  /** `o` is the verdict of a submission of the key, unless it is still in flight. */
  ghost predicate Justified(s: State, k: string, o: D.Outcome) {
    o == D.InFlight || exists t :: RecordedBy(s, k, o, t)
  }

  ghost predicate AllJustified(s: State) {
    && (forall k | k in s.guard.entries :: Justified(s, k, s.guard.entries[k].outcome))
    && (forall t | t in s.tasks && s.tasks[t].phase.Answered? :: Justified(s, s.tasks[t].key, s.tasks[t].phase.o))
  }

  lemma RecordedStays(l: Limits<D.Entry>, s: State, e: Step, k: string, o: D.Outcome, t: nat)
    requires Enabled(s, e) && RecordedBy(s, k, o, t)
    ensures RecordedBy(Next(l, s, e), k, o, t)
  {
  }

  lemma JustifiedStays(l: Limits<D.Entry>, s: State, e: Step, k: string, o: D.Outcome)
    requires Enabled(s, e) && Justified(s, k, o)
    ensures Justified(Next(l, s, e), k, o)
  {
    if t :| RecordedBy(s, k, o, t) { RecordedStays(l, s, e, k, o, t); }
  }

  lemma BeginEntries(l: Limits<D.Entry>, g: Guard<D.Entry>, key: string, now: nat, k: string)
    requires Listed(g) && k in GuardBegin(l, g, key, now).entries
    ensures var entry := GuardBegin(l, g, key, now).entries[k];
            (k in g.entries && g.entries[k] == entry) || entry.outcome == D.InFlight
  {
    var get := D.Get(key, now);
    var mid := D.Next(l, g, get);
    D.NextListed(l, g, get);
    if key !in mid.entries { D.NextEntries(l, mid, D.InsertInFlight(key, now), k); }
    if k in mid.entries { D.NextEntries(l, g, get, k); }
  }

  /** The guard changes only by marks in flight and by verdicts of the step's own submission. */
  lemma GuardEntries(l: Limits<D.Entry>, s: State, e: Step, k: string)
    requires Enabled(s, e) && Listed(s.guard) && k in Next(l, s, e).guard.entries
    ensures var o := Next(l, s, e).guard.entries[k].outcome;
            || (k in s.guard.entries && s.guard.entries[k].outcome == o)
            || o == D.InFlight
            || ((e.Decide? || e.Finish?) && RecordedBy(Next(l, s, e), k, o, e.t))
  {
    match e
    case Begin(_, key, _, now) => BeginEntries(l, s.guard, key, now, k);
    case Decide(_, _, _) => DecideEntries(l, s, e, k);
    case Finish(_, _) => FinishEntries(l, s, e, k);
    case _ =>
  }

  lemma DecideEntries(l: Limits<D.Entry>, s: State, e: Step, k: string)
    requires Enabled(s, e) && Listed(s.guard) && k in Next(l, s, e).guard.entries && e.Decide?
    ensures var o := Next(l, s, e).guard.entries[k].outcome;
            (k in s.guard.entries && s.guard.entries[k].outcome == o) || RecordedBy(Next(l, s, e), k, o, e.t)
  {
    if e.v == StaleBlock { D.NextEntries(l, s.guard, D.SetOutcome(s.tasks[e.t].key, e.now, D.Stale), k); }
  }

  lemma FinishEntries(l: Limits<D.Entry>, s: State, e: Step, k: string)
    requires Enabled(s, e) && Listed(s.guard) && k in Next(l, s, e).guard.entries && e.Finish?
    ensures var o := Next(l, s, e).guard.entries[k].outcome;
            (k in s.guard.entries && s.guard.entries[k].outcome == o) || RecordedBy(Next(l, s, e), k, o, e.t)
  {
    var v := s.tasks[e.t].phase.v;
    if v != StaleBlock { D.NextEntries(l, s.guard, D.SetOutcome(s.tasks[e.t].key, e.now, v.Outcome()), k); }
  }

  /** A duplicate is answered with what the guard holds for its key. */
  lemma AnsweredEntry(l: Limits<D.Entry>, s: State, e: Step, t: nat)
    requires Enabled(s, e) && Listed(s.guard) && t in Next(l, s, e).tasks && Next(l, s, e).tasks[t].phase.Answered?
    ensures var task := Next(l, s, e).tasks[t];
            || (t in s.tasks && s.tasks[t] == task)
            || (task.key in s.guard.entries && s.guard.entries[task.key].outcome == task.phase.o)
  {
    if e.Begin? && e.t == t {
      ListedSize(s.guard);
      PruneDrops(l, s.guard, e.now, e.key);
    }
  }

  lemma NextJustified(l: Limits<D.Entry>, s: State, e: Step)
    requires Enabled(s, e) && Listed(s.guard) && AllJustified(s)
    ensures AllJustified(Next(l, s, e))
  {
    var s' := Next(l, s, e);
    forall k | k in s'.guard.entries ensures Justified(s', k, s'.guard.entries[k].outcome) {
      GuardEntries(l, s, e, k);
      if k in s.guard.entries { JustifiedStays(l, s, e, k, s.guard.entries[k].outcome); }
    }
    forall t | t in s'.tasks && s'.tasks[t].phase.Answered? ensures Justified(s', s'.tasks[t].key, s'.tasks[t].phase.o) {
      AnsweredEntry(l, s, e, t);
      JustifiedStays(l, s, e, s'.tasks[t].key, s'.tasks[t].phase.o);
    }
  }

  /** Over every interleaving, every outcome that the guard holds and every outcome that a
      duplicate was answered with is in flight or the verdict of a submission of that key. */
  lemma {:induction false} OutcomesJustified(l: Limits<D.Entry>, states: seq<State>, steps: seq<Step>, n: nat)
    requires Run(l, states, steps) && states[0] == INITIAL && n <= |steps|
    ensures AllJustified(states[n])
  {
    if n > 0 {
      OutcomesJustified(l, states, steps, n - 1);
      RunGuardListed(l, states, steps, n - 1);
      RunStep(l, states, steps, n - 1);
      NextJustified(l, states[n - 1], steps[n - 1]);
    }
  }

  /** The step records `o` for the key `k`: a stale block when it is judged, the other
      verdicts when the submission finishes. */
  predicate Records(s: State, e: Step, k: string, o: D.Outcome) {
    match e
    case Decide(t, v, _) => t in s.tasks && s.tasks[t].key == k && v == StaleBlock && o == D.Stale
    case Finish(t, _) =>
      && t in s.tasks && s.tasks[t].key == k
      && (match s.tasks[t].phase
          case OverallBumped(Accepted) => o == D.Accepted
          case OverallBumped(LowDiff) => o == D.LowDiff
          case OverallBumped(BadBlock) => o == D.Bad
          case _ => false)
    case _ => false
  }

  predicate RecordsSome(s: State, e: Step, k: string) {
    && (e.Decide? || e.Finish?) && e.t in s.tasks && s.tasks[e.t].key == k
    && (if e.Decide? then e.v == StaleBlock
        else s.tasks[e.t].phase.OverallBumped? && s.tasks[e.t].phase.v != StaleBlock)
  }

  predicate HasOutcome(s: State, k: string, o: D.Outcome) {
    k in s.guard.entries && s.guard.entries[k].outcome == o
  }

  lemma RecordedNow(l: Limits<D.Entry>, s: State, e: Step, k: string, o: D.Outcome)
    requires Enabled(s, e) && Listed(s.guard) && k in s.guard.entries && Records(s, e, k, o) && !Drops(l, s, e, k)
    ensures HasOutcome(Next(l, s, e), k, o)
  {
    GuardKept(l, s, e, k);
  }

  lemma PruneKeepsOutcome(l: Limits<D.Entry>, g: Guard<D.Entry>, now: nat, k: string)
    requires Listed(g) && k in g.entries && !DropsFrom(l, g, now, k)
    ensures k in Prune(l, g, now).entries && Prune(l, g, now).entries[k] == g.entries[k] && Listed(Prune(l, g, now))
  {
    KeptByPrune(l, g, now, k);
    ListedSize(g);
    PruneDrops(l, g, now, k);
  }

  lemma BeginKeepsOutcome(l: Limits<D.Entry>, s: State, e: Step, k: string)
    requires Enabled(s, e) && Listed(s.guard) && k in s.guard.entries && e.Begin? && !Drops(l, s, e, k)
    ensures k in Next(l, s, e).guard.entries && Next(l, s, e).guard.entries[k] == s.guard.entries[k]
  {
    PruneKeepsOutcome(l, s.guard, e.now, k);
    PruneKeepsOutcome(l, Prune(l, s.guard, e.now), e.now, k);
  }

  lemma SetKeepsOutcome(l: Limits<D.Entry>, g: Guard<D.Entry>, e: D.Event, k: string)
    requires Listed(g) && k in g.entries && e.SetOutcome? && e.key != k && !DropsFrom(l, g, e.now, k)
    ensures k in D.Next(l, g, e).entries && D.Next(l, g, e).entries[k] == g.entries[k]
  {
    PruneKeepsOutcome(l, g, e.now, k);
  }

  lemma FinishKeepsOutcome(l: Limits<D.Entry>, s: State, e: Step, k: string)
    requires Enabled(s, e) && Listed(s.guard) && k in s.guard.entries && e.Finish? && !Drops(l, s, e, k)
    requires !RecordsSome(s, e, k)
    ensures k in Next(l, s, e).guard.entries && Next(l, s, e).guard.entries[k] == s.guard.entries[k]
  {
    var task := s.tasks[e.t];
    if task.phase.v != StaleBlock {
      SetKeepsOutcome(l, s.guard, D.SetOutcome(task.key, e.now, task.phase.v.Outcome()), k);
    }
  }

  lemma OutcomeStays(l: Limits<D.Entry>, s: State, e: Step, k: string, o: D.Outcome)
    requires Enabled(s, e) && Listed(s.guard) && HasOutcome(s, k, o) && !Drops(l, s, e, k) && !RecordsSome(s, e, k)
    ensures HasOutcome(Next(l, s, e), k, o)
  {
    match e
    case Begin(_, _, _, _) => BeginKeepsOutcome(l, s, e, k);
    case Decide(t, v, now) =>
      if v == StaleBlock {
        SetKeepsOutcome(l, s.guard, D.SetOutcome(s.tasks[t].key, now, D.Stale), k);
      }
    case Finish(_, _) => FinishKeepsOutcome(l, s, e, k);
    case _ =>
  }

  lemma {:induction false} OutcomeUntil(l: Limits<D.Entry>, states: seq<State>, steps: seq<Step>, k: string, o: D.Outcome, i: nat, j: nat)
    requires Run(l, states, steps) && states[0] == INITIAL && i < j <= |steps|
    requires k in states[i].guard.entries && Records(states[i], steps[i], k, o)
    requires forall m | i <= m < j :: !Drops(l, states[m], steps[m], k)
    requires forall m | i < m < j :: !RecordsSome(states[m], steps[m], k)
    ensures HasOutcome(states[j], k, o)
  {
    var m := j - 1;
    RunGuardListed(l, states, steps, m);
    RunStep(l, states, steps, m);
    var s, e := states[m], steps[m];
    if m == i {
      RecordedNow(l, s, e, k, o);
    } else {
      OutcomeUntil(l, states, steps, k, o, i, m);
      OutcomeStays(l, s, e, k, o);
    }
  }

  /** A duplicate is answered with the verdict of the submission that recorded last, as long
      as the guard has not dropped the key since. */
  lemma DuplicateAnswered(l: Limits<D.Entry>, states: seq<State>, steps: seq<Step>, k: string, o: D.Outcome, i: nat, j: nat)
    requires Run(l, states, steps) && states[0] == INITIAL && i < j < |steps|
    requires k in states[i].guard.entries && Records(states[i], steps[i], k, o)
    requires forall m | i <= m <= j :: !Drops(l, states[m], steps[m], k)
    requires forall m | i < m < j :: !RecordsSome(states[m], steps[m], k)
    requires steps[j].Begin? && steps[j].key == k
    ensures At(states[j + 1], steps[j].t, Answered(o))
  {
    OutcomeUntil(l, states, steps, k, o, i, j);
    RunGuardListed(l, states, steps, j);
    RunStep(l, states, steps, j);
    PruneKeepsOutcome(l, states[j].guard, steps[j].now, k);
  }
}
