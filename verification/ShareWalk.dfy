/** Validation of a submitted share: the submitted job first, then the jobs before it. */
module ShareWalk {
  import opened Bytes
  import opened JobRing

  /** What the node answers when a block is submitted. */
  datatype Reply = Success | Rejected | Duplicate | Failed

  /** Everything the walk observes from outside: the proof-of-work value of a job under
      the submitted nonce, its network target, the node's reply to its block, the pool
      target read at each visit, and the jobs added after each visit. */
  datatype Env<!J> = Env(
    pow: J -> nat, net: J -> nat, reply: J -> Reply,
    pool: nat -> nat, arrivals: nat -> seq<J>)

  datatype Verdict =
    | Credited(id: nat)     // a share, or a block the node accepted
    | LowDifficulty
    | RejectedBlock(id: nat) // recorded as a low-difficulty share
    | StaleBlock(id: nat)
    | BadBlock(id: nat)
    | Underflow             // the overflow check stops the handler

  predicate MeetsNetwork<J>(env: Env<J>, job: J) {
    env.pow(job) <= env.net(job)
  }

  predicate MeetsPool<J>(env: Env<J>, job: J, i: nat) {
    env.pow(job) < env.pool(i)
  }

  predicate Decisive<J>(env: Env<J>, job: J, i: nat) {
    MeetsNetwork(env, job) || MeetsPool(env, job, i)
  }

  /** The verdict on a job that meets one of the targets. */
  function Judge<J>(env: Env<J>, job: J, id: nat): Verdict {
    if MeetsNetwork(env, job) then
      match env.reply(job)
      case Success => Credited(id)
      case Rejected => RejectedBlock(id)
      case Duplicate => StaleBlock(id)
      case Failed => BadBlock(id)
    else Credited(id)
  }

  /** The test that ends the walk: job 1, or once around the ring. */
  predicate Exhausted(current: nat, jobId: nat) {
    current == 1 || Slot(current) == NextSlot(Slot(jobId))
  }

  method WalkedAround(current: nat, jobId: nat) returns (r: bool)
    ensures r == Exhausted(current, jobId)
  {
    SlotIsMod(current);
    SlotIsMod(jobId);
    r := current == 1 || current % 300 == (jobId % 300 + 1) % 300;
  }

  lemma NotExhausted(jobId: nat, i: nat)
    requires i <= jobId && i < 300 && !Exhausted(jobId - i, jobId)
    ensures i + 1 < 300 && jobId != i + 1
  {
    if i == 299 { SlotNext(jobId); }
  }

  /** Within a walk the ring test is met by the 300th visit only. */
  lemma RingTest(jobId: nat, i: nat)
    requires i <= jobId && i < 299
    ensures Slot(jobId - i) != NextSlot(Slot(jobId))
  {
    SlotNext(jobId);
    SlotApart(jobId - i, jobId + 1);
  }

  /** The ring when visit `i` is looked up. */
  function RingAt<J>(r: Ring<J>, env: Env<J>, i: nat): Ring<J> {
    if i == 0 then r else AddAll(RingAt(r, env, i - 1), env.arrivals(i - 1))
  }

  /** The job of visit `i`, provided no earlier job decides: visit `i` has number `jobId - i`. */
  function Visit<J>(r: Ring<J>, env: Env<J>, jobId: nat, first: J, i: nat): Option<J> {
    if i == 0 then Some(first)
    else if i > jobId || Visit(r, env, jobId, first, i - 1).None? || Exhausted(jobId - (i - 1), jobId) then None
    else GetJob(RingAt(r, env, i), jobId - i)
  }

  /** However jobs arrive meanwhile, there are at most 300 visits and their numbers are
      at least 1, so nothing underflows. */
  lemma {:induction false} VisitBounds<J>(r: Ring<J>, env: Env<J>, jobId: nat, first: J, i: nat)
    requires Visit(r, env, jobId, first, i).Some?
    ensures i < 300 && i <= jobId && (jobId >= 1 ==> jobId - i >= 1)
  {
    if i > 0 {
      VisitBounds(r, env, jobId, first, i - 1);
      NotExhausted(jobId, i - 1);
    }
  }

  /** No slot is visited twice. */
  lemma VisitsDistinct<J>(r: Ring<J>, env: Env<J>, jobId: nat, first: J, i: nat, j: nat)
    requires i < j && Visit(r, env, jobId, first, j).Some?
    ensures j <= jobId && Slot(jobId - i) != Slot(jobId - j)
  {
    VisitBounds(r, env, jobId, first, j);
    SlotApart(jobId - j, jobId - i);
  }

  /** A visit is followed by the next one or by the end, never by a gap. */
  lemma {:induction false} VisitsContiguous<J>(r: Ring<J>, env: Env<J>, jobId: nat, first: J, i: nat, k: nat)
    requires i <= k && Visit(r, env, jobId, first, k).Some?
    ensures Visit(r, env, jobId, first, i).Some?
    decreases k - i
  {
    if i < k { VisitsContiguous(r, env, jobId, first, i, k - 1); }
  }

  /** The loop, from visit `i` on. */
  function Walk<J>(r: Ring<J>, env: Env<J>, jobId: nat, job: J, i: nat): Verdict
    requires i <= jobId && i < 300
    decreases 300 - i
  {
    var id := jobId - i;
    if Decisive(env, job, i) then Judge(env, job, id)
    else if Exhausted(id, jobId) then LowDifficulty
    else if id == 0 then Underflow
    else
      NotExhausted(jobId, i);
      var r' := AddAll(r, env.arrivals(i));
      match GetJob(r', id - 1)
      case None => LowDifficulty
      case Some(prev) => Walk(r', env, jobId, prev, i + 1)
  }

  ghost predicate FirstDecisive<J>(r: Ring<J>, env: Env<J>, jobId: nat, first: J, k: nat) {
    && Visit(r, env, jobId, first, k).Some? && Decisive(env, Visit(r, env, jobId, first, k).value, k)
    && forall m | 0 <= m < k ::
         Visit(r, env, jobId, first, m).Some? ==> !Decisive(env, Visit(r, env, jobId, first, m).value, m)
  }

  /** A visited job that does not decide hands over to the next visit. */
  lemma WalkStep<J>(r: Ring<J>, env: Env<J>, jobId: nat, first: J, i: nat)
    requires Visit(r, env, jobId, first, i + 1).Some?
    requires Visit(r, env, jobId, first, i).Some? && !Decisive(env, Visit(r, env, jobId, first, i).value, i)
    ensures i + 1 <= jobId && i + 1 < 300
    ensures Walk(RingAt(r, env, i), env, jobId, Visit(r, env, jobId, first, i).value, i)
            == Walk(RingAt(r, env, i + 1), env, jobId, Visit(r, env, jobId, first, i + 1).value, i + 1)
  {
    VisitBounds(r, env, jobId, first, i + 1);
  }

  lemma WalkDecides<J>(r: Ring<J>, env: Env<J>, jobId: nat, job: J, i: nat)
    requires i <= jobId && i < 300 && Decisive(env, job, i)
    ensures Walk(r, env, jobId, job, i) == Judge(env, job, jobId - i)
  {
  }

  lemma NotYetDecisive<J>(r: Ring<J>, env: Env<J>, jobId: nat, first: J, i: nat, k: nat)
    requires FirstDecisive(r, env, jobId, first, k) && i < k
    ensures Visit(r, env, jobId, first, i).Some? && !Decisive(env, Visit(r, env, jobId, first, i).value, i)
  {
    VisitsContiguous(r, env, jobId, first, i, k);
  }

  lemma {:induction false} WalkFinds<J>(r: Ring<J>, env: Env<J>, jobId: nat, first: J, i: nat, k: nat)
    requires FirstDecisive(r, env, jobId, first, k) && i <= k && Visit(r, env, jobId, first, i).Some?
    requires i <= jobId && i < 300
    ensures Walk(RingAt(r, env, i), env, jobId, Visit(r, env, jobId, first, i).value, i)
            == Judge(env, Visit(r, env, jobId, first, k).value, jobId - k)
    decreases k - i
  {
    if i == k {
      WalkDecides(RingAt(r, env, i), env, jobId, Visit(r, env, jobId, first, i).value, i);
    } else {
      NotYetDecisive(r, env, jobId, first, i, k);
      VisitsContiguous(r, env, jobId, first, i + 1, k);
      WalkStep(r, env, jobId, first, i);
      WalkFinds(r, env, jobId, first, i + 1, k);
    }
  }

  lemma {:induction false} WalkEnds<J>(r: Ring<J>, env: Env<J>, jobId: nat, first: J, i: nat)
    requires Visit(r, env, jobId, first, i).Some? && i <= jobId && i < 300
    requires forall m: nat :: Visit(r, env, jobId, first, m).Some? ==> !Decisive(env, Visit(r, env, jobId, first, m).value, m)
    ensures Walk(RingAt(r, env, i), env, jobId, Visit(r, env, jobId, first, i).value, i)
            == if jobId == 0 then Underflow else LowDifficulty
    decreases 300 - i
  {
    VisitBounds(r, env, jobId, first, i);
    if !Exhausted(jobId - i, jobId) && jobId - i > 0 {
      NotExhausted(jobId, i);
      var next := Visit(r, env, jobId, first, i + 1);
      if next.Some? { WalkEnds(r, env, jobId, first, i + 1); }
    }
  }

  lemma WalkJudges<J>(r: Ring<J>, env: Env<J>, jobId: nat, first: J)
    ensures forall k: nat | FirstDecisive(r, env, jobId, first, k) ::
              k <= jobId && Walk(r, env, jobId, first, 0) == Judge(env, Visit(r, env, jobId, first, k).value, jobId - k)
    ensures (forall k: nat :: !FirstDecisive(r, env, jobId, first, k)) ==>
              Walk(r, env, jobId, first, 0) == if jobId == 0 then Underflow else LowDifficulty
  {
    assert Visit(r, env, jobId, first, 0) == Some(first);
    forall k: nat | FirstDecisive(r, env, jobId, first, k)
      ensures k <= jobId && Walk(r, env, jobId, first, 0) == Judge(env, Visit(r, env, jobId, first, k).value, jobId - k)
    {
      VisitBounds(r, env, jobId, first, k);
      WalkFinds(r, env, jobId, first, 0, k);
    }
    if forall k: nat :: !FirstDecisive(r, env, jobId, first, k) {
      forall m: nat ensures Visit(r, env, jobId, first, m).Some? ==> !Decisive(env, Visit(r, env, jobId, first, m).value, m) {
        if Visit(r, env, jobId, first, m).Some? { NoneDecisive(r, env, jobId, first, m); }
      }
      WalkEnds(r, env, jobId, first, 0);
    }
  }

  /** The job of visit `m` meets neither its network target nor the pool target at that time. */
  predicate Fails<J>(r: Ring<J>, env: Env<J>, jobId: nat, first: J, m: nat) {
    var job := Visit(r, env, jobId, first, m);
    job.Some? ==> env.pow(job.value) > env.net(job.value) && env.pow(job.value) >= env.pool(m)
  }

  /** The first visited job that meets a target decides.  If it meets the network target, the
      node's reply does: success credits the share, a block the node has already is stale, a
      rejected one counts as low difficulty and a failed one as bad.  Otherwise it is credited. */
  lemma VerdictExact<J>(r: Ring<J>, env: Env<J>, jobId: nat, first: J, k: nat, job: J)
    requires Visit(r, env, jobId, first, k) == Some(job) && !Fails(r, env, jobId, first, k)
    requires forall m | 0 <= m < k :: Fails(r, env, jobId, first, m)
    ensures k < 300 && k <= jobId
    ensures Walk(r, env, jobId, first, 0) ==
            if env.pow(job) > env.net(job) then Credited(jobId - k)
            else match env.reply(job)
                 case Success => Credited(jobId - k)
                 case Duplicate => StaleBlock(jobId - k)
                 case Rejected => RejectedBlock(jobId - k)
                 case Failed => BadBlock(jobId - k)
  {
    VisitBounds(r, env, jobId, first, k);
    forall m | 0 <= m < k && Visit(r, env, jobId, first, m).Some?
      ensures !Decisive(env, Visit(r, env, jobId, first, m).value, m)
    {
      assert Fails(r, env, jobId, first, m);
    }
    assert FirstDecisive(r, env, jobId, first, k);
    WalkJudges(r, env, jobId, first);
  }

  /** Without such a job it is low difficulty, except that number 0 runs into the overflow check. */
  lemma NoneMeets<J>(r: Ring<J>, env: Env<J>, jobId: nat, first: J)
    requires forall m: nat :: Fails(r, env, jobId, first, m)
    ensures Walk(r, env, jobId, first, 0) == if jobId == 0 then Underflow else LowDifficulty
  {
    forall m: nat ensures Visit(r, env, jobId, first, m).Some? ==> !Decisive(env, Visit(r, env, jobId, first, m).value, m) {
      assert Fails(r, env, jobId, first, m);
    }
    assert Visit(r, env, jobId, first, 0) == Some(first);
    WalkEnds(r, env, jobId, first, 0);
  }

  // ---- Which jobs are visited ----

  /** The jobs that came before visit `i` is looked up. */
  function Arrived<J>(env: Env<J>, i: nat): seq<J> {
    if i == 0 then [] else Arrived(env, i - 1) + env.arrivals(i - 1)
  }

  lemma {:induction false} RingAtRefines<J>(r: Ring<J>, history: seq<J>, env: Env<J>, i: nat)
    requires Refines(r, history)
    ensures Refines(RingAt(r, env, i), history + Arrived(env, i))
  {
    if i == 0 {
      assert history + Arrived(env, 0) == history;
    } else {
      RingAtRefines(r, history, env, i - 1);
      AddAllRefines(RingAt(r, env, i - 1), history + Arrived(env, i - 1), env.arrivals(i - 1));
      assert history + Arrived(env, i - 1) + env.arrivals(i - 1) == history + Arrived(env, i);
    }
  }

  /** `x` is the newest of the numbers 1 to `issued` that is congruent to `id` modulo 300. */
  ghost predicate NewestCongruent(issued: nat, id: nat, x: nat) {
    1 <= x <= issued && x % 300 == id % 300 && forall y | x < y <= issued :: y % 300 != id % 300
  }

  lemma NewestIsCongruent(c: nat, id: nat)
    requires Newest(c, Slot(id)) >= 1
    ensures NewestCongruent(c, id, Newest(c, Slot(id)))
  {
    var x := Newest(c, Slot(id));
    NewestBound(c, Slot(id));
    SlotIsMod(id);
    SlotIsMod(x);
    forall y | x < y <= c ensures y % 300 != id % 300 {
      SlotIsMod(y);
      if Slot(y) == Slot(id) { NewestMax(c, Slot(id), y); }
    }
  }

  /** Visit `i` is to the newest job that has a number congruent to `jobId - i` by then; to the
      one with that very number, as long as it is among the last 300. */
  lemma VisitedJob<J>(r: Ring<J>, history: seq<J>, env: Env<J>, jobId: nat, first: J, i: nat, issued: seq<J>)
    requires Refines(r, history) && i > 0 && Visit(r, env, jobId, first, i).Some? && issued == history + Arrived(env, i)
    ensures i <= jobId
    ensures var id, job := jobId - i, Visit(r, env, jobId, first, i).value;
            && (exists x :: NewestCongruent(|issued|, id, x) && job == issued[x - 1])
            && (1 <= id <= |issued| < id + 300 ==> job == issued[id - 1])
  {
    VisitBounds(r, env, jobId, first, i);
    RingAtRefines(r, history, env, i);
    GetJobExact(RingAt(r, env, i), issued, jobId - i);
    NewestIsCongruent(|issued|, jobId - i);
  }

  lemma {:induction false} NoneDecisive<J>(r: Ring<J>, env: Env<J>, jobId: nat, first: J, m: nat)
    requires forall k: nat :: !FirstDecisive(r, env, jobId, first, k)
    requires Visit(r, env, jobId, first, m).Some?
    ensures !Decisive(env, Visit(r, env, jobId, first, m).value, m)
  {
    forall j | 0 <= j < m
      ensures Visit(r, env, jobId, first, j).Some? ==> !Decisive(env, Visit(r, env, jobId, first, j).value, j)
    {
      VisitsContiguous(r, env, jobId, first, j, m);
      NoneDecisive(r, env, jobId, first, j);
    }
    assert !FirstDecisive(r, env, jobId, first, m);
  }

  lemma OneFirst<J>(r: Ring<J>, env: Env<J>, jobId: nat, first: J, j: nat, k: nat)
    requires FirstDecisive(r, env, jobId, first, j) && FirstDecisive(r, env, jobId, first, k)
    ensures j == k
  {
  }

  /** A share is credited exactly when the first visited job meeting either target does
      not need the node, or the node accepts its block. */
  lemma CreditedExact<J>(r: Ring<J>, env: Env<J>, jobId: nat, first: J)
    ensures Walk(r, env, jobId, first, 0).Credited? <==>
            exists k: nat :: FirstDecisive(r, env, jobId, first, k) &&
                        var job := Visit(r, env, jobId, first, k).value;
                        env.pow(job) <= env.net(job) ==> env.reply(job) == Success
  {
    WalkJudges(r, env, jobId, first);
    if k: nat :| FirstDecisive(r, env, jobId, first, k) {
      assert Walk(r, env, jobId, first, 0) == Judge(env, Visit(r, env, jobId, first, k).value, jobId - k);
      forall j: nat | FirstDecisive(r, env, jobId, first, j) ensures j == k { OneFirst(r, env, jobId, first, j, k); }
    }
  }

  // ---- A quiet ring ----

  ghost predicate Quiet<J>(env: Env<J>) {
    (forall i :: env.arrivals(i) == []) && (forall i, j :: env.pool(i) == env.pool(j))
  }

  lemma {:induction false} QuietRing<J>(r: Ring<J>, env: Env<J>, i: nat)
    requires Quiet(env)
    ensures RingAt(r, env, i) == r
  {
    if i > 0 { QuietRing(r, env, i - 1); }
  }

  /** Slot `s` is looked at when no job decides. */
  ghost predicate Visits<J>(r: Ring<J>, env: Env<J>, jobId: nat, first: J, s: nat) {
    exists i: nat :: i <= jobId && Visit(r, env, jobId, first, i).Some? && Slot(jobId - i) == s
  }

  /** Whether a walk from `jobId` can look at every stored job, given how many were issued. */
  predicate Covers(issued: nat, jobId: nat) {
    if issued >= 300 then jobId >= 300 else Slot(jobId) == issued
  }

  /** With every slot filled, visit `i` exists for every `i` below 300 and below `jobId`. */
  lemma {:induction false} FullRingVisits<J>(r: Ring<J>, history: seq<J>, env: Env<J>, jobId: nat, first: J, i: nat)
    requires Refines(r, history) && Quiet(env) && |history| >= 300 && i < 300 && i < jobId
    ensures Visit(r, env, jobId, first, i).Some?
  {
    if i > 0 {
      FullRingVisits(r, history, env, jobId, first, i - 1);
      QuietRing(r, env, i);
      FilledSlots(r, history, Slot(jobId - i));
      RingTest(jobId, i - 1);
    }
  }

  /** In a ring not yet full the walk goes down from its slot to slot 1. */
  lemma {:induction false} PartRingVisits<J>(r: Ring<J>, history: seq<J>, env: Env<J>, jobId: nat, first: J, i: nat)
    requires Refines(r, history) && Quiet(env) && |history| < 300
    requires GetJob(r, jobId) == Some(first) && jobId >= 1
    ensures Visit(r, env, jobId, first, i).Some? <==> i < Slot(jobId)
  {
    FilledSlots(r, history, Slot(jobId));
    SlotAtMost(jobId);
    if i > 0 {
      PartRingVisits(r, history, env, jobId, first, i - 1);
      if i <= Slot(jobId) {
        QuietRing(r, env, i);
        SlotBack(jobId, i);
        SlotBack(jobId, i - 1);
        FilledSlots(r, history, Slot(jobId - i));
        RingTest(jobId, i - 1);
      }
    }
  }

  lemma {:induction false} SlotAtMost(id: nat)
    ensures Slot(id) <= id
  {
    if id >= 300 { SlotAtMost(id - 300); }
  }

  /** A walk over a quiet ring can look at every stored job exactly when `Covers` holds:
      a full ring needs a number of at least 300, a ring not yet full needs the slot of
      the latest job. */
  lemma CoverageExact<J>(r: Ring<J>, history: seq<J>, env: Env<J>, jobId: nat, first: J)
    requires Refines(r, history) && Quiet(env) && jobId >= 1 && GetJob(r, jobId) == Some(first)
    ensures (forall s | 0 <= s < 300 && s in r.jobs :: Visits(r, env, jobId, first, s)) <==> Covers(|history|, jobId)
  {
    if |history| >= 300 {
      FullCoverage(r, history, env, jobId, first);
    } else {
      PartCoverage(r, history, env, jobId, first);
    }
  }

  lemma FullCoverage<J>(r: Ring<J>, history: seq<J>, env: Env<J>, jobId: nat, first: J)
    requires Refines(r, history) && Quiet(env) && jobId >= 1 && |history| >= 300
    ensures (forall s | 0 <= s < 300 && s in r.jobs :: Visits(r, env, jobId, first, s)) <==> jobId >= 300
  {
    if jobId >= 300 {
      forall s | 0 <= s < 300 && s in r.jobs ensures Visits(r, env, jobId, first, s) {
        var t := Slot(jobId);
        var i := if t >= s then t - s else t + 300 - s;
        SlotBack(jobId, i);
        FullRingVisits(r, history, env, jobId, first, i);
      }
    } else {
      FilledSlots(r, history, 0);
      if Visits(r, env, jobId, first, 0) {
        var i: nat :| i <= jobId && Visit(r, env, jobId, first, i).Some? && Slot(jobId - i) == 0;
        VisitBounds(r, env, jobId, first, i);
      }
    }
  }

  lemma PartCoverage<J>(r: Ring<J>, history: seq<J>, env: Env<J>, jobId: nat, first: J)
    requires Refines(r, history) && Quiet(env) && jobId >= 1 && |history| < 300 && GetJob(r, jobId) == Some(first)
    ensures (forall s | 0 <= s < 300 && s in r.jobs :: Visits(r, env, jobId, first, s)) <==> Slot(jobId) == |history|
  {
    var c, t := |history|, Slot(jobId);
    FilledSlots(r, history, t);
    SlotAtMost(jobId);
    if t == c {
      forall s | 0 <= s < 300 && s in r.jobs ensures Visits(r, env, jobId, first, s) {
        FilledSlots(r, history, s);
        PartRingVisits(r, history, env, jobId, first, t - s);
        SlotBack(jobId, t - s);
      }
    } else {
      FilledSlots(r, history, c);
      if Visits(r, env, jobId, first, c) {
        var i: nat :| i <= jobId && Visit(r, env, jobId, first, i).Some? && Slot(jobId - i) == c;
        PartRingVisits(r, history, env, jobId, first, i);
        SlotBack(jobId, i);
      }
    }
  }

  /** With a covering number, in particular the latest one, a low-difficulty verdict
      means that no stored job meets either target. */
  lemma LowDifficultyComplete<J>(r: Ring<J>, history: seq<J>, env: Env<J>, jobId: nat, first: J, s: nat)
    requires Refines(r, history) && Quiet(env) && jobId >= 1 && GetJob(r, jobId) == Some(first)
    requires Covers(|history|, jobId) && Walk(r, env, jobId, first, 0) == LowDifficulty && s < 300 && s in r.jobs
    ensures !Decisive(env, r.jobs[s], 0)
  {
    CoverageExact(r, history, env, jobId, first);
    assert Visits(r, env, jobId, first, s);
    var i: nat :| i <= jobId && Visit(r, env, jobId, first, i).Some? && Slot(jobId - i) == s;
    LowDifficultyVisited(r, env, jobId, first, i);
    QuietRing(r, env, i);
  }

  /** With a full ring and any number below 300, a job issued later than that number is missed:
      if it alone meets a target, the share is called low difficulty all the same. */
  lemma LaterJobMissed<J>(r: Ring<J>, history: seq<J>, env: Env<J>, jobId: nat, later: nat)
    requires Refines(r, history) && Quiet(env) && |history| == 300 && 1 <= jobId < later <= 300
    requires Decisive(env, history[later - 1], 0)
    requires forall i | 0 <= i < jobId :: !Decisive(env, history[i], 0)
    ensures GetJob(r, jobId) == Some(history[jobId - 1]) && GetJob(r, later) == Some(history[later - 1])
    ensures Walk(r, env, jobId, history[jobId - 1], 0) == LowDifficulty
  {
    GetJobExact(r, history, jobId);
    GetJobExact(r, history, later);
    var first := history[jobId - 1];
    forall m: nat ensures Visit(r, env, jobId, first, m).Some? ==> !Decisive(env, Visit(r, env, jobId, first, m).value, m) {
      if Visit(r, env, jobId, first, m).Some? {
        VisitBounds(r, env, jobId, first, m);
        QuietRing(r, env, m);
        GetJobExact(r, history, jobId - m);
      }
    }
    WalkEnds(r, env, jobId, first, 0);
  }

  lemma LowDifficultyVisited<J>(r: Ring<J>, env: Env<J>, jobId: nat, first: J, i: nat)
    requires Walk(r, env, jobId, first, 0) == LowDifficulty && Visit(r, env, jobId, first, i).Some?
    ensures !Decisive(env, Visit(r, env, jobId, first, i).value, i)
  {
    WalkJudges(r, env, jobId, first);
    NoneDecisive(r, env, jobId, first, i);
  }

  lemma LatestCovers(issued: nat)
    ensures Covers(issued, issued)
  {
  }

  /** What the node's reply to a block makes of the share. */
  method BlockVerdict(reply: Reply, id: nat) returns (v: Verdict)
    ensures v == match reply
                 case Success => Credited(id)
                 case Rejected => RejectedBlock(id)
                 case Duplicate => StaleBlock(id)
                 case Failed => BadBlock(id)
  {
    match reply {
      case Success => v := Credited(id);
      case Rejected => v := RejectedBlock(id);
      case Duplicate => v := StaleBlock(id);
      case Failed => v := BadBlock(id);
    }
  }

  /** How one turn of the handler's loop ends. */
  datatype Turn<J> = Block(v: Verdict) | Share | Around | Overflow | Missing | Back(prev: J)

  lemma WalkOn<J>(r: Ring<J>, env: Env<J>, jobId: nat, job: J, i: nat)
    requires i < jobId && i + 1 < 300 && !Decisive(env, job, i) && !Exhausted(jobId - i, jobId)
    ensures var r' := AddAll(r, env.arrivals(i));
            Walk(r, env, jobId, job, i) ==
            match GetJob(r', jobId - i - 1)
            case None => LowDifficulty
            case Some(prev) => Walk(r', env, jobId, prev, i + 1)
  {
  }

  /** What a turn that ends so says about the walk from visit `i` on. */
  ghost predicate Ends<J>(r: Ring<J>, env: Env<J>, jobId: nat, current: J, i: nat, turn: Turn<J>)
    requires i <= jobId && i < 300
  {
    match turn
    case Block(v) => Walk(r, env, jobId, current, i) == v
    case Share => Walk(r, env, jobId, current, i) == Credited(jobId - i)
    case Around => Walk(r, env, jobId, current, i) == LowDifficulty
    case Overflow => Walk(r, env, jobId, current, i) == Underflow
    case Missing => i < jobId && i + 1 < 300 && Walk(r, env, jobId, current, i) == LowDifficulty
    case Back(prev) =>
      && i < jobId && i + 1 < 300
      && Walk(r, env, jobId, current, i) == Walk(AddAll(r, env.arrivals(i)), env, jobId, prev, i + 1)
  }

  /** A job that meets no target: the one before it is looked up, in the ring as it is after
      the jobs that arrive meanwhile. */
  method StepBack<J>(state: MiningState<J>, jobId: nat, env: Env<J>, i: nat, current: J, id: nat) returns (turn: Turn<J>)
    requires state.Valid() && i <= jobId && i < 300 && id == jobId - i && !Decisive(env, current, i)
    modifies state
    ensures state.Valid()
    ensures state.View() == if turn.Back? || turn.Missing? then AddAll(old(state.View()), env.arrivals(i)) else old(state.View())
    ensures Ends(old(state.View()), env, jobId, current, i, turn)
  {
    var around := WalkedAround(id, jobId);
    if around { return Around; }
    if id == 0 { return Overflow; }
    NotExhausted(jobId, i);
    WalkOn(state.View(), env, jobId, current, i);
    state.AddJobs(env.arrivals(i));
    var prev := state.Lookup(id - 1);
    if prev.None? { return Missing; }
    turn := Back(prev.value);
  }

  /** One turn of the loop. */
  method TakeTurn<J>(state: MiningState<J>, jobId: nat, env: Env<J>, i: nat, current: J, id: nat) returns (turn: Turn<J>)
    requires state.Valid() && i <= jobId && i < 300 && id == jobId - i
    modifies state
    ensures state.Valid()
    ensures state.View() == if turn.Back? || turn.Missing? then AddAll(old(state.View()), env.arrivals(i)) else old(state.View())
    ensures Ends(old(state.View()), env, jobId, current, i, turn)
  {
    if env.pow(current) <= env.net(current) {
      WalkDecides(state.View(), env, jobId, current, i);
      var v := BlockVerdict(env.reply(current), id);
      turn := Block(v);
    } else if env.pow(current) < env.pool(i) {
      WalkDecides(state.View(), env, jobId, current, i);
      turn := Share;
    } else {
      turn := StepBack(state, jobId, env, i, current, id);
    }
  }

  /** The walk from visit `i` on is the whole walk, and the ring is as visit `i` finds it. */
  ghost predicate Underway<J>(r0: Ring<J>, env: Env<J>, jobId: nat, first: J, r: Ring<J>, current: J, i: nat) {
    && i <= jobId && i < 300 && r == RingAt(r0, env, i)
    && Walk(r, env, jobId, current, i) == Walk(r0, env, jobId, first, 0)
  }

  lemma UnderwayNext<J>(r0: Ring<J>, env: Env<J>, jobId: nat, first: J, r: Ring<J>, current: J, i: nat, r': Ring<J>, prev: J)
    requires Underway(r0, env, jobId, first, r, current, i) && i < jobId && i + 1 < 300
    requires r' == AddAll(r, env.arrivals(i)) && Walk(r, env, jobId, current, i) == Walk(r', env, jobId, prev, i + 1)
    ensures Underway(r0, env, jobId, first, r', prev, i + 1)
  {
  }

  lemma RingAtNext<J>(r0: Ring<J>, env: Env<J>, i: nat)
    ensures RingAt(r0, env, i + 1) == AddAll(RingAt(r0, env, i), env.arrivals(i))
  {
  }

  /** The walk as the submit handler runs it; the ring ends as the jobs that arrived left it. */
  method ValidateShare<J>(state: MiningState<J>, jobId: nat, env: Env<J>) returns (found: bool, v: Verdict, ghost last: nat)
    requires state.Valid()
    modifies state
    ensures state.Valid()
    ensures found == old(GetJob(state.View(), jobId)).Some?
    ensures found ==> v == Walk(old(state.View()), env, jobId, old(GetJob(state.View(), jobId)).value, 0)
    ensures last < 300 && state.View() == RingAt(old(state.View()), env, last)
  {
    last := 0;
    var job := state.Lookup(jobId);
    if job.None? { return false, LowDifficulty, 0; }
    found := true;
    var current, currentId, i := job.value, jobId, 0;
    var invalid := false;
    ghost var r0 := state.View();
    while true
      invariant state.Valid() && Underway(r0, env, jobId, job.value, state.View(), current, i)
      invariant last == i && currentId == jobId - i && (i > 0 ==> invalid)
      decreases 300 - i
    {
      ghost var r := state.View();
      var turn := TakeTurn(state, jobId, env, i, current, currentId);
      match turn
      case Block(w) => return true, w, i;
      case Share =>
        invalid := false;
        break;
      case Overflow => return true, Underflow, i;
      case Around =>
        if currentId == jobId { invalid := true; }
        break;
      case Missing =>
        if currentId == jobId { invalid := true; }
        RingAtNext(r0, env, i);
        last := i + 1;
        break;
      case Back(prev) =>
        if currentId == jobId { invalid := true; }
        UnderwayNext(r0, env, jobId, job.value, r, current, i, state.View(), prev);
        current, currentId, i := prev, currentId - 1, i + 1;
        last := i;
    }
    v := if invalid then LowDifficulty else Credited(currentId);
  }
}
