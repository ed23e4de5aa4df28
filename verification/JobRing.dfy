/** The 300-slot store of recent mining jobs, against the full history of jobs. */
module JobRing {
  import opened Bytes

  // ---- Slots: numbers modulo 300, by subtraction ----

  function Slot(id: nat): (s: nat)
    ensures s < 300
  {
    if id < 300 then id else Slot(id - 300)
  }

  lemma {:induction false} SlotIsMod(id: nat)
    ensures Slot(id) == id % 300
  {
    if id >= 300 { SlotIsMod(id - 300); }
  }

  function NextSlot(s: nat): nat {
    if s == 299 then 0 else s + 1
  }

  lemma {:induction false} SlotNext(id: nat)
    ensures Slot(id + 1) == NextSlot(Slot(id))
  {
    if id >= 300 { SlotNext(id - 300); }
  }

  /** Numbers less than 300 apart have different slots. */
  lemma {:induction false} SlotApart(a: nat, b: nat)
    requires a < b < a + 300
    ensures Slot(a) != Slot(b)
  {
    if a >= 300 { SlotApart(a - 300, b - 300); }
  }

  /** Going back `d` numbers goes back `d` slots. */
  lemma {:induction false} SlotBack(c: nat, d: nat)
    requires d <= c && d < 300
    ensures Slot(c - d) == if Slot(c) >= d then Slot(c) - d else Slot(c) + 300 - d
  {
    if c >= 600 { SlotBack(c - 300, d); }
  }

  // ---- The ring ----

  datatype Ring<J> = Ring(counter: nat, jobs: map<nat, J>, ids: map<nat, nat>)

  function EmptyRing<J>(): Ring<J> {
    Ring(0, map[], map[])
  }

  function Add<J>(r: Ring<J>, job: J): Ring<J> {
    var id := r.counter + 1;
    Ring(id, r.jobs[Slot(id) := job], r.ids[Slot(id) := id])
  }

  function AddAll<J>(r: Ring<J>, jobs: seq<J>): Ring<J>
    decreases |jobs|
  {
    if jobs == [] then r else AddAll(Add(r, jobs[0]), jobs[1..])
  }

  /** The job at the slot of `id`, without checking that it was issued under `id`. */
  function GetJob<J>(r: Ring<J>, id: nat): Option<J> {
    if Slot(id) in r.jobs then Some(r.jobs[Slot(id)]) else None
  }

  /** The newest number from 1 to `c` on slot `s`, or 0. */
  function Newest(c: nat, s: nat): nat {
    if c == 0 || Slot(c) == s then c else Newest(c - 1, s)
  }

  /** Slot `s` holds the newest job whose number falls on `s`. */
  ghost predicate SlotRefines<J>(r: Ring<J>, history: seq<J>, s: nat) {
    var x := Newest(|history|, s);
    && x <= |history|
    && (s in r.jobs <==> x >= 1) && (s in r.ids <==> x >= 1)
    && (x >= 1 ==> r.jobs[s] == history[x - 1] && r.ids[s] == x)
  }

  /** The ring stands for the history. */
  ghost predicate Refines<J>(r: Ring<J>, history: seq<J>) {
    && r.counter == |history|
    && (forall s | s in r.ids :: s < 300)
    && forall s | 0 <= s < 300 :: SlotRefines(r, history, s)
  }

  lemma AddRefines<J>(r: Ring<J>, history: seq<J>, job: J)
    requires Refines(r, history)
    ensures Refines(Add(r, job), history + [job])
  {
    forall s | 0 <= s < 300 ensures SlotRefines(Add(r, job), history + [job], s) {
      assert SlotRefines(r, history, s);
    }
  }

  lemma {:induction false} AddAllRefines<J>(r: Ring<J>, history: seq<J>, jobs: seq<J>)
    requires Refines(r, history)
    ensures Refines(AddAll(r, jobs), history + jobs)
    decreases |jobs|
  {
    if jobs == [] {
      assert history + jobs == history;
    } else {
      AddRefines(r, history, jobs[0]);
      AddAllRefines(Add(r, jobs[0]), history + [jobs[0]], jobs[1..]);
      assert history + [jobs[0]] + jobs[1..] == history + jobs;
    }
  }

  lemma EmptyRefines<J>()
    ensures Refines<J>(EmptyRing(), [])
  {
  }

  /** Every run of additions is a ring that stands for its history. */
  lemma RunRefines<J>(jobs: seq<J>)
    ensures Refines(AddAll(EmptyRing(), jobs), jobs)
  {
    EmptyRefines<J>();
    AddAllRefines(EmptyRing(), [], jobs);
    assert [] + jobs == jobs;
  }

  // ---- The window ----

  lemma {:induction false} NewestBound(c: nat, s: nat)
    ensures Newest(c, s) <= c && (Newest(c, s) >= 1 ==> Slot(Newest(c, s)) == s)
  {
    if c > 0 && Slot(c) != s { NewestBound(c - 1, s); }
  }

  lemma {:induction false} NewestMax(c: nat, s: nat, x: nat)
    requires x <= c && Slot(x) == s
    ensures Newest(c, s) >= x
  {
    if c > 0 && Slot(c) != s { NewestMax(c - 1, s, x); }
  }

  /** The newest number on a slot is the only one among the last 300. */
  lemma NewestUnique(c: nat, x: nat)
    requires x <= c < x + 300
    ensures Newest(c, Slot(x)) == x
  {
    NewestMax(c, Slot(x), x);
    NewestBound(c, Slot(x));
    var y := Newest(c, Slot(x));
    if x < y { SlotApart(x, y); }
  }

  lemma NewestRecent(c: nat, s: nat)
    requires s < 300 && c >= 300
    ensures c < Newest(c, s) + 300
  {
    var t := Slot(c);
    var d := if t >= s then t - s else t + 300 - s;
    SlotBack(c, d);
    NewestMax(c, s, c - d);
  }

  /** The job returned for `id` is the newest one issued under a number with `id`'s
      slot, if any; for the last 300 numbers it is the job issued under `id` itself. */
  lemma GetJobExact<J>(r: Ring<J>, history: seq<J>, id: nat)
    requires Refines(r, history)
    ensures var x := Newest(|history|, Slot(id));
            x <= |history| && GetJob(r, id) == if x >= 1 then Some(history[x - 1]) else None
    ensures 1 <= id <= |history| < id + 300 ==> GetJob(r, id) == Some(history[id - 1])
  {
    assert SlotRefines(r, history, Slot(id));
    if 1 <= id <= |history| < id + 300 { NewestUnique(|history|, id); }
  }

  /** The stored numbers are exactly the last 300 issued. */
  lemma StoredIdsExact<J>(r: Ring<J>, history: seq<J>, id: nat)
    requires Refines(r, history)
    ensures id in r.ids.Values <==> 1 <= id <= |history| < id + 300
  {
    var c := |history|;
    if id in r.ids.Values {
      var s :| s in r.ids && r.ids[s] == id;
      assert SlotRefines(r, history, s);
      if c >= 300 { NewestRecent(c, s); }
    }
    if 1 <= id <= c < id + 300 {
      NewestUnique(c, id);
      assert SlotRefines(r, history, Slot(id));
      assert r.ids[Slot(id)] == id;
    }
  }

  /** Until 300 jobs are issued slot 0 is empty and slots are filled from 1 upwards. */
  lemma FilledSlots<J>(r: Ring<J>, history: seq<J>, s: nat)
    requires Refines(r, history) && s < 300
    ensures s in r.jobs <==> |history| >= 300 || 1 <= s <= |history|
  {
    var c := |history|;
    assert SlotRefines(r, history, s);
    NewestBound(c, s);
    if c >= 300 {
      NewestRecent(c, s);
    } else if 1 <= s <= c {
      NewestMax(c, s, s);
    }
  }

  class MiningState<J> {
    var jobCounter: nat
    var jobs: map<nat, J>
    var jobIds: map<nat, nat>
    ghost var history: seq<J>

    ghost predicate Valid()
      reads this
    {
      Refines(View(), history)
    }

    function View(): Ring<J>
      reads this
    {
      Ring(jobCounter, jobs, jobIds)
    }

    constructor ()
      ensures Valid() && View() == EmptyRing() && history == []
    {
      jobCounter := 0;
      jobs := map[];
      jobIds := map[];
      history := [];
      EmptyRefines<J>();
    }

    method AddJob(job: J) returns (id: nat)
      requires Valid()
      modifies this
      ensures Valid() && View() == Add(old(View()), job)
      ensures history == old(history) + [job] && id == |history|
    {
      AddRefines(View(), history, job);
      jobCounter := jobCounter + 1;
      id := jobCounter;
      var slot := id % 300;
      SlotIsMod(id);
      jobs := jobs[slot := job];
      jobIds := jobIds[slot := id];
      history := history + [job];
    }

    method Lookup(id: nat) returns (r: Option<J>)
      ensures r == GetJob(View(), id)
    {
      var slot := id % 300;
      SlotIsMod(id);
      if slot in jobs { r := Some(jobs[slot]); } else { r := None; }
    }

    method AddJobs(added: seq<J>)
      requires Valid()
      modifies this
      ensures Valid() && View() == AddAll(old(View()), added) && history == old(history) + added
    {
      var i := 0;
      while i < |added|
        invariant 0 <= i <= |added| && Valid()
        invariant AddAll(View(), added[i..]) == AddAll(old(View()), added)
        invariant history == old(history) + added[..i]
      {
        assert added[i..][1..] == added[i + 1..];
        var _ := AddJob(added[i]);
        i := i + 1;
      }
    }
  }
}
