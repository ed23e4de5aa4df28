/** The ordered key/value database and the two writers: one applies each write
    at once, the other collects a batch that is applied by a single commit. */
module Database {
  import opened Bytes

  type Rows = map<Bytes, Bytes>

  datatype WriteOp =
    | Put(key: Bytes, data: Bytes)
    | Delete(key: Bytes)
    | DeleteRange(from: Bytes, to: Bytes)
  {
    predicate Touches(k: Bytes) {
      match this
      case Put(key, _) => key == k
      case Delete(key) => key == k
      case DeleteRange(from, to) => InRange(k, from, to)
    }
  }

  function ApplyOp(rows: Rows, op: WriteOp): Rows {
    match op
    case Put(key, data) => rows[key := data]
    case Delete(key) => rows - {key}
    case DeleteRange(from, to) => map k | k in rows && !InRange(k, from, to) :: rows[k]
  }

  function Apply(rows: Rows, ops: seq<WriteOp>): Rows {
    if ops == [] then rows
    else ApplyOp(Apply(rows, ops[..|ops| - 1]), ops[|ops| - 1])
  }

  lemma {:induction false} ApplyConcat(rows: Rows, a: seq<WriteOp>, b: seq<WriteOp>)
    ensures Apply(rows, a + b) == Apply(Apply(rows, a), b)
  {
    if b == [] {
      assert a + b == a;
    } else {
      var n := |b| - 1;
      assert (a + b)[..|a + b| - 1] == a + b[..n];
      ApplyConcat(rows, a, b[..n]);
    }
  }

  lemma ApplyOne(rows: Rows, op: WriteOp)
    ensures Apply(rows, [op]) == ApplyOp(rows, op)
  {
    assert Apply(rows, []) == rows;
    assert [op][..0] == [];
  }

  lemma ApplySnoc(rows: Rows, ops: seq<WriteOp>, op: WriteOp)
    ensures Apply(rows, ops + [op]) == ApplyOp(Apply(rows, ops), op)
  {
    ApplyConcat(rows, ops, [op]);
    ApplyOne(Apply(rows, ops), op);
  }

  ghost predicate SameAt(a: Rows, b: Rows, k: Bytes) {
    (k in a <==> k in b) && (k in a ==> a[k] == b[k])
  }

  /** The two row maps hold the same rows among the extensions of `p`. */
  ghost predicate SameUnder(p: Bytes, a: Rows, b: Rows) {
    forall k: Bytes | p <= k :: SameAt(a, b, k)
  }

  ghost predicate Touched(ops: seq<WriteOp>, k: Bytes) {
    exists i :: 0 <= i < |ops| && ops[i].Touches(k)
  }

  lemma {:induction false} UntouchedSame(rows: Rows, ops: seq<WriteOp>, k: Bytes)
    requires !Touched(ops, k)
    ensures SameAt(rows, Apply(rows, ops), k)
  {
    if ops != [] {
      var n := |ops| - 1;
      assert !ops[n].Touches(k);
      assert forall i | 0 <= i < n :: ops[..n][i] == ops[i];
      UntouchedSame(rows, ops[..n], k);
    }
  }

  /** Equal rows in, equal rows out: a write depends on nothing but its own key. */
  lemma {:induction false} ApplySame(a: Rows, b: Rows, ops: seq<WriteOp>, k: Bytes)
    requires SameAt(a, b, k)
    ensures SameAt(Apply(a, ops), Apply(b, ops), k)
  {
    if ops != [] { ApplySame(a, b, ops[..|ops| - 1], k); }
  }

  /** Writes and a batch that share no row at `k` may come in either order. */
  lemma Commute(rows: Rows, writes: seq<WriteOp>, batch: seq<WriteOp>, k: Bytes)
    requires Touched(writes, k) ==> !Touched(batch, k)
    ensures SameAt(Apply(Apply(rows, batch), writes), Apply(Apply(rows, writes), batch), k)
  {
    if Touched(writes, k) {
      UntouchedSame(rows, batch, k);
      ApplySame(rows, Apply(rows, batch), writes, k);
      UntouchedSame(Apply(rows, writes), batch, k);
    } else {
      UntouchedSame(rows, writes, k);
      ApplySame(rows, Apply(rows, writes), batch, k);
      UntouchedSame(Apply(rows, batch), writes, k);
    }
  }

  /** A row in the result was there before or was put. */
  lemma {:induction false} RowOrigin(rows: Rows, ops: seq<WriteOp>, k: Bytes)
    requires k in Apply(rows, ops)
    ensures k in rows || exists i :: 0 <= i < |ops| && ops[i].Put? && ops[i].key == k
  {
    if ops != [] {
      var n := |ops| - 1;
      if !(ops[n].Put? && ops[n].key == k) {
        RowOrigin(rows, ops[..n], k);
        if k !in rows {
          var i :| 0 <= i < n && ops[..n][i].Put? && ops[..n][i].key == k;
          assert ops[i] == ops[..n][i];
        }
      }
    }
  }

  /** The last staged write that decides the row `k`. */
  function LastTouch(ops: seq<WriteOp>, k: Bytes): Option<WriteOp> {
    if ops == [] then None
    else if ops[|ops| - 1].Touches(k) then Some(ops[|ops| - 1])
    else LastTouch(ops[..|ops| - 1], k)
  }

  lemma {:induction false} LastTouchDecides(rows: Rows, ops: seq<WriteOp>, k: Bytes)
    ensures match LastTouch(ops, k)
            case None => SameAt(rows, Apply(rows, ops), k)
            case Some(Put(_, data)) => k in Apply(rows, ops) && Apply(rows, ops)[k] == data
            case Some(_) => k !in Apply(rows, ops)
  {
    if ops != [] { LastTouchDecides(rows, ops[..|ops| - 1], k); }
  }

  lemma {:induction false} LastTouchStaged(ops: seq<WriteOp>, k: Bytes) returns (i: nat)
    requires LastTouch(ops, k).Some?
    ensures i < |ops| && ops[i] == LastTouch(ops, k).value && ops[i].Touches(k)
  {
    var n := |ops| - 1;
    if ops[n].Touches(k) { i := n; } else { i := LastTouchStaged(ops[..n], k); }
  }

  ghost predicate IsFirst(rows: Rows, p: Bytes, k: Bytes) {
    && k in rows && p <= k
    && forall j | j in rows && p <= j :: !Less(j, k)
  }

  /** The least extension of `p` among the keys `ks`. */
  method LeastExtension(ks: set<Bytes>, p: Bytes) returns (r: Option<Bytes>)
    ensures r.None? ==> forall j | j in ks :: !(p <= j)
    ensures r.Some? ==> r.value in ks && p <= r.value && forall j | j in ks && p <= j :: !Less(j, r.value)
  {
    r := None;
    var todo := ks;
    while todo != {}
      invariant todo <= ks
      invariant r.None? ==> forall j | j in ks && j !in todo :: !(p <= j)
      invariant r.Some? ==> r.value in ks && p <= r.value
      invariant r.Some? ==> forall j | j in ks && j !in todo && p <= j :: !Less(j, r.value)
      decreases |todo|
    {
      var k :| k in todo;
      ghost var prev := r;
      if p <= k && (r.None? || Less(k, r.value)) {
        r := Some(k);
        LessIrreflexive(k);
        forall j | j in ks && j !in todo - {k} && p <= j ensures !Less(j, k) {
          if j != k && prev.Some? && Less(j, k) { LessTransitive(j, k, prev.value); }
        }
      }
      todo := todo - {k};
    }
  }

  lemma FirstExists(rows: Rows, p: Bytes)
    requires exists k :: k in rows && p <= k
    ensures exists k :: IsFirst(rows, p, k)
  {
    var k0 :| k0 in rows && p <= k0;
    FirstBelow(rows, p, rows.Keys, k0);
  }

  lemma {:induction false} FirstBelow(rows: Rows, p: Bytes, todo: set<Bytes>, best: Bytes)
    requires todo <= rows.Keys && best in rows && p <= best
    requires forall j | j in rows && p <= j && j !in todo :: !Less(j, best)
    ensures exists k :: IsFirst(rows, p, k)
    decreases |todo|
  {
    if j :| j in todo && p <= j && Less(j, best) {
      LessIrreflexive(j);
      forall i | i in rows && p <= i && i !in todo - {j} ensures !Less(i, j) {
        if i != j && Less(i, j) { LessTransitive(i, j, best); }
      }
      FirstBelow(rows, p, todo - {j}, j);
    } else {
      assert IsFirst(rows, p, best);
    }
  }

  lemma FirstUnique(rows: Rows, p: Bytes, a: Bytes, b: Bytes)
    requires IsFirst(rows, p, a) && IsFirst(rows, p, b)
    ensures a == b
  {
    LessTotal(a, b);
  }

  /** What a scan bounded by the prefix range of `p` yields first. */
  ghost function FirstRow(rows: Rows, p: Bytes): (r: Option<Bytes>)
    ensures r.None? ==> forall k | k in rows :: !(p <= k)
    ensures r.Some? ==> IsFirst(rows, p, r.value)
  {
    if exists k :: k in rows && p <= k then
      FirstExists(rows, p);
      var k :| IsFirst(rows, p, k);
      Some(k)
    else
      None
  }

  lemma FirstRowSame(p: Bytes, a: Rows, b: Rows)
    requires SameUnder(p, a, b)
    ensures FirstRow(a, p) == FirstRow(b, p)
  {
    var x, y := FirstRow(a, p), FirstRow(b, p);
    assert x.Some? ==> SameAt(a, b, x.value);
    assert y.Some? ==> SameAt(a, b, y.value);
    if x.Some? {
      forall j | j in b && p <= j ensures !Less(j, x.value) { assert SameAt(a, b, j); }
      FirstUnique(b, p, x.value, y.value);
    }
  }

  class Db {
    var rows: Rows

    constructor (rows: Rows)
      ensures this.rows == rows
    {
      this.rows := rows;
    }

    method Get(k: Bytes) returns (r: Option<Bytes>)
      ensures r == if k in rows then Some(rows[k]) else None
    {
      if k in rows { r := Some(rows[k]); } else { r := None; }
    }

    /** The first element of an iterator over the prefix range of `p`. */
    method ScanFirst(p: Bytes) returns (r: Option<(Bytes, Bytes)>)
      ensures r.None? <==> FirstRow(rows, p).None?
      ensures r.Some? ==> Some(r.value.0) == FirstRow(rows, p) && r.value.1 == rows[r.value.0]
    {
      var least := LeastExtension(rows.Keys, p);
      match least
      case None => r := None;
      case Some(k) =>
        assert IsFirst(rows, p, k);
        FirstUnique(rows, p, k, FirstRow(rows, p).value);
        r := Some((k, rows[k]));
    }

    /** All keys of an iterator over the prefix range of `p`. */
    method ScanKeys(p: Bytes) returns (ks: seq<Bytes>)
      ensures forall i | 0 <= i < |ks| :: ks[i] in rows && p <= ks[i]
      ensures forall j | j in rows && p <= j :: j in ks
      ensures forall i, j | 0 <= i < j < |ks| :: ks[i] != ks[j]
    {
      ks := [];
      var todo := rows.Keys;
      while todo != {}
        invariant todo <= rows.Keys
        invariant forall i | 0 <= i < |ks| :: ks[i] in rows && p <= ks[i] && ks[i] !in todo
        invariant forall i, j | 0 <= i < j < |ks| :: ks[i] != ks[j]
        invariant forall j | j in rows && j !in todo && p <= j :: j in ks
        decreases |todo|
      {
        var k :| k in todo;
        todo := todo - {k};
        if p <= k { ks := ks + [k]; }
      }
    }
  }

  /** `Staged` is what the database would hold if the batch were committed now. */
  class Writer {
    const db: Db
    const direct: bool
    var batch: seq<WriteOp>

    constructor (db: Db, direct: bool)
      ensures this.db == db && this.direct == direct && batch == []
    {
      this.db := db;
      this.direct := direct;
      batch := [];
    }

    ghost function Staged(): Rows
      reads this, db
    {
      Apply(db.rows, batch)
    }

    method Emit(op: WriteOp)
      modifies this`batch, db
      ensures direct ==> db.rows == ApplyOp(old(db.rows), op) && batch == old(batch)
      ensures !direct ==> db.rows == old(db.rows) && batch == old(batch) + [op]
      ensures (direct ==> old(batch) == []) ==> Staged() == ApplyOp(old(Staged()), op)
    {
      if direct {
        db.rows := ApplyOp(db.rows, op);
      } else {
        ApplySnoc(db.rows, batch, op);
        batch := batch + [op];
      }
    }

    /** A batch commit turns the staged view into the database's content. */
    method Commit()
      modifies this`batch, db
      ensures batch == [] && db.rows == old(Staged())
    {
      var i := 0;
      while i < |batch|
        invariant 0 <= i <= |batch| && batch == old(batch)
        invariant db.rows == Apply(old(db.rows), batch[..i])
      {
        assert batch[..i + 1] == batch[..i] + [batch[i]];
        ApplySnoc(old(db.rows), batch[..i], batch[i]);
        db.rows := ApplyOp(db.rows, batch[i]);
        i := i + 1;
      }
      assert batch[..i] == batch;
      batch := [];
    }
  }
}
