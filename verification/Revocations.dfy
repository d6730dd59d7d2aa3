/** The revocation events table in PostgreSQL: concurrent appends to one hash chain. */
module Revocations {
  import opened Outcomes
  import opened Unicode
  import opened Json
  import opened JsonReading
  import opened Digests
  import opened Chains
  import Utf8

  datatype Event = Event(action: Text, modelId: Text, version: Text, actor: Text, reason: Text, revokedAt: Text)

  /** A row of revocation_events; recorded_at is left out. */
  datatype Row = Row(id: nat, event: Event, prevHash: Text, eventHash: Text)

  const ACTION: Text := Ascii("action")
  const MODEL_ID: Text := Ascii("model_id")
  const VERSION: Text := Ascii("version")
  const ACTOR: Text := Ascii("actor")
  const REASON: Text := Ascii("reason")
  const REVOKED_AT: Text := Ascii("revoked_at")

  function BodyValue(e: Event): Value {
    Obj(map[ACTION := Str(e.action), MODEL_ID := Str(e.modelId), VERSION := Str(e.version),
            ACTOR := Str(e.actor), REASON := Str(e.reason), REVOKED_AT := Str(e.revokedAt)])
  }

  /** The bytes _event_hash hashes. */
  function EventBytes(prev: Text, e: Event): Bytes {
    Utf8.Encode(prev) + DumpsBytes(BodyValue(e))
  }

  function EventHash(h: Hasher, prev: Text, e: Event): Text {
    h(EventBytes(prev, e))
  }

  /* -- queries ------------------------------------------------------------------------ */

  /** ORDER BY id DESC LIMIT 1 */
  function Newest(rows: seq<Row>): Option<Row> {
    if rows == [] then None
    else
      var n := |rows| - 1;
      var best := Newest(rows[..n]);
      if best.None? || best.value.id < rows[n].id then Some(rows[n]) else best
  }

  function InsertById(r: Row, rows: seq<Row>): seq<Row> {
    if rows == [] || r.id <= rows[0].id then [r] + rows else [rows[0]] + InsertById(r, rows[1..])
  }

  /** ORDER BY id */
  function OrderById(rows: seq<Row>): seq<Row> {
    if rows == [] then [] else InsertById(rows[0], OrderById(rows[1..]))
  }

  function TailHash(rows: seq<Row>): Text {
    if Newest(rows).None? then GENESIS else Newest(rows).value.eventHash
  }

  /** Reading in id order loses no row, adds none and sorts by id, whatever the order in which
      the rows were committed. */
  lemma {:induction false} OrderByIdSorts(rows: seq<Row>)
    ensures multiset(OrderById(rows)) == multiset(rows)
    ensures forall i, j :: 0 <= i < j < |OrderById(rows)| ==> OrderById(rows)[i].id <= OrderById(rows)[j].id
  {
    if rows != [] {
      assert rows == [rows[0]] + rows[1..];
      OrderByIdSorts(rows[1..]);
      InsertKeeps(rows[0], OrderById(rows[1..]));
      InsertSorts(rows[0], OrderById(rows[1..]));
    }
  }

  lemma {:induction false} InsertKeeps(r: Row, rows: seq<Row>)
    ensures multiset(InsertById(r, rows)) == multiset(rows) + multiset{r}
  {
    if !(rows == [] || r.id <= rows[0].id) {
      InsertKeeps(r, rows[1..]);
      assert rows == [rows[0]] + rows[1..];
    }
  }

  lemma InsertMembers(r: Row, rows: seq<Row>)
    ensures forall x :: x in InsertById(r, rows) ==> x == r || x in rows
  {
    InsertKeeps(r, rows);
    forall x | x in InsertById(r, rows) ensures x == r || x in rows {
      assert x in multiset(InsertById(r, rows));
    }
  }

  lemma {:induction false} InsertSorts(r: Row, rows: seq<Row>)
    requires forall i, j :: 0 <= i < j < |rows| ==> rows[i].id <= rows[j].id
    ensures forall i, j :: 0 <= i < j < |InsertById(r, rows)| ==> InsertById(r, rows)[i].id <= InsertById(r, rows)[j].id
  {
    if !(rows == [] || r.id <= rows[0].id) {
      InsertSorts(r, rows[1..]);
      InsertMembers(r, rows[1..]);
      FirstIsLeast(rows[0], InsertById(r, rows[1..]));
    }
  }

  lemma FirstIsLeast(first: Row, rest: seq<Row>)
    requires forall x :: x in rest ==> first.id <= x.id
    requires forall i, j :: 0 <= i < j < |rest| ==> rest[i].id <= rest[j].id
    ensures var rows := [first] + rest; forall i, j :: 0 <= i < j < |rows| ==> rows[i].id <= rows[j].id
  {
  }

  /** The tail is the row with the highest id. */
  lemma {:induction false} NewestIs(rows: seq<Row>)
    ensures Newest(rows).None? <==> rows == []
    ensures Newest(rows).Some? ==> Newest(rows).value in rows && forall r :: r in rows ==> r.id <= Newest(rows).value.id
  {
    if rows != [] {
      var n := |rows| - 1;
      NewestIs(rows[..n]);
      assert rows == rows[..n] + [rows[n]];
    }
  }

  ghost predicate IdsIncrease(rows: seq<Row>) {
    forall i, j :: 0 <= i < j < |rows| ==> rows[i].id < rows[j].id
  }

  lemma {:induction false} NewestIsLast(rows: seq<Row>)
    requires IdsIncrease(rows)
    ensures Newest(rows) == if rows == [] then None else Some(rows[|rows| - 1])
  {
    if rows != [] {
      NewestIsLast(rows[..|rows| - 1]);
    }
  }

  lemma {:induction false} OrderedAlready(rows: seq<Row>)
    requires IdsIncrease(rows)
    ensures OrderById(rows) == rows
  {
    if rows != [] {
      OrderedAlready(rows[1..]);
      assert [rows[0]] + rows[1..] == rows;
    }
  }

  /* -- verification ---------------------------------------------------------------------- */

  predicate RowLinked(h: Hasher, rows: seq<Row>, i: nat)
    requires i < |rows|
  {
    && rows[i].prevHash == (if i == 0 then GENESIS else rows[i - 1].eventHash)
    && rows[i].eventHash == EventHash(h, rows[i].prevHash, rows[i].event)
  }

  ghost predicate RowsChained(h: Hasher, rows: seq<Row>) {
    forall i :: 0 <= i < |rows| ==> RowLinked(h, rows, i)
  }

  /** verify_revocation_chain on the table. */
  method VerifyRevocationChain(h: Hasher, table: seq<Row>) returns (ok: bool)
    ensures ok <==> RowsChained(h, OrderById(table))
  {
    hide GENESIS, EventHash;
    var rows := OrderById(table);
    var prev := GENESIS;
    for i := 0 to |rows|
      invariant forall k :: 0 <= k < i ==> RowLinked(h, rows, k)
      invariant prev == if i == 0 then GENESIS else rows[i - 1].eventHash
    {
      if rows[i].prevHash != prev {
        assert !RowLinked(h, rows, i);
        return false;
      }
      if EventHash(h, prev, rows[i].event) != rows[i].eventHash {
        assert !RowLinked(h, rows, i);
        return false;
      }
      prev := rows[i].eventHash;
    }
    return true;
  }

  /* -- the protocol -------------------------------------------------------------------------- */

  type Writer = nat

  /** Where a writer is inside _append_event. */
  datatype Phase =
    | Locked(event: Event)
    | HasTail(event: Event, prev: Text)
    | Inserted(row: Row)

  /** The committed rows in commit order, the id sequence, the advisory lock and the open
      transactions. */
  datatype Database = Database(table: seq<Row>, nextId: nat, lock: Option<Writer>, open: map<Writer, Phase>)

  datatype Step =
    | Lock(w: Writer, event: Event)
    | ReadTail(w: Writer)
    | Insert(w: Writer)
    | Commit(w: Writer)
    | Abort(w: Writer)

  const EMPTY_DATABASE := Database([], 1, None, map[])

  predicate HasHash(rows: seq<Row>, hash: Text) {
    exists i :: 0 <= i < |rows| && rows[i].eventHash == hash
  }

  /** One step, or None where the database would block or refuse it. An id is taken when
      a row is inserted and is lost if the transaction aborts; a row whose hash is taken
      is refused by the UNIQUE constraint, which leaves only Abort. With locking off, the
      advisory lock is not waited for. */
  function Apply(h: Hasher, locking: bool, db: Database, step: Step): Option<Database> {
    match step
    case Lock(w, event) =>
      if w in db.open || (locking && db.lock.Some?) then None
      else Some(db.(lock := Some(w), open := db.open[w := Locked(event)]))
    case ReadTail(w) =>
      if w !in db.open || !db.open[w].Locked? then None
      else Some(db.(open := db.open[w := HasTail(db.open[w].event, TailHash(db.table))]))
    case Insert(w) =>
      if w !in db.open || !db.open[w].HasTail? then None
      else
        var e, prev := db.open[w].event, db.open[w].prev;
        var row := Row(db.nextId, e, prev, EventHash(h, prev, e));
        if HasHash(db.table, row.eventHash) then None
        else Some(db.(nextId := db.nextId + 1, open := db.open[w := Inserted(row)]))
    case Commit(w) =>
      if w !in db.open || !db.open[w].Inserted? then None
      else Some(db.(table := db.table + [db.open[w].row], lock := None, open := db.open - {w}))
    case Abort(w) =>
      if w !in db.open then None
      else Some(db.(lock := None, open := db.open - {w}))
  }

  /** The database after the steps, in this order, from an empty table; None if one of
      them cannot happen. */
  function Execute(h: Hasher, locking: bool, steps: seq<Step>): Option<Database> {
    if steps == [] then Some(EMPTY_DATABASE)
    else
      var n := |steps| - 1;
      var before := Execute(h, locking, steps[..n]);
      if before.None? then None else Apply(h, locking, before.value, steps[n])
  }

  /** With nobody inside, a call goes through: it appends one row, chained to the newest, and
      leaves the lock free, or is refused because its hash is taken, and aborting it leaves
      the database as it was. While somebody is inside, nobody else comes in. */
  lemma CallGoesThrough(h: Hasher, db: Database, w: Writer, e: Event)
    requires w !in db.open
    ensures db.lock.Some? ==> Apply(h, true, db, Lock(w, e)).None?
    ensures db.lock.None? ==>
      var prev := TailHash(db.table);
      var row := Row(db.nextId, e, prev, EventHash(h, prev, e));
      var locked, read, inserted := Inside(db, w, Locked(e)), Inside(db, w, HasTail(e, prev)), Inside(db, w, Inserted(row));
      && Apply(h, true, db, Lock(w, e)) == Some(locked)
      && Apply(h, true, locked, ReadTail(w)) == Some(read)
      && (if exists r :: r in db.table && r.eventHash == row.eventHash
          then Apply(h, true, read, Insert(w)) == None && Apply(h, true, read, Abort(w)) == Some(db)
          else && Apply(h, true, read, Insert(w)) == Some(inserted.(nextId := db.nextId + 1))
               && Apply(h, true, inserted.(nextId := db.nextId + 1), Commit(w)) ==
                  Some(Database(db.table + [row], db.nextId + 1, None, db.open)))
  {
    hide EventHash, TailHash;
    TakenIs(db.table, EventHash(h, TailHash(db.table), e));
    var prev := TailHash(db.table);
    var row := Row(db.nextId, e, prev, EventHash(h, prev, e));
    OpenTwice(db.open, w, Locked(e), HasTail(e, prev));
    OpenTwice(db.open, w, HasTail(e, prev), Inserted(row));
  }

  /** The database with the writer inside, holding the lock. */
  function Inside(db: Database, w: Writer, phase: Phase): Database {
    db.(lock := Some(w), open := db.open[w := phase])
  }

  lemma OpenTwice(open: map<Writer, Phase>, w: Writer, p: Phase, q: Phase)
    requires w !in open
    ensures open[w := p][w := q] == open[w := q]
    ensures open[w := q] - {w} == open
  {
  }

  lemma TakenIs(rows: seq<Row>, hash: Text)
    ensures HasHash(rows, hash) <==> exists r :: r in rows && r.eventHash == hash
  {
    if HasHash(rows, hash) {
      var i :| 0 <= i < |rows| && rows[i].eventHash == hash;
      assert rows[i] in rows;
    }
  }

  /** What a row about to be committed must be. */
  ghost predicate Fits(h: Hasher, rows: seq<Row>, row: Row) {
    && row.prevHash == (if rows == [] then GENESIS else rows[|rows| - 1].eventHash)
    && row.eventHash == EventHash(h, row.prevHash, row.event)
    && !HasHash(rows, row.eventHash)
    && forall i :: 0 <= i < |rows| ==> rows[i].id < row.id
  }

  ghost predicate HashesDiffer(rows: seq<Row>) {
    forall i, j :: 0 <= i < j < |rows| ==> rows[i].eventHash != rows[j].eventHash
  }

  ghost predicate Sound(h: Hasher, rows: seq<Row>) {
    IdsIncrease(rows) && HashesDiffer(rows) && RowsChained(h, rows)
  }

  /** What every step keeps: at most the lock holder is inside a transaction, what it has
      read is still the tail, and the committed rows form one chain. */
  ghost predicate Invariant(h: Hasher, db: Database) {
    && Sound(h, db.table)
    && (forall i :: 0 <= i < |db.table| ==> db.table[i].id < db.nextId)
    && (forall w :: w in db.open ==> db.lock == Some(w))
    && (forall w :: w in db.open ==>
      match db.open[w]
      case Locked(_) => true
      case HasTail(_, prev) => prev == TailHash(db.table)
      case Inserted(row) => Fits(h, db.table, row) && row.id < db.nextId)
  }

  lemma FitsAppend(h: Hasher, rows: seq<Row>, row: Row)
    requires Sound(h, rows) && Fits(h, rows, row)
    ensures Sound(h, rows + [row])
  {
    hide GENESIS, EventHash;
    var more := rows + [row];
    forall i | 0 <= i < |more| ensures RowLinked(h, more, i) {
      if i < |rows| { assert RowLinked(h, rows, i); }
    }
    forall i | 0 <= i < |rows| ensures rows[i].eventHash != row.eventHash {
    }
  }

  lemma StepKeeps(h: Hasher, db: Database, step: Step)
    requires Invariant(h, db) && Apply(h, true, db, step).Some?
    ensures Invariant(h, Apply(h, true, db, step).value)
  {
    hide GENESIS, EventHash, RowsChained, HashesDiffer, Newest;
    var after := Apply(h, true, db, step).value;
    match step
    case Insert(w) =>
      NewestIsLast(db.table);
      TailIsLast(db.table);
      assert db.open[w].prev == TailHash(db.table);
    case Commit(w) =>
      FitsAppend(h, db.table, db.open[w].row);
      assert after.open == map[];
    case Abort(w) =>
      assert after.open == map[];
    case _ =>
  }

  lemma TailIsLast(rows: seq<Row>)
    requires IdsIncrease(rows)
    ensures TailHash(rows) == if rows == [] then GENESIS else rows[|rows| - 1].eventHash
  {
    NewestIsLast(rows);
  }

  lemma {:induction false} RunKeeps(h: Hasher, steps: seq<Step>)
    requires Execute(h, true, steps).Some?
    ensures Invariant(h, Execute(h, true, steps).value)
  {
    if steps != [] {
      var n := |steps| - 1;
      RunKeeps(h, steps[..n]);
      StepKeeps(h, Execute(h, true, steps[..n]).value, steps[n]);
    }
  }

  /** A row whose hashed bytes give the genesis value. */
  ghost predicate GenesisPreimage(h: Hasher, rows: seq<Row>) {
    exists i :: 0 <= i < |rows| && h(EventBytes(rows[i].prevHash, rows[i].event)) == GENESIS
  }

  /** However many writers append, however their steps interleave and whichever abort:
      the committed rows in id order are one chain that verify_revocation_chain accepts,
      and no hash is the predecessor of two rows, or a row exhibits a preimage of the
      genesis hash. */
  lemma AppendsNeverFork(h: Hasher, steps: seq<Step>)
    requires Execute(h, true, steps).Some?
    ensures var table := Execute(h, true, steps).value.table;
      && OrderById(table) == table && RowsChained(h, OrderById(table))
      && ((forall i, j :: 0 <= i < j < |table| ==> table[i].prevHash != table[j].prevHash)
          || GenesisPreimage(h, table))
  {
    hide *;
    RunKeeps(h, steps);
    var table := Execute(h, true, steps).value.table;
    InvariantIsSound(h, Execute(h, true, steps).value);
    OrderedAlready(table);
    PredecessorsDiffer(h, table);
  }

  lemma InvariantIsSound(h: Hasher, db: Database)
    requires Invariant(h, db)
    ensures Sound(h, db.table) && IdsIncrease(db.table) && RowsChained(h, db.table)
  {
  }

  lemma PredecessorsDiffer(h: Hasher, table: seq<Row>)
    requires Sound(h, table)
    ensures (forall i, j :: 0 <= i < j < |table| ==> table[i].prevHash != table[j].prevHash) || GenesisPreimage(h, table)
  {
    hide GENESIS, EventBytes, IdsIncrease;
    if i, j :| 0 <= i < j < |table| && table[i].prevHash == table[j].prevHash {
      assert RowLinked(h, table, i) && RowLinked(h, table, j);
      if i == 0 {
        assert RowLinked(h, table, j - 1);
        assert h(EventBytes(table[j - 1].prevHash, table[j - 1].event)) == GENESIS;
      } else {
        assert table[i - 1].eventHash != table[j - 1].eventHash;
      }
    }
  }

  /** Rows are only ever added behind those already committed. */
  lemma {:induction false} CommittedRowsStay(h: Hasher, locking: bool, steps: seq<Step>, k: nat)
    requires k <= |steps| && Execute(h, locking, steps).Some?
    ensures Execute(h, locking, steps[..k]).Some?
    ensures Execute(h, locking, steps[..k]).value.table <= Execute(h, locking, steps).value.table
  {
    if k == |steps| {
      assert steps[..k] == steps;
    } else {
      var n := |steps| - 1;
      CommittedRowsStay(h, locking, steps[..n], k);
      assert steps[..n][..k] == steps[..k];
    }
  }

  /** The lock is needed: without it two writers that read the tail before either commits
      leave a table that does not verify. */
  lemma UnlockedAppendsFork(h: Hasher, a: Event, b: Event)
    requires EventHash(h, GENESIS, a) != EventHash(h, GENESIS, b)
    requires EventHash(h, GENESIS, a) != GENESIS
    ensures var steps := [Lock(0, a), Lock(1, b), ReadTail(0), ReadTail(1), Insert(0), Insert(1), Commit(0), Commit(1)];
      Execute(h, false, steps).Some?
      && !RowsChained(h, OrderById(Execute(h, false, steps).value.table))
  {
    hide GENESIS, EventHash, Newest, OrderById, Execute, RowsChained, RowLinked, TailHash, Apply;
    var steps := [Lock(0, a), Lock(1, b), ReadTail(0), ReadTail(1), Insert(0), Insert(1), Commit(0), Commit(1)];
    BothReadGenesis(h, a, b, steps);
    BothCommit(h, a, b, steps);
    assert steps[..8] == steps;
    var rowA := Row(1, a, GENESIS, EventHash(h, GENESIS, a));
    var rowB := Row(2, b, GENESIS, EventHash(h, GENESIS, b));
    OrderedAlready([rowA, rowB]);
    SamePrevFails(h, rowA, rowB);
  }

  /** Before either writes, both have read the empty table's tail. */
  lemma BothReadGenesis(h: Hasher, a: Event, b: Event, steps: seq<Step>)
    requires [Lock(0, a), Lock(1, b), ReadTail(0), ReadTail(1)] <= steps
    ensures Execute(h, false, steps[..4]) ==
            Some(Database([], 1, Some(1), map[0 := HasTail(a, GENESIS), 1 := HasTail(b, GENESIS)]))
  {
    hide GENESIS, Newest, Execute, TailHash;
    var d1 := Database([], 1, Some(0), map[0 := Locked(a)]);
    var d2 := Database([], 1, Some(1), map[0 := Locked(a), 1 := Locked(b)]);
    var d3 := Database([], 1, Some(1), map[0 := HasTail(a, GENESIS), 1 := Locked(b)]);
    var d4 := Database([], 1, Some(1), map[0 := HasTail(a, GENESIS), 1 := HasTail(b, GENESIS)]);
    TailIsLast([]);
    NothingExecuted(h, steps);
    OneStep(h, steps, 0, EMPTY_DATABASE, d1);
    assert d1.open[1 := Locked(b)] == d2.open;
    OneStep(h, steps, 1, d1, d2);
    assert d2.open[0 := HasTail(a, GENESIS)] == d3.open;
    OneStep(h, steps, 2, d2, d3);
    assert d3.open[1 := HasTail(b, GENESIS)] == d4.open;
    OneStep(h, steps, 3, d3, d4);
  }

  lemma BothCommit(h: Hasher, a: Event, b: Event, steps: seq<Step>)
    requires |steps| == 8 && steps[4..] == [Insert(0), Insert(1), Commit(0), Commit(1)]
    requires EventHash(h, GENESIS, a) != EventHash(h, GENESIS, b)
    requires Execute(h, false, steps[..4]) ==
             Some(Database([], 1, Some(1), map[0 := HasTail(a, GENESIS), 1 := HasTail(b, GENESIS)]))
    ensures Execute(h, false, steps[..8]) ==
            Some(Database([Row(1, a, GENESIS, EventHash(h, GENESIS, a)), Row(2, b, GENESIS, EventHash(h, GENESIS, b))], 3, None, map[]))
  {
    hide GENESIS, EventHash, Newest, Execute, TailHash;
    var rowA := Row(1, a, GENESIS, EventHash(h, GENESIS, a));
    var rowB := Row(2, b, GENESIS, EventHash(h, GENESIS, b));
    var d4 := Database([], 1, Some(1), map[0 := HasTail(a, GENESIS), 1 := HasTail(b, GENESIS)]);
    var d5 := Database([], 2, Some(1), map[0 := Inserted(rowA), 1 := HasTail(b, GENESIS)]);
    var d6 := Database([], 3, Some(1), map[0 := Inserted(rowA), 1 := Inserted(rowB)]);
    var d7 := Database([rowA], 3, None, map[1 := Inserted(rowB)]);
    var d8 := Database([rowA, rowB], 3, None, map[]);
    assert steps[4] == Insert(0) && steps[5] == Insert(1) && steps[6] == Commit(0) && steps[7] == Commit(1);
    assert d4.open[0 := Inserted(rowA)] == d5.open;
    OneStep(h, steps, 4, d4, d5);
    assert d5.open[1 := Inserted(rowB)] == d6.open;
    OneStep(h, steps, 5, d5, d6);
    assert d6.open - {0} == d7.open && d6.table + [rowA] == d7.table;
    OneStep(h, steps, 6, d6, d7);
    assert d7.open - {1} == d8.open && d7.table + [rowB] == d8.table;
    OneStep(h, steps, 7, d7, d8);
  }

  lemma NothingExecuted(h: Hasher, steps: seq<Step>)
    ensures Execute(h, false, steps[..0]) == Some(EMPTY_DATABASE)
  {
  }

  lemma SamePrevFails(h: Hasher, a: Row, b: Row)
    requires b.prevHash != a.eventHash
    ensures !RowsChained(h, [a, b])
  {
    hide EventHash;
    assert !RowLinked(h, [a, b], 1);
  }

  lemma OneStep(h: Hasher, steps: seq<Step>, k: nat, before: Database, after: Database)
    requires k < |steps| && Execute(h, false, steps[..k]) == Some(before)
    requires Apply(h, false, before, steps[k]) == Some(after)
    ensures Execute(h, false, steps[..k + 1]) == Some(after)
  {
    hide Apply;
    assert steps[..k + 1][..k] == steps[..k];
  }
}
