/** The revocation table as evidence and as history: what its last hash fixes, and that every
    concurrent run is a serial one. */
module RevocationTheorems {
  import opened Outcomes
  import opened Unicode
  import opened Json
  import opened JsonRoundTrip
  import opened Digests
  import opened Chains
  import opened Revocations
  import opened Registries
  import opened RegistryTheorems
  import Utf8

  /* -- tamper evidence ------------------------------------------------------------------ */

  /** Text columns hold no surrogates, so an event in the table prints without loss. */
  predicate StorableEvent(e: Event) {
    && Storable(e.action) && Storable(e.modelId) && Storable(e.version)
    && Storable(e.actor) && Storable(e.reason) && Storable(e.revokedAt)
  }

  ghost predicate StorableRows(rows: seq<Row>) {
    forall i :: 0 <= i < |rows| ==> StorableEvent(rows[i].event)
  }

  function EventsOf(rows: seq<Row>): (r: seq<Event>)
    ensures |r| == |rows|
    ensures forall i :: 0 <= i < |rows| ==> r[i] == rows[i].event
  {
    seq(|rows|, i requires 0 <= i < |rows| => rows[i].event)
  }

  /** The hash the table ends in. */
  function Head(rows: seq<Row>): Text {
    if rows == [] then GENESIS else rows[|rows| - 1].eventHash
  }

  /** Rows of the two tables whose hashed bytes collide, or a row that hashes to the genesis
      value. */
  ghost predicate ForgedRows(h: Hasher, a: seq<Row>, b: seq<Row>) {
    || (exists i, j :: 0 <= i < |a| && 0 <= j < |b| &&
          Collide(h, EventBytes(a[i].prevHash, a[i].event), EventBytes(b[j].prevHash, b[j].event)))
    || GenesisPreimage(h, a) || GenesisPreimage(h, b)
  }

  lemma BodyKeysDiffer()
    ensures ACTION != MODEL_ID && ACTION != VERSION && ACTION != ACTOR && ACTION != REASON && ACTION != REVOKED_AT
    ensures MODEL_ID != VERSION && MODEL_ID != ACTOR && MODEL_ID != REASON && MODEL_ID != REVOKED_AT
    ensures VERSION != ACTOR && VERSION != REASON && VERSION != REVOKED_AT
    ensures ACTOR != REASON && ACTOR != REVOKED_AT && REASON != REVOKED_AT
  {
    assert |ACTION| == 6 && |MODEL_ID| == 8 && |VERSION| == 7 && |ACTOR| == 5 && |REASON| == 6 && |REVOKED_AT| == 10;
    assert ACTION[0] == 'a' as int && REASON[0] == 'r' as int;
  }

  lemma BodyIsClean(e: Event)
    requires StorableEvent(e)
    ensures Clean(BodyValue(e))
  {
    hide Faithful;
    RecordKeys();
    AsciiIsFaithful(ACTOR);
    StorableIsFaithful(e.action);
    StorableIsFaithful(e.modelId);
    StorableIsFaithful(e.version);
    StorableIsFaithful(e.actor);
    StorableIsFaithful(e.reason);
    StorableIsFaithful(e.revokedAt);
  }

  lemma StorableIsFaithful(t: Text)
    requires Storable(t)
    ensures Faithful(t)
  {
  }

  lemma BodyInjective(d: Event, e: Event)
    requires BodyValue(d) == BodyValue(e)
    ensures d == e
  {
    BodyKeysDiffer();
    var m, n := BodyValue(d).members, BodyValue(e).members;
    assert m[ACTION] == n[ACTION] && m[MODEL_ID] == n[MODEL_ID] && m[VERSION] == n[VERSION];
    assert m[ACTOR] == n[ACTOR] && m[REASON] == n[REASON] && m[REVOKED_AT] == n[REVOKED_AT];
  }

  /** A 64-character hash followed by an event splits in one way only. */
  lemma EventSplitsUniquely(p: Text, d: Event, q: Text, e: Event)
    requires |p| == 64 && |q| == 64 && IsAscii(p) && IsAscii(q)
    requires StorableEvent(d) && StorableEvent(e) && EventBytes(p, d) == EventBytes(q, e)
    ensures p == q && d == e
  {
    hide Clean, StorableEvent, BodyValue;
    SamePrev(p, d, q, e);
    EventRest(p, d);
    EventRest(q, e);
    BodyIsClean(d);
    BodyIsClean(e);
    DumpsInjective(BodyValue(d), BodyValue(e));
    BodyInjective(d, e);
  }

  lemma EventRest(p: Text, d: Event)
    requires |p| == 64 && IsAscii(p)
    ensures |EventBytes(p, d)| >= 64 && EventBytes(p, d)[64..] == Dumps(BodyValue(d))
  {
    hide BodyValue, Dumps;
    Utf8.EncodeAscii(p);
  }

  /** Two chains of rows that end in the same hash hold the same events, whatever their
      lengths, or exhibit a forgery. */
  lemma {:induction false} SameHeadSameEvents(h: Hasher, a: seq<Row>, b: seq<Row>)
    requires HexValued(h) && RowsChained(h, a) && RowsChained(h, b)
    requires StorableRows(a) && StorableRows(b) && Head(a) == Head(b)
    ensures EventsOf(a) == EventsOf(b) || ForgedRows(h, a, b)
    decreases |a|
  {
    hide EventBytes, GENESIS, StorableEvent, ForgedRows, HexValued;
    if a == [] || b == [] {
      OneTableEmpty(h, a, b);
    } else {
      var m, n := |a| - 1, |b| - 1;
      LastRow(h, a);
      LastRow(h, b);
      if EventBytes(a[m].prevHash, a[m].event) == EventBytes(b[n].prevHash, b[n].event) {
        EventSplitsUniquely(a[m].prevHash, a[m].event, b[n].prevHash, b[n].event);
        SameHeadSameEvents(h, a[..m], b[..n]);
        ForgedBefore(h, a, b);
        assert EventsOf(a) == EventsOf(a[..m]) + [a[m].event];
        assert EventsOf(b) == EventsOf(b[..n]) + [b[n].event];
      } else {
        LastRowsCollide(h, a, b);
      }
    }
  }

  lemma LastRow(h: Hasher, rows: seq<Row>)
    requires HexValued(h) && RowsChained(h, rows) && rows != []
    ensures var n := |rows| - 1;
      && RowsChained(h, rows[..n]) && rows[n].prevHash == Head(rows[..n])
      && Head(rows) == h(EventBytes(rows[n].prevHash, rows[n].event))
      && |rows[n].prevHash| == 64 && IsAscii(rows[n].prevHash)
  {
    hide EventBytes, GENESIS;
    var n := |rows| - 1;
    assert RowLinked(h, rows, n);
    forall i | 0 <= i < n ensures RowLinked(h, rows[..n], i) {
      assert RowLinked(h, rows, i);
    }
    PrevIsHex(h, rows, n);
  }

  lemma OneTableEmpty(h: Hasher, a: seq<Row>, b: seq<Row>)
    requires HexValued(h) && RowsChained(h, a) && RowsChained(h, b) && Head(a) == Head(b) && (a == [] || b == [])
    ensures EventsOf(a) == EventsOf(b) || ForgedRows(h, a, b)
  {
    hide EventBytes, GENESIS, HexValued;
    if a != [] {
      LastRow(h, a);
      assert h(EventBytes(a[|a| - 1].prevHash, a[|a| - 1].event)) == GENESIS;
    } else if b != [] {
      LastRow(h, b);
      assert h(EventBytes(b[|b| - 1].prevHash, b[|b| - 1].event)) == GENESIS;
    }
  }

  lemma LastRowsCollide(h: Hasher, a: seq<Row>, b: seq<Row>)
    requires a != [] && b != []
    requires Collide(h, EventBytes(a[|a| - 1].prevHash, a[|a| - 1].event), EventBytes(b[|b| - 1].prevHash, b[|b| - 1].event))
    ensures ForgedRows(h, a, b)
  {
    hide EventBytes;
  }

  lemma ForgedBefore(h: Hasher, a: seq<Row>, b: seq<Row>)
    requires a != [] && b != []
    ensures ForgedRows(h, a[..|a| - 1], b[..|b| - 1]) ==> ForgedRows(h, a, b)
  {
    hide EventBytes, GENESIS;
    var x, y := a[..|a| - 1], b[..|b| - 1];
    if i, j :| 0 <= i < |x| && 0 <= j < |y| &&
               Collide(h, EventBytes(x[i].prevHash, x[i].event), EventBytes(y[j].prevHash, y[j].event)) {
      assert Collide(h, EventBytes(a[i].prevHash, a[i].event), EventBytes(b[j].prevHash, b[j].event));
    }
    if i :| 0 <= i < |x| && h(EventBytes(x[i].prevHash, x[i].event)) == GENESIS {
      assert h(EventBytes(a[i].prevHash, a[i].event)) == GENESIS;
    }
    if i :| 0 <= i < |y| && h(EventBytes(y[i].prevHash, y[i].event)) == GENESIS {
      assert h(EventBytes(b[i].prevHash, b[i].event)) == GENESIS;
    }
  }

  /** Tamper evidence: two tables that verify_revocation_chain accepts and whose rows end, in
      id order, in the same event hash hold the same events, or exhibit a forgery. */
  lemma TableTamperEvidence(h: Hasher, s: seq<Row>, t: seq<Row>)
    requires HexValued(h) && StorableRows(OrderById(s)) && StorableRows(OrderById(t))
    requires RowsChained(h, OrderById(s)) && RowsChained(h, OrderById(t))
    requires Head(OrderById(s)) == Head(OrderById(t))
    ensures EventsOf(OrderById(s)) == EventsOf(OrderById(t)) || ForgedRows(h, OrderById(s), OrderById(t))
  {
    SameHeadSameEvents(h, OrderById(s), OrderById(t));
  }

  /* -- concurrent runs are serial -------------------------------------------------------------- */

  /** An event as _append_event is called with: one of the two actions, valid identifiers,
      storable text. */
  predicate Callable(valid: Validity, e: Event) {
    e.action in {REVOKE, UNREVOKE} && ValidCall(valid, CallOf(e)) && StorableCall(CallOf(e))
  }

  /** The call that records the event. */
  function CallOf(e: Event): Call {
    if e.action == REVOKE then Revoke(Revocation(e.modelId, e.version, e.actor, e.reason, e.revokedAt))
    else Unrevoke(e.modelId, e.version, e.actor, e.reason, e.revokedAt)
  }

  function CallsOf(rows: seq<Row>): (r: seq<Call>)
    ensures |r| == |rows|
    ensures forall i :: 0 <= i < |rows| ==> r[i] == CallOf(rows[i].event)
  {
    seq(|rows|, i requires 0 <= i < |rows| => CallOf(rows[i].event))
  }

  /** Every writer starts with a callable event. */
  ghost predicate CallableSteps(valid: Validity, steps: seq<Step>) {
    forall i :: 0 <= i < |steps| && steps[i].Lock? ==> Callable(valid, steps[i].event)
  }

  /** All events, committed or on their way, are callable. */
  ghost predicate AllCallable(valid: Validity, db: Database) {
    && (forall i :: 0 <= i < |db.table| ==> Callable(valid, db.table[i].event))
    && (forall w :: w in db.open ==> Callable(valid, PhaseEvent(db.open[w])))
  }

  function PhaseEvent(p: Phase): Event {
    match p
    case Locked(e) => e
    case HasTail(e, _) => e
    case Inserted(row) => row.event
  }

  lemma {:induction false} RunIsCallable(h: Hasher, valid: Validity, locking: bool, steps: seq<Step>)
    requires Execute(h, locking, steps).Some? && CallableSteps(valid, steps)
    ensures AllCallable(valid, Execute(h, locking, steps).value)
  {
    hide Callable, HasHash, EventHash, TailHash;
    if steps != [] {
      var n := |steps| - 1;
      RunIsCallable(h, valid, locking, steps[..n]);
      assert steps[n].Lock? ==> Callable(valid, steps[n].event);
    }
  }

  /** The same rows but for their ids. */
  ghost predicate SameButIds(a: seq<Row>, b: seq<Row>) {
    && |a| == |b|
    && forall i :: 0 <= i < |a| ==>
         a[i].event == b[i].event && a[i].prevHash == b[i].prevHash && a[i].eventHash == b[i].eventHash
  }

  /** Whatever the interleaving and the aborts, a run leaves exactly the rows, ids aside,
      that the calls of the committed events leave when made one after the other in commit
      order; each of those succeeds, and the standing of every version is the one they
      give it. */
  lemma ConcurrentIsSerial(h: Hasher, valid: Validity, steps: seq<Step>)
    requires Execute(h, true, steps).Some? && CallableSteps(valid, steps)
    ensures var table := Execute(h, true, steps).value.table;
      var serial := PostgresAfter(h, valid, CallsOf(table));
      && SameButIds(table, serial.0.events)
      && (forall i :: 0 <= i < |serial.1| ==> serial.1[i] == Done)
      && forall k :: StandingOf(LatestEvent(table, k)) == Lookup(MeaningAfter(valid, CallsOf(table)).0.revoked, k)
  {
    hide *;
    var table := Execute(h, true, steps).value.table;
    RunKeeps(h, steps);
    InvariantIsSound(h, Execute(h, true, steps).value);
    RunIsCallable(h, valid, true, steps);
    TableIsCallable(valid, Execute(h, true, steps).value);
    SerialRows(h, valid, table);
    var serial := PostgresAfter(h, valid, CallsOf(table));
    AllDone(serial.1);
    PostgresHistory(h, valid, CallsOf(table));
    SerialFacts(h, serial.0, MeaningAfter(valid, CallsOf(table)).0);
    forall k ensures StandingOf(LatestEvent(table, k)) == Lookup(MeaningAfter(valid, CallsOf(table)).0.revoked, k) {
      SameLatest(table, serial.0.events, k);
    }
  }

  lemma TableIsCallable(valid: Validity, db: Database)
    requires AllCallable(valid, db)
    ensures CallableRows(valid, db.table)
  {
    hide Callable;
  }

  ghost predicate CallableRows(valid: Validity, rows: seq<Row>) {
    forall i :: 0 <= i < |rows| ==> Callable(valid, rows[i].event)
  }

  lemma AllDone(answers: seq<Answer>)
    requires forall i :: 0 <= i < |answers| ==> answers[i] == Done
    ensures Unrefused(answers)
  {
  }

  lemma SerialFacts(h: Hasher, s: Postgres, a: Registry)
    requires Consistent(h, s) && PostgresMeans(s, a)
    ensures IdsIncrease(s.events) && forall k :: StandingOf(LatestEvent(s.events, k)) == Lookup(a.revoked, k)
  {
    hide LatestEvent, StandingOf, ByKey, FirstByDigest;
  }

  /** The serial calls of a sound table rebuild it, ids aside. */
  lemma {:induction false} SerialRows(h: Hasher, valid: Validity, table: seq<Row>)
    requires Sound(h, table) && CallableRows(valid, table)
    ensures var serial := PostgresAfter(h, valid, CallsOf(table));
      && Consistent(h, serial.0) && SameButIds(table, serial.0.events)
      && forall i :: 0 <= i < |serial.1| ==> serial.1[i] == Done
  {
    hide Consistent, PostgresStep, Callable, RowLinked, IdsIncrease, HashesDiffer, RowsChained, TailHash, EventHash;
    if table == [] {
      EmptyPostgres(h);
    } else {
      var n := |table| - 1;
      SoundPrefix(h, table, n);
      SerialRows(h, valid, table[..n]);
      assert CallsOf(table)[..n] == CallsOf(table[..n]);
      NextSerialRow(h, valid, table, PostgresAfter(h, valid, CallsOf(table[..n])).0);
    }
  }

  lemma SoundPrefix(h: Hasher, rows: seq<Row>, n: nat)
    requires Sound(h, rows) && n <= |rows|
    ensures Sound(h, rows[..n])
  {
    hide EventHash, GENESIS;
    forall i | 0 <= i < n ensures RowLinked(h, rows[..n], i) {
      assert RowLinked(h, rows, i);
    }
  }

  lemma NextSerialRow(h: Hasher, valid: Validity, table: seq<Row>, s: Postgres)
    requires Sound(h, table) && CallableRows(valid, table) && table != []
    requires Consistent(h, s) && SameButIds(table[..|table| - 1], s.events)
    ensures var (s', answer) := PostgresStep(h, valid, s, CallOf(table[|table| - 1].event));
      answer == Done && Consistent(h, s') && SameButIds(table, s'.events)
  {
    hide EventHash, GENESIS, Storable, Newest, IdsIncrease;
    var n := |table| - 1;
    var row := table[n];
    assert RowLinked(h, table, n);
    assert EventOf(CallOf(row.event)) == row.event by { EventAgain(valid, row.event); }
    TailOfSerial(h, s);
    AppendConsistent(h, s, row.event);
    assert TailHash(s.events) == row.prevHash;
    assert !HasHash(s.events, row.eventHash);
  }

  lemma EventAgain(valid: Validity, e: Event)
    requires Callable(valid, e)
    ensures EventOf(CallOf(e)) == e
  {
  }

  lemma TailOfSerial(h: Hasher, s: Postgres)
    requires Consistent(h, s)
    ensures TailHash(s.events) == Head(s.events)
  {
    TailIsLast(s.events);
  }

  /** With increasing ids the latest row of a key is the last one, whatever the ids are. */
  lemma {:induction false} SameLatest(a: seq<Row>, b: seq<Row>, k: Key)
    requires IdsIncrease(a) && IdsIncrease(b) && SameButIds(a, b)
    ensures StandingOf(LatestEvent(a, k)) == StandingOf(LatestEvent(b, k))
  {
    if a != [] {
      var n := |a| - 1;
      SameLatest(a[..n], b[..n], k);
      LastWins(a, k);
      LastWins(b, k);
    }
  }

  lemma LastWins(rows: seq<Row>, k: Key)
    requires IdsIncrease(rows) && rows != []
    ensures var n := |rows| - 1;
      LatestEvent(rows, k) ==
      if (rows[n].event.modelId, rows[n].event.version) == k then Some(rows[n]) else LatestEvent(rows[..n], k)
  {
    LatestIsRow(rows[..|rows| - 1], k);
  }
}
