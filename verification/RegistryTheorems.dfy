/** Both backends mean the same registry: every serial history gets the same answers. */
module RegistryTheorems {
  import opened Outcomes
  import opened Unicode
  import opened Json
  import opened JsonRoundTrip
  import opened Digests
  import opened Chains
  import opened Revocations
  import opened Registries
  import opened ChainTheorems
  import Utf8

  /* -- the local registry ------------------------------------------------------------ */

  /** How the files represent the registry. */
  ghost predicate LocalMeans(valid: Validity, s: Local, a: Registry) {
    && s.records == a.records
    && (forall k :: k in s.records ==> valid(k.0) && valid(k.1) && KeyOf(s.records[k]) == k)
    && s.index.Keys == a.byDigest.Keys
    && (forall d :: d in s.index ==> s.index[d] in s.records && s.records[s.index[d]] == a.byDigest[d])
    && (forall k :: Replay(s.log, k) == Lookup(a.revoked, k))
  }

  lemma ReplayMore(log: seq<LogRecord>, r: LogRecord, k: Key)
    ensures Replay(log + [r], k)
      == if About(r) != k then Replay(log, k) else if r.LogRevoke? then Some(r.revocation) else None
  {
    assert (log + [r])[..|log|] == log;
  }

  /** One call on the local registry is the same call on its meaning. */
  lemma LocalRefines(valid: Validity, s: Local, a: Registry, call: Call)
    requires LocalMeans(valid, s, a)
    ensures var (s', answer) := LocalStep(valid, s, call);
      var (a', meant) := Meaning(valid, a, call);
      LocalMeans(valid, s', a') && answer == meant
  {
    hide Replay, LocalMeans, LocalStep, Meaning;
    match call
    case Register(_) => LocalRegisterRefines(valid, s, a, call);
    case Revoke(_) => LocalLogRefines(valid, s, a, call);
    case Unrevoke(_, _, _, _, _) => LocalLogRefines(valid, s, a, call);
    case _ => LocalReadRefines(valid, s, a, call);
  }

  lemma LocalRegisterRefines(valid: Validity, s: Local, a: Registry, call: Call)
    requires LocalMeans(valid, s, a) && call.Register?
    ensures var (s', answer) := LocalStep(valid, s, call);
      var (a', meant) := Meaning(valid, a, call);
      LocalMeans(valid, s', a') && answer == meant
  {
    hide Replay;
  }

  lemma LocalReadRefines(valid: Validity, s: Local, a: Registry, call: Call)
    requires LocalMeans(valid, s, a) && !call.Register? && !call.Revoke? && !call.Unrevoke?
    ensures var (s', answer) := LocalStep(valid, s, call);
      var (a', meant) := Meaning(valid, a, call);
      LocalMeans(valid, s', a') && answer == meant
  {
    hide Replay;
  }

  lemma LocalLogRefines(valid: Validity, s: Local, a: Registry, call: Call)
    requires LocalMeans(valid, s, a) && (call.Revoke? || call.Unrevoke?)
    ensures var (s', answer) := LocalStep(valid, s, call);
      var (a', meant) := Meaning(valid, a, call);
      LocalMeans(valid, s', a') && answer == meant
  {
    hide Replay;
    match call
    case Revoke(r) =>
      forall k ensures Replay(s.log + [LogRevoke(r)], k) == if k == (r.modelId, r.version) then Some(r) else Replay(s.log, k) {
        ReplayMore(s.log, LogRevoke(r), k);
      }
    case Unrevoke(id, v, actor, reason, _) =>
      forall k ensures Replay(s.log + [LogUnrevoke(id, v, actor, reason)], k) == if k == (id, v) then None else Replay(s.log, k) {
        ReplayMore(s.log, LogUnrevoke(id, v, actor, reason), k);
      }
  }

  /* -- the text of the revocation log ------------------------------------------------------ */

  /** No high surrogate directly before a low one in what the log records or compares. */
  predicate PlainCall(call: Call) {
    match call
    case Revoke(r) => PlainRecord(LogRevoke(r))
    case Unrevoke(id, v, actor, reason, _) => PlainRecord(LogUnrevoke(id, v, actor, reason))
    case _ => true
  }

  predicate PlainRecord(r: LogRecord) {
    match r
    case LogRevoke(rev) =>
      Faithful(rev.modelId) && Faithful(rev.version) && Faithful(rev.revokedBy) && Faithful(rev.reason) && Faithful(rev.revokedAt)
    case LogUnrevoke(id, v, actor, reason) => Faithful(id) && Faithful(v) && Faithful(actor) && Faithful(reason)
  }

  lemma StorableIsPlain(call: Call)
    requires StorableCall(call)
    ensures PlainCall(call)
  {
  }

  /** The text is a verifying log of exactly these records that takes another append. */
  ghost predicate LogMeans(h: Hasher, text: Text, log: seq<LogRecord>) {
    && Verifies(h, text) && JsonBlank(Unterminated(text)) && Tail(text).Some?
    && |ReadAll(text).value| == |log|
    && forall i :: 0 <= i < |log| ==> ReadAll(text).value[i].record == LogValue(log[i])
  }

  ghost predicate FilesMean(h: Hasher, s: Files, l: Local) {
    s.records == l.records && s.index == l.index && LogMeans(h, s.text, l.log)
  }

  lemma RecordKeys()
    ensures Faithful(ACTION) && Faithful(MODEL_ID) && Faithful(VERSION) && Faithful(REVOKED_BY) && Faithful(REASON) && Faithful(REVOKED_AT)
    ensures Faithful(REVOKE) && Faithful(UNREVOKE)
  {
    hide Faithful;
    AsciiIsFaithful(ACTION);
    AsciiIsFaithful(MODEL_ID);
    AsciiIsFaithful(VERSION);
    AsciiIsFaithful(REVOKED_BY);
    AsciiIsFaithful(REASON);
    AsciiIsFaithful(REVOKED_AT);
    AsciiIsFaithful(REVOKE);
    AsciiIsFaithful(UNREVOKE);
  }

  lemma AsciiIsFaithful(s: Text)
    requires IsAscii(s)
    ensures Faithful(s)
  {
  }

  lemma RecordKeysDiffer()
    ensures REVOKE != UNREVOKE
    ensures ACTION != MODEL_ID && ACTION != VERSION && ACTION != REVOKED_BY && ACTION != REASON && ACTION != REVOKED_AT
    ensures MODEL_ID != VERSION && MODEL_ID != REVOKED_BY && MODEL_ID != REASON && MODEL_ID != REVOKED_AT
    ensures VERSION != REVOKED_BY && VERSION != REASON && VERSION != REVOKED_AT
    ensures REVOKED_BY != REASON && REVOKED_BY != REVOKED_AT && REASON != REVOKED_AT
  {
    assert |REVOKE| == 6 && |UNREVOKE| == 8;
    assert |ACTION| == 6 && |MODEL_ID| == 8 && |VERSION| == 7 && |REVOKED_BY| == 10 && |REASON| == 6 && |REVOKED_AT| == 10;
    assert ACTION[0] == 'a' as int && REASON[0] == 'r' as int;
    assert REVOKED_BY[8] == 'b' as int && REVOKED_AT[8] == 'a' as int;
  }

  lemma RecordIsClean(r: LogRecord)
    requires PlainRecord(r)
    ensures Clean(LogValue(r)) && CleanKeys(LogValue(r)) && Joined(LogValue(r)) == LogValue(r)
  {
    hide Faithful, Joined;
    RecordKeys();
    RecordKeysDiffer();
    CleanHasCleanKeys(LogValue(r));
    JoinedFixed(LogValue(r));
  }

  /** One round of the replay loop on a recorded action. */
  lemma ReplayRecorded(latest: Option<Revocation>, r: LogRecord, key: Key)
    ensures ReplayOne(latest, LogValue(r), key)
      == Some(if About(r) != key then latest else if r.LogRevoke? then Some(r.revocation) else None)
  {
    RecordKeysDiffer();
    var m := LogValue(r).members;
    assert m[MODEL_ID] == Str(About(r).0) && m[VERSION] == Str(About(r).1);
    assert m[ACTION] == Str(if r.LogRevoke? then REVOKE else UNREVOKE);
    if r.LogRevoke? {
      assert m[REVOKED_BY] == Str(r.revocation.revokedBy) && m[REASON] == Str(r.revocation.reason);
      assert m[REVOKED_AT] == Str(r.revocation.revokedAt);
    }
  }

  lemma {:induction false} ReplayReads(entries: seq<Entry>, log: seq<LogRecord>, key: Key)
    requires |entries| == |log| && forall i :: 0 <= i < |log| ==> entries[i].record == LogValue(log[i])
    ensures ReplayEntries(entries, key) == Some(Replay(log, key))
  {
    hide ReplayOne, LogValue;
    if log != [] {
      var n := |log| - 1;
      ReplayReads(entries[..n], log[..n], key);
      ReplayRecorded(Replay(log[..n], key), log[n], key);
    }
  }

  /** Appending a record to the file is appending it to the list. */
  lemma AppendMeans(h: Hasher, s: Files, l: Local, r: LogRecord)
    requires HexValued(h) && PlainRecord(r) && FilesMean(h, s, l)
    ensures var (s', a) := AppendToLog(h, s, r);
      a == Done && FilesMean(h, s', l.(log := l.log + [r]))
  {
    hide LogValue, Line, LinkBytes, Chained, ReadAll, Unterminated, Tail, JsonBlank, Joined, CleanKeys, Clean,
      PlainRecord;
    RecordIsClean(r);
    var (prev, index) := Tail(s.text).value;
    var e := NewEntry(h, prev, index, LogValue(r));
    var after := s.text + Line(e);
    AppendExact(h, s.text, LogValue(r));
    EndsTerminated(s.text, e);
    AppendRaises(h, after);
    LineNonEmpty(e);
  }

  /** One call on the files is the same call on the list of log records. */
  lemma FilesRefine(h: Hasher, valid: Validity, s: Files, l: Local, call: Call)
    requires HexValued(h) && PlainCall(call) && FilesMean(h, s, l)
    ensures var (s', answer) := FilesStep(h, valid, s, call);
      var (l', listed) := LocalStep(valid, l, call);
      FilesMean(h, s', l') && answer == listed
  {
    hide AppendToLog, PlainRecord, LogMeans, ReplayEntries, Replay, VersionsOf, Sort, ReadAll;
    match call
    case Revoke(r) => AppendMeans(h, s, l, LogRevoke(r));
    case Unrevoke(id, v, actor, reason, _) => AppendMeans(h, s, l, LogUnrevoke(id, v, actor, reason));
    case IsRevoked(id, v) => StandingMeans(h, s.text, l.log, (id, v));
    case _ =>
  }

  lemma StandingMeans(h: Hasher, text: Text, log: seq<LogRecord>, key: Key)
    requires LogMeans(h, text, log)
    ensures ReadAll(text).Some? && ReplayEntries(ReadAll(text).value, key) == Some(Replay(log, key))
  {
    hide ReadAll, Tail, JsonBlank, Unterminated, Chained, ReplayEntries, Replay, LogValue;
    ReplayReads(ReadAll(text).value, log, key);
  }

  /* -- what the calls mean to one another --------------------------------------------------- */

  /** A registration is refused if the version is there, and changes nothing then. Otherwise
      the version has this record, a digest that is new leads to it, and whatever was there
      before is found as before. */
  lemma RegisterMeans(valid: Validity, s: Registry, r: Record, id: Text, v: Text, d: Text)
    requires valid(r.modelId) && valid(r.version) && valid(id) && valid(v)
    ensures var (s', answer) := Meaning(valid, s, Call.Register(r));
      && (answer == Duplicate <==> Meaning(valid, s, Call.Get(r.modelId, r.version)).1 != Found(None))
      && (answer == Duplicate ==> s' == s)
      && (answer != Duplicate ==>
            && answer == Done
            && Meaning(valid, s', Call.Get(id, v)).1 ==
                 (if id == r.modelId && v == r.version then Found(Some(r)) else Meaning(valid, s, Call.Get(id, v)).1)
            && Meaning(valid, s', Call.GetByDigest(d)).1 ==
                 (if d == r.digest && Meaning(valid, s, Call.GetByDigest(d)).1 == Found(None) then Found(Some(r))
                  else Meaning(valid, s, Call.GetByDigest(d)).1)
            && Meaning(valid, s', Call.IsRevoked(id, v)).1 == Meaning(valid, s, Call.IsRevoked(id, v)).1)
  {
  }

  /** A revocation stands until the version is restored, the latest one counting, and neither
      touches another version or what is registered. */
  lemma RevokeMeans(valid: Validity, s: Registry, r: Revocation, actor: Text, reason: Text, at: Text, id: Text, v: Text)
    requires valid(r.modelId) && valid(r.version) && valid(id) && valid(v)
    ensures var revoked := Meaning(valid, s, Call.Revoke(r));
      var restored := Meaning(valid, s, Call.Unrevoke(r.modelId, r.version, actor, reason, at));
      var before := Meaning(valid, s, Call.IsRevoked(id, v)).1;
      && revoked.1 == Done && restored.1 == Done
      && revoked.0.records == restored.0.records == s.records && revoked.0.byDigest == restored.0.byDigest == s.byDigest
      && Meaning(valid, revoked.0, Call.IsRevoked(id, v)).1 ==
           (if id == r.modelId && v == r.version then Standing(Some(r)) else before)
      && Meaning(valid, restored.0, Call.IsRevoked(id, v)).1 ==
           (if id == r.modelId && v == r.version then Standing(None) else before)
  {
  }

  /** An identifier that is not valid is refused and changes nothing. */
  lemma InvalidMeans(valid: Validity, s: Registry, call: Call)
    ensures Meaning(valid, s, call).1 == Invalid <==>
      match call
      case Register(r) => !valid(r.modelId) || !valid(r.version)
      case Get(id, v) => !valid(id) || !valid(v)
      case GetByDigest(_) => false
      case ListVersions(id) => !valid(id)
      case Revoke(r) => !valid(r.modelId) || !valid(r.version)
      case Unrevoke(id, v, _, _, _) => !valid(id) || !valid(v)
      case IsRevoked(id, v) => !valid(id) || !valid(v)
    ensures Meaning(valid, s, call).1 == Invalid ==> Meaning(valid, s, call).0 == s
  {
    hide VersionsOf, Sort;
  }

  /* -- the PostgreSQL registry ---------------------------------------------------------- */

  ghost predicate RecordIdsIncrease(rows: seq<Stored>) {
    forall i, j :: 0 <= i < j < |rows| ==> rows[i].id < rows[j].id
  }

  ghost predicate KeysDiffer(rows: seq<Stored>) {
    forall i, j :: 0 <= i < j < |rows| ==> KeyOf(rows[i].record) != KeyOf(rows[j].record)
  }

  /** The tables as the database keeps them over a serial history. */
  ghost predicate Consistent(h: Hasher, s: Postgres) {
    && RecordIdsIncrease(s.rows) && KeysDiffer(s.rows)
    && (forall i :: 0 <= i < |s.rows| ==> s.rows[i].id < s.nextRecord)
    && Sound(h, s.events)
    && (forall i :: 0 <= i < |s.events| ==> s.events[i].id < s.nextEvent)
  }

  ghost predicate PostgresMeans(s: Postgres, a: Registry) {
    && (forall k :: ByKey(s.rows, k) == Lookup(a.records, k))
    && (forall d :: RecordOf(FirstByDigest(s.rows, d)) == Lookup(a.byDigest, d))
    && (forall k :: StandingOf(LatestEvent(s.events, k)) == Lookup(a.revoked, k))
  }

  function RecordOf(s: Option<Stored>): Option<Record> {
    if s.Some? then Some(s.value.record) else None
  }

  lemma {:induction false} ByKeyRange(rows: seq<Stored>, k: Key)
    ensures ByKey(rows, k).None? <==> forall i :: 0 <= i < |rows| ==> KeyOf(rows[i].record) != k
    ensures ByKey(rows, k).Some? ==> KeyOf(ByKey(rows, k).value) == k
  {
    if rows != [] {
      var n := |rows| - 1;
      ByKeyRange(rows[..n], k);
      if KeyOf(rows[n].record) != k {
        assert forall i :: 0 <= i < |rows| ==> i == n || rows[..n][i] == rows[i];
      }
    }
  }

  lemma ByKeyMore(rows: seq<Stored>, r: Stored, k: Key)
    ensures ByKey(rows + [r], k) == if KeyOf(r.record) == k then Some(r.record) else ByKey(rows, k)
  {
    assert (rows + [r])[..|rows|] == rows;
  }

  /** A later row never takes over a digest. */
  lemma FirstByDigestMore(rows: seq<Stored>, r: Stored, d: Text)
    requires forall i :: 0 <= i < |rows| ==> rows[i].id < r.id
    ensures FirstByDigest(rows + [r], d)
      == if FirstByDigest(rows, d).None? && r.record.digest == d then Some(r) else FirstByDigest(rows, d)
  {
    assert (rows + [r])[..|rows|] == rows;
    FirstIsRow(rows, d);
  }

  lemma {:induction false} FirstIsRow(rows: seq<Stored>, d: Text)
    ensures FirstByDigest(rows, d).Some? ==> FirstByDigest(rows, d).value in rows
  {
    if rows != [] {
      var n := |rows| - 1;
      FirstIsRow(rows[..n], d);
      assert rows == rows[..n] + [rows[n]];
    }
  }

  lemma LatestEventMore(events: seq<Row>, r: Row, k: Key)
    requires forall i :: 0 <= i < |events| ==> events[i].id < r.id
    ensures LatestEvent(events + [r], k)
      == if (r.event.modelId, r.event.version) == k then Some(r) else LatestEvent(events, k)
  {
    assert (events + [r])[..|events|] == events;
    LatestIsRow(events, k);
  }

  lemma {:induction false} LatestIsRow(events: seq<Row>, k: Key)
    ensures LatestEvent(events, k).Some? ==> LatestEvent(events, k).value in events
  {
    if events != [] {
      var n := |events| - 1;
      LatestIsRow(events[..n], k);
      assert events == events[..n] + [events[n]];
    }
  }

  /* -- version lists --------------------------------------------------------------------- */

  lemma {:induction false} SelectVersionsRange(rows: seq<Stored>, id: Text)
    requires KeysDiffer(rows)
    ensures forall v :: v in SelectVersions(rows, id) <==> ByKey(rows, (id, v)).Some?
    ensures forall i, j :: 0 <= i < j < |SelectVersions(rows, id)| ==> SelectVersions(rows, id)[i] != SelectVersions(rows, id)[j]
  {
    if rows != [] {
      var n := |rows| - 1;
      var r := rows[n].record;
      SelectVersionsRange(rows[..n], id);
      ByKeyRange(rows[..n], KeyOf(r));
      if r.modelId == id {
        var small := SelectVersions(rows[..n], id);
        assert r.version !in small;
        assert forall i :: 0 <= i < |small| ==> small[i] in small;
      }
    }
  }

  lemma {:induction false} InsertByBytesSorted(v: Text, versions: seq<Text>)
    requires StrictlySorted(versions) && v !in versions
    ensures StrictlySorted(InsertByBytes(v, versions))
    ensures forall x :: x in InsertByBytes(v, versions) <==> x == v || x in versions
  {
    hide Below, Utf8.Encode;
    if versions == [] {
    } else {
      Utf8.OrderPreserved(versions[0], v);
      BelowTotal(versions[0], v);
      assert versions[0] in versions;
      if Below(versions[0], v) {
        InsertByBytesSorted(v, versions[1..]);
        var t := InsertByBytes(v, versions[1..]);
        forall i | 0 <= i < |t| ensures Below(versions[0], t[i]) {
          assert t[i] in t;
          if t[i] != v {
            var k :| 0 <= k < |versions[1..]| && versions[1..][k] == t[i];
            assert versions[k + 1] == t[i];
          }
        }
        assert versions == [versions[0]] + versions[1..];
      } else {
        forall i | 0 <= i < |versions| ensures Below(v, versions[i]) {
          if i > 0 { BelowTransitive(v, versions[0], versions[i]); }
        }
      }
    }
  }

  /** Ordering distinct versions by the bytes of their encodings is sorting them by code
      point. */
  lemma {:induction false} OrderByBytesSorts(versions: seq<Text>)
    requires forall i, j :: 0 <= i < j < |versions| ==> versions[i] != versions[j]
    ensures StrictlySorted(OrderByBytes(versions))
    ensures forall x :: x in OrderByBytes(versions) <==> x in versions
  {
    hide Below, Utf8.Encode;
    if versions != [] {
      OrderByBytesSorts(versions[1..]);
      assert versions == [versions[0]] + versions[1..];
      assert versions[0] !in versions[1..] by {
        forall k | 0 <= k < |versions[1..]| ensures versions[1..][k] != versions[0] {
          assert versions[1..][k] == versions[k + 1];
        }
      }
      InsertByBytesSorted(versions[0], OrderByBytes(versions[1..]));
    }
  }

  /** list_versions agrees across the backends, for all version strings. */
  lemma VersionListsAgree(rows: seq<Stored>, records: map<Key, Record>, id: Text)
    requires KeysDiffer(rows) && forall k :: ByKey(rows, k) == Lookup(records, k)
    ensures OrderByBytes(SelectVersions(rows, id)) == Sort(VersionsOf(records, id))
  {
    var selected := SelectVersions(rows, id);
    SelectVersionsRange(rows, id);
    OrderByBytesSorts(selected);
    forall v: Text ensures v in OrderByBytes(selected) <==> v in Sort(VersionsOf(records, id)) {
      assert v in selected <==> ByKey(rows, (id, v)).Some?;
      assert ByKey(rows, (id, v)) == Lookup(records, (id, v));
      assert v in VersionsOf(records, id) <==> (id, v) in records;
    }
    SortedUnique(OrderByBytes(selected), Sort(VersionsOf(records, id)));
  }

  /* -- refinement ---------------------------------------------------------------------------- */

  lemma AppendConsistent(h: Hasher, s: Postgres, e: Event)
    requires Consistent(h, s)
    ensures Consistent(h, AppendRow(h, s, e).0)
    ensures AppendRow(h, s, e).1.Done? ==>
      AppendRow(h, s, e).0.events == s.events + [Row(s.nextEvent, e, TailHash(s.events), EventHash(h, TailHash(s.events), e))]
  {
    hide Sound, TailHash, EventHash, HasHash;
    if AppendRow(h, s, e).1.Done? {
      var row := Row(s.nextEvent, e, TailHash(s.events), EventHash(h, TailHash(s.events), e));
      NextFits(h, s, row);
      FitsAppend(h, s.events, row);
    }
  }

  lemma NextFits(h: Hasher, s: Postgres, row: Row)
    requires Consistent(h, s) && row.id == s.nextEvent && row.prevHash == TailHash(s.events)
    requires row.eventHash == EventHash(h, row.prevHash, row.event) && !HasHash(s.events, row.eventHash)
    ensures Fits(h, s.events, row)
  {
    hide EventHash, RowsChained, HashesDiffer, TailHash, GENESIS;
    TailIsLast(s.events);
  }

  ghost function StandingWith(a: Registry, e: Event, k: Key): Option<Revocation> {
    if (e.modelId, e.version) == k then StandingOf(Some(Row(0, e, [], []))) else Lookup(a.revoked, k)
  }

  ghost function ResolvedWith(a: Registry, r: Record, d: Text): Option<Record> {
    if d == r.digest && d !in a.byDigest then Some(r) else Lookup(a.byDigest, d)
  }

  lemma StandingMore(s: Postgres, a: Registry, row: Row)
    requires PostgresMeans(s, a) && forall i :: 0 <= i < |s.events| ==> s.events[i].id < row.id
    ensures forall k :: StandingOf(LatestEvent(s.events + [row], k)) == StandingWith(a, row.event, k)
  {
    forall k ensures StandingOf(LatestEvent(s.events + [row], k)) == StandingWith(a, row.event, k) {
      LatestEventMore(s.events, row, k);
    }
  }

  lemma ActionsDiffer()
    ensures REVOKE != UNREVOKE
  {
    assert |REVOKE| == 6 && |UNREVOKE| == 8;
  }

  lemma RowsMore(s: Postgres, a: Registry, r: Record)
    requires PostgresMeans(s, a) && forall i :: 0 <= i < |s.rows| ==> s.rows[i].id < s.nextRecord
    ensures var rows := s.rows + [Stored(s.nextRecord, r)];
      (forall k :: ByKey(rows, k) == if k == KeyOf(r) then Some(r) else Lookup(a.records, k))
      && (forall d :: RecordOf(FirstByDigest(rows, d)) == ResolvedWith(a, r, d))
  {
    var row := Stored(s.nextRecord, r);
    forall k ensures ByKey(s.rows + [row], k) == if k == KeyOf(r) then Some(r) else Lookup(a.records, k) {
      ByKeyMore(s.rows, row, k);
    }
    forall d ensures RecordOf(FirstByDigest(s.rows + [row], d)) == ResolvedWith(a, r, d) {
      FirstByDigestMore(s.rows, row, d);
      assert RecordOf(FirstByDigest(s.rows, d)) == Lookup(a.byDigest, d);
    }
  }

  /** One call on the database is the same call on its meaning, unless it carries text the
      database cannot hold or is refused for a hash already taken; then nothing changes. */
  lemma PostgresRefines(h: Hasher, valid: Validity, s: Postgres, a: Registry, call: Call)
    requires Consistent(h, s) && PostgresMeans(s, a)
    ensures var (s', answer) := PostgresStep(h, valid, s, call);
      var (a', meant) := Meaning(valid, a, call);
      && Consistent(h, s')
      && (answer in {Failed, Unstorable} ==> PostgresMeans(s', a))
      && (answer !in {Failed, Unstorable} ==> PostgresMeans(s', a') && answer == meant)
  {
    hide Sound, TailHash, EventHash, HasHash, ByKey, FirstByDigest, LatestEvent, StandingOf, OrderByBytes,
      SelectVersions, Sort, VersionsOf, Storable;
    if ValidCall(valid, call) && StorableCall(call) {
      match call
      case Register(r) =>
        RowsMore(s, a, r);
        RegisterConsistent(h, s, r);
      case ListVersions(id) =>
        VersionListsAgree(s.rows, a.records, id);
      case Revoke(r) =>
        AppendRefines(h, s, a, EventOf(call));
        RevokedRow(EventOf(call), r);
      case Unrevoke(_, _, _, _, _) =>
        AppendRefines(h, s, a, EventOf(call));
        UnrevokedRow(EventOf(call));
      case _ =>
    }
  }

  lemma AppendRefines(h: Hasher, s: Postgres, a: Registry, e: Event)
    requires Consistent(h, s) && PostgresMeans(s, a)
    ensures var (s', answer) := AppendRow(h, s, e);
      && Consistent(h, s') && answer in {Failed, Done}
      && s'.rows == s.rows
      && (answer == Failed ==> PostgresMeans(s', a))
      && (answer == Done ==> forall k :: StandingOf(LatestEvent(s'.events, k)) == StandingWith(a, e, k))
  {
    hide Sound, TailHash, EventHash, HasHash, ByKey, FirstByDigest, LatestEvent, StandingOf;
    AppendConsistent(h, s, e);
    var row := Row(s.nextEvent, e, TailHash(s.events), EventHash(h, TailHash(s.events), e));
    StandingMore(s, a, row);
  }

  lemma RegisterConsistent(h: Hasher, s: Postgres, r: Record)
    requires Consistent(h, s)
    ensures ByKey(s.rows, KeyOf(r)).None? ==> Consistent(h, s.(rows := s.rows + [Stored(s.nextRecord, r)], nextRecord := s.nextRecord + 1))
  {
    hide Sound;
    ByKeyRange(s.rows, KeyOf(r));
  }

  lemma RevokedRow(e: Event, r: Revocation)
    requires e == Event(REVOKE, r.modelId, r.version, r.revokedBy, r.reason, r.revokedAt)
    ensures StandingOf(Some(Row(0, e, [], []))) == Some(r)
  {
  }

  lemma UnrevokedRow(e: Event)
    requires e.action == UNREVOKE
    ensures StandingOf(Some(Row(0, e, [], []))) == None
  {
    ActionsDiffer();
  }

  /* -- histories -------------------------------------------------------------------------------- */

  const NO_REGISTRY := Registry(map[], map[], map[])

  ghost function MeaningAfter(valid: Validity, calls: seq<Call>): (Registry, seq<Answer>) {
    if calls == [] then (NO_REGISTRY, [])
    else
      var n := |calls| - 1;
      var (s, answers) := MeaningAfter(valid, calls[..n]);
      var (s', a) := Meaning(valid, s, calls[n]);
      (s', answers + [a])
  }

  ghost function LocalAfter(valid: Validity, calls: seq<Call>): (Local, seq<Answer>) {
    if calls == [] then (Local(map[], map[], []), [])
    else
      var n := |calls| - 1;
      var (s, answers) := LocalAfter(valid, calls[..n]);
      var (s', a) := LocalStep(valid, s, calls[n]);
      (s', answers + [a])
  }

  ghost function PostgresAfter(h: Hasher, valid: Validity, calls: seq<Call>): (Postgres, seq<Answer>) {
    if calls == [] then (Postgres([], 1, [], 1), [])
    else
      var n := |calls| - 1;
      var (s, answers) := PostgresAfter(h, valid, calls[..n]);
      var (s', a) := PostgresStep(h, valid, s, calls[n]);
      (s', answers + [a])
  }

  ghost function FilesAfter(h: Hasher, valid: Validity, calls: seq<Call>): (Files, seq<Answer>) {
    if calls == [] then (Files(map[], map[], []), [])
    else
      var n := |calls| - 1;
      var (s, answers) := FilesAfter(h, valid, calls[..n]);
      var (s', a) := FilesStep(h, valid, s, calls[n]);
      (s', answers + [a])
  }

  /** Over every history the files, log text included, behave as the list of log records. */
  lemma {:induction false} FilesHistory(h: Hasher, valid: Validity, calls: seq<Call>)
    requires HexValued(h) && forall i :: 0 <= i < |calls| ==> PlainCall(calls[i])
    ensures FilesMean(h, FilesAfter(h, valid, calls).0, LocalAfter(valid, calls).0)
    ensures FilesAfter(h, valid, calls).1 == LocalAfter(valid, calls).1
  {
    hide FilesMean, FilesStep, LocalStep, PlainCall;
    if calls == [] {
      EmptyFiles(h);
    } else {
      var n := |calls| - 1;
      FilesHistory(h, valid, calls[..n]);
      FilesRefine(h, valid, FilesAfter(h, valid, calls[..n]).0, LocalAfter(valid, calls[..n]).0, calls[n]);
    }
  }

  lemma EmptyFiles(h: Hasher)
    ensures FilesMean(h, Files(map[], map[], []), Local(map[], map[], []))
  {
    EmptyLog(h);
    assert LogMeans(h, [], []) by { EmptyTail(); }
  }

  lemma {:induction false} LocalHistory(valid: Validity, calls: seq<Call>)
    ensures LocalMeans(valid, LocalAfter(valid, calls).0, MeaningAfter(valid, calls).0)
    ensures LocalAfter(valid, calls).1 == MeaningAfter(valid, calls).1
  {
    hide LocalMeans, LocalStep, Meaning;
    if calls == [] {
      assert LocalMeans(valid, Local(map[], map[], []), NO_REGISTRY) by { EmptyLocal(valid); }
    } else {
      var n := |calls| - 1;
      LocalHistory(valid, calls[..n]);
      LocalRefines(valid, LocalAfter(valid, calls[..n]).0, MeaningAfter(valid, calls[..n]).0, calls[n]);
    }
  }

  lemma EmptyLocal(valid: Validity)
    ensures LocalMeans(valid, Local(map[], map[], []), NO_REGISTRY)
  {
  }

  lemma EmptyPostgres(h: Hasher)
    ensures Consistent(h, Postgres([], 1, [], 1)) && PostgresMeans(Postgres([], 1, [], 1), NO_REGISTRY)
  {
  }

  /** No answer of the history is a refusal by the database. */
  ghost predicate Unrefused(answers: seq<Answer>) {
    Failed !in answers && Unstorable !in answers
  }

  lemma NoneRefused(answers: seq<Answer>)
    requires Failed !in answers && Unstorable !in answers
    ensures Unrefused(answers)
  {
  }

  lemma {:induction false} PostgresHistory(h: Hasher, valid: Validity, calls: seq<Call>)
    requires Unrefused(PostgresAfter(h, valid, calls).1)
    ensures Consistent(h, PostgresAfter(h, valid, calls).0)
    ensures PostgresMeans(PostgresAfter(h, valid, calls).0, MeaningAfter(valid, calls).0)
    ensures PostgresAfter(h, valid, calls).1 == MeaningAfter(valid, calls).1
  {
    hide Consistent, PostgresMeans, PostgresStep, Meaning;
    if calls == [] {
      EmptyPostgres(h);
    } else {
      var n := |calls| - 1;
      var before := PostgresAfter(h, valid, calls[..n]);
      var a := PostgresStep(h, valid, before.0, calls[n]).1;
      assert PostgresAfter(h, valid, calls).1 == before.1 + [a];
      PostgresHistory(h, valid, calls[..n]);
      PostgresRefines(h, valid, before.0, MeaningAfter(valid, calls[..n]).0, calls[n]);
    }
  }

  /** Storable text is never refused as unstorable. */
  lemma {:induction false} StorableAnswers(h: Hasher, valid: Validity, calls: seq<Call>)
    requires forall i :: 0 <= i < |calls| ==> StorableCall(calls[i])
    ensures Unstorable !in PostgresAfter(h, valid, calls).1
  {
    hide StorableCall;
    if calls != [] {
      var n := |calls| - 1;
      StorableAnswers(h, valid, calls[..n]);
    }
  }

  /** Over every serial history of calls the database can hold, in which it refuses nothing
      for a hash already taken, both backends give the same answers to every call:
      duplicates, lookups, digest resolution, version lists and revocation standing. */
  lemma BackendsAgree(h: Hasher, valid: Validity, calls: seq<Call>)
    requires HexValued(h) && forall i :: 0 <= i < |calls| ==> StorableCall(calls[i])
    requires Failed !in PostgresAfter(h, valid, calls).1
    ensures FilesAfter(h, valid, calls).1 == PostgresAfter(h, valid, calls).1
  {
    hide *;
    StorableAnswers(h, valid, calls);
    NoneRefused(PostgresAfter(h, valid, calls).1);
    forall i | 0 <= i < |calls| ensures PlainCall(calls[i]) {
      StorableIsPlain(calls[i]);
    }
    FilesHistory(h, valid, calls);
    LocalHistory(valid, calls);
    PostgresHistory(h, valid, calls);
  }

  /** On states that stand for the same registry, the backends answer a call alike exactly
      when the database can hold its text, or it is refused for an identifier first. */
  lemma AgreeExactly(h: Hasher, valid: Validity, l: Local, p: Postgres, a: Registry, call: Call)
    requires LocalMeans(valid, l, a) && Consistent(h, p) && PostgresMeans(p, a)
    requires PostgresStep(h, valid, p, call).1 != Failed
    ensures LocalStep(valid, l, call).1 == PostgresStep(h, valid, p, call).1 <==> (ValidCall(valid, call) ==> StorableCall(call))
  {
    hide LocalMeans, PostgresMeans, Consistent, StorableCall, TailHash, EventHash, HasHash, OrderByBytes,
      SelectVersions, Replay;
    LocalRefines(valid, l, a, call);
    PostgresRefines(h, valid, p, a, call);
  }

  /** A refused append exhibits a collision with the row that has the hash, or a row that
      hashes to the genesis value. */
  lemma RefusalIsCollision(h: Hasher, s: Postgres, e: Event)
    requires HexValued(h) && Consistent(h, s) && AppendRow(h, s, e).1 == Failed
    ensures GenesisPreimage(h, s.events)
      || h(EventBytes(TailHash(s.events), e)) == GENESIS
      || exists i :: 0 <= i < |s.events|
           && Collide(h, EventBytes(s.events[i].prevHash, s.events[i].event), EventBytes(TailHash(s.events), e))
  {
    hide EventBytes, GENESIS, TailHash;
    var prev, rows := TailHash(s.events), s.events;
    TailIsLast(rows);
    var i :| 0 <= i < |rows| && rows[i].eventHash == EventHash(h, prev, e);
    assert RowLinked(h, rows, i);
    var n := |rows| - 1;
    assert RowLinked(h, rows, n);
    var x, y := EventBytes(rows[i].prevHash, rows[i].event), EventBytes(prev, e);
    if x == y {
      PrevIsHex(h, rows, i);
      SamePrev(rows[i].prevHash, rows[i].event, prev, e);
      if i == 0 {
        assert h(EventBytes(rows[n].prevHash, rows[n].event)) == GENESIS;
      }
    } else {
      assert Collide(h, x, y);
    }
  }

  lemma PrevIsHex(h: Hasher, rows: seq<Row>, i: nat)
    requires HexValued(h) && RowsChained(h, rows) && i < |rows|
    ensures |rows[i].prevHash| == 64 && IsAscii(rows[i].prevHash)
    ensures |rows[|rows| - 1].eventHash| == 64 && IsAscii(rows[|rows| - 1].eventHash)
  {
    hide EventBytes;
    var n := |rows| - 1;
    assert RowLinked(h, rows, i) && RowLinked(h, rows, n);
    assert IsSha256(h(EventBytes(rows[n].prevHash, rows[n].event)));
    if i > 0 {
      assert RowLinked(h, rows, i - 1);
      assert IsSha256(h(EventBytes(rows[i - 1].prevHash, rows[i - 1].event)));
    }
  }

  lemma SamePrev(p: Text, d: Event, q: Text, e: Event)
    requires |p| == 64 && |q| == 64 && IsAscii(p) && IsAscii(q) && EventBytes(p, d) == EventBytes(q, e)
    ensures p == q
  {
    Utf8.EncodeAscii(p);
    Utf8.EncodeAscii(q);
    assert EventBytes(p, d)[..64] == p && EventBytes(q, e)[..64] == q;
  }

  /* -- permanence ----------------------------------------------------------------------------------- */

  /** Every registration of a is one of b. */
  ghost predicate KeepsRegistrations(a: Registry, b: Registry) {
    && (forall key :: key in a.records ==> key in b.records && b.records[key] == a.records[key])
    && (forall d :: d in a.byDigest ==> d in b.byDigest && b.byDigest[d] == a.byDigest[d])
  }

  lemma KeptOnwards(a: Registry, b: Registry, c: Registry)
    requires KeepsRegistrations(a, b) && KeepsRegistrations(b, c)
    ensures KeepsRegistrations(a, c)
  {
  }

  lemma CallKeepsRegistrations(valid: Validity, a: Registry, call: Call)
    ensures KeepsRegistrations(a, Meaning(valid, a, call).0)
  {
  }

  /** Once registered, a version keeps its record and a digest what it resolves to, over
      every continuation of the history. */
  lemma {:induction false} RegistrationsArePermanent(valid: Validity, calls: seq<Call>, k: nat)
    requires k <= |calls|
    ensures KeepsRegistrations(MeaningAfter(valid, calls[..k]).0, MeaningAfter(valid, calls).0)
  {
    if k == |calls| {
      assert calls[..k] == calls;
    } else {
      hide Meaning, KeepsRegistrations;
      var n := |calls| - 1;
      assert calls[..n][..k] == calls[..k];
      RegistrationsArePermanent(valid, calls[..n], k);
      var before := MeaningAfter(valid, calls[..n]).0;
      CallKeepsRegistrations(valid, before, calls[n]);
      KeptOnwards(MeaningAfter(valid, calls[..k]).0, before, MeaningAfter(valid, calls).0);
    }
  }
}
