/** The two backends as objects, each proved against the registry it stands for. */
module RegistryObjects {
  import opened Outcomes
  import opened Unicode
  import opened Digests
  import opened Json
  import opened Chains
  import opened Revocations
  import opened Registries
  import opened RegistryTheorems
  import Formats

  /* -- the local registry ------------------------------------------------------------ */

  /** The files stand for the registry: their log text for a list of records that, with the
      record files and the index, represents it. */
  ghost predicate FilesRepresent(h: Hasher, valid: Validity, s: Files, a: Registry) {
    exists log: seq<LogRecord> :: Behind(h, valid, s, a, log)
  }

  ghost predicate Behind(h: Hasher, valid: Validity, s: Files, a: Registry, log: seq<LogRecord>) {
    var l := Local(s.records, s.index, log);
    FilesMean(h, s, l) && LocalMeans(valid, l, a)
  }

  lemma FilesStepRepresents(h: Hasher, valid: Validity, s: Files, a: Registry, call: Call)
    requires HexValued(h) && PlainCall(call) && FilesRepresent(h, valid, s, a)
    ensures var (s', answer) := FilesStep(h, valid, s, call);
      var (a', meant) := Meaning(valid, a, call);
      FilesRepresent(h, valid, s', a') && answer == meant
  {
    hide LogMeans, LocalMeans, FilesStep, LocalStep, Meaning, PlainCall;
    var log :| Behind(h, valid, s, a, log);
    var l := Local(s.records, s.index, log);
    FilesRefine(h, valid, s, l, call);
    LocalRefines(valid, l, a, call);
    var l' := LocalStep(valid, l, call).0;
    assert Behind(h, valid, FilesStep(h, valid, s, call).0, Meaning(valid, a, call).0, l'.log);
  }

  /** The log reads as before with one more entry, and this is what the entry records. */
  ghost predicate Logged(before: Text, after: Text, record: Value) {
    && ReadAll(before).Some? && ReadAll(after).Some?
    && |ReadAll(after).value| == |ReadAll(before).value| + 1
    && (forall i :: 0 <= i < |ReadAll(before).value| ==> ReadAll(after).value[i].record == ReadAll(before).value[i].record)
    && ReadAll(after).value[|ReadAll(before).value|].record == record
  }

  lemma AppendIsLogged(h: Hasher, valid: Validity, s: Files, a: Registry, r: LogRecord)
    requires HexValued(h) && PlainRecord(r) && FilesRepresent(h, valid, s, a)
    ensures AppendToLog(h, s, r).1 == Done && Logged(s.text, AppendToLog(h, s, r).0.text, LogValue(r))
  {
    hide LocalMeans, AppendToLog, PlainRecord, LogValue, ReadAll, Chained, Tail;
    var log :| Behind(h, valid, s, a, log);
    AppendMeans(h, s, Local(s.records, s.index, log), r);
  }

  class LocalRegistry {
    const h: Hasher
    const valid: Validity
    var records: map<Key, Record>
    var index: map<Text, Key>
    const log: Log

    constructor (h: Hasher, valid: Validity)
      ensures this.h == h && this.valid == valid && fresh(log)
      ensures FilesRepresent(h, valid, View(), NO_REGISTRY)
    {
      this.h, this.valid := h, valid;
      records, index := map[], map[];
      log := new Log();
      new;
      EmptyFiles(h);
      EmptyLocal(valid);
      assert Behind(h, valid, View(), NO_REGISTRY, []);
    }

    ghost function View(): Files
      reads this, log
    {
      Files(records, index, log.text)
    }

    /** register: the files then stand for the registry with the version registered, unless
        it was there already or an identifier is invalid. */
    method Register(r: Record, ghost a: Registry) returns (answer: Answer)
      requires HexValued(h) && FilesRepresent(h, valid, View(), a)
      modifies this
      ensures FilesRepresent(h, valid, View(), Meaning(valid, a, Call.Register(r)).0)
      ensures answer == Meaning(valid, a, Call.Register(r)).1
      ensures answer == if !(valid(r.modelId) && valid(r.version)) then Invalid
                        else if (r.modelId, r.version) in old(records) then Duplicate else Done
      ensures records == if answer == Done then old(records)[(r.modelId, r.version) := r] else old(records)
      ensures index == if answer == Done && r.digest !in old(index) then old(index)[r.digest := (r.modelId, r.version)] else old(index)
    {
      hide FilesRepresent, Meaning;
      FilesStepRepresents(h, valid, View(), a, Call.Register(r));
      if !valid(r.modelId) || !valid(r.version) {
        return Invalid;
      }
      if KeyOf(r) in records {
        return Duplicate;
      }
      records := records[KeyOf(r) := r];
      if r.digest !in index {
        index := index[r.digest := KeyOf(r)];
      }
      return Done;
    }

    method Get(id: Text, v: Text, ghost a: Registry) returns (answer: Answer)
      requires HexValued(h) && FilesRepresent(h, valid, View(), a)
      ensures answer == Meaning(valid, a, Call.Get(id, v)).1
    {
      hide FilesRepresent, Meaning;
      FilesStepRepresents(h, valid, View(), a, Call.Get(id, v));
      if !valid(id) || !valid(v) {
        return Invalid;
      }
      if (id, v) !in records {
        return Found(None);
      }
      return Found(Some(records[(id, v)]));
    }

    /** get_by_digest: the first registration of the digest, through the index. */
    method GetByDigest(d: Text, ghost a: Registry) returns (answer: Answer)
      requires HexValued(h) && FilesRepresent(h, valid, View(), a)
      ensures answer == Meaning(valid, a, Call.GetByDigest(d)).1
    {
      hide FilesRepresent, Meaning;
      FilesStepRepresents(h, valid, View(), a, Call.GetByDigest(d));
      if d !in index {
        return Found(None);
      }
      var k := index[d];
      FilesStepRepresents(h, valid, View(), a, Call.Get(k.0, k.1));
      answer := Get(k.0, k.1, a);
    }

    method ListVersions(id: Text, ghost a: Registry) returns (answer: Answer)
      requires HexValued(h) && FilesRepresent(h, valid, View(), a)
      ensures answer == Meaning(valid, a, Call.ListVersions(id)).1
      ensures if valid(id) then answer.Versions? && StrictlySorted(answer.versions) else answer == Invalid
      ensures valid(id) ==> forall v :: v in answer.versions <==> (id, v) in records
    {
      hide FilesRepresent, Meaning;
      FilesStepRepresents(h, valid, View(), a, Call.ListVersions(id));
      if !valid(id) {
        return Invalid;
      }
      VersionsAre(records, id);
      return Versions(Sort(VersionsOf(records, id)));
    }

    /** revoke: one more entry of the chained log, which then stands for the registry with
        the version revoked. */
    method Revoke(r: Revocation, ghost a: Registry) returns (answer: Answer)
      requires HexValued(h) && PlainCall(Call.Revoke(r)) && FilesRepresent(h, valid, View(), a)
      modifies log
      ensures FilesRepresent(h, valid, View(), Meaning(valid, a, Call.Revoke(r)).0)
      ensures answer == Meaning(valid, a, Call.Revoke(r)).1
      ensures answer == if valid(r.modelId) && valid(r.version) then Done else Invalid
      ensures answer == Done ==> Logged(old(log.text), log.text, Obj(
        map[Ascii("action") := Str(Ascii("revoke")), Ascii("model_id") := Str(r.modelId), Ascii("version") := Str(r.version),
            Ascii("revoked_by") := Str(r.revokedBy), Ascii("reason") := Str(r.reason), Ascii("revoked_at") := Str(r.revokedAt)]))
      ensures answer != Done ==> log.text == old(log.text)
    {
      hide FilesRepresent, Meaning, Tail, Line, NewEntry, LogValue, Logged, Ascii, LastNonBlank, EntryOf, Fragments, OneMore, CanFollow,
        Zeros, HexValued, PlainRecord;
      FilesStepRepresents(h, valid, View(), a, Call.Revoke(r));
      AppendIsLogged(h, valid, View(), a, LogRevoke(r));
      Formats.LogRecordText(LogRevoke(r));
      if !valid(r.modelId) || !valid(r.version) {
        return Invalid;
      }
      var e := log.Append(h, LogValue(LogRevoke(r)));
      answer := if e.Some? then Done else Failed;
    }

    method Unrevoke(id: Text, v: Text, actor: Text, reason: Text, at: Text, ghost a: Registry) returns (answer: Answer)
      requires HexValued(h) && PlainCall(Call.Unrevoke(id, v, actor, reason, at)) && FilesRepresent(h, valid, View(), a)
      modifies log
      ensures FilesRepresent(h, valid, View(), Meaning(valid, a, Call.Unrevoke(id, v, actor, reason, at)).0)
      ensures answer == Meaning(valid, a, Call.Unrevoke(id, v, actor, reason, at)).1
      ensures answer == if valid(id) && valid(v) then Done else Invalid
      ensures answer == Done ==> Logged(old(log.text), log.text, Obj(
        map[Ascii("action") := Str(Ascii("unrevoke")), Ascii("model_id") := Str(id), Ascii("version") := Str(v),
            Ascii("revoked_by") := Str(actor), Ascii("reason") := Str(reason)]))
      ensures answer != Done ==> log.text == old(log.text)
    {
      hide FilesRepresent, Meaning, Tail, Line, NewEntry, LogValue, Logged, Ascii, LastNonBlank, EntryOf, Fragments, OneMore, CanFollow,
        Zeros, HexValued, PlainRecord;
      FilesStepRepresents(h, valid, View(), a, Call.Unrevoke(id, v, actor, reason, at));
      AppendIsLogged(h, valid, View(), a, LogUnrevoke(id, v, actor, reason));
      Formats.LogRecordText(LogUnrevoke(id, v, actor, reason));
      if !valid(id) || !valid(v) {
        return Invalid;
      }
      var e := log.Append(h, LogValue(LogUnrevoke(id, v, actor, reason)));
      answer := if e.Some? then Done else Failed;
    }

    /** is_revoked: replays the entries read from the text of the log. */
    method IsRevoked(id: Text, v: Text, ghost a: Registry) returns (answer: Answer)
      requires HexValued(h) && FilesRepresent(h, valid, View(), a)
      ensures answer == Meaning(valid, a, Call.IsRevoked(id, v)).1
    {
      hide FilesRepresent, Meaning, ReadAll, ReplayOne;
      FilesStepRepresents(h, valid, View(), a, Call.IsRevoked(id, v));
      if !valid(id) || !valid(v) {
        return Invalid;
      }
      var all := log.ReadAllEntries();
      if all.None? {
        return Failed;
      }
      var entries := all.value;
      var latest: Option<Revocation> := None;
      for i := 0 to |entries|
        invariant ReplayEntries(entries[..i], (id, v)) == Some(latest)
      {
        assert entries[..i + 1][..i] == entries[..i];
        var next := ReplayOne(latest, entries[i].record, (id, v));
        if next.None? {
          ReplayStops(entries, i + 1, (id, v));
          return Failed;
        }
        latest := next.value;
      }
      assert entries[..|entries|] == entries;
      return Standing(latest);
    }
  }

  lemma VersionsAre(records: map<Key, Record>, id: Text)
    ensures forall v: Text :: v in VersionsOf(records, id) <==> (id, v) in records
  {
  }

  lemma {:induction false} ReplayStops(entries: seq<Entry>, k: nat, key: Key)
    requires k <= |entries| && ReplayEntries(entries[..k], key).None?
    ensures ReplayEntries(entries, key).None?
  {
    if k == |entries| {
      assert entries[..k] == entries;
    } else {
      var n := |entries| - 1;
      assert entries[..n][..k] == entries[..k];
      ReplayStops(entries[..n], k, key);
    }
  }

  /* -- the PostgreSQL registry ----------------------------------------------------------- */

  /** The tables are as the database keeps them and stand for the registry. */
  ghost predicate TablesRepresent(h: Hasher, s: Postgres, a: Registry) {
    Consistent(h, s) && PostgresMeans(s, a)
  }

  /** What the registry is after a call with this answer: a refused call changes nothing. */
  ghost function MeaningGiven(valid: Validity, a: Registry, call: Call, answer: Answer): Registry {
    if answer in {Failed, Unstorable} then a else Meaning(valid, a, call).0
  }

  lemma TablesStepRepresents(h: Hasher, valid: Validity, s: Postgres, a: Registry, call: Call)
    requires TablesRepresent(h, s, a)
    ensures var (s', answer) := PostgresStep(h, valid, s, call);
      && TablesRepresent(h, s', MeaningGiven(valid, a, call, answer))
      && (answer in {Failed, Unstorable} || answer == Meaning(valid, a, call).1)
      && (answer == Unstorable <==> Refused(valid, call))
      && (answer == Failed <==> Taken(h, valid, s, call))
  {
    hide Consistent, PostgresMeans, PostgresStep, Meaning;
    PostgresRefines(h, valid, s, a, call);
    RefusalsAre(h, valid, s, call);
  }

  /** The call passes validation but carries text the database cannot hold. */
  predicate Refused(valid: Validity, call: Call) {
    ValidCall(valid, call) && !StorableCall(call)
  }

  /** The event of the call would carry a hash the table already holds. */
  predicate Taken(h: Hasher, valid: Validity, s: Postgres, call: Call) {
    && (call.Revoke? || call.Unrevoke?)
    && ValidCall(valid, call) && StorableCall(call)
    && HasHash(s.events, EventHash(h, TailHash(s.events), EventOf(call)))
  }

  lemma RefusalsAre(h: Hasher, valid: Validity, s: Postgres, call: Call)
    ensures PostgresStep(h, valid, s, call).1 == Unstorable <==> Refused(valid, call)
    ensures PostgresStep(h, valid, s, call).1 == Failed <==> Taken(h, valid, s, call)
  {
    hide HasHash, EventHash, TailHash, ByKey, FirstByDigest, LatestEvent, OrderByBytes, SelectVersions, StandingOf,
      Storable;
  }

  lemma OpenTables(h: Hasher, s: Postgres, a: Registry)
    requires TablesRepresent(h, s, a)
    ensures Consistent(h, s)
  {
    hide Consistent, PostgresMeans;
  }

  /** One more row, chained to the last one and recording the call. */
  ghost predicate RecordsCall(h: Hasher, before: Postgres, events: seq<Row>, call: Call) {
    && |events| == |before.events| + 1 && events[..|before.events|] == before.events
    && var row := events[|before.events|];
    && row.id == before.nextEvent
    && row.prevHash == (if before.events == [] then Zeros(64) else before.events[|before.events| - 1].eventHash)
    && row.eventHash == EventHash(h, row.prevHash, row.event)
    && match call
       case Revoke(r) => row.event == Event(Ascii("revoke"), r.modelId, r.version, r.revokedBy, r.reason, r.revokedAt)
       case Unrevoke(id, v, actor, reason, at) => row.event == Event(Ascii("unrevoke"), id, v, actor, reason, at)
       case _ => false
  }

  lemma RowRecordsCall(h: Hasher, before: Postgres, row: Row, call: Call)
    requires Consistent(h, before) && (call.Revoke? || call.Unrevoke?)
    requires row == Row(before.nextEvent, EventOf(call), TailHash(before.events), EventHash(h, TailHash(before.events), EventOf(call)))
    ensures RecordsCall(h, before, before.events + [row], call)
  {
    hide EventHash, TailHash, Consistent;
    LastHashIs(h, before);
  }

  lemma LastHashIs(h: Hasher, s: Postgres)
    requires Consistent(h, s)
    ensures TailHash(s.events) == if s.events == [] then Zeros(64) else s.events[|s.events| - 1].eventHash
  {
    hide RowsChained, HashesDiffer;
    NewestIsLast(s.events);
  }

  class PostgresRegistry {
    const h: Hasher
    const valid: Validity
    var rows: seq<Stored>
    var nextRecord: nat
    var events: seq<Row>
    var nextEvent: nat

    constructor (h: Hasher, valid: Validity)
      ensures this.h == h && this.valid == valid && TablesRepresent(h, View(), NO_REGISTRY)
    {
      this.h, this.valid := h, valid;
      rows, nextRecord, events, nextEvent := [], 1, [], 1;
      new;
      EmptyPostgres(h);
    }

    ghost function View(): Postgres
      reads this
    {
      Postgres(rows, nextRecord, events, nextEvent)
    }

    /** register: one INSERT; a key that is taken is a duplicate. */
    method Register(r: Record, ghost a: Registry) returns (answer: Answer)
      requires TablesRepresent(h, View(), a)
      modifies this
      ensures TablesRepresent(h, View(), MeaningGiven(valid, a, Call.Register(r), answer))
      ensures if Refused(valid, Call.Register(r)) then answer == Unstorable else answer == Meaning(valid, a, Call.Register(r)).1
      ensures rows == if answer == Done then old(rows) + [Stored(old(nextRecord), r)] else old(rows)
      ensures nextRecord == old(nextRecord) + if answer in {Done, Duplicate} then 1 else 0
    {
      hide TablesRepresent, Meaning, ByKey, Storable;
      TablesStepRepresents(h, valid, View(), a, Call.Register(r));
      if !valid(r.modelId) || !valid(r.version) {
        return Invalid;
      }
      if !StorableCall(Call.Register(r)) {
        return Unstorable;
      }
      nextRecord := nextRecord + 1;
      if ByKey(rows, KeyOf(r)).Some? {
        return Duplicate;
      }
      rows := rows + [Stored(nextRecord - 1, r)];
      return Done;
    }

    method Get(id: Text, v: Text, ghost a: Registry) returns (answer: Answer)
      requires TablesRepresent(h, View(), a)
      ensures if Refused(valid, Call.Get(id, v)) then answer == Unstorable else answer == Meaning(valid, a, Call.Get(id, v)).1
    {
      hide TablesRepresent, Meaning, ByKey, Storable;
      TablesStepRepresents(h, valid, View(), a, Call.Get(id, v));
      if !valid(id) || !valid(v) {
        return Invalid;
      }
      if !StorableCall(Call.Get(id, v)) {
        return Unstorable;
      }
      return Found(ByKey(rows, (id, v)));
    }

    /** get_by_digest: the registration with the lowest id. */
    method GetByDigest(d: Text, ghost a: Registry) returns (answer: Answer)
      requires TablesRepresent(h, View(), a)
      ensures if Refused(valid, Call.GetByDigest(d)) then answer == Unstorable else answer == Meaning(valid, a, Call.GetByDigest(d)).1
    {
      hide TablesRepresent, Meaning, FirstByDigest, Storable;
      TablesStepRepresents(h, valid, View(), a, Call.GetByDigest(d));
      if !StorableCall(Call.GetByDigest(d)) {
        return Unstorable;
      }
      var first := FirstByDigest(rows, d);
      return Found(if first.Some? then Some(first.value.record) else None);
    }

    method ListVersions(id: Text, ghost a: Registry) returns (answer: Answer)
      requires TablesRepresent(h, View(), a)
      ensures if Refused(valid, Call.ListVersions(id)) then answer == Unstorable else answer == Meaning(valid, a, Call.ListVersions(id)).1
    {
      hide TablesRepresent, Meaning, OrderByBytes, SelectVersions, Storable;
      TablesStepRepresents(h, valid, View(), a, Call.ListVersions(id));
      if !valid(id) {
        return Invalid;
      }
      if !StorableCall(Call.ListVersions(id)) {
        return Unstorable;
      }
      return Versions(OrderByBytes(SelectVersions(rows, id)));
    }

    /** _append_event, for a revoke or unrevoke call. */
    method AppendEvent(call: Call, ghost a: Registry) returns (answer: Answer)
      requires call.Revoke? || call.Unrevoke?
      requires TablesRepresent(h, View(), a)
      modifies this
      ensures TablesRepresent(h, View(), MeaningGiven(valid, a, call, answer))
      ensures if Refused(valid, call) then answer == Unstorable
              else if Taken(h, valid, old(View()), call) then answer == Failed
              else answer == Meaning(valid, a, call).1
      ensures if answer == Done then RecordsCall(h, old(View()), events, call) else events == old(events)
      ensures nextEvent == old(nextEvent) + if answer in {Done, Failed} then 1 else 0
    {
      hide TablesRepresent, Meaning, TailHash, EventHash, HasHash, Storable, RecordsCall, Consistent;
      TablesStepRepresents(h, valid, View(), a, call);
      if !ValidCall(valid, call) {
        return Invalid;
      }
      if !StorableCall(call) {
        return Unstorable;
      }
      var prev := TailHash(events);
      var row := Row(nextEvent, EventOf(call), prev, EventHash(h, prev, EventOf(call)));
      nextEvent := nextEvent + 1;
      if HasHash(events, row.eventHash) {
        return Failed;
      }
      OpenTables(h, old(View()), a);
      RowRecordsCall(h, old(View()), row, call);
      events := events + [row];
      return Done;
    }

    /** is_revoked: the latest row of the version decides. */
    method IsRevoked(id: Text, v: Text, ghost a: Registry) returns (answer: Answer)
      requires TablesRepresent(h, View(), a)
      ensures if Refused(valid, Call.IsRevoked(id, v)) then answer == Unstorable else answer == Meaning(valid, a, Call.IsRevoked(id, v)).1
    {
      hide TablesRepresent, Meaning, LatestEvent, Storable;
      TablesStepRepresents(h, valid, View(), a, Call.IsRevoked(id, v));
      if !valid(id) || !valid(v) {
        return Invalid;
      }
      if !StorableCall(Call.IsRevoked(id, v)) {
        return Unstorable;
      }
      var row := LatestEvent(events, (id, v));
      if row.None? || row.value.event.action != REVOKE {
        return Standing(None);
      }
      var e := row.value.event;
      return Standing(Some(Revocation(e.modelId, e.version, e.actor, e.reason, e.revokedAt)));
    }
  }
}
