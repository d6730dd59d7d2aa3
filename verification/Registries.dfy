/** The registry as an abstract value, and the two backends as states with one step per
    call. Identifier validity is one predicate shared by all of them. */
module Registries {
  import opened Outcomes
  import opened Unicode
  import opened Json
  import opened Digests
  import opened Chains
  import opened Revocations
  import Utf8

  type Key = (Text, Text)

  /** A registered model version; the manifest, bill of materials and the rest are opaque. */
  datatype Record = Record(modelId: Text, version: Text, digest: Text, details: Text)

  datatype Revocation = Revocation(modelId: Text, version: Text, revokedBy: Text, reason: Text, revokedAt: Text)

  datatype Call =
    | Register(record: Record)
    | Get(modelId: Text, version: Text)
    | GetByDigest(digest: Text)
    | ListVersions(modelId: Text)
    | Revoke(revocation: Revocation)
    | Unrevoke(modelId: Text, version: Text, actor: Text, reason: Text, at: Text)
    | IsRevoked(modelId: Text, version: Text)

  datatype Answer =
    | Invalid
    | Duplicate
    | Failed
    | Unstorable
    | Done
    | Found(record: Option<Record>)
    | Versions(versions: seq<Text>)
    | Standing(revocation: Option<Revocation>)

  type Validity = Text -> bool

  function KeyOf(r: Record): Key {
    (r.modelId, r.version)
  }

  function Lookup<K, V>(m: map<K, V>, k: K): Option<V> {
    if k in m then Some(m[k]) else None
  }

  /* -- the meaning ---------------------------------------------------------------------- */

  /** Registered versions, what each digest resolves to, and the revocations in force. */
  datatype Registry = Registry(records: map<Key, Record>, byDigest: map<Text, Record>, revoked: map<Key, Revocation>)

  function VersionsOf(records: map<Key, Record>, modelId: Text): set<Text> {
    set k | k in records && k.0 == modelId :: k.1
  }

  function Meaning(valid: Validity, s: Registry, call: Call): (Registry, Answer) {
    match call
    case Register(r) =>
      if !valid(r.modelId) || !valid(r.version) then (s, Invalid)
      else if KeyOf(r) in s.records then (s, Duplicate)
      else (Registry(s.records[KeyOf(r) := r],
                     if r.digest in s.byDigest then s.byDigest else s.byDigest[r.digest := r],
                     s.revoked), Done)
    case Get(id, v) => (s, if valid(id) && valid(v) then Found(Lookup(s.records, (id, v))) else Invalid)
    case GetByDigest(d) => (s, Found(Lookup(s.byDigest, d)))
    case ListVersions(id) => (s, if valid(id) then Versions(Sort(VersionsOf(s.records, id))) else Invalid)
    case Revoke(r) =>
      if !valid(r.modelId) || !valid(r.version) then (s, Invalid)
      else (s.(revoked := s.revoked[(r.modelId, r.version) := r]), Done)
    case Unrevoke(id, v, _, _, _) =>
      if !valid(id) || !valid(v) then (s, Invalid)
      else (s.(revoked := s.revoked - {(id, v)}), Done)
    case IsRevoked(id, v) => (s, if valid(id) && valid(v) then Standing(Lookup(s.revoked, (id, v))) else Invalid)
  }

  /* -- the local registry ----------------------------------------------------------------- */

  /** A record of the chained revocation log. */
  datatype LogRecord = LogRevoke(revocation: Revocation) | LogUnrevoke(modelId: Text, version: Text, actor: Text, reason: Text)

  /** Record files, digest_index.json and the revocation log. */
  datatype Local = Local(records: map<Key, Record>, index: map<Text, Key>, log: seq<LogRecord>)

  function About(r: LogRecord): Key {
    match r
    case LogRevoke(rev) => (rev.modelId, rev.version)
    case LogUnrevoke(id, v, _, _) => (id, v)
  }

  /** The latest action of the log for this key. */
  function Replay(log: seq<LogRecord>, key: Key): Option<Revocation> {
    if log == [] then None
    else
      var n := |log| - 1;
      if About(log[n]) != key then Replay(log[..n], key)
      else if log[n].LogRevoke? then Some(log[n].revocation) else None
  }

  function LocalGet(valid: Validity, s: Local, id: Text, v: Text): Answer {
    if valid(id) && valid(v) then Found(Lookup(s.records, (id, v))) else Invalid
  }

  function LocalStep(valid: Validity, s: Local, call: Call): (Local, Answer) {
    match call
    case Register(r) =>
      if !valid(r.modelId) || !valid(r.version) then (s, Invalid)
      else if KeyOf(r) in s.records then (s, Duplicate)
      else (Local(s.records[KeyOf(r) := r],
                  if r.digest in s.index then s.index else s.index[r.digest := KeyOf(r)],
                  s.log), Done)
    case Get(id, v) => (s, LocalGet(valid, s, id, v))
    case GetByDigest(d) =>
      (s, if d in s.index then LocalGet(valid, s, s.index[d].0, s.index[d].1) else Found(None))
    case ListVersions(id) => (s, if valid(id) then Versions(Sort(VersionsOf(s.records, id))) else Invalid)
    case Revoke(r) =>
      if !valid(r.modelId) || !valid(r.version) then (s, Invalid)
      else (s.(log := s.log + [LogRevoke(r)]), Done)
    case Unrevoke(id, v, actor, reason, _) =>
      if !valid(id) || !valid(v) then (s, Invalid)
      else (s.(log := s.log + [LogUnrevoke(id, v, actor, reason)]), Done)
    case IsRevoked(id, v) => (s, if valid(id) && valid(v) then Standing(Replay(s.log, (id, v))) else Invalid)
  }

  /* -- the local registry, from the text of its log ------------------------------------------ */

  const REVOKE: Text := Ascii("revoke")
  const UNREVOKE: Text := Ascii("unrevoke")
  const REVOKED_BY: Text := Ascii("revoked_by")

  /** Record files, digest_index.json and the text of revocations.log.jsonl. */
  datatype Files = Files(records: map<Key, Record>, index: map<Text, Key>, text: Text)

  /** The dictionary revoke and unrevoke append. */
  function LogValue(r: LogRecord): Value {
    match r
    case LogRevoke(rev) =>
      Obj(map[ACTION := Str(REVOKE), MODEL_ID := Str(rev.modelId), VERSION := Str(rev.version),
              REVOKED_BY := Str(rev.revokedBy), REASON := Str(rev.reason), REVOKED_AT := Str(rev.revokedAt)])
    case LogUnrevoke(id, v, actor, reason) =>
      Obj(map[ACTION := Str(UNREVOKE), MODEL_ID := Str(id), VERSION := Str(v),
              REVOKED_BY := Str(actor), REASON := Str(reason)])
  }

  function Field(v: Value, name: Text): Option<Value> {
    if v.Obj? && name in v.members then Some(v.members[name]) else None
  }

  predicate IsText(v: Option<Value>) {
    v.Some? && v.value.Str?
  }

  /** One round of the replay loop; None where it raises. */
  function ReplayOne(latest: Option<Revocation>, record: Value, key: Key): Option<Option<Revocation>> {
    var id, v := Field(record, MODEL_ID), Field(record, VERSION);
    if id.None? then None
    else if id.value != Str(key.0) then Some(latest)
    else if v.None? then None
    else if v.value != Str(key.1) then Some(latest)
    else
      var action := Field(record, ACTION);
      if action.None? then None
      else if action.value == Str(REVOKE) then
        var actor, reason, at := Field(record, REVOKED_BY), Field(record, REASON), Field(record, REVOKED_AT);
        if IsText(actor) && IsText(reason) && IsText(at)
        then Some(Some(Revocation(key.0, key.1, actor.value.s, reason.value.s, at.value.s))) else None
      else if action.value == Str(UNREVOKE) then Some(None)
      else Some(latest)
  }

  /** The replay of all entries; None where it raises. */
  function ReplayEntries(entries: seq<Entry>, key: Key): Option<Option<Revocation>> {
    if entries == [] then Some(None)
    else
      var n := |entries| - 1;
      var before := ReplayEntries(entries[..n], key);
      if before.None? then None else ReplayOne(before.value, entries[n].record, key)
  }

  function AppendToLog(h: Hasher, s: Files, r: LogRecord): (Files, Answer) {
    match Tail(s.text)
    case None => (s, Failed)
    case Some((prev, index)) => (s.(text := s.text + Line(NewEntry(h, prev, index, LogValue(r)))), Done)
  }

  function FilesGet(valid: Validity, s: Files, id: Text, v: Text): Answer {
    if valid(id) && valid(v) then Found(Lookup(s.records, (id, v))) else Invalid
  }

  function FilesStep(h: Hasher, valid: Validity, s: Files, call: Call): (Files, Answer) {
    match call
    case Register(r) =>
      if !valid(r.modelId) || !valid(r.version) then (s, Invalid)
      else if KeyOf(r) in s.records then (s, Duplicate)
      else (Files(s.records[KeyOf(r) := r],
                  if r.digest in s.index then s.index else s.index[r.digest := KeyOf(r)],
                  s.text), Done)
    case Get(id, v) => (s, FilesGet(valid, s, id, v))
    case GetByDigest(d) =>
      (s, if d in s.index then FilesGet(valid, s, s.index[d].0, s.index[d].1) else Found(None))
    case ListVersions(id) => (s, if valid(id) then Versions(Sort(VersionsOf(s.records, id))) else Invalid)
    case Revoke(r) =>
      if !valid(r.modelId) || !valid(r.version) then (s, Invalid) else AppendToLog(h, s, LogRevoke(r))
    case Unrevoke(id, v, actor, reason, _) =>
      if !valid(id) || !valid(v) then (s, Invalid) else AppendToLog(h, s, LogUnrevoke(id, v, actor, reason))
    case IsRevoked(id, v) =>
      if !valid(id) || !valid(v) then (s, Invalid)
      else match ReadAll(s.text)
        case None => (s, Failed)
        case Some(entries) =>
          var standing := ReplayEntries(entries, (id, v));
          (s, if standing.None? then Failed else Standing(standing.value))
  }

  /* -- the PostgreSQL registry --------------------------------------------------------------- */

  datatype Stored = Stored(id: nat, record: Record)

  /** registry_records, revocation_events and their id sequences. */
  datatype Postgres = Postgres(rows: seq<Stored>, nextRecord: nat, events: seq<Row>, nextEvent: nat)

  /** Text a PostgreSQL column, or a string inside a jsonb one, can hold. */
  predicate Storable(t: Text) {
    forall i :: 0 <= i < |t| ==> t[i] != 0 && !Surrogate(t[i])
  }

  /** Every text a call sends to the database can be stored. */
  predicate StorableCall(call: Call) {
    match call
    case Register(r) => Storable(r.modelId) && Storable(r.version) && Storable(r.digest) && Storable(r.details)
    case Get(id, v) => Storable(id) && Storable(v)
    case GetByDigest(d) => Storable(d)
    case ListVersions(id) => Storable(id)
    case Revoke(r) =>
      Storable(r.modelId) && Storable(r.version) && Storable(r.revokedBy) && Storable(r.reason) && Storable(r.revokedAt)
    case Unrevoke(id, v, actor, reason, at) =>
      Storable(id) && Storable(v) && Storable(actor) && Storable(reason) && Storable(at)
    case IsRevoked(id, v) => Storable(id) && Storable(v)
  }

  /** The identifiers of a call pass validation. */
  predicate ValidCall(valid: Validity, call: Call) {
    match call
    case Register(r) => valid(r.modelId) && valid(r.version)
    case Get(id, v) => valid(id) && valid(v)
    case GetByDigest(_) => true
    case ListVersions(id) => valid(id)
    case Revoke(r) => valid(r.modelId) && valid(r.version)
    case Unrevoke(id, v, _, _, _) => valid(id) && valid(v)
    case IsRevoked(id, v) => valid(id) && valid(v)
  }

  /** WHERE model_id = ... AND version = ... */
  function ByKey(rows: seq<Stored>, key: Key): Option<Record> {
    if rows == [] then None
    else
      var n := |rows| - 1;
      if KeyOf(rows[n].record) == key then Some(rows[n].record) else ByKey(rows[..n], key)
  }

  /** WHERE artifact_digest = ... ORDER BY id LIMIT 1 */
  function FirstByDigest(rows: seq<Stored>, digest: Text): Option<Stored> {
    if rows == [] then None
    else
      var n := |rows| - 1;
      var best := FirstByDigest(rows[..n], digest);
      if rows[n].record.digest == digest && (best.None? || rows[n].id < best.value.id) then Some(rows[n]) else best
  }

  /** SELECT version ... WHERE model_id = ... */
  function SelectVersions(rows: seq<Stored>, modelId: Text): seq<Text> {
    if rows == [] then []
    else
      var n := |rows| - 1;
      SelectVersions(rows[..n], modelId) + if rows[n].record.modelId == modelId then [rows[n].record.version] else []
  }

  function InsertByBytes(v: Text, versions: seq<Text>): seq<Text> {
    if versions == [] || !Below(Utf8.Encode(versions[0]), Utf8.Encode(v)) then [v] + versions
    else [versions[0]] + InsertByBytes(v, versions[1..])
  }

  /** ORDER BY version COLLATE "C": by the bytes of the UTF-8 encoding. */
  function OrderByBytes(versions: seq<Text>): seq<Text> {
    if versions == [] then [] else InsertByBytes(versions[0], OrderByBytes(versions[1..]))
  }

  /** WHERE model_id = ... AND version = ... ORDER BY id DESC LIMIT 1 */
  function LatestEvent(events: seq<Row>, key: Key): Option<Row> {
    if events == [] then None
    else
      var n := |events| - 1;
      var best := LatestEvent(events[..n], key);
      if (events[n].event.modelId, events[n].event.version) == key && (best.None? || best.value.id < events[n].id)
      then Some(events[n]) else best
  }

  function StandingOf(row: Option<Row>): Option<Revocation> {
    if row.None? || row.value.event.action != REVOKE then None
    else
      var e := row.value.event;
      Some(Revocation(e.modelId, e.version, e.actor, e.reason, e.revokedAt))
  }

  /** The insert of _append_event on its own; the UNIQUE constraint on the hash may refuse
      the row. */
  function AppendRow(h: Hasher, s: Postgres, e: Event): (Postgres, Answer) {
    var prev := TailHash(s.events);
    var row := Row(s.nextEvent, e, prev, EventHash(h, prev, e));
    if HasHash(s.events, row.eventHash) then (s.(nextEvent := s.nextEvent + 1), Failed)
    else (s.(events := s.events + [row], nextEvent := s.nextEvent + 1), Done)
  }

  /** The event a revoke or unrevoke call records. */
  function EventOf(call: Call): Event
    requires call.Revoke? || call.Unrevoke?
  {
    match call
    case Revoke(r) => Event(REVOKE, r.modelId, r.version, r.revokedBy, r.reason, r.revokedAt)
    case Unrevoke(id, v, actor, reason, at) => Event(UNREVOKE, id, v, actor, reason, at)
  }

  /** Identifiers are validated first; text the database cannot hold fails the statement. */
  function PostgresStep(h: Hasher, valid: Validity, s: Postgres, call: Call): (Postgres, Answer) {
    if !ValidCall(valid, call) then (s, Invalid)
    else if !StorableCall(call) then (s, Unstorable)
    else match call
      case Register(r) =>
        if ByKey(s.rows, KeyOf(r)).Some? then (s.(nextRecord := s.nextRecord + 1), Duplicate)
        else (s.(rows := s.rows + [Stored(s.nextRecord, r)], nextRecord := s.nextRecord + 1), Done)
      case Get(id, v) => (s, Found(ByKey(s.rows, (id, v))))
      case GetByDigest(d) =>
        var first := FirstByDigest(s.rows, d);
        (s, Found(if first.Some? then Some(first.value.record) else None))
      case ListVersions(id) => (s, Versions(OrderByBytes(SelectVersions(s.rows, id))))
      case Revoke(_) => AppendRow(h, s, EventOf(call))
      case Unrevoke(_, _, _, _, _) => AppendRow(h, s, EventOf(call))
      case IsRevoked(id, v) => (s, Standing(StandingOf(LatestEvent(s.events, (id, v)))))
  }
}
