/** The trust commands as a state machine over one configuration file: add, retire, revoke
    and remove. Reading back a saved configuration yields what was saved. */
module TrustCommands {
  import opened Outcomes
  import opened Unicode
  import opened Digests
  import opened Trust
  import Chains

  /* -- key ids ------------------------------------------------------------------------ */

  function StripLeft(s: Text): Text {
    if s != [] && Chains.IsSpace(s[0]) then StripLeft(s[1..]) else s
  }

  function StripRight(s: Text): Text {
    if s != [] && Chains.IsSpace(s[|s| - 1]) then StripRight(s[..|s| - 1]) else s
  }

  /** str.lower on ASCII; no other character has a lower-case form in a key id. */
  function Lower(s: Text): Text {
    seq(|s|, i requires 0 <= i < |s| => if 65 <= s[i] <= 90 then s[i] + 32 else s[i])
  }

  const KEY_ID_PREFIX: Text := Ascii("sha256:")

  /** _normalize, and the key id validator of an entry. */
  function NormalizeKeyId(s: Text): Text {
    var lowered := Lower(StripRight(StripLeft(s)));
    if KEY_ID_PREFIX <= lowered then lowered[|KEY_ID_PREFIX|..] else lowered
  }

  /** A stored key id names itself, so validating an entry again leaves it as it is. */
  lemma StoredIdIsNormal(s: Text)
    requires IsSha256(s)
    ensures NormalizeKeyId(s) == s
  {
    assert Lower(s) == s;
    assert KEY_ID_PREFIX[1] == 104;
    assert s[1] != KEY_ID_PREFIX[1];
  }

  predicate AllSpace(s: Text) {
    forall i :: 0 <= i < |s| ==> Chains.IsSpace(s[i])
  }

  predicate NoSpaceAtEnds(s: Text) {
    s == [] || (!Chains.IsSpace(s[0]) && !Chains.IsSpace(s[|s| - 1]))
  }

  /** The same letters and digits, capital ASCII letters made small. */
  predicate LowerOf(lower: Text, s: Text) {
    && |lower| == |s|
    && forall i :: 0 <= i < |s| ==> lower[i] == if 'A' as int <= s[i] <= 'Z' as int then s[i] - 'A' as int + 'a' as int else s[i]
  }

  lemma {:induction false} StripLeftIs(before: Text, s: Text)
    requires AllSpace(before) && (s == [] || !Chains.IsSpace(s[0]))
    ensures StripLeft(before + s) == s
  {
    if before != [] {
      assert (before + s)[1..] == before[1..] + s;
      StripLeftIs(before[1..], s);
    } else {
      assert before + s == s;
    }
  }

  lemma {:induction false} StripRightIs(s: Text, after: Text)
    requires AllSpace(after) && (s == [] || !Chains.IsSpace(s[|s| - 1]))
    ensures StripRight(s + after) == s
  {
    if after != [] {
      var n := |after| - 1;
      assert (s + after)[..|s| + n] == s + after[..n];
      StripRightIs(s, after[..n]);
    } else {
      assert s + after == s;
    }
  }

  /** A key id may stand between spaces, be written with capital letters, and carry the
      prefix: what it names is the small letters without the prefix. */
  lemma NormalForm(before: Text, s: Text, after: Text, lower: Text)
    requires AllSpace(before) && AllSpace(after) && NoSpaceAtEnds(s) && LowerOf(lower, s)
    ensures NormalizeKeyId(before + s + after) ==
              if |lower| >= 7 && lower[..7] == Ascii("sha256:") then lower[7..] else lower
  {
    hide Chains.IsSpace;
    if s == [] {
      assert before + s + after == before + after + [];
      StripLeftIs(before + after, []);
      assert StripRight([]) == [];
    } else {
      assert before + s + after == before + (s + after);
      StripLeftIs(before, s + after);
      StripRightIs(s, after);
    }
    assert Lower(s) == lower;
    assert KEY_ID_PREFIX <= lower <==> |lower| >= 7 && lower[..7] == Ascii("sha256:");
  }

  /** TrustedKeyEntry.model_validate */
  function Validate(raw: KeyEntry): Option<KeyEntry> {
    var entry := raw.(keyId := NormalizeKeyId(raw.keyId));
    if ValidEntry(entry) then Some(entry) else None
  }

  lemma RevalidationIsIdentity(e: KeyEntry)
    requires IsSha256(e.keyId)
    ensures Validate(e) == if ValidEntry(e) then Some(e) else None
  {
    StoredIdIsNormal(e.keyId);
    assert e.(keyId := e.keyId) == e;
  }

  /* -- commands ------------------------------------------------------------------------- */

  /** A timestamp option: absent, unusable (unparsable or without an offset), or an instant. */
  datatype TimeArg = NoTime | BadTime | At(instant: int)

  datatype Command =
    | Add(entry: KeyEntry, notBefore: TimeArg, notAfter: TimeArg)
    | Retire(keyId: Text, until: TimeArg)
    | Revoke(keyId: Text)
    | Remove(keyId: Text)

  function Instant(t: TimeArg): Option<int> {
    if t.At? then Some(t.instant) else None
  }

  /** The entry that add-key would validate, its window given by the two options. */
  function NewEntry(c: Command): Option<KeyEntry>
    requires c.Add?
  {
    if c.notBefore == BadTime || c.notAfter == BadTime then None
    else Validate(c.entry.(notBefore := Instant(c.notBefore), notAfter := Instant(c.notAfter)))
  }

  /** The key a command is about. */
  function Target(c: Command): Text {
    NormalizeKeyId(if c.Add? then c.entry.keyId else c.keyId)
  }

  /** The configuration file: absent, or holding a configuration. */
  type File = Option<TrustConfig>

  function Keys(file: File): seq<KeyEntry> {
    if file.Some? then file.value.keys else []
  }

  function Version(file: File): Text {
    if file.Some? then file.value.version else SCHEMA_VERSION
  }

  ghost predicate ValidFile(file: File) {
    file.Some? ==> ValidConfig(file.value)
  }

  /** The entries for other keys, in order. */
  function Others(keys: seq<KeyEntry>, id: Text): seq<KeyEntry> {
    if keys == [] then []
    else
      var n := |keys| - 1;
      Others(keys[..n], id) + if keys[n].keyId != id then [keys[n]] else []
  }

  /** What becomes of the target's entry: None is a failed command, Some(None) no entry. */
  function Change(present: bool, current: Option<KeyEntry>, c: Command): Option<Option<KeyEntry>> {
    match c
    case Add(_, _, _) =>
      var entry := NewEntry(c);
      if entry.None? || current.Some? then None else Some(entry)
    case Retire(_, until) =>
      if !present || current.None? || until == BadTime then None
      else
        var time := if until.At? then Some(until.instant) else current.value.notAfter;
        var entry := current.value.(status := Retired, notAfter := time);
        if WindowOrdered(entry) then Some(Some(entry)) else None
    case Revoke(_) =>
      if !present || current.None? then None else Some(Some(current.value.(status := Revoked)))
    case Remove(_) =>
      if !present || current.None? then None else Some(None)
  }

  /** The file after the command: the other entries as they were, then the target's. */
  function Step(file: File, c: Command): File {
    var id := Target(c);
    match Change(file.Some?, Lookup(Keys(file), id), c)
    case None => file
    case Some(entry) =>
      Some(TrustConfig(Version(file), Others(Keys(file), id) + if entry.Some? then [entry.value] else []))
  }

  function Succeeds(file: File, c: Command): bool {
    Change(file.Some?, Lookup(Keys(file), Target(c)), c).Some?
  }

  function Run(file: File, commands: seq<Command>): File {
    if commands == [] then file
    else
      var n := |commands| - 1;
      Step(Run(file, commands[..n]), commands[n])
  }

  /* -- the entries of other keys --------------------------------------------------------- */

  lemma {:induction false} OthersMembers(keys: seq<KeyEntry>, id: Text)
    ensures forall e :: e in Others(keys, id) <==> e in keys && e.keyId != id
  {
    if keys != [] {
      var n := |keys| - 1;
      OthersMembers(keys[..n], id);
      assert keys == keys[..n] + [keys[n]];
    }
  }

  lemma {:induction false} OthersAre(keys: seq<KeyEntry>, id: Text)
    ensures forall e :: e in Others(keys, id) <==> e in keys && e.keyId != id
    ensures |Others(keys, id)| <= |keys|
    ensures |Others(keys, id)| == |keys| <==> Lookup(keys, id).None?
    ensures Lookup(keys, id).None? ==> Others(keys, id) == keys
  {
    OthersMembers(keys, id);
    OthersLength(keys, id);
  }

  lemma {:induction false} OthersLength(keys: seq<KeyEntry>, id: Text)
    ensures |Others(keys, id)| <= |keys|
    ensures |Others(keys, id)| == |keys| <==> Lookup(keys, id).None?
    ensures Lookup(keys, id).None? ==> Others(keys, id) == keys
  {
    OthersStep(keys, id);
    hide Others, Lookup;
    if keys != [] {
      var init, last := keys[..|keys| - 1], keys[|keys| - 1];
      OthersLength(init, id);
      assert init + [last] == keys;
    }
  }

  lemma OthersStep(keys: seq<KeyEntry>, id: Text)
    ensures keys == [] ==> Others(keys, id) == [] && Lookup(keys, id) == None
    ensures keys != [] ==>
              var init, last := keys[..|keys| - 1], keys[|keys| - 1];
              && Others(keys, id) == Others(init, id) + (if last.keyId != id then [last] else [])
              && Lookup(keys, id) == (if last.keyId == id then Some(last) else Lookup(init, id))
  {
  }

  lemma {:induction false} OthersUnique(keys: seq<KeyEntry>, id: Text)
    requires UniqueIds(keys)
    ensures UniqueIds(Others(keys, id))
  {
    hide UniqueIds;
    if keys != [] {
      var n := |keys| - 1;
      LastIsNew(keys);
      OthersUnique(keys[..n], id);
      OthersMembers(keys[..n], id);
      if keys[n].keyId != id {
        UniqueAppend(Others(keys[..n], id), keys[n]);
      } else {
        assert Others(keys[..n], id) + [] == Others(keys[..n], id);
      }
    }
  }

  lemma LastIsNew(keys: seq<KeyEntry>)
    requires keys != [] && UniqueIds(keys)
    ensures UniqueIds(keys[..|keys| - 1])
    ensures forall e :: e in keys[..|keys| - 1] ==> e.keyId != keys[|keys| - 1].keyId
  {
  }

  lemma {:induction false} OthersConcat(a: seq<KeyEntry>, b: seq<KeyEntry>, id: Text)
    ensures Others(a + b, id) == Others(a, id) + Others(b, id)
  {
    if b == [] {
      assert a + b == a;
    } else {
      var n := |b| - 1;
      OthersConcat(a, b[..n], id);
      assert (a + b)[..|a| + n] == a + b[..n];
    }
  }

  lemma {:induction false} NoOthers(keys: seq<KeyEntry>, id: Text)
    requires forall e :: e in keys ==> e.keyId == id
    ensures Others(keys, id) == []
  {
    if keys != [] {
      var n := |keys| - 1;
      assert keys[n] in keys;
      assert forall e :: e in keys[..n] ==> e in keys;
      NoOthers(keys[..n], id);
    }
  }

  lemma {:induction false} LookupLast(keys: seq<KeyEntry>, last: seq<KeyEntry>, id: Text)
    requires |last| <= 1
    ensures Lookup(keys + last, id) == if last != [] && last[0].keyId == id then Some(last[0]) else Lookup(keys, id)
  {
    if last == [] {
      assert keys + last == keys;
    } else {
      assert (keys + last)[..|keys|] == keys;
    }
  }

  lemma LookupUnique(keys: seq<KeyEntry>, e: KeyEntry)
    requires UniqueIds(keys) && e in keys
    ensures Lookup(keys, e.keyId) == Some(e)
  {
    LookupIs(keys, e.keyId);
    OneEntryPerKey(keys, e);
  }

  /* -- what each command does ------------------------------------------------------------- */

  /** A new entry carries the target's id and is valid; the current one is valid too. */
  lemma ChangeIsValid(file: File, c: Command)
    requires ValidFile(file)
    ensures var change := Change(file.Some?, Lookup(Keys(file), Target(c)), c);
            change.Some? && change.value.Some? ==> change.value.value.keyId == Target(c) && ValidEntry(change.value.value)
  {
    var id := Target(c);
    LookupIs(Keys(file), id);
    if Lookup(Keys(file), id).Some? {
      var e := Lookup(Keys(file), id).value;
      var i :| 0 <= i < |Keys(file)| && Keys(file)[i] == e;
      assert ValidEntry(e);
    }
  }

  /** A command leaves the entries of every other key as they were, in their order, and a
      failed command leaves the whole file as it was. */
  lemma OthersPreserved(file: File, c: Command)
    requires ValidFile(file)
    ensures Others(Keys(Step(file, c)), Target(c)) == Others(Keys(file), Target(c))
    ensures forall id: Text :: id != Target(c) ==> Lookup(Keys(Step(file, c)), id) == Lookup(Keys(file), id)
    ensures Version(Step(file, c)) == Version(file)
    ensures !Succeeds(file, c) ==> Step(file, c) == file
    ensures Succeeds(file, c) ==> Lookup(Keys(Step(file, c)), Target(c)) ==
                                  Change(file.Some?, Lookup(Keys(file), Target(c)), c).value
  {
    hide Change, ValidEntry, NormalizeKeyId, Target, Lookup, Others;
    var id := Target(c);
    var keys := Keys(file);
    var change := Change(file.Some?, Lookup(keys, id), c);
    if change.Some? {
      ChangeIsValid(file, c);
      var others := Others(keys, id);
      var last := if change.value.Some? then [change.value.value] else [];
      assert Keys(Step(file, c)) == others + last;
      OthersAre(keys, id);
      LookupOthers(keys, id);
      OthersConcat(others, last, id);
      OthersOfOthers(keys, id);
      NoOthers(last, id);
      forall k: Text ensures Lookup(others + last, k) == if k == id then change.value else Lookup(keys, k) {
        LookupLast(others, last, k);
      }
    }
  }

  predicate MayEnd(e: KeyEntry, until: TimeArg) {
    until.At? && e.notBefore.Some? ==> e.notBefore.value <= until.instant
  }

  /** When each command succeeds, and what becomes of the key's entry: revoking and removing
      need only an entry, retiring also a window that stays in order. */
  lemma CommandOutcomes(file: File, keyId: Text, until: TimeArg)
    requires ValidFile(file)
    ensures var id := NormalizeKeyId(keyId);
            var entry := Lookup(Keys(file), id);
            var retired, revoked, removed := Retire(keyId, until), Revoke(keyId), Remove(keyId);
            && (Succeeds(file, revoked) <==> entry.Some?)
            && (Succeeds(file, removed) <==> entry.Some?)
            && (Succeeds(file, retired) <==> entry.Some? && until != BadTime && MayEnd(entry.value, until))
            && (entry.Some? ==>
                  && Lookup(Keys(Step(file, revoked)), id) == Some(entry.value.(status := Revoked))
                  && Lookup(Keys(Step(file, removed)), id).None?)
            && (Succeeds(file, retired) ==>
                  Lookup(Keys(Step(file, retired)), id) ==
                  Some(entry.value.(status := Retired, notAfter := if until.At? then Some(until.instant) else entry.value.notAfter)))
  {
    hide NormalizeKeyId, Lookup, Others, Step, IsSha256;
    var id := NormalizeKeyId(keyId);
    OthersPreserved(file, Retire(keyId, until));
    OthersPreserved(file, Revoke(keyId));
    OthersPreserved(file, Remove(keyId));
    if file.Some? && Lookup(Keys(file), id).Some? {
      EntryIsValid(file.value, id);
    }
    assert file.None? ==> Lookup(Keys(file), id).None? by { LookupIs(Keys(file), id); }
  }

  /** A bound given as an option: none if the option is absent. */
  predicate Bounds(time: TimeArg, bound: Option<int>) {
    match bound
    case None => time == NoTime
    case Some(t) => time == At(t)
  }

  /** The entry an add stores: every field as given, the id in its normal form, the window
      from the first option to the second. */
  predicate Stores(entry: KeyEntry, notBefore: TimeArg, notAfter: TimeArg, stored: KeyEntry) {
    && stored.keyId == NormalizeKeyId(entry.keyId)
    && stored.algorithm == entry.algorithm && stored.status == entry.status
    && Bounds(notBefore, stored.notBefore) && Bounds(notAfter, stored.notAfter)
    && stored.signerIdentity == entry.signerIdentity && stored.scope == entry.scope && stored.note == entry.note
  }

  /** An add succeeds exactly when the key has no entry yet and the given fields and times
      make a valid entry; that entry then stands behind the others, in a file of version 1
      if there was none. */
  lemma AddOutcome(file: File, entry: KeyEntry, notBefore: TimeArg, notAfter: TimeArg)
    requires ValidFile(file)
    ensures var c := Add(entry, notBefore, notAfter);
            var id := NormalizeKeyId(entry.keyId);
            && (Succeeds(file, c) <==>
                  && (forall e :: e in Keys(file) ==> e.keyId != id)
                  && exists stored :: Stores(entry, notBefore, notAfter, stored) && ValidEntry(stored))
            && (Succeeds(file, c) ==>
                  exists stored :: Stores(entry, notBefore, notAfter, stored) && ValidEntry(stored)
                    && Lookup(Keys(Step(file, c)), id) == Some(stored)
                    && Step(file, c) == Some(TrustConfig(if file.Some? then file.value.version else Ascii("1"), Keys(file) + [stored])))
  {
    hide NormalizeKeyId, Lookup, Others, ValidEntry;
    var c := Add(entry, notBefore, notAfter);
    var id := NormalizeKeyId(entry.keyId);
    OthersPreserved(file, c);
    LookupIs(Keys(file), id);
    OthersAre(Keys(file), id);
    if notBefore != BadTime && notAfter != BadTime {
      var raw := entry.(notBefore := Instant(notBefore), notAfter := Instant(notAfter));
      var stored := raw.(keyId := id);
      assert Stores(entry, notBefore, notAfter, stored);
      StoredOnce(entry, notBefore, notAfter, stored);
      assert NewEntry(c) == if ValidEntry(stored) then Some(stored) else None;
    }
  }

  lemma StoredOnce(entry: KeyEntry, notBefore: TimeArg, notAfter: TimeArg, stored: KeyEntry)
    requires Stores(entry, notBefore, notAfter, stored)
    ensures forall other :: Stores(entry, notBefore, notAfter, other) ==> other == stored
  {
  }

  /** After adding an active key without conditions, a claim by it is trusted from the first
      time on and up to the second, so far as they were given. */
  lemma AddedWindowDecides(glob: Glob, file: File, id: Text, notBefore: TimeArg, notAfter: TimeArg, claim: Claim)
    requires ValidFile(file) && Lookup(Keys(file), id).None? && IsSha256(id) && claim.fingerprint == id
    requires notBefore != BadTime && notAfter != BadTime
    requires notBefore.At? && notAfter.At? ==> notBefore.instant <= notAfter.instant
    ensures var plain := KeyEntry(id, None, Active, None, None, None, [], None);
            Trusts(glob, Keys(Step(file, Add(plain, notBefore, notAfter))), claim) <==>
              (notBefore.At? ==> notBefore.instant <= claim.now) && (notAfter.At? ==> claim.now <= notAfter.instant)
  {
    hide Lookup, Others, NormalizeKeyId, Step, Succeeds, IsSha256;
    var plain := KeyEntry(id, None, Active, None, None, None, [], None);
    var c := Add(plain, notBefore, notAfter);
    StoredIdIsNormal(id);
    LookupIs(Keys(file), id);
    var stored := plain.(notBefore := Instant(notBefore), notAfter := Instant(notAfter));
    assert Stores(plain, notBefore, notAfter, stored) && ValidEntry(stored);
    StoredOnce(plain, notBefore, notAfter, stored);
    AddOutcome(file, plain, notBefore, notAfter);
    StepKeepsValid(file, c);
    var keys := Keys(Step(file, c));
    LookupIs(keys, id);
    OneEntryPerKey(keys, stored);
    OneKeyDecides(glob, keys, stored, claim);
  }

  lemma OneKeyDecides(glob: Glob, keys: seq<KeyEntry>, key: KeyEntry, claim: Claim)
    requires UniqueIds(keys) && key in keys && key.keyId == claim.fingerprint
    ensures Trusts(glob, keys, claim) <==> Admits(glob, key, claim)
  {
    hide Admits;
    OneEntryPerKey(keys, key);
  }

  /** Taking a key's entry out leaves what stood before and after it, in order. */
  lemma OthersCutOut(before: seq<KeyEntry>, e: KeyEntry, after: seq<KeyEntry>)
    requires UniqueIds(before + [e] + after)
    ensures Others(before + [e] + after, e.keyId) == before + after
  {
    hide UniqueIds, Others, Lookup;
    OnlyOnce(before, e, after);
    LookupIs(before, e.keyId);
    LookupIs(after, e.keyId);
    OthersAre(before, e.keyId);
    OthersAre(after, e.keyId);
    NoOthers([e], e.keyId);
    OthersConcat(before + [e], after, e.keyId);
    OthersConcat(before, [e], e.keyId);
    assert before + [] == before;
  }

  lemma OnlyOnce(before: seq<KeyEntry>, e: KeyEntry, after: seq<KeyEntry>)
    requires UniqueIds(before + [e] + after)
    ensures forall x :: x in before + after ==> x.keyId != e.keyId
  {
    var keys := before + [e] + after;
    assert keys[|before|] == e;
    assert forall i :: 0 <= i < |before| ==> keys[i] == before[i];
    assert forall i :: 0 <= i < |after| ==> keys[|before| + 1 + i] == after[i];
  }

  lemma {:induction false} OthersOfOthers(keys: seq<KeyEntry>, id: Text)
    ensures Others(Others(keys, id), id) == Others(keys, id)
  {
    if keys != [] {
      var n := |keys| - 1;
      OthersOfOthers(keys[..n], id);
      var last := if keys[n].keyId != id then [keys[n]] else [];
      OthersConcat(Others(keys[..n], id), last, id);
      if last != [] {
        assert last[..0] == [];
        assert Others(last, id) == last;
      }
    }
  }

  lemma {:induction false} LookupOthers(keys: seq<KeyEntry>, id: Text)
    ensures Lookup(Others(keys, id), id).None?
    ensures forall k: Text :: k != id ==> Lookup(Others(keys, id), k) == Lookup(keys, k)
  {
    if keys != [] {
      var n := |keys| - 1;
      LookupOthers(keys[..n], id);
      var last := if keys[n].keyId != id then [keys[n]] else [];
      forall k: Text ensures Lookup(Others(keys, id), k) == if k == id then None else Lookup(keys, k) {
        LookupLast(Others(keys[..n], id), last, k);
      }
    }
  }

  /** Every command keeps fingerprints distinct and windows in order. */
  lemma StepKeepsValid(file: File, c: Command)
    requires ValidFile(file)
    ensures ValidFile(Step(file, c))
  {
    hide Change, ValidEntry, NormalizeKeyId, Target, Lookup, Others;
    var id := Target(c);
    var keys := Keys(file);
    var change := Change(file.Some?, Lookup(keys, id), c);
    if change.Some? {
      ChangeIsValid(file, c);
      OthersAre(keys, id);
      OthersUnique(keys, id);
      var others := Others(keys, id);
      forall i | 0 <= i < |others| ensures ValidEntry(others[i]) {
        assert others[i] in keys;
      }
      if change.value.Some? {
        UniqueAppend(others, change.value.value);
      } else {
        assert others + [] == others;
      }
    }
  }

  /** Over every run of commands, failed ones included, the file stays valid. */
  lemma {:induction false} RunKeepsValid(file: File, commands: seq<Command>)
    requires ValidFile(file)
    ensures ValidFile(Run(file, commands))
  {
    if commands != [] {
      var n := |commands| - 1;
      RunKeepsValid(file, commands[..n]);
      StepKeepsValid(Run(file, commands[..n]), commands[n]);
    }
  }

  /* -- trust over runs ---------------------------------------------------------------------- */

  /** The key's entry is there and active. */
  predicate IsActive(file: File, id: Text) {
    var e := Lookup(Keys(file), id);
    e.Some? && e.value.status == Active
  }

  /** A key with no active entry is refused at every clock, identity and model id. */
  lemma InactiveIsRefused(glob: Glob, file: File, claim: Claim)
    requires ValidFile(file) && !IsActive(file, claim.fingerprint)
    ensures !Trusts(glob, Keys(file), claim)
  {
    hide InScope;
    if Trusts(glob, Keys(file), claim) {
      var e :| e in Keys(file) && e.keyId == claim.fingerprint && Admits(glob, e, claim);
      LookupUnique(Keys(file), e);
    }
  }

  /** A command changes the standing of no claim by another key. */
  lemma OtherClaimsUnaffected(glob: Glob, file: File, c: Command, claim: Claim)
    requires ValidFile(file) && claim.fingerprint != Target(c)
    ensures Trusts(glob, Keys(Step(file, c)), claim) <==> Trusts(glob, Keys(file), claim)
  {
    hide Change, ValidEntry, NormalizeKeyId, Target, Lookup, Others, Admits, Step;
    OthersPreserved(file, c);
    StepKeepsValid(file, c);
    SameEntrySameTrust(glob, Keys(Step(file, c)), Keys(file), claim);
    SameEntrySameTrust(glob, Keys(file), Keys(Step(file, c)), claim);
  }

  lemma SameEntrySameTrust(glob: Glob, a: seq<KeyEntry>, b: seq<KeyEntry>, claim: Claim)
    requires UniqueIds(a) && Lookup(a, claim.fingerprint) == Lookup(b, claim.fingerprint)
    ensures Trusts(glob, a, claim) ==> Trusts(glob, b, claim)
  {
    hide Admits, Lookup, UniqueIds;
    if Trusts(glob, a, claim) {
      var e :| e in a && e.keyId == claim.fingerprint && Admits(glob, e, claim);
      LookupUnique(a, e);
      LookupIs(b, claim.fingerprint);
    }
  }

  /** Whether the commands could bring the key back: an add of it as active and, if it has an
      entry now, a removal of it before that. */
  ghost predicate Readmits(present: bool, commands: seq<Command>, id: Text) {
    exists j :: 0 <= j < |commands| && AddsActive(commands[j], id) && (present ==> RemovedBefore(commands, j, id))
  }

  predicate AddsActive(c: Command, id: Text) {
    c.Add? && Target(c) == id && c.entry.status == Active
  }

  ghost predicate RemovedBefore(commands: seq<Command>, j: nat, id: Text)
    requires j <= |commands|
  {
    exists i :: 0 <= i < j && commands[i].Remove? && Target(commands[i]) == id
  }

  /** One step can make the key active only by adding it, and can take a present entry away
      only by removing it. */
  lemma StepAndStanding(file: File, c: Command, id: Text)
    requires ValidFile(file)
    ensures IsActive(Step(file, c), id) && !IsActive(file, id) ==> AddsActive(c, id) && Lookup(Keys(file), id).None?
    ensures Lookup(Keys(file), id).Some? && Lookup(Keys(Step(file, c)), id).None? ==> c.Remove? && Target(c) == id
  {
    hide ValidEntry, NormalizeKeyId, Target, Lookup, Others, Step, Keys;
    OthersPreserved(file, c);
  }

  /** Once a key has no active entry it is refused at every clock, identity and model id
      after every run of commands, unless the run adds it again as active, having removed it
      first if it still had an entry. */
  lemma DistrustIsPermanent(glob: Glob, file: File, commands: seq<Command>, claim: Claim)
    requires ValidFile(file) && !IsActive(file, claim.fingerprint)
    requires !Readmits(Lookup(Keys(file), claim.fingerprint).Some?, commands, claim.fingerprint)
    ensures !Trusts(glob, Keys(Run(file, commands)), claim)
  {
    hide *;
    StaysInactive(file, commands, claim.fingerprint);
    RunKeepsValid(file, commands);
    InactiveIsRefused(glob, Run(file, commands), claim);
  }

  lemma {:induction false} StaysInactive(file: File, commands: seq<Command>, id: Text)
    requires ValidFile(file) && !IsActive(file, id)
    requires !Readmits(Lookup(Keys(file), id).Some?, commands, id)
    ensures !IsActive(Run(file, commands), id)
    ensures Lookup(Keys(file), id).Some? && Lookup(Keys(Run(file, commands)), id).None? ==>
              RemovedBefore(commands, |commands|, id)
  {
    hide IsActive, AddsActive, Target, Step, Lookup, Keys, ValidFile;
    if commands != [] {
      var n := |commands| - 1;
      var init := commands[..n];
      var present := Lookup(Keys(file), id).Some?;
      ReadmitsInPrefix(present, commands, n, id);
      StaysInactive(file, init, id);
      RunKeepsValid(file, init);
      StepAndStanding(Run(file, init), commands[n], id);
      RemovedInPrefix(commands, n, n, id);
    }
  }

  lemma RemovedInPrefix(commands: seq<Command>, n: nat, j: nat, id: Text)
    requires j <= n <= |commands|
    ensures RemovedBefore(commands[..n], j, id) ==> RemovedBefore(commands, j, id) && RemovedBefore(commands, n, id)
  {
    hide Target;
    if RemovedBefore(commands[..n], j, id) {
      var i :| 0 <= i < j && commands[..n][i].Remove? && Target(commands[..n][i]) == id;
      assert commands[i] == commands[..n][i];
    }
  }

  lemma ReadmitsInPrefix(present: bool, commands: seq<Command>, n: nat, id: Text)
    requires n <= |commands|
    ensures Readmits(present, commands[..n], id) ==> Readmits(present, commands, id)
  {
    hide AddsActive, RemovedBefore;
    if Readmits(present, commands[..n], id) {
      var j :| 0 <= j < n && AddsActive(commands[..n][j], id) && (present ==> RemovedBefore(commands[..n], j, id));
      assert AddsActive(commands[j], id);
      RemovedInPrefix(commands, n, j, id);
    }
  }

  /** The way back is open: a removal and an add of a key with no conditions restore trust. */
  lemma RemoveThenAddReadmits(glob: Glob, file: File, id: Text, claim: Claim)
    requires ValidFile(file) && Lookup(Keys(file), id).Some? && claim.fingerprint == id
    ensures var plain := KeyEntry(id, None, Active, None, None, None, [], None);
            Trusts(glob, Keys(Run(file, [Remove(id), Add(plain, NoTime, NoTime)])), claim)
  {
    hide Lookup, Others, NormalizeKeyId;
    var plain := KeyEntry(id, None, Active, None, None, None, [], None);
    LookupIs(Keys(file), id);
    var e := Lookup(Keys(file), id).value;
    var i :| 0 <= i < |Keys(file)| && Keys(file)[i] == e;
    assert ValidEntry(e);
    StoredIdIsNormal(id);
    var first, second := Remove(id), Add(plain, NoTime, NoTime);
    OthersPreserved(file, first);
    StepKeepsValid(file, first);
    var removed := Step(file, first);
    assert Lookup(Keys(removed), id).None?;
    RevalidationIsIdentity(plain);
    OthersPreserved(removed, second);
    var whole := Step(removed, second);
    RunOfTwo(file, first, second);
    LookupIs(Keys(whole), id);
    assert Admits(glob, plain, claim);
  }

  lemma RunOfTwo(file: File, a: Command, b: Command)
    ensures Run(file, [a, b]) == Step(Step(file, a), b)
  {
    assert [a, b][..1] == [a] && [a][..0] == [];
    assert Run(file, [a]) == Step(Run(file, []), a);
  }

  /* -- the commands --------------------------------------------------------------------------- */

  class TrustFile {
    var content: File

    constructor ()
      ensures content == None
    {
      content := None;
    }

    /** _replace_key: None when there is no entry for the key. */
    method ReplaceKey(config: TrustConfig, keyId: Text, updated: Option<KeyEntry>) returns (r: Option<TrustConfig>)
      requires ValidConfig(config)
      requires updated.Some? ==> updated.value.keyId == NormalizeKeyId(keyId) && ValidEntry(updated.value)
      ensures r.None? <==> Lookup(config.keys, NormalizeKeyId(keyId)).None?
      ensures r.Some? ==> r.value.version == config.version
      ensures r.Some? ==> r.value.keys == Others(config.keys, NormalizeKeyId(keyId)) + (if updated.Some? then [updated.value] else [])
    {
      hide ValidEntry, NormalizeKeyId, Lookup;
      var normalized := NormalizeKeyId(keyId);
      var remaining: seq<KeyEntry> := [];
      for i := 0 to |config.keys|
        invariant remaining == Others(config.keys[..i], normalized)
      {
        assert config.keys[..i + 1][..i] == config.keys[..i];
        if config.keys[i].keyId != normalized {
          remaining := remaining + [config.keys[i]];
        }
      }
      assert config.keys[..|config.keys|] == config.keys;
      OthersAre(config.keys, normalized);
      OthersUnique(config.keys, normalized);
      if |remaining| == |config.keys| {
        return None;
      }
      var keys := remaining;
      if updated.Some? {
        keys := keys + [updated.value];
        UniqueAppend(remaining, updated.value);
      } else {
        assert remaining + [] == remaining;
      }
      var unique := ValidateUniqueKeyIds(keys);
      assert unique;
      return Some(TrustConfig(config.version, keys));
    }

    /** add-key: creates the file if there is none. */
    method AddKey(entry: KeyEntry, notBefore: TimeArg, notAfter: TimeArg) returns (ok: bool)
      requires ValidFile(content)
      modifies this
      ensures content == Step(old(content), Add(entry, notBefore, notAfter))
      ensures ok <==> Succeeds(old(content), Add(entry, notBefore, notAfter))
      ensures ok <==>
                && (forall e :: e in Keys(old(content)) ==> e.keyId != NormalizeKeyId(entry.keyId))
                && exists stored :: Stores(entry, notBefore, notAfter, stored) && ValidEntry(stored)
      ensures ok ==> exists stored ::
                && Stores(entry, notBefore, notAfter, stored) && ValidEntry(stored)
                && content == Some(TrustConfig(if old(content).Some? then old(content).value.version else Ascii("1"),
                                               Keys(old(content)) + [stored]))
      ensures !ok ==> content == old(content)
      ensures ValidFile(content)
    {
      AddOutcome(content, entry, notBefore, notAfter);
      hide ValidEntry, NormalizeKeyId, Lookup, Others;
      ghost var c := Add(entry, notBefore, notAfter);
      StepKeepsValid(content, c);
      ChangeIsValid(content, c);
      var config := if content.Some? then content.value else TrustConfig(SCHEMA_VERSION, []);
      assert config.keys == Keys(content);
      if notBefore == BadTime || notAfter == BadTime {
        return false;
      }
      var validated := Validate(entry.(notBefore := Instant(notBefore), notAfter := Instant(notAfter)));
      if validated.None? {
        return false;
      }
      var keys := config.keys + [validated.value];
      AddedIsUnique(config.keys, validated.value);
      OthersAre(config.keys, validated.value.keyId);
      var unique := ValidateUniqueKeyIds(keys);
      if !unique {
        return false;
      }
      content := Some(TrustConfig(config.version, keys));
      return true;
    }

    /** retire-key */
    method RetireKey(keyId: Text, until: TimeArg) returns (ok: bool)
      requires ValidFile(content)
      modifies this
      ensures content == Step(old(content), Retire(keyId, until))
      ensures ok <==> Succeeds(old(content), Retire(keyId, until))
      ensures ValidFile(content)
    {
      hide NormalizeKeyId, Lookup, Others, IsSha256;
      ghost var c := Retire(keyId, until);
      StepKeepsValid(content, c);
      ChangeIsValid(content, c);
      if content.None? {
        return false;
      }
      var current := Lookup(content.value.keys, NormalizeKeyId(keyId));
      if current.None? || until == BadTime {
        return false;
      }
      EntryIsValid(content.value, NormalizeKeyId(keyId));
      var time := if until.At? then Some(until.instant) else current.value.notAfter;
      var entry := current.value.(status := Retired, notAfter := time);
      RevalidationIsIdentity(entry);
      var updated := Validate(entry);
      if updated.None? {
        return false;
      }
      var config := ReplaceKey(content.value, keyId, updated);
      if config.None? {
        return false;
      }
      content := config;
      return true;
    }

    /** revoke-key */
    method RevokeKey(keyId: Text) returns (ok: bool)
      requires ValidFile(content)
      modifies this
      ensures content == Step(old(content), Revoke(keyId))
      ensures ok <==> Succeeds(old(content), Revoke(keyId))
      ensures ValidFile(content)
    {
      hide NormalizeKeyId, Lookup, Others, IsSha256;
      ghost var c := Revoke(keyId);
      StepKeepsValid(content, c);
      ChangeIsValid(content, c);
      if content.None? {
        return false;
      }
      var current := Lookup(content.value.keys, NormalizeKeyId(keyId));
      if current.None? {
        return false;
      }
      EntryIsValid(content.value, NormalizeKeyId(keyId));
      var entry := current.value.(status := Revoked);
      RevalidationIsIdentity(entry);
      var updated := Validate(entry);
      if updated.None? {
        return false;
      }
      var config := ReplaceKey(content.value, keyId, updated);
      if config.None? {
        return false;
      }
      content := config;
      return true;
    }

    /** remove-key */
    method RemoveKey(keyId: Text) returns (ok: bool)
      requires ValidFile(content)
      modifies this
      ensures content == Step(old(content), Remove(keyId))
      ensures ok <==> Succeeds(old(content), Remove(keyId))
      ensures ValidFile(content)
    {
      hide NormalizeKeyId, Lookup, Others, ValidEntry;
      StepKeepsValid(content, Remove(keyId));
      if content.None? {
        return false;
      }
      var config := ReplaceKey(content.value, keyId, None);
      if config.None? {
        return false;
      }
      content := config;
      return true;
    }
  }

  lemma EntryIsValid(config: TrustConfig, id: Text)
    requires ValidConfig(config) && Lookup(config.keys, id).Some?
    ensures ValidEntry(Lookup(config.keys, id).value) && Lookup(config.keys, id).value.keyId == id
  {
    hide ValidEntry;
    LookupIs(config.keys, id);
    var e := Lookup(config.keys, id).value;
    var i :| 0 <= i < |config.keys| && config.keys[i] == e;
  }

  /** Adding an entry is refused by the uniqueness check exactly when its key has one. */
  lemma AddedIsUnique(keys: seq<KeyEntry>, e: KeyEntry)
    requires UniqueIds(keys)
    ensures UniqueIds(keys + [e]) <==> Lookup(keys, e.keyId).None?
  {
    LookupIs(keys, e.keyId);
    if Lookup(keys, e.keyId).Some? {
      var old' := Lookup(keys, e.keyId).value;
      var i :| 0 <= i < |keys| && keys[i] == old';
      assert (keys + [e])[i].keyId == (keys + [e])[|keys|].keyId;
    } else {
      UniqueAppend(keys, e);
    }
  }
}
