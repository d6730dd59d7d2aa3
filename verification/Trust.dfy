/** Trust configurations: validation, merging, evaluation, and the commands that edit the
    configuration file. Times are instants; glob matching of model ids is a parameter. */
module Trust {
  import opened Outcomes
  import opened Unicode
  import opened Digests

  datatype Status = Active | Retired | Revoked

  datatype KeyEntry = KeyEntry(
    keyId: Text, algorithm: Option<Text>, status: Status, notBefore: Option<int>, notAfter: Option<int>,
    signerIdentity: Option<Text>, scope: seq<Text>, note: Option<Text>)

  datatype TrustConfig = TrustConfig(version: Text, keys: seq<KeyEntry>)

  const SCHEMA_VERSION: Text := Ascii("1")
  const MAX_STRING_FIELD := 200
  const MAX_SCOPE_PATTERNS := 32

  /* -- validation ----------------------------------------------------------------------- */

  predicate AlgorithmChar(c: CodePoint) {
    97 <= c <= 122 || 48 <= c <= 57 || c == 45
  }

  /** [a-z0-9][a-z0-9-]{0,63} */
  predicate ValidAlgorithm(s: Text) {
    1 <= |s| <= 64 && s[0] != 45 && forall i :: 0 <= i < |s| ==> AlgorithmChar(s[i])
  }

  predicate BoundedString(s: Text) {
    1 <= |s| <= MAX_STRING_FIELD && forall i :: 0 <= i < |s| ==> s[i] >= 0x20
  }

  predicate WindowOrdered(e: KeyEntry) {
    e.notBefore.Some? && e.notAfter.Some? ==> e.notBefore.value <= e.notAfter.value
  }

  /** What TrustedKeyEntry validation admits, the key id being normalized already. */
  predicate ValidEntry(e: KeyEntry) {
    && IsSha256(e.keyId)
    && (e.algorithm.Some? ==> ValidAlgorithm(e.algorithm.value))
    && (e.signerIdentity.Some? ==> BoundedString(e.signerIdentity.value))
    && (e.note.Some? ==> BoundedString(e.note.value))
    && |e.scope| <= MAX_SCOPE_PATTERNS
    && (forall i :: 0 <= i < |e.scope| ==> BoundedString(e.scope[i]))
    && WindowOrdered(e)
  }

  /** The rules of an entry with their numbers: 1 to 64 lower-case letters, digits and
      hyphens, the first no hyphen, for an algorithm; 1 to 200 characters from 0x20 on for
      an identity, a note and each of at most 32 patterns; no window that ends before it
      begins. */
  lemma EntryRules(e: KeyEntry)
    ensures ValidEntry(e) <==>
      && |e.keyId| == 64
      && (forall k :: 0 <= k < 64 ==> Between('0', e.keyId[k], '9') || Between('a', e.keyId[k], 'f'))
      && (e.algorithm.Some? ==>
            var a := e.algorithm.value;
            && 1 <= |a| <= 64 && a[0] != '-' as int
            && forall k :: 0 <= k < |a| ==> Between('a', a[k], 'z') || Between('0', a[k], '9') || a[k] == '-' as int)
      && (e.signerIdentity.Some? ==> OneLine(e.signerIdentity.value, 200))
      && (e.note.Some? ==> OneLine(e.note.value, 200))
      && |e.scope| <= 32
      && (forall i :: 0 <= i < |e.scope| ==> OneLine(e.scope[i], 200))
      && !(e.notBefore.Some? && e.notAfter.Some? && e.notAfter.value < e.notBefore.value)
  {
  }

  predicate Between(a: char, c: CodePoint, b: char) {
    a as int <= c <= b as int
  }

  /** Not empty, no longer than the limit, no control character below the space. */
  predicate OneLine(s: Text, limit: nat) {
    s != [] && |s| <= limit && forall k :: 0 <= k < |s| ==> s[k] >= ' ' as int
  }

  ghost predicate UniqueIds(keys: seq<KeyEntry>) {
    forall i, j :: 0 <= i < j < |keys| ==> keys[i].keyId != keys[j].keyId
  }

  /** TrustConfig._validate_unique_key_ids */
  method ValidateUniqueKeyIds(keys: seq<KeyEntry>) returns (ok: bool)
    ensures ok <==> UniqueIds(keys)
  {
    var seen: set<Text> := {};
    for i := 0 to |keys|
      invariant seen == set e | e in keys[..i] :: e.keyId
      invariant UniqueIds(keys[..i])
    {
      if keys[i].keyId in seen {
        var e :| e in keys[..i] && e.keyId == keys[i].keyId;
        return false;
      }
      assert forall k :: 0 <= k < i ==> keys[k] in keys[..i];
      assert keys[..i + 1] == keys[..i] + [keys[i]];
      seen := seen + {keys[i].keyId};
    }
    assert keys[..|keys|] == keys;
    return true;
  }

  ghost predicate ValidConfig(c: TrustConfig) {
    UniqueIds(c.keys) && forall i :: 0 <= i < |c.keys| ==> ValidEntry(c.keys[i])
  }

  /* -- evaluation --------------------------------------------------------------------------- */

  /** fnmatch.fnmatchcase(model_id, pattern) */
  type Glob = (Text, Text) -> bool

  /** The place of a reason among the checks. */
  function Rank(reason: Reason): nat {
    match reason
    case NoKey => 0
    case WrongAlgorithm => 1
    case NotActive => 2
    case NotYet => 3
    case Expired => 4
    case WrongIdentity => 5
    case OutOfScope => 6
  }

  ghost predicate InRank(reasons: seq<Reason>) {
    forall i, j :: 0 <= i < j < |reasons| ==> Rank(reasons[i]) < Rank(reasons[j])
  }

  /** The verified signature and the clock it is judged by. */
  datatype Claim = Claim(fingerprint: Text, algorithm: Text, identity: Option<Text>, modelId: Option<Text>, now: int)

  datatype Reason = NoKey | WrongAlgorithm | NotActive | NotYet | Expired | WrongIdentity | OutOfScope

  datatype Evaluation = Evaluation(trusted: bool, matched: Option<KeyEntry>, reasons: seq<Reason>)

  predicate InScope(glob: Glob, e: KeyEntry, modelId: Option<Text>) {
    e.scope == [] || (modelId.Some? && exists i :: 0 <= i < |e.scope| && glob(modelId.value, e.scope[i]))
  }

  /** The entry's conditions all hold for the claim. */
  predicate Admits(glob: Glob, e: KeyEntry, c: Claim) {
    && (e.algorithm.Some? ==> e.algorithm.value == c.algorithm)
    && e.status == Active
    && (e.notBefore.Some? ==> e.notBefore.value <= c.now)
    && (e.notAfter.Some? ==> c.now <= e.notAfter.value)
    && (e.signerIdentity.Some? ==> e.signerIdentity == c.identity)
    && InScope(glob, e, c.modelId)
  }

  /** The ground for refusing the claim by the entry holds. */
  predicate Holds(glob: Glob, reason: Reason, e: KeyEntry, c: Claim) {
    match reason
    case NoKey => false
    case WrongAlgorithm => e.algorithm.Some? && e.algorithm.value != c.algorithm
    case NotActive => e.status != Active
    case NotYet => e.notBefore.Some? && c.now < e.notBefore.value
    case Expired => e.notAfter.Some? && e.notAfter.value < c.now
    case WrongIdentity => e.signerIdentity.Some? && e.signerIdentity != c.identity
    case OutOfScope => !InScope(glob, e, c.modelId)
  }

  /** Some entry is for the claim's key and admits it. */
  ghost predicate Trusts(glob: Glob, keys: seq<KeyEntry>, c: Claim) {
    exists e :: e in keys && e.keyId == c.fingerprint && Admits(glob, e, c)
  }

  function Matches(keys: seq<KeyEntry>, fingerprint: Text): seq<KeyEntry> {
    if keys == [] then []
    else
      var n := |keys| - 1;
      Matches(keys[..n], fingerprint) + if keys[n].keyId == fingerprint then [keys[n]] else []
  }

  lemma {:induction false} MatchesAre(keys: seq<KeyEntry>, fingerprint: Text)
    ensures forall e :: e in Matches(keys, fingerprint) <==> e in keys && e.keyId == fingerprint
  {
    if keys != [] {
      var n := |keys| - 1;
      MatchesAre(keys[..n], fingerprint);
      assert keys == keys[..n] + [keys[n]];
    }
  }

  function Note(reasons: seq<Reason>, holds: bool, reason: Reason): seq<Reason> {
    if holds then reasons + [reason] else reasons
  }

  /** evaluate_trust: trusts exactly when the configured key admits the claim, and gives
      each of the reasons that apply, spelled out, and no other. */
  method EvaluateTrust(glob: Glob, config: TrustConfig, c: Claim) returns (r: Evaluation)
    requires UniqueIds(config.keys)
    ensures r.trusted <==> Trusts(glob, config.keys, c)
    ensures r.trusted <==> r.reasons == []
    ensures r.matched.None? <==> forall e :: e in config.keys ==> e.keyId != c.fingerprint
    ensures r.matched.Some? ==> r.matched.value in config.keys && r.matched.value.keyId == c.fingerprint
    ensures r.matched.None? ==> r.reasons == [NoKey]
    ensures InRank(r.reasons)
    ensures r.matched.Some? ==>
              var e := r.matched.value;
              && NoKey !in r.reasons
              && (WrongAlgorithm in r.reasons <==> e.algorithm.Some? && e.algorithm.value != c.algorithm)
              && (NotActive in r.reasons <==> e.status == Retired || e.status == Revoked)
              && (NotYet in r.reasons <==> e.notBefore.Some? && c.now < e.notBefore.value)
              && (Expired in r.reasons <==> e.notAfter.Some? && e.notAfter.value < c.now)
              && (WrongIdentity in r.reasons <==>
                    e.signerIdentity.Some? && (c.identity.None? || c.identity.value != e.signerIdentity.value))
              && (OutOfScope in r.reasons <==>
                    && |e.scope| > 0
                    && (c.modelId.None? || forall i :: 0 <= i < |e.scope| ==> !glob(c.modelId.value, e.scope[i])))
  {
    hide InScope, Admits, Holds, UniqueIds, Note, InRank;
    assert InRank([NoKey]) by { AloneRanked(); }
    ScopeSpelled(glob, c.modelId);
    var matches := Matches(config.keys, c.fingerprint);
    MatchesAre(config.keys, c.fingerprint);
    if matches == [] {
      return Evaluation(false, None, [NoKey]);
    }
    var key := matches[0];
    assert key in matches;
    OneEntryPerKey(config.keys, key);
    var reasons: seq<Reason> := [];
    reasons := Note(reasons, key.algorithm.Some? && key.algorithm.value != c.algorithm, WrongAlgorithm);
    reasons := Note(reasons, key.status != Active, NotActive);
    reasons := Note(reasons, key.notBefore.Some? && c.now < key.notBefore.value, NotYet);
    reasons := Note(reasons, key.notAfter.Some? && c.now > key.notAfter.value, Expired);
    reasons := Note(reasons, key.signerIdentity.Some? && key.signerIdentity != c.identity, WrongIdentity);
    reasons := Note(reasons, key.scope != [] && !InScope(glob, key, c.modelId), OutOfScope);
    ReasonsAre(glob, key, c, reasons);
    ReasonsSpelled(glob, key, c);
    ReasonsRanked(glob, key, c, reasons);
    return Evaluation(reasons == [], Some(key), reasons);
  }

  lemma EmptyScope(glob: Glob, e: KeyEntry, modelId: Option<Text>)
    ensures e.scope == [] ==> InScope(glob, e, modelId)
  {
  }

  lemma ScopeSpelled(glob: Glob, modelId: Option<Text>)
    ensures forall e: KeyEntry :: !InScope(glob, e, modelId) <==>
              && |e.scope| > 0
              && (modelId.None? || forall i :: 0 <= i < |e.scope| ==> !glob(modelId.value, e.scope[i]))
  {
  }

  lemma ReasonsSpelled(glob: Glob, e: KeyEntry, c: Claim)
    ensures !Holds(glob, NoKey, e, c)
    ensures Holds(glob, WrongAlgorithm, e, c) <==> e.algorithm.Some? && e.algorithm.value != c.algorithm
    ensures Holds(glob, NotActive, e, c) <==> e.status == Retired || e.status == Revoked
    ensures Holds(glob, NotYet, e, c) <==> e.notBefore.Some? && c.now < e.notBefore.value
    ensures Holds(glob, Expired, e, c) <==> e.notAfter.Some? && e.notAfter.value < c.now
    ensures Holds(glob, WrongIdentity, e, c) <==>
              e.signerIdentity.Some? && (c.identity.None? || c.identity.value != e.signerIdentity.value)
    ensures Holds(glob, OutOfScope, e, c) <==> !InScope(glob, e, c.modelId)
  {
    hide InScope;
  }

  /** A longer scope never narrows the trust: what a key with a scope admits it admits with
      any further patterns, in any order. */
  lemma WiderScopeAdmitsMore(glob: Glob, keys: seq<KeyEntry>, i: nat, scope: seq<Text>, c: Claim)
    requires i < |keys| && keys[i].scope != []
    requires forall p :: p in keys[i].scope ==> p in scope
    requires Trusts(glob, keys, c)
    ensures Trusts(glob, keys[i := keys[i].(scope := scope)], c)
  {
    hide Admits, InScope;
    var e :| e in keys && e.keyId == c.fingerprint && Admits(glob, e, c);
    var wider := keys[i].(scope := scope);
    if e == keys[i] {
      AdmitsWider(glob, e, scope, c);
      assert keys[i := wider][i] == wider;
    } else {
      var j :| 0 <= j < |keys| && keys[j] == e;
      assert keys[i := wider][j] == e;
    }
  }

  lemma AdmitsWider(glob: Glob, e: KeyEntry, scope: seq<Text>, c: Claim)
    requires e.scope != [] && (forall p :: p in e.scope ==> p in scope) && Admits(glob, e, c)
    ensures Admits(glob, e.(scope := scope), c)
  {
    var i :| 0 <= i < |e.scope| && glob(c.modelId.value, e.scope[i]);
    assert e.scope[i] in scope;
    var j :| 0 <= j < |scope| && scope[j] == e.scope[i];
    assert InScope(glob, e.(scope := scope), c.modelId);
  }

  /** The list of reasons, step by step, holds exactly those that apply. */
  lemma ReasonsAre(glob: Glob, e: KeyEntry, c: Claim, reasons: seq<Reason>)
    requires
      var r1 := Note([], e.algorithm.Some? && e.algorithm.value != c.algorithm, WrongAlgorithm);
      var r2 := Note(r1, e.status != Active, NotActive);
      var r3 := Note(r2, e.notBefore.Some? && c.now < e.notBefore.value, NotYet);
      var r4 := Note(r3, e.notAfter.Some? && c.now > e.notAfter.value, Expired);
      var r5 := Note(r4, e.signerIdentity.Some? && e.signerIdentity != c.identity, WrongIdentity);
      reasons == Note(r5, e.scope != [] && !InScope(glob, e, c.modelId), OutOfScope)
    ensures forall x :: x in reasons <==> Holds(glob, x, e, c)
    ensures reasons == [] <==> Admits(glob, e, c)
  {
    hide InScope, Note;
    EmptyScope(glob, e, c.modelId);
    NoteIs();
    forall x ensures x in reasons <==> Holds(glob, x, e, c) {
      match x
      case NoKey =>
      case WrongAlgorithm =>
      case NotActive =>
      case NotYet =>
      case Expired =>
      case WrongIdentity =>
      case OutOfScope =>
    }
  }

  /** In the order of the checks, none past the given one. */
  ghost predicate Ranked(reasons: seq<Reason>, last: nat) {
    InRank(reasons) && forall x :: x in reasons ==> Rank(x) <= last
  }

  lemma AloneRanked()
    ensures InRank([NoKey])
  {
  }

  lemma NoteRanked(reasons: seq<Reason>, holds: bool, reason: Reason, last: nat)
    requires Ranked(reasons, last) && last < Rank(reason)
    ensures Ranked(Note(reasons, holds, reason), Rank(reason))
  {
    hide Rank;
  }

  lemma ReasonsRanked(glob: Glob, e: KeyEntry, c: Claim, reasons: seq<Reason>)
    requires
      var r1 := Note([], e.algorithm.Some? && e.algorithm.value != c.algorithm, WrongAlgorithm);
      var r2 := Note(r1, e.status != Active, NotActive);
      var r3 := Note(r2, e.notBefore.Some? && c.now < e.notBefore.value, NotYet);
      var r4 := Note(r3, e.notAfter.Some? && c.now > e.notAfter.value, Expired);
      var r5 := Note(r4, e.signerIdentity.Some? && e.signerIdentity != c.identity, WrongIdentity);
      reasons == Note(r5, e.scope != [] && !InScope(glob, e, c.modelId), OutOfScope)
    ensures InRank(reasons)
  {
    hide InScope, Note;
    assert Ranked([], 0);
    var r1 := Note([], e.algorithm.Some? && e.algorithm.value != c.algorithm, WrongAlgorithm);
    NoteRanked([], e.algorithm.Some? && e.algorithm.value != c.algorithm, WrongAlgorithm, 0);
    var r2 := Note(r1, e.status != Active, NotActive);
    NoteRanked(r1, e.status != Active, NotActive, 1);
    var r3 := Note(r2, e.notBefore.Some? && c.now < e.notBefore.value, NotYet);
    NoteRanked(r2, e.notBefore.Some? && c.now < e.notBefore.value, NotYet, 2);
    var r4 := Note(r3, e.notAfter.Some? && c.now > e.notAfter.value, Expired);
    NoteRanked(r3, e.notAfter.Some? && c.now > e.notAfter.value, Expired, 3);
    var r5 := Note(r4, e.signerIdentity.Some? && e.signerIdentity != c.identity, WrongIdentity);
    NoteRanked(r4, e.signerIdentity.Some? && e.signerIdentity != c.identity, WrongIdentity, 4);
    NoteRanked(r5, e.scope != [] && !InScope(glob, e, c.modelId), OutOfScope, 5);
  }

  lemma NoteIs()
    ensures forall reasons, holds, reason ::
              (forall x :: x in Note(reasons, holds, reason) <==> x in reasons || (holds && x == reason))
              && (Note(reasons, holds, reason) == [] <==> reasons == [] && !holds)
  {
  }

  lemma OneEntryPerKey(keys: seq<KeyEntry>, key: KeyEntry)
    requires UniqueIds(keys) && key in keys
    ensures forall e :: e in keys && e.keyId == key.keyId ==> e == key
  {
  }

  /* -- merging --------------------------------------------------------------------------------- */

  /** The entries of the configurations, one after the other. */
  function AllKeys(configs: seq<TrustConfig>): seq<KeyEntry> {
    if configs == [] then [] else AllKeys(configs[..|configs| - 1]) + configs[|configs| - 1].keys
  }

  /** Two sources configure one key differently. */
  ghost predicate Disagree(configs: seq<TrustConfig>) {
    exists e, f :: e in AllKeys(configs) && f in AllKeys(configs) && e.keyId == f.keyId && e != f
  }

  function Lookup(keys: seq<KeyEntry>, id: Text): Option<KeyEntry> {
    if keys == [] then None
    else if keys[|keys| - 1].keyId == id then Some(keys[|keys| - 1])
    else Lookup(keys[..|keys| - 1], id)
  }

  lemma {:induction false} LookupIs(keys: seq<KeyEntry>, id: Text)
    ensures Lookup(keys, id).None? <==> forall e :: e in keys ==> e.keyId != id
    ensures Lookup(keys, id).Some? ==> Lookup(keys, id).value in keys && Lookup(keys, id).value.keyId == id
  {
    if keys != [] {
      var n := |keys| - 1;
      LookupIs(keys[..n], id);
      assert keys == keys[..n] + [keys[n]];
    }
  }

  /** merge_trust_configs: fails exactly when two sources disagree; otherwise every entry
      appears once, in the order of its first source. */
  method Merge(configs: seq<TrustConfig>) returns (r: Option<TrustConfig>)
    ensures r.None? <==> Disagree(configs)
    ensures r.Some? ==> UniqueIds(r.value.keys) && r.value.version == SCHEMA_VERSION
    ensures r.Some? ==> forall e :: e in r.value.keys <==> e in AllKeys(configs)
    ensures r.Some? ==> r.value.keys == Once(AllKeys(configs))
  {
    hide SCHEMA_VERSION, Once;
    var merged: seq<KeyEntry> := [];
    OnceNone();
    for i := 0 to |configs|
      invariant UniqueIds(merged) && merged == Once(AllKeys(configs[..i]))
      invariant forall e :: e in merged <==> e in AllKeys(configs[..i])
    {
      ghost var before := AllKeys(configs[..i]);
      var keys := configs[i].keys;
      assert configs[..i + 1][..i] == configs[..i];
      assert AllKeys(configs[..i + 1]) == before + keys;
      assert before + keys[..0] == before;
      for j := 0 to |keys|
        invariant UniqueIds(merged) && merged == Once(before + keys[..j])
        invariant forall e :: e in merged <==> e in before || e in keys[..j]
      {
        var key := keys[j];
        assert keys[..j + 1] == keys[..j] + [key];
        assert before + keys[..j + 1] == (before + keys[..j]) + [key];
        OnceStep(before + keys[..j], key);
        var existing := Lookup(merged, key.keyId);
        LookupIs(merged, key.keyId);
        if existing.Some? && existing.value != key {
          AllKeysPrefix(configs, i + 1);
          assert key in AllKeys(configs[..i + 1]) && existing.value in AllKeys(configs[..i + 1]);
          assert Disagree(configs);
          return None;
        }
        if existing.None? {
          UniqueAppend(merged, key);
          merged := merged + [key];
        }
      }
      assert keys[..|keys|] == keys;
    }
    assert configs[..|configs|] == configs;
    NoDisagreement(configs, merged);
    return Some(TrustConfig(SCHEMA_VERSION, merged));
  }

  /** Each entry once, at its first place. */
  function Once(keys: seq<KeyEntry>): seq<KeyEntry> {
    if keys == [] then []
    else
      var n := |keys| - 1;
      if keys[n] in keys[..n] then Once(keys[..n]) else Once(keys[..n]) + [keys[n]]
  }

  lemma OnceNone()
    ensures Once([]) == []
  {
  }

  lemma {:induction false} OnceStep(keys: seq<KeyEntry>, key: KeyEntry)
    ensures Once(keys + [key]) == if key in Once(keys) then Once(keys) else Once(keys) + [key]
  {
    assert (keys + [key])[..|keys|] == keys;
    OnceMembers(keys);
  }

  lemma {:induction false} OnceMembers(keys: seq<KeyEntry>)
    ensures forall e :: e in Once(keys) <==> e in keys
  {
    if keys != [] {
      var n := |keys| - 1;
      OnceMembers(keys[..n]);
      assert keys == keys[..n] + [keys[n]];
    }
  }

  /** Before any place of a later entry stands the earlier one. */
  lemma {:induction false} OnceInOrder(keys: seq<KeyEntry>, i: nat, j: nat, k: nat)
    requires i < j < |Once(keys)| && k < |keys| && keys[k] == Once(keys)[j]
    ensures Once(keys)[i] in keys[..k] && Once(keys)[i] != Once(keys)[j]
  {
    var n := |keys| - 1;
    var init := keys[..n];
    OnceMembers(init);
    if j == |Once(init)| {
      assert Once(keys)[i] == Once(init)[i];
      assert Once(init)[i] in init && keys[n] !in init;
      assert k == n by { LastOnly(keys, k); }
    } else if k < n {
      OnceInOrder(init, i, j, k);
      assert init[..k] == keys[..k];
    } else {
      assert Once(keys)[j] == Once(init)[j] && Once(init)[j] in init;
      var p :| 0 <= p < n && init[p] == keys[n];
      OnceInOrder(init, i, j, p);
      assert init[..p] == keys[..p];
      assert forall e :: e in keys[..p] ==> e in keys[..k];
    }
  }

  lemma LastOnly(keys: seq<KeyEntry>, k: nat)
    requires k < |keys| && keys[k] == keys[|keys| - 1] && keys[k] !in keys[..|keys| - 1]
    ensures k == |keys| - 1
  {
  }

  lemma UniqueAppend(keys: seq<KeyEntry>, key: KeyEntry)
    requires UniqueIds(keys) && forall e :: e in keys ==> e.keyId != key.keyId
    ensures UniqueIds(keys + [key])
  {
  }

  lemma NoDisagreement(configs: seq<TrustConfig>, merged: seq<KeyEntry>)
    requires UniqueIds(merged) && forall e :: e in merged <==> e in AllKeys(configs)
    ensures !Disagree(configs)
  {
  }

  lemma {:induction false} AllKeysPrefix(configs: seq<TrustConfig>, k: nat)
    requires k <= |configs|
    ensures forall e :: e in AllKeys(configs[..k]) ==> e in AllKeys(configs)
  {
    if k == |configs| {
      assert configs[..k] == configs;
    } else {
      var n := |configs| - 1;
      AllKeysPrefix(configs[..n], k);
      assert configs[..n][..k] == configs[..k];
    }
  }

  lemma {:induction false} AllKeysAre(configs: seq<TrustConfig>)
    ensures forall e :: e in AllKeys(configs) <==> exists i :: 0 <= i < |configs| && e in configs[i].keys
  {
    if configs != [] {
      var n := |configs| - 1;
      AllKeysAre(configs[..n]);
      forall e ensures e in AllKeys(configs) <==> exists i :: 0 <= i < |configs| && e in configs[i].keys {
        if i :| 0 <= i < |configs| && e in configs[i].keys {
          if i < n { assert e in configs[..n][i].keys; }
        }
        if e in AllKeys(configs[..n]) {
          var i :| 0 <= i < n && e in configs[..n][i].keys;
          assert e in configs[i].keys;
        }
      }
    }
  }

  /** r is what merging the configurations may return. */
  ghost predicate IsMergeOf(r: Option<TrustConfig>, configs: seq<TrustConfig>) {
    && (r.None? <==> Disagree(configs))
    && (r.Some? ==> UniqueIds(r.value.keys) && forall e :: e in r.value.keys <==> e in AllKeys(configs))
  }

  /** The same outcome up to the order of the entries. */
  ghost predicate SameUpToOrder(a: Option<TrustConfig>, b: Option<TrustConfig>) {
    && (a.None? <==> b.None?)
    && (a.Some? && b.Some? ==> forall e :: e in a.value.keys <==> e in b.value.keys)
  }

  /** Merging depends only on which configurations are merged: neither their order nor
      repetition matters, failures included (commutativity and idempotence). */
  lemma MergeIgnoresOrderAndRepetition(a: seq<TrustConfig>, b: seq<TrustConfig>, r: Option<TrustConfig>, s: Option<TrustConfig>)
    requires forall c :: c in a <==> c in b
    requires IsMergeOf(r, a) && IsMergeOf(s, b)
    ensures SameUpToOrder(r, s)
  {
    AllKeysAre(a);
    AllKeysAre(b);
    forall e ensures e in AllKeys(a) <==> e in AllKeys(b) {
      if i :| 0 <= i < |a| && e in a[i].keys {
        assert a[i] in b;
        var j :| 0 <= j < |b| && b[j] == a[i];
      }
      if i :| 0 <= i < |b| && e in b[i].keys {
        assert b[i] in a;
        var j :| 0 <= j < |a| && a[j] == b[i];
      }
    }
  }

  lemma {:induction false} AllKeysConcat(a: seq<TrustConfig>, b: seq<TrustConfig>)
    ensures forall e :: e in AllKeys(a + b) <==> e in AllKeys(a) || e in AllKeys(b)
  {
    if b == [] {
      assert a + b == a;
    } else {
      var n := |b| - 1;
      AllKeysConcat(a, b[..n]);
      assert (a + b)[..|a| + n] == a + b[..n];
    }
  }

  /** Merging in two stages is merging at once, failures included (associativity). */
  lemma MergeInStages(a: seq<TrustConfig>, b: seq<TrustConfig>, first: Option<TrustConfig>,
                      staged: Option<TrustConfig>, whole: Option<TrustConfig>)
    requires IsMergeOf(first, a) && IsMergeOf(whole, a + b)
    requires first.None? ==> staged.None?
    requires first.Some? ==> IsMergeOf(staged, [first.value] + b)
    ensures SameUpToOrder(staged, whole)
  {
    AllKeysConcat(a, b);
    if first.Some? {
      AllKeysConcat([first.value], b);
      assert AllKeys([first.value]) == first.value.keys by { SingleKeys(first.value); }
    } else {
      assert Disagree(a);
    }
  }

  lemma SingleKeys(c: TrustConfig)
    ensures AllKeys([c]) == c.keys
  {
    assert [c][..0] == [];
  }

  /** A claim is trusted under a merge exactly when it is trusted under some source, for
      every clock, identity and model id. */
  lemma TrustUnderMerge(glob: Glob, configs: seq<TrustConfig>, merged: TrustConfig, c: Claim)
    requires IsMergeOf(Some(merged), configs)
    ensures Trusts(glob, merged.keys, c) <==> exists i :: 0 <= i < |configs| && Trusts(glob, configs[i].keys, c)
  {
    hide Admits;
    AllKeysAre(configs);
    if Trusts(glob, merged.keys, c) {
      var e :| e in merged.keys && e.keyId == c.fingerprint && Admits(glob, e, c);
      assert e in AllKeys(configs);
      var i :| 0 <= i < |configs| && e in configs[i].keys;
      assert Trusts(glob, configs[i].keys, c);
    }
    if i :| 0 <= i < |configs| && Trusts(glob, configs[i].keys, c) {
      var e :| e in configs[i].keys && e.keyId == c.fingerprint && Admits(glob, e, c);
      assert e in AllKeys(configs);
      assert e in merged.keys;
    }
  }
}
