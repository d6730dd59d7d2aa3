/** Content-addressed blob stores: the local one, and any store at all. */
module BlobStores {
  import opened Outcomes
  import opened Unicode
  import opened Digests
  import opened Paths
  import opened Disks
  import opened FileSystem

  /** What a store answers to one read of a blob. */
  datatype Served = Absent | Found(stream: Stream)

  /** An arbitrary store, which may answer every call differently: the argument is the
      number of the call and the blob asked for. */
  type Server = (nat, Text) -> Served

  /** The bytes that reach the destination, if the read succeeds. */
  function Received(h: Hasher, served: Served, sha256: Text, maxBytes: int): Option<Bytes> {
    if !IsSha256(sha256) || served.Absent? then None
    else Verified(h, served.stream, sha256, maxBytes)
  }

  /** The error a read ends in if it yields nothing: a malformed name, no such blob, a stream
      that breaks off within the limit, or bytes that are too many or not those of the name. */
  function ReadFailure(served: Served, sha256: Text, maxBytes: int): Failure {
    if !IsSha256(sha256) then Refused
    else if served.Absent? then Missing
    else if !TooLong(served.stream, maxBytes) && !served.stream.complete then System
    else Integrity
  }

  /** The log has grown by interim states of one verified write and the state after it. */
  ghost predicate WriteLogged(old': seq<Tree>, states: seq<Tree>, before: Tree, now: Tree, dest: Path, maxBytes: int) {
    && old' <= states
    && forall i :: |old'| <= i < |states| ==> states[i] == now || Interim(before, states[i], dest, maxBytes)
  }

  lemma ReceivedFits(h: Hasher, served: Served, sha256: Text, maxBytes: int)
    ensures Received(h, served, sha256, maxBytes).Some? ==>
      Received(h, served, sha256, maxBytes).value == [] || |Received(h, served, sha256, maxBytes).value| <= maxBytes
  {
    if served.Found? && served.stream.chunks == [] { ConcatNone(); }
  }

  /** get_to of the stores: validate, find, stream into a verified write. */
  method GetTo(disk: Disk, h: Hasher, served: Served, sha256: Text, dest: Path, maxBytes: int)
    returns (r: Result<(), Failure>)
    requires Rooted(disk.tree) && disk.Logged()
    modifies disk
    ensures r.Ok? ==> dest !in old(disk.tree) && ParentIsDir(old(disk.tree), dest)
                      && Received(h, served, sha256, maxBytes).Some?
    ensures dest !in old(disk.tree) && ParentIsDir(old(disk.tree), dest) ==>
      (Received(h, served, sha256, maxBytes).Some? ==> r.Ok?)
    ensures dest !in old(disk.tree) && ParentIsDir(old(disk.tree), dest) && r.Err? ==>
      r.error == ReadFailure(served, sha256, maxBytes)
    ensures disk.tree == if r.Ok?
      then old(disk.tree)[dest := File(Received(h, served, sha256, maxBytes).value)] else old(disk.tree)
    ensures Rooted(disk.tree) && disk.Logged()
    ensures WriteLogged(old(disk.states), disk.states, old(disk.tree), disk.tree, dest, maxBytes)
  {
    hide Interim, Writing, Verified, TooLong;
    if !IsSha256(sha256) {
      return Err(Refused);
    }
    if served.Absent? {
      return Err(Missing);
    }
    ghost var before, states := disk.tree, disk.states;
    ghost var part;
    r, part := disk.WriteVerified(h, served.stream, dest, sha256, maxBytes);
    if dest !in before && ParentIsDir(before, dest) {
      WritingIsInterim(before, part, dest, served.stream.chunks, maxBytes);
      LogOfWriting(states, Writing(before, part, served.stream.chunks, maxBytes), disk.tree, disk.states);
    }
  }

  lemma LogOfWriting(before: seq<Tree>, trees: seq<Tree>, last: Tree, states: seq<Tree>)
    requires states == before + trees + [last]
    ensures before <= states
    ensures forall i :: |before| <= i < |states| ==> states[i] == last || (i - |before| < |trees| && states[i] == trees[i - |before|])
  {
  }

  /* -- the local store ---------------------------------------------------------------- */

  /** A file read through a running hash. */
  class HashingReader {
    var rest: Bytes
    var hashed: Bytes

    constructor (raw: Bytes)
      ensures rest == raw && hashed == []
    {
      rest, hashed := raw, [];
    }

    /** Reads at most size bytes, all of them for a negative size. */
    method Read(size: int) returns (chunk: Bytes)
      modifies this
      ensures chunk + rest == old(rest)
      ensures hashed == old(hashed) + chunk
      ensures chunk == [] <==> old(rest) == [] || size == 0
      ensures size >= 0 ==> |chunk| <= size
    {
      var n := if size < 0 || size > |rest| then |rest| else size;
      chunk := rest[..n];
      rest := rest[n..];
      hashed := hashed + chunk;
    }
  }

  ghost predicate Honest(h: Hasher, blobs: map<Text, Bytes>) {
    forall k :: k in blobs ==> IsSha256(k) && h(blobs[k]) == k
  }

  class LocalBlobStore {
    const h: Hasher
    var blobs: map<Text, Bytes>

    constructor (h: Hasher)
      ensures this.h == h && blobs == map[] && Honest(h, blobs)
    {
      this.h := h;
      blobs := map[];
    }

    /** Whether an honest store can serve the blob to a reader that allows for its size. */
    method Exists(sha256: Text) returns (r: Result<bool, Failure>)
      ensures r.Ok? <==> IsSha256(sha256)
      ensures r.Ok? ==> (r.value <==> sha256 in blobs)
      ensures r.Ok? && Honest(h, blobs) ==>
        (r.value <==> exists limit: nat :: Received(h, LocalServer(blobs)(0, sha256), sha256, limit).Some?)
    {
      hide Received, LocalServer;
      if !IsSha256(sha256) {
        return Err(Refused);
      }
      forall limit: nat
        ensures Received(h, LocalServer(blobs)(0, sha256), sha256, limit).Some? <==>
          sha256 in blobs && h(blobs[sha256]) == sha256 && |blobs[sha256]| <= limit
      {
        LocalServes(h, blobs, 0, sha256, limit);
      }
      assert sha256 in blobs && Honest(h, blobs) ==>
        Received(h, LocalServer(blobs)(0, sha256), sha256, |blobs[sha256]|).Some?;
      return Ok(sha256 in blobs);
    }

    /** Stores the source under its hash, or changes nothing. */
    method Put(sha256: Text, source: Bytes) returns (r: Result<(), Failure>)
      modifies this
      ensures r == if !IsSha256(sha256) then Err(Refused)
                   else if h(source) != sha256 then Err(Integrity) else Ok(())
      ensures blobs == if r.Ok? then old(blobs)[sha256 := source] else old(blobs)
      ensures old(Honest(h, blobs)) ==> Honest(h, blobs)
    {
      if !IsSha256(sha256) {
        return Err(Refused);
      }
      var reader := new HashingReader(source);
      var temporary: Bytes := [];
      var chunk := reader.Read(CHUNK_SIZE);
      while chunk != []
        invariant reader.hashed == temporary + chunk && temporary + chunk + reader.rest == source
        invariant chunk == [] ==> reader.rest == []
        decreases |reader.rest| + |chunk|
        modifies reader
      {
        temporary := temporary + chunk;
        ghost var rest := reader.rest;
        chunk := reader.Read(CHUNK_SIZE);
        assert temporary + rest == temporary + chunk + reader.rest;
      }
      assert temporary == reader.hashed == source;
      if h(reader.hashed) != sha256 {
        return Err(Integrity);
      }
      blobs := blobs[sha256 := temporary];
      return Ok(());
    }
  }

  /** The chunks the local store streams a blob in. */
  function Chunked(content: Bytes): seq<Bytes> {
    if content == [] then []
    else if |content| <= CHUNK_SIZE then [content]
    else [content[..CHUNK_SIZE]] + Chunked(content[CHUNK_SIZE..])
  }

  lemma {:induction false} ConcatCons(first: Bytes, chunks: seq<Bytes>)
    ensures Concat([first] + chunks) == first + Concat(chunks)
  {
    var all := [first] + chunks;
    if chunks == [] {
      assert all[..0] == [];
    } else {
      var n := |chunks| - 1;
      ConcatCons(first, chunks[..n]);
      assert all[..n + 1] == [first] + chunks[..n];
    }
  }

  lemma {:induction false} ConcatChunked(content: Bytes)
    ensures Concat(Chunked(content)) == content
    ensures Chunked(content) == [] <==> content == []
  {
    if content == [] {
    } else if |content| <= CHUNK_SIZE {
      ConcatCons(content, []);
      assert [content] + [] == [content];
    } else {
      ConcatChunked(content[CHUNK_SIZE..]);
      ConcatCons(content[..CHUNK_SIZE], Chunked(content[CHUNK_SIZE..]));
    }
  }

  /** The local store, unchanged during the reads, as a server. */
  function LocalServer(blobs: map<Text, Bytes>): Server {
    (call, sha256) =>
      if sha256 in blobs then Found(Stream(Chunked(blobs[sha256]), true)) else Absent
  }

  /** The local store serves a blob exactly when it holds one that hashes to its key
      and fits. */
  lemma LocalServes(h: Hasher, blobs: map<Text, Bytes>, call: nat, sha256: Text, maxBytes: int)
    ensures Received(h, LocalServer(blobs)(call, sha256), sha256, maxBytes)
      == if IsSha256(sha256) && sha256 in blobs && h(blobs[sha256]) == sha256
            && (blobs[sha256] == [] || |blobs[sha256]| <= maxBytes)
         then Some(blobs[sha256]) else None
  {
    if sha256 in blobs { ConcatChunked(blobs[sha256]); }
  }
}
