# A verified model of ModelGuard

ModelGuard decides whether a model artifact may be used. Its answers rest on a few stateful algorithms: moving
artifacts through untrusted stores, skipping a re-hash when nothing changed, logs that show tampering, two registries
that must give one answer, and signatures and trust settings that must not be confused. This project models those
algorithms in Dafny, in the form the source gives them (classes where the source updates objects and files, loops where
it loops, functions where it computes), and proves what they are for.

| files | subject |
|---|---|
| `Unicode`, `Json`, `JsonRoundTrip`, `JsonReading`, `JsonText`, `JsonGrammar`, `Utf8` | Python strings with their surrogates, canonical `json.dumps` character by character, `json.loads` against the JSON grammar, string order |
| `Formats`, `Rules` | the bytes that are hashed and signed, and the rules and limits, written out with literal text and numbers |
| `Digests`, `Paths`, `Manifests`, `Disks`, `Artifacts`, `FileSystem`, `BlobStores`, `Transfers`, `Uploads`, `RoundTrips` | directory digests, the canonical manifest, upload and download against any store |
| `Cache`, `CacheTheorems`, `CacheLimits`, `SharedCache` | the digest cache against files that change and move at arbitrary moments, alone and shared |
| `Chains`, `ChainTheorems` | the hash-chained log, from the text of its file upwards |
| `Revocations`, `Registries`, `RegistryTheorems`, `RegistryObjects`, `RevocationTheorems` | concurrent revocation appends, the two registry backends and the registry both stand for |
| `Provenance` | lineage walks over arbitrary event lists |
| `Der`, `Signatures`, `Trust`, `TrustCommands` | DER and hex encodings, signed payloads, envelope verification, trust configurations and the commands that edit them |

How the model reads the system:

- SHA-256 is a parameter: any function from bytes to text, required to give 64 lowercase hexadecimal characters where
  that matters. No theorem assumes it injective. Each says "this holds, or here are two byte strings that collide" (or a
  preimage of the genesis value), naming byte strings that were really hashed.
- A string is a sequence of code points, lone surrogates included. Sizes and times are unbounded integers, as in Python.
- A disk logs every tree it has held, so that a theorem about a download speaks of every moment of it.
- The cache sees a file system of inodes: content and change time belong to an inode, and paths are remapped freely.
- A store is an arbitrary function of the number of the call and the blob asked for, so it may answer every call
  differently, cut streams short or serve nothing. A disk is a map from segment lists to files and directories.
- The database is a sequence of committed rows, an id counter, an advisory lock and open transactions; a run is any list
  of steps of any number of writers.
- Cryptographic checks, glob matching, identifier validation and the decoding of non-ASCII bytes are parameters.

What the proofs found about the code:

- Cache: the racy-timestamp margin is compared with the clock read after hashing, so hashing time counts against it.
  `MarginIsExact` gives the exact condition, recording time plus timestamp granularity at most 2 seconds, and builds a
  stale hit whenever it is exceeded. `AdvancingIsRevealing` covers the alternative of strictly advancing change times.
  Two stat passes do not notice a directory that is swapped while it is hashed and swapped back (`SwapGoesUnseen`); for
  lookups, comparing inode and device is what makes replaced directories misses.
- Log: `append_entry` does not look at how the file ends. After an unterminated last line the new line is glued to the
  old one; `AppendExact` gives the exact condition under which the log still verifies, and `LostNewlineSpoils` gives the
  logs on which it fails. `AppendRaises` says when an append to a verifying log raises: the index is covered by no hash,
  so a changed index can block appends unnoticed (`IndexIsNotCovered`).
- Registries: PostgreSQL cannot hold NUL or lone surrogates, which the local log takes; `AgreeExactly` says that this is
  the only difference between the backends besides a taken event hash.
- JSON: the round trip joins adjacent surrogate pairs; `RoundTripExact` says it is exact for precisely the other values.
  File names read from a disk never contain such a pair.
- Download: the escape check and the final re-hash are proved never to fire (`SafeResolves`, `InstalledIsVerified`).
  `write_verified` compares the limit only when a chunk arrives, so an empty stream passes even a negative limit.
- Cache documentation: `_entry_is_consistent` is described as detecting a stored digest that no longer derives from the
  file list; the code compares only the type and the list of paths and sizes, and the model follows the code. Likewise
  `ArtifactDigest.files` is documented as empty for a single file, but holds one entry.
- Trust commands: `retire-key` also applies to a revoked key and makes it retired; it stays refused either way, which
  `DistrustIsPermanent` covers.

## Model

| member | source | states |
|---|---|---|
| RoundTrips.UploadThenDownload | src/modelguard/storage/transfer.py:59-150 | Upload a directory to an honest local store, download by the returned digest: the download succeeds if and only if the size limits and path rules admit the directory and the destination can be placed, and then the files at the destination are exactly the uploaded ones; or hashed bytes collide |
| RoundTrips.UploadThenDownloadFile | src/modelguard/storage/transfer.py:68-70 | The same for a single file: the download succeeds if and only if the file fits and the destination can be placed, and then holds exactly its content; or the stored blob collides |
| Uploads.RoundTrip | src/modelguard/storage/transfer.py:59-150 | A store that holds the artifact delivers exactly it, if and only if the limits and the path rules admit it, or a blob of the store collides with a hashed byte string |
| Uploads.OnlyTheArtifact | src/modelguard/storage/transfer.py:97-104 | Against any store, however it answers each call: what is delivered for a digest is the directory with that digest, or an explicit collision |
| Uploads.DownloadsAgree | src/modelguard/storage/transfer.py:87-150 | Two downloads of one digest from any two stores hold the same files, or collide |
| Uploads.StoredExactly | src/modelguard/storage/local.py:41-60 | Unless a blob collides, an honest store holds under each hash exactly the bytes that were hashed |
| Uploads.TransferableListing | src/modelguard/storage/transfer.py:172-201 | The directories a download can rebuild are those whose listing a manifest may hold within the limits |
| Uploads.DiskFilesDisjoint | src/modelguard/storage/transfer.py:198-200 | Files found on a disk never lie above one another, so the file-and-directory rule never blocks an uploaded directory |
| Uploads.PutIfAbsent | src/modelguard/storage/transfer.py:82-84 | Succeeds exactly when the blob is there or the source still hashes to its name; keeps every blob and the honesty of the store |
| Uploads.UploadArtifact | src/modelguard/storage/transfer.py:59-79 | A directory or a single file: on success returns its digest and leaves every blob and the manifest stored; failures are a missing path, no files, or a file that changed after hashing; no existing blob changes |
| Uploads.UploadFiles | src/modelguard/storage/transfer.py:72-79 | The directory branch: every listed file and then the manifest is stored, or a file changed after hashing |
| Transfers.Download | src/modelguard/storage/transfer.py:87-150 | Success exactly when the store delivers a directory (or the file) for the digest and the destination can be placed; then the disk is the old one with exactly that added; after any failure only directories above the destination may be new. At every moment in between the destination is absent, everything that was there is unchanged and no new file exceeds the total limit. Each failure ends in its own error: a bad reference, kind or destination, the read that failed, a manifest that is not canonical or not admissible, or the first entry that could not be staged |
| Rules.AdmissibleIs | src/modelguard/storage/transfer.py:105-110 | The references that are downloaded are the word sha256, a colon and 64 hexadecimal digits, for the kinds file and directory |
| Rules.PlaceableIs | src/modelguard/storage/transfer.py:111-113 | The destinations a download may go to: nothing there yet and no file on the way |
| Rules.TransferableIs | src/modelguard/storage/transfer.py:54 | The directories a download can rebuild, with the manifest limit of 64 MiB as a number |
| Transfers.DownloadDirectory | src/modelguard/storage/transfer.py:119-150 | The directory branch restores the disk on any failure and installs the tree by one rename; the escape check and the final re-hash never fire |
| Transfers.InstalledIsVerified | src/modelguard/storage/transfer.py:144-150 | An installed directory re-hashes to the digest asked for and its files are exactly the delivered ones |
| Transfers.Materialize | src/modelguard/storage/transfer.py:121-142 | The staging loop builds exactly the tree of the delivered contents, or restores the disk as it was before staging and ends in the error of the first entry that failed |
| Transfers.StageEntry | src/modelguard/storage/transfer.py:125-137 | One entry is added, verified and of the declared size, or the staging tree is gone and an error of the system has become one of the store; every disk it goes through leaves the destination absent and all old nodes unchanged |
| Transfers.FetchEntry | src/modelguard/storage/transfer.py:125-130 | Creates the directories of the entry and fetches it into the staging tree, or changes nothing outside it |
| Transfers.WriteIsHarmless | src/modelguard/storage/transfer.py:130 | A verified write below staging never touches the destination or an old node and never exceeds the limit |
| Transfers.NextPathIsFree | src/modelguard/storage/transfer.py:125-131 | Every accepted manifest can be materialised in order: the next path is new and disjoint from all earlier ones |
| Transfers.StageRoom | src/modelguard/storage/transfer.py:125-130 | In the staging tree the target of the next entry is free and none of its ancestors is a file |
| Transfers.NotDelivered | src/modelguard/storage/transfer.py:130-134 | A blob that does not arrive or has the wrong size means the store delivers no directory at all for the digest |
| Transfers.DeliveredListing | src/modelguard/storage/transfer.py:153-169 | The manifest served determines the listing of whatever is delivered |
| Transfers.FetchedDelivers | src/modelguard/storage/transfer.py:125-135 | Once every entry of the manifest has arrived, the contents fetched are a directory the store delivers for the digest |
| Transfers.FetchManifest | src/modelguard/storage/transfer.py:153-169 | Returns a list exactly when the store serves, under the expected digest, the canonical manifest of that list and the list is admissible |
| Transfers.CanonicalIsSorted | src/modelguard/storage/transfer.py:162-168 | Bytes that equal the canonical print of what was read from them come from a path-sorted list without adjacent surrogates |
| Manifests.ParseManifest | src/modelguard/storage/transfer.py:172-201 | Accepts exactly the bytes that read as the manifest of an admissible list: non-empty, within both limits, safe and distinct paths, no file above another; returns that list |
| Manifests.ReadEntries | src/modelguard/storage/transfer.py:185-196 | The entry loop accepts exactly the items of readable lists: safe entries, distinct paths, total within the limit |
| Manifests.CheckNoFileAbove | src/modelguard/storage/transfer.py:198-200 | The nested string test holds exactly when no listed file is a directory above another, by segments |
| Manifests.ParseEntry | src/modelguard/storage/transfer.py:204-217 | Accepts exactly the values that safe files print as, and returns that file |
| Paths.CheckRelativePath | src/modelguard/storage/transfer.py:220-234 | Accepts exactly the relative paths of 1 to 4096 characters, without backslash or control character, whose segments are proper names of at most 255 |
| Rules.SafePathIs | src/modelguard/storage/transfer.py:220-234 | A safe path has 1 to 4096 characters, no backslash, no U+0000 to U+001F and no U+007F to U+009F, and between its slashes names of 1 to 255 characters that are not one or two dots |
| Rules.ListableIs | src/modelguard/storage/transfer.py:172-201 | The lists a manifest may hold: at least one file and at most the limit, sizes that add up to at most the limit, safe and distinct paths, 64 hexadecimal digits each, and no path that followed by a slash begins another |
| Paths.PrefixBySegments | src/modelguard/storage/transfer.py:198-200 | The string test startswith(path + "/") is exactly proper prefix of segment lists, for all strings |
| Paths.SafeResolves | src/modelguard/storage/transfer.py:124-128 | A safe path resolves strictly below any base, so the escape check cannot fire |
| Paths.JoinSplit | src/modelguard/storage/transfer.py:229 | Joining the segments of a path gives the path back |
| Paths.SplitJoin | src/modelguard/storage/transfer.py:229 | Splitting a join of slash-free segments gives the segments back |
| Disks.TreeOfAdd | src/modelguard/storage/transfer.py:126-130 | Creating the parents of one more file and writing it turns the tree of a map into the tree of the larger map |
| Disks.TreeOfHasRoom | src/modelguard/storage/transfer.py:129-130 | A file disjoint from the others finds its place free and its directories not taken by files |
| FileSystem.Disk.WriteVerified | src/modelguard/storage/_io.py:73-107 | The destination appears whole with the verified bytes or the disk is unchanged; the log of disks grows by exactly the temporary file empty, then with one more chunk each time while the limit allows, then the result; the error is that of too many or wrong bytes, or of a stream that breaks off before that |
| FileSystem.Disk.Receive | src/modelguard/storage/_io.py:91-98 | The writing loop goes through exactly those disks and stops before the first chunk that exceeds the limit |
| FileSystem.WritingIsInterim | src/modelguard/storage/_io.py:88-98 | Each of those disks is the old one plus one file beside the destination, empty or within the limit |
| FileSystem.Disk.MkdirAll | src/modelguard/storage/transfer.py:113 | Creates the missing directories exactly when no ancestor is a file, otherwise changes nothing |
| FileSystem.Disk.Rename | src/modelguard/storage/transfer.py:135 | Whatever was at or below the source is at the same place below the destination, nothing else changes, and the tree stays well formed |
| FileSystem.Disk.RemoveTree | src/modelguard/storage/transfer.py:137 | Nothing is left at or below the path, every other node is unchanged, and the tree stays well formed |
| FileSystem.Disk.HashArtifact | src/modelguard/hashing/digest.py:211-222 | Dispatches on what is there: missing, a single file with its own digest, or a directory |
| FileSystem.Disk.HashDirectory | src/modelguard/hashing/digest.py:163-208 | Whatever order the files are met in, returns the digest of the path-to-content map, or the error for an empty directory or for a path that is not one |
| FileSystem.HashFileBytes | src/modelguard/hashing/digest.py:79-86 | Chunked hashing gives the hash and the size of the whole content |
| BlobStores.GetTo | src/modelguard/storage/local.py:62-72 | Writes the blob exactly when it is served complete, within the limit and hashing to its name; otherwise the disk is unchanged and the error says which of these failed; every disk in between is an interim one of a verified write |
| Rules.ReceivedIs | src/modelguard/storage/_io.py:73-107 | The content a read yields is all chunks of a stream that does not break off, if they hash to the name and do not exceed the limit |
| BlobStores.HashingReader.Read | src/modelguard/storage/_io.py:64-67 | Every byte read is hashed once and in order; nothing is skipped, and only the end of the file gives an empty chunk |
| BlobStores.LocalBlobStore.Exists | src/modelguard/storage/local.py:37-39 | For an honest store: whether the store can serve the blob at all, to a reader that allows for its size; a malformed name is refused |
| BlobStores.LocalBlobStore.Put | src/modelguard/storage/local.py:41-60 | Stores the source under its own hash or changes nothing; honesty of the store is preserved |
| BlobStores.LocalServes | src/modelguard/storage/local.py:62-77 | The local store serves a blob exactly when it holds one that hashes to its key and fits the limit |
| Artifacts.DigestIdentifies | src/modelguard/hashing/digest.py:59-71 | Equal directory digests mean equal path-to-content maps, or the two directories hold colliding bytes |
| Artifacts.ListingOfPaired | src/modelguard/hashing/digest.py:163-208 | Contents that match their listed digests list back to exactly those digests |
| Artifacts.ListingDisjoint | src/modelguard/storage/transfer.py:198-200 | The manifest rule on the list is the disjointness of the files on disk |
| Digests.DigestOrderIndependent | src/modelguard/hashing/digest.py:89-148 | The directory digest is the same for every permutation of a list with distinct paths |
| Formats.ManifestLayout | src/modelguard/hashing/digest.py:89-104 | The canonical manifest of a list of files, character by character: names, separators, order of keys and of files |
| Formats.DirectoryDigestText | src/modelguard/hashing/digest.py:107-148 | The digest of a directory is the hash of exactly this text about its files |
| Formats.ListingRows | src/modelguard/hashing/digest.py:163-208 | A directory is listed with the path, the hash and the size of each file and nothing else |
| Formats.ListingOrder | src/modelguard/hashing/digest.py:97-101 | Its files are in path order |
| Digests.ManifestInjective | src/modelguard/hashing/digest.py:89-104 | Clean file lists with the same canonical bytes are the same list |
| Digests.ManifestClean | src/modelguard/hashing/digest.py:97-103 | The manifest of a list survives printing exactly when the paths and hashes of the list do |
| Digests.SortFilesSorted | src/modelguard/hashing/digest.py:101 | Sorting by path keeps the entries as a multiset and orders distinct paths strictly |
| Digests.PathSortedUnique | src/modelguard/hashing/digest.py:101 | Two path-sorted lists of the same entries are the same list |
| JsonGrammar.ReadsGrammar | src/modelguard/audit/chain.py:121 | The reader accepts exactly the documents of the JSON grammar without floats, with any spaces, escapes and repeated names, and reads each as what it means |
| JsonText.PlainText | src/modelguard/hashing/digest.py:104 | Printable ASCII without quote and backslash is printed as itself between quotes |
| JsonText.StringText | src/modelguard/hashing/digest.py:104 | Every other character is printed as one of seven two-character escapes or as u and four lower-case hexadecimal digits |
| JsonText.FourDigitsValue | src/modelguard/hashing/digest.py:104 | Those digits spell the code unit, the highest first |
| JsonText.IntText | src/modelguard/hashing/digest.py:104 | An integer is printed in decimal without leading zeros, with a minus sign if it is negative |
| JsonText.ArrayText | src/modelguard/hashing/digest.py:104 | An array is its items with commas in brackets |
| JsonText.ObjectText | src/modelguard/hashing/digest.py:104 | An object is its members in the order of their names, with commas in braces, without spaces |
| JsonText.BelowIsBefore | src/modelguard/hashing/digest.py:101 | The order of names and paths compares the first character that differs, and a prefix comes first |
| JsonRoundTrip.LoadsDumps | src/modelguard/audit/chain.py:63-64 | Reading any printed value returns it with adjacent surrogate pairs joined |
| JsonRoundTrip.RoundTripExact | src/modelguard/hashing/digest.py:104 | The print-and-read round trip is exact for precisely the values without an adjacent high and low surrogate |
| JsonRoundTrip.DumpsInjective | src/modelguard/hashing/digest.py:104 | Clean values with the same canonical form are the same value |
| JsonReading.LoadsClean | src/modelguard/storage/transfer.py:173-176 | Nothing read from text without raw surrogates holds an adjacent pair, whatever escapes it uses |
| JsonReading.LoadsMore | src/modelguard/audit/chain.py:103 | A document followed by more text reads the same if that is only spaces, and is malformed otherwise |
| JsonReading.DumpsPrintable | src/modelguard/audit/chain.py:90 | Everything printed is printable ASCII, so a printed line never contains a line break |
| Cache.CachedHasher.Hash | src/modelguard/cache/digest_cache.py:217-259 | The result and the entries after one call, for every observation, unreadable or unwritable cache file and hashing error |
| Cache.CachedHasher.Store | src/modelguard/cache/digest_cache.py:298-317 | Keeps the new entry and drops exactly the oldest ones beyond 128; a failed write changes nothing |
| Cache.CaptureFingerprint | src/modelguard/cache/digest_cache.py:129-169 | Meeting the files in any order and sorting at the end gives the stats of all files in path order, or nothing for an artifact without files or with an inode 0 |
| Rules.CaptureIs | src/modelguard/cache/digest_cache.py:129-180 | A fingerprint is the kind and, for each file in path order, path, size, both times, inode and device; there is none without files or with an inode 0 |
| Rules.HitIs | src/modelguard/cache/digest_cache.py:188-237 | A hit needs equal stats, the same kind and the same paths and sizes, and returns the digest that derives from the stored list |
| Rules.StorableIs | src/modelguard/cache/digest_cache.py:183-258 | What is stored: the same stats before and after, and every time at least two seconds before the clock reading |
| Rules.EvictedIs | src/modelguard/cache/digest_cache.py:298-317 | Of up to 128 entries none is dropped, of more the newest 128 are kept |
| Rules.CallIs | src/modelguard/cache/digest_cache.py:217-259 | A whole call: what it returns, whether it stores, under which key and which entry field by field |
| Rules.FreshFile | src/modelguard/hashing/digest.py:152-161 | The digest of a single file is the hash of its content, listed under its own name |
| Cache.FreshDirectory | src/modelguard/cache/digest_cache.py:239 | What a full hash of a directory returns is the digest of its path-to-content map |
| CacheLimits.MarginIsExact | src/modelguard/cache/digest_cache.py:183-185 | Hits are never stale exactly when recording time plus timestamp granularity is within the 2 s margin; beyond it a run with a stale hit exists |
| CacheLimits.SwapGoesUnseen | src/modelguard/cache/digest_cache.py:241-243 | The condition that no directory is moved into the artifact during a recording is needed: a swap and back goes unseen by both stat passes and leaves a stale entry, however fast the hashing |
| SharedCache.SharedHitIsFresh | src/modelguard/cache/digest_cache.py:201-208 | On one shared cache file, for any number of callers and any interleaving of loads and stores, a hit returns the digest a full hash would have returned at some moment of that call |
| SharedCache.AllIsAccounted | src/modelguard/cache/digest_cache.py:298-317 | Whatever interleaves and whoever overwrites whom, everything in the file and everything read of it was stored by an earlier recording |
| CacheTheorems.CachedHashIsHash | src/modelguard/cache/digest_cache.py:201-259 | In every run of quick enough calls, a call over an undisturbed artifact returns what hash_artifact returns, errors included, hit or miss |
| CacheTheorems.EveryHitIsFresh | src/modelguard/cache/digest_cache.py:225-237 | In every run, every hit whose stat pass meets no write returns the digest a full hash would return at that moment |
| CacheTheorems.HitIsFresh | src/modelguard/cache/digest_cache.py:188-198 | Files being told apart by inode and device and paths remapped freely, directories replaced included: a hit on a recorded entry is fresh even when the two calls overlap, as long as the lookup starts after the first stat pass of the recording |
| CacheTheorems.SameStatSameFile | src/modelguard/cache/digest_cache.py:174-180 | The same stat with an old change time means the very same file with the same content, wherever it was moved meanwhile |
| CacheTheorems.EntriesAreRecordings | src/modelguard/cache/digest_cache.py:298-323 | Through every eviction, failed write and unreadable file, what the cache holds was recorded by an earlier call |
| CacheTheorems.WriteShows | src/modelguard/cache/digest_cache.py:24-26 | Any write to a file after the first stat pass shows in its stat ever after, however size and modification time are set and wherever the file is moved |
| CacheTheorems.RecordedFileIsCurrent | src/modelguard/cache/digest_cache.py:241-258 | A recorded file found again with the same stat has the content that was hashed |
| CacheTheorems.QuickIsRevealing | src/modelguard/cache/digest_cache.py:30-33 | A recording whose duration plus a tick is within the margin, no directory being moved into it, makes every later change visible |
| CacheTheorems.AdvancingIsRevealing | src/modelguard/cache/digest_cache.py:24-26 | When change times strictly advance, the same holds however long hashing takes |
| CacheTheorems.ChangeTells | src/modelguard/cache/digest_cache.py:24-26 | Under honest metadata a file is unchanged since a moment or carries a change time of that tick or later |
| CacheTheorems.ReplacementTells | src/modelguard/cache/digest_cache.py:24-26 | While no directory is moved, the same holds for whatever is found at a path |
| CacheLimits.ActionsAreHonest | src/modelguard/cache/digest_cache.py:24-26 | Every sequence of writes, time resets, renames, deletions, inode reuse, moves and waiting is an honest history, and between moves of an artifact it is in place |
| Chains.Log.Append | src/modelguard/audit/chain.py:67-92 | Extends the file by exactly the line that links to its last entry, or raises and changes nothing |
| Chains.Log.ReadLastEntry | src/modelguard/audit/chain.py:95-109 | Returns the entry on the last line that is not blank, or raises |
| Chains.Log.ReadAllEntries | src/modelguard/audit/chain.py:112-130 | Returns the entries of all non-blank lines in order, or raises at the first that is not one |
| Chains.Log.VerifyChain | src/modelguard/audit/chain.py:133-151 | Accepts exactly the files whose entries all read and form one chain from the genesis hash |
| Formats.GenesisText | src/modelguard/audit/chain.py:40 | The first record follows 64 zeros |
| Formats.LinkedText | src/modelguard/audit/chain.py:63-81 | What is hashed for a record is its canonical text and then the previous hash |
| Formats.LogLineLayout | src/modelguard/audit/chain.py:82-90 | The line written for an entry, character by character |
| Formats.EntryRead | src/modelguard/audit/chain.py:103-109 | A line is an entry exactly when it reads as an object with the four names; other names do not matter |
| Formats.EntriesAre | src/modelguard/audit/chain.py:112-130 | The entries read are those of the lines that are not blank, one for each, and one bad line makes reading raise |
| Formats.LastLineIs | src/modelguard/audit/chain.py:95-102 | The last line is the last one that is not blank |
| Chains.SpacesAre | src/modelguard/audit/chain.py:100 | A blank line holds only the 29 characters Python counts as space |
| ChainTheorems.LineThenRest | src/modelguard/audit/chain.py:98-100 | Every line feed and every carriage return ends a line |
| ChainTheorems.TamperEvidence | src/modelguard/audit/chain.py:133-151 | Two log files that both verify and end in the same record hash hold the same records, whatever their lengths, or exhibit a collision or a genesis preimage |
| ChainTheorems.SameHeadSameRecords | src/modelguard/audit/chain.py:146-151 | Two chains of clean records that end in the same hash hold the same records, whatever their lengths, or exhibit a forgery |
| ChainTheorems.SplitsUniquely | src/modelguard/audit/chain.py:81 | Record bytes followed by a 64-character hash split in one way only |
| ChainTheorems.RunVerifies | src/modelguard/audit/chain.py:67-92 | Every run of appends succeeds and leaves a log that verifies, one entry per record in order, each index its position |
| ChainTheorems.AppendExact | src/modelguard/audit/chain.py:89-90 | An append that does not raise keeps a verifying log verifying exactly when nothing but JSON spaces follows its last line break; then it reads as before plus the one new entry |
| ChainTheorems.AppendRaises | src/modelguard/audit/chain.py:74-79 | On a verifying log append raises exactly when the file has content but no entry, or the last index is not a number |
| ChainTheorems.LostNewlineSpoils | src/modelguard/audit/chain.py:89-90 | Every written log that has lost its final line break still verifies and still takes an append, and then does not verify any more |
| ChainTheorems.IndexIsNotCovered | src/modelguard/audit/chain.py:77-81 | A written log with any other value as its last index verifies and ends in the same hash, and append raises on it exactly when that value is not a number |
| ChainTheorems.DropNewline | src/modelguard/audit/chain.py:97-100 | A final line break is not part of what a log says |
| ChainTheorems.ReadAfterAppend | src/modelguard/audit/chain.py:89-90 | What the file reads as after an append, whatever its last line was |
| ChainTheorems.LineReadsBack | src/modelguard/audit/chain.py:82-90 | A written line reads back as the entry it was printed from |
| ChainTheorems.DumpsJoined | src/modelguard/audit/chain.py:146-148 | A record and what it reads back as print the same bytes, so hashes recompute |
| ChainTheorems.PrefixChained | src/modelguard/audit/chain.py:133-151 | Every prefix of a verifying chain verifies |
| Revocations.AppendsNeverFork | src/modelguard/registry/postgres.py:294-306 | For any number of writers, any interleaving and any aborts: the committed rows in id order form one chain that verifies, and no hash precedes two rows, or a genesis preimage is exhibited |
| Revocations.StepKeeps | src/modelguard/registry/postgres.py:294-306 | Every step of the locking protocol keeps the invariant: only the lock holder is inside, what it read is still the tail, the committed rows are one chain with increasing ids |
| Revocations.RunKeeps | src/modelguard/registry/postgres.py:294-306 | The invariant holds after every run from an empty table |
| Revocations.CommittedRowsStay | src/modelguard/registry/postgres.py:281-306 | Committed rows are never changed or moved; new ones come after them |
| Revocations.UnlockedAppendsFork | src/modelguard/registry/postgres.py:295-296 | Without the lock two interleaved writers commit a table that does not verify |
| Revocations.VerifyRevocationChain | src/modelguard/registry/postgres.py:327-353 | Accepts exactly the tables whose rows in id order form one chain from the genesis hash |
| Revocations.OrderByIdSorts | src/modelguard/registry/postgres.py:333-338 | Reading in id order loses no row, adds none and sorts by id, in whatever order the rows were committed |
| Revocations.CallGoesThrough | src/modelguard/registry/postgres.py:294-306 | With nobody inside, a call locks, reads the tail, inserts and commits one row, or is refused because its hash is taken and leaves nothing; with somebody inside nobody comes in |
| Formats.EventText | src/modelguard/registry/postgres.py:297-305 | The bytes hashed for a row are the previous hash and then the canonical text of the six fields of the event under their names |
| RevocationTheorems.TableTamperEvidence | src/modelguard/registry/postgres.py:327-353 | Two tables that verify and end in the same event hash hold the same events, whatever their lengths, or exhibit a collision or a genesis preimage |
| RevocationTheorems.SameHeadSameEvents | src/modelguard/registry/postgres.py:339-353 | The same for any two chains of rows with storable text |
| RevocationTheorems.EventSplitsUniquely | src/modelguard/registry/postgres.py:111-112 | A 64-character hash followed by an event splits in one way only |
| RevocationTheorems.ConcurrentIsSerial | src/modelguard/registry/postgres.py:281-325 | Every concurrent run leaves, ids aside, exactly the rows that the calls of the committed events leave when made one after the other in commit order; each succeeds, and the standing of every version is the one they give it |
| RegistryTheorems.BackendsAgree | src/modelguard/registry/postgres.py:218-325 | Over every serial history of storable text the local files, log text included, and the database give the same answer to every call, unless the database refuses an event hash already taken |
| RegistryTheorems.AgreeExactly | src/modelguard/registry/postgres.py:218-325 | On states that stand for the same registry the backends answer alike exactly when the database can hold the text of the call or an identifier is refused first |
| RegistryTheorems.FilesRefine | src/modelguard/registry/local.py:77-126 | Each call on the files, the revocation log taken as its text, is the same call on the list of records the text stands for |
| RegistryTheorems.FilesHistory | src/modelguard/registry/local.py:77-126 | Over every history the text of the log verifies and stands for exactly the records appended |
| RegistryTheorems.AppendMeans | src/modelguard/registry/local.py:77-98 | Appending a record to the text appends it to the list, and the text goes on verifying |
| RegistryTheorems.ReplayReads | src/modelguard/registry/local.py:111-126 | Replaying the dictionaries read back gives the latest action recorded |
| Formats.LogRecordText | src/modelguard/registry/local.py:80-98 | The dictionaries logged for a revocation and for its reversal, key by key |
| Formats.RecordReplayed | src/modelguard/registry/local.py:111-126 | What one record of the log, whatever it holds, does to the standing of a version |
| Formats.RecordRaises | src/modelguard/registry/local.py:111-126 | Exactly which records make the replay raise |
| RegistryTheorems.LocalRefines | src/modelguard/registry/local.py:37-126 | Each call on record files, index and list of log records is the same call on the abstract registry |
| RegistryTheorems.PostgresRefines | src/modelguard/registry/postgres.py:218-325 | Each call on the tables is the same call on the abstract registry, with digest resolution by lowest id and standing by latest row, or is refused and changes nothing |
| RegistryTheorems.LocalHistory | src/modelguard/registry/local.py:37-126 | Record files, index and list of log records represent the abstract registry after every history |
| RegistryTheorems.PostgresHistory | src/modelguard/registry/postgres.py:218-325 | The tables represent the abstract registry after every serial history without refusals |
| RegistryTheorems.RefusalIsCollision | src/modelguard/registry/postgres.py:301-306 | A refused event exhibits a collision with the row that has its hash, or a genesis preimage |
| RegistryTheorems.RegistrationsArePermanent | src/modelguard/registry/local.py:45-54 | Once registered, a version keeps its record and a digest what it resolves to, over every continuation |
| RegistryTheorems.RegisterMeans | src/modelguard/registry/local.py:37-67 | A registration is refused exactly if the version is there; otherwise the version has this record, a digest that is new leads to it, and everything else is found as before |
| RegistryTheorems.RevokeMeans | src/modelguard/registry/local.py:77-126 | The latest revocation stands until the version is restored; neither touches another version or what is registered |
| RegistryTheorems.InvalidMeans | src/modelguard/registry/local.py:37-110 | A call is refused as invalid exactly when it names an identifier that is not, and changes nothing then |
| RegistryTheorems.VersionListsAgree | src/modelguard/registry/postgres.py:261-268 | Ordering versions by UTF-8 bytes gives the same list as sorting them by code point |
| RegistryTheorems.FirstByDigestMore | src/modelguard/registry/postgres.py:250-259 | A later registration never takes over a digest |
| Utf8.OrderPreserved | src/modelguard/registry/local.py:73 | The code-point order of strings is the byte order of their UTF-8 encodings, for all strings |
| Utf8.EncodeInjective | src/modelguard/registry/postgres.py:265 | Different strings have different encodings |
| Rules.PointLayout | src/modelguard/registry/postgres.py:265 | The encoding of each code point: how many bytes, how they begin, and how their low bits make it up |
| Rules.StorableText | src/modelguard/registry/postgres.py:218-325 | The database holds neither NUL nor a surrogate |
| Rules.StorableCallIs | src/modelguard/registry/postgres.py:218-325 | A call can be sent to the database exactly when every text it carries can be stored |
| RegistryObjects.LocalRegistry.Register | src/modelguard/registry/local.py:37-54 | The files then stand for the registry with the version registered, its digest resolving to it if new; a registered version or an invalid identifier changes nothing |
| RegistryObjects.LocalRegistry.Get | src/modelguard/registry/local.py:56-60 | Answers what the registry the files stand for answers |
| RegistryObjects.LocalRegistry.GetByDigest | src/modelguard/registry/local.py:62-67 | Answers with the first registration of the digest |
| RegistryObjects.LocalRegistry.ListVersions | src/modelguard/registry/local.py:69-73 | Answers with the sorted versions registered for the model |
| RegistryObjects.LocalRegistry.Revoke | src/modelguard/registry/local.py:77-84 | The log reads as before with one entry more, the dictionary of this revocation key by key: One more entry of the chained log, which then stands for the registry with the version revoked |
| RegistryObjects.LocalRegistry.Unrevoke | src/modelguard/registry/local.py:86-98 | The log reads as before with one entry more, the dictionary of this reversal key by key: One more entry, after which the version is no longer revoked |
| RegistryObjects.LocalRegistry.IsRevoked | src/modelguard/registry/local.py:100-126 | Replaying the text of the log gives the revocation in force, if any |
| RegistryObjects.PostgresRegistry.Register | src/modelguard/registry/postgres.py:218-237 | The tables then stand for the registry with the version registered; unstorable text is refused exactly when the identifiers are valid and changes nothing |
| RegistryObjects.PostgresRegistry.Get | src/modelguard/registry/postgres.py:239-248 | Answers what the registry the tables stand for answers |
| RegistryObjects.PostgresRegistry.GetByDigest | src/modelguard/registry/postgres.py:250-259 | Answers with the first registration of the digest |
| RegistryObjects.PostgresRegistry.ListVersions | src/modelguard/registry/postgres.py:261-268 | Answers with the versions registered for the model, in the order of the local backend |
| RegistryObjects.PostgresRegistry.AppendEvent | src/modelguard/registry/postgres.py:281-306 | The table gains one row with the event of the call field by field, chained to the last hash or 64 zeros, or is unchanged: The tables then stand for the registry with the version revoked or restored; refused exactly for unstorable text or a hash already taken, changing nothing the tables stand for |
| RegistryObjects.PostgresRegistry.IsRevoked | src/modelguard/registry/postgres.py:308-325 | The latest row of the version gives the revocation in force, if any |
| Provenance.Lineage | src/modelguard/provenance/graph.py:39-60 | Terminates on every event list and returns, as a multiset, exactly the lineage events whose subject is reachable from the start |
| Provenance.FindModelsDerivedFrom | src/modelguard/provenance/graph.py:63-81 | Returns, sorted, exactly the ids with a path of one or more lineage edges to the base, cycles included |
| Provenance.FindDeploymentsUsingRevokedModel | src/modelguard/provenance/graph.py:84-100 | Returns, in log order, exactly the deployments of the log whose subject is revoked or derived from a revoked id |
| Provenance.DerivedIffInLineage | src/modelguard/provenance/graph.py:39-81 | x is derived from b exactly when some event of the lineage of x has b as its object |
| Provenance.AncestryMembers | src/modelguard/provenance/graph.py:39-60 | The lineage holds an event exactly when it is a lineage event of the log and its subject is reachable |
| Provenance.LineageKinds | src/modelguard/provenance/models.py:37-47 | The relationships that do not count as lineage are exactly the other five |
| Provenance.TaintedMembers | src/modelguard/provenance/graph.py:84-100 | A deployment of a subject that is revoked, or derived from a revoked id, is returned as often as the log holds it, and nothing else is |
| Der.RawConverts | src/modelguard/signing/hsm.py:140-147 | Every 64-byte raw signature converts to DER of 8 to 72 bytes that decodes to the same r and s; every other length is refused |
| Der.RawLayout | src/modelguard/signing/hsm.py:140-147 | The bytes written are 0x30 and the length of the rest, then twice 0x02, a length and the shortest signed content of r and of s, and nothing more |
| Der.MostSignificantFirst | src/modelguard/signing/hsm.py:145-146 | The first byte of an integer weighs most |
| Der.RawInjective | src/modelguard/signing/hsm.py:145-147 | Different raw signatures give different DER |
| Der.DerUnique | src/modelguard/signing/schemes.py:67-70 | A strict decoder accepts only the spelling the conversion writes |
| Der.BoundsAreTight | src/modelguard/signing/schemes.py:67-70 | Two zeros give 8 bytes and two values with the top bit set give 72, so neither bound of the gate can be tightened |
| Signatures.HsmSignaturesPassTheGate | src/modelguard/signing/schemes.py:126-140 | What a token signs always passes the length gate: only the cryptographic check decides |
| Signatures.HexHasOneSpelling | src/modelguard/signing/schemes.py:191-202 | A string is accepted exactly when it is the one canonical spelling of bytes within the limit, and decodes to those |
| Signatures.SignedBytesIdentify | src/modelguard/signing/envelope.py:69-71 | Two payloads have the same signed bytes exactly when they read back the same, omitted optional fields included |
| Formats.SignedText | src/modelguard/signing/envelope.py:55-71 | The signed bytes are the canonical text of an object with exactly the fields that are set, each under its own name |
| Formats.HexText | src/modelguard/signing/schemes.py:191-202 | The hexadecimal spelling of bytes is two digits for each byte, the high one first |
| Signatures.SignedBytesDetermineKey | src/modelguard/signing/verifier.py:109-152 | Two accepted version-2 envelopes with equal signed bytes have the same algorithm, label and fingerprint, and the same key or colliding keys |
| Signatures.VersionsNeverShareBytes | src/modelguard/signing/verifier.py:88-126 | No version-1 payload shares its signed bytes with a version-2 payload |
| Signatures.NoRelabelNoSubstitution | src/modelguard/signing/verifier.py:114-119 | An accepted version-2 envelope is refused under any other label and any key that does not collide with its own |
| Signatures.AcceptedExactly | src/modelguard/signing/verifier.py:88-152 | An envelope is accepted with a given result exactly when key and signature are spelled canonically, payload and label commit to that key and scheme, and the check of the signed bytes by that scheme succeeds |
| Signatures.AcceptedByDefault | src/modelguard/signing/schemes.py:101-150 | Under the default registry an envelope is accepted exactly when the Ed25519 check passes with a 32-byte key and a 64-byte signature, or the P-256 check with an uncompressed 65-byte point and 8 to 72 bytes of DER, over the canonical payload, and the payload names that scheme and the hash of that key, or is of the allowed version 1 |
| Signatures.RefusedAsUnsupported | src/modelguard/signing/verifier.py:88-135 | Which refusals are for an unsupported scheme is given exactly; every other refusal is of the signature |
| Signatures.BoundFacts | src/modelguard/signing/verifier.py:109-143 | An accepted version-2 envelope carries in its signed payload the algorithm reported and the fingerprint of the very key that verified |
| Trust.EvaluateTrust | src/modelguard/signing/trust_config.py:335-398 | Trusts exactly when some entry for the key admits the claim; each reason is given exactly when its condition, written out, applies to the matched entry: another algorithm, not active, too early, too late, another identity, or a scope without any pattern that matches the model id; they come in the order of the checks |
| Trust.WiderScopeAdmitsMore | src/modelguard/signing/trust_config.py:387-396 | Adding patterns to a non-empty scope never turns an admitted claim into a refused one |
| Trust.EntryRules | src/modelguard/signing/trust_config.py:63-196 | An entry is valid exactly when its id has 64 lower-case hexadecimal digits, an algorithm 1 to 64 lower-case letters, digits and inner hyphens, identity, label and each of at most 32 patterns 1 to 200 characters from the space on, and the window does not end before it begins |
| Trust.Merge | src/modelguard/signing/trust_config.py:302-323 | Fails exactly when two sources configure one key differently; otherwise holds exactly the entries of the sources, each once at its first place |
| Trust.OnceInOrder | src/modelguard/signing/trust_config.py:312-323 | The entries of a merge stand in the order of their first places in the sources |
| Trust.MergeIgnoresOrderAndRepetition | src/modelguard/signing/trust_config.py:302-323 | Merging is commutative and idempotent up to entry order, failures included |
| Trust.MergeInStages | src/modelguard/signing/trust_config.py:302-323 | Merging is associative up to entry order, failures included |
| Trust.TrustUnderMerge | src/modelguard/signing/trust_config.py:302-398 | A claim is trusted under a merge exactly when it is trusted under some source, at every clock, identity and model id |
| Trust.ValidateUniqueKeyIds | src/modelguard/signing/trust_config.py:211-222 | Accepts exactly the lists in which no fingerprint occurs twice |
| TrustCommands.DistrustIsPermanent | src/modelguard/cli/main.py:897-974 | A key without an active entry is refused at every clock, identity and model id after every run of commands, unless the run adds it as active again, after removing it if it still had an entry |
| TrustCommands.RemoveThenAddReadmits | src/modelguard/cli/main.py:834-894 | Removing and adding the key again does restore trust, so the exception is real |
| TrustCommands.RunKeepsValid | src/modelguard/cli/main.py:782-974 | Over every run, failed commands included, fingerprints stay distinct and windows in order |
| TrustCommands.StepKeepsValid | src/modelguard/cli/main.py:803-817 | Every single command, failed or not, keeps fingerprints distinct and windows in order |
| TrustCommands.OthersPreserved | src/modelguard/cli/main.py:803-817 | A command leaves the entries of all other keys as they were, in order; a failed one leaves the whole file |
| TrustCommands.CommandOutcomes | src/modelguard/cli/main.py:866-969 | Revoking and removing succeed exactly when the key has an entry, retiring also needs a usable time not before the start of the window; the entry afterwards differs only in status and expiry, for key ids in any spelling |
| TrustCommands.AddOutcome | src/modelguard/cli/main.py:866-889 | Adding succeeds exactly when the key has no entry, both times are usable and the entry they give is valid; then that entry, every field as given and the window from the first time to the second, stands behind the others in a file of unchanged version, or of version 1 if there was none |
| TrustCommands.AddedWindowDecides | src/modelguard/cli/main.py:866-889 | After adding an active key without conditions a claim by it is trusted exactly from the first time on and up to the second, so far as they were given |
| TrustCommands.OthersCutOut | src/modelguard/cli/main.py:807-817 | Taking out the entry of a key leaves what stood before and after it, in order |
| TrustCommands.NormalForm | src/modelguard/cli/main.py:778-779 | A key id between any spaces, in any case and with or without the prefix names the lower-case digits |
| TrustCommands.OtherClaimsUnaffected | src/modelguard/cli/main.py:803-817 | A command changes the standing of no claim by another key |
| TrustCommands.StepAndStanding | src/modelguard/cli/main.py:850-974 | A single command makes a key active only by adding it and takes its entry away only by removing it |
| TrustCommands.InactiveIsRefused | src/modelguard/signing/trust_config.py:359-371 | A key with no active entry is refused whatever else the claim says |
| TrustCommands.RevalidationIsIdentity | src/modelguard/cli/main.py:782-800 | Validating a stored entry again changes nothing, so a rewrite touches only the fields it overrides |
| TrustCommands.StoredIdIsNormal | src/modelguard/cli/main.py:778-779 | A stored fingerprint is its own normal form |
| TrustCommands.TrustFile.ReplaceKey | src/modelguard/cli/main.py:803-817 | Keeps all other entries in order, drops the one for the key and appends its replacement; raises exactly when the key has no entry |
| TrustCommands.TrustFile.AddKey | src/modelguard/cli/main.py:850-894 | Succeeds exactly when the key has no entry and the given fields and times make a valid entry; then the file holds the old entries in order and that entry, created if it was missing; a failure changes nothing |
| TrustCommands.TrustFile.RetireKey | src/modelguard/cli/main.py:903-927 | The file becomes what the retire step says: this entry retired, with the new expiry if one is given; an inverted window, an unusable time or a missing entry fails and changes nothing |
| TrustCommands.TrustFile.RevokeKey | src/modelguard/cli/main.py:930-953 | The file becomes what the revoke step says: this entry revoked, every other field and entry kept; a missing entry fails and changes nothing |
| TrustCommands.TrustFile.RemoveKey | src/modelguard/cli/main.py:956-974 | The file becomes what the remove step says: this entry gone, the others in order; a missing entry fails and changes nothing |

## Left out

- RoundTripExact: JSON floats are not modelled; the reader refuses a float literal, which only widens what counts as malformed, and no manifest or payload holds one.
- ReadsGrammar: numbers with a fraction or an exponent, and NaN and Infinity, which `json.loads` takes as floats, are refused.
- LoadsDumps: object keys hold no adjacent surrogate pair, since two such keys could merge when read back; floats and keys that are not strings, which a record could hold, and the limits Python sets on the digits of an integer and on nesting depth are not modelled.
- ParseManifest: the decoding of bytes that are not plain ASCII is an arbitrary function, so nothing depends on the encodings `json.loads` guesses.
- UploadArtifact: a later read of each source is a parameter, so files that change after hashing are covered; a failed upload may leave some blobs behind.
- UploadThenDownload: the store and the source do not change between the upload and the download; for stores that do, see OnlyTheArtifact.
- LocalBlobStore: the temporary file and the directories of the store are abstracted to a map from names to blobs, so crashes between write and rename are not visible.
- Download: symlinks, permissions, short writes, name-length limits and case-insensitive file systems are not modelled; names for staging and temporary nodes are fresh, as random UUIDs are; mkdir with parents and the removal of a staging tree are one step each in the log of disks.
- HashArtifact: refusal of symlinks and of paths that leave the root is not modelled, the disk having no links.
- CachedHasher.Hash: the checks on the cache file (owner, mode, size, schema) are one flag, readable or not; file names that cannot be serialised are not modelled; entries recorded at the same instant are evicted in any order.
- EveryHitIsFresh: calls on one cache follow one another; SharedHitIsFresh is the statement for calls that interleave.
- CachedHashIsHash: the same; a miss returns what hash_artifact returns in either case.
- SharedHitIsFresh: a recording that overlaps the lookup must end in an undisturbed stat pass, since a torn listing need not have existed at any moment.
- CaptureFingerprint: a pass without concurrent writes; what a pass may see otherwise is the predicate StatPass.
- HitIsFresh: a directory moved into the artifact during the recording itself, and changes of the clock, are outside the assumptions; SwapGoesUnseen shows that the first is needed.
- AppendExact: the file is its decoded text; a log that is not valid UTF-8, and concurrent appenders to one file, are not modelled.
- AppendsNeverFork: connections, statement timeouts and privileges are not modelled; a transaction that fails for any reason is an abort.
- BackendsAgree: concurrent `register` calls are excluded, since ids are assigned before commit; the columns that hold times of recording, and the column checks that repeat what the models validate, are not modelled.
- FilesRefine: text with an adjacent surrogate pair, which no storable call holds, would read back joined; a crash between writing a record and the digest index is not modelled.
- Lineage: events are given as a list; reading them from their log is the chain model.
- RawConverts: the elliptic curve and the token are foreign; a signature check is an arbitrary predicate.
- EvaluateTrust: `fnmatch` is a parameter; times are instants, so time zones and the parsing of timestamps are not modelled.
- RunKeepsValid: YAML reading and writing are not modelled; a saved configuration reads back as it was saved, including its size limit of 256 KiB.
- NormalizeKeyId: lower-casing is written out for ASCII; no other character lower-cases to a hexadecimal digit or the prefix.
- Policy engine, admission and SDK glue: conjunctions of checks made elsewhere.
- Scanners and magic-byte checks: pattern tables.
- S3 and key-management providers: foreign calls; they meet the same store and signer interfaces modelled here.
- `verifier_registry`, `build_minimal_trust_config`, `parents` and `children`: short functions that would add only easy members.
