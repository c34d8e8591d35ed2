/** The client side of the transfer (fpc_tee_host_storage.c): chunk loops, and storing by writing
    a temporary file and renaming it. */
module HostStorage {
  import opened Bytes
  import opened DbFormat
  import opened BlobTransfer

  // ---------------------------------------------------------------- files

  type Path = string

  type Files = map<Path, seq<byte>>

  function At(files: Files, path: Path): Option<seq<byte>> {
    if path in files then Some(files[path]) else None
  }

  /** Answers of the host while a file is saved: whether it can be opened, how many bytes a
      write takes (None when it fails), and whether it can be renamed. */
  datatype FileWorld = FileWorld(opens: bool, takes: Option<nat>, renames: bool)

  /** The host file system.  `trace` remembers its contents after every operation. */
  class FileSystem {
    var files: Files
    ghost var trace: seq<Files>

    constructor (files: Files)
      ensures this.files == files && trace == []
    {
      this.files := files;
      trace := [];
    }

    /** open with O_TRUNC and O_CREAT. */
    method Truncate(path: Path, opens: bool) returns (ok: bool)
      modifies this
      ensures ok == opens
      ensures ok ==> files == old(files)[path := []] && trace == old(trace) + [files]
      ensures !ok ==> files == old(files) && trace == old(trace)
    {
      ok := opens;
      if ok {
        files := files[path := []];
        trace := trace + [files];
      }
    }

    /** write: some prefix of the bytes arrives, or none and -1 is returned. */
    method Append(path: Path, bytes: seq<byte>, takes: Option<nat>) returns (written: int)
      requires path in files
      modifies this
      ensures written == if takes.None? then -1 else Min(takes.value, |bytes|)
      ensures written >= 0 ==>
                files == old(files)[path := old(files)[path] + bytes[..written]] && trace == old(trace) + [files]
      ensures written < 0 ==> files == old(files) && trace == old(trace)
    {
      written := if takes.None? then -1 else Min(takes.value, |bytes|);
      if written >= 0 {
        files := files[path := files[path] + bytes[..written]];
        trace := trace + [files];
      }
    }

    /** rename is atomic. */
    method Rename(from: Path, to: Path, renames: bool) returns (ok: bool)
      requires from in files && from != to
      modifies this
      ensures ok == renames
      ensures ok ==> files == old(files)[to := old(files)[from]] - {from} && trace == old(trace) + [files]
      ensures !ok ==> files == old(files) && trace == old(trace)
    {
      ok := renames;
      if ok {
        files := files[to := files[from]] - {from};
        trace := trace + [files];
      }
    }

    method Unlink(path: Path)
      modifies this
      ensures files == old(files) - {path} && trace == old(trace) + [files]
    {
      files := files - {path};
      trace := trace + [files];
    }
  }

  /** fpc_write_db_blob_to_file. */
  method WriteBlobToFile(fs: FileSystem, blob: seq<byte>, path: Path, w: FileWorld) returns (result: int)
    modifies fs
    ensures result == 0 <==> w.opens && w.takes.Some? && w.takes.value >= |blob|
    ensures result == 0 ==> At(fs.files, path) == Some(blob)
    ensures result in {0, -ERROR_IO}
    ensures fs.files - {path} == old(fs.files) - {path}
    ensures old(fs.trace) <= fs.trace
    ensures forall k :: |old(fs.trace)| <= k < |fs.trace| ==>
              fs.trace[k] - {path} == old(fs.files) - {path}
  {
    var ok := fs.Truncate(path, w.opens);
    if !ok {
      return -ERROR_IO;
    }
    var written := fs.Append(path, blob, w.takes);
    if written != |blob| {
      return -ERROR_IO;
    }
    assert [] + blob[..|blob|] == blob;
    return 0;
  }

  // ---------------------------------------------------------------- chunks

  function Min(a: nat, b: nat): nat { if a < b then a else b }

  /** Messages needed to move n bytes in chunks of at most c. */
  function Messages(n: nat, c: nat): nat
    requires c > 0
  {
    if n == 0 then 0 else 1 + Messages(n - Min(c, n), c)
  }

  /** That is n divided by c, rounded up. */
  lemma {:induction false} MessagesIsCeiling(n: nat, c: nat)
    requires c > 0
    ensures Messages(n, c) == (n + c - 1) / c
  {
    if n == 0 {
      QuotientIs(c - 1, c, 0);
    } else {
      OneMore(n - 1, c);
      if n <= c {
        QuotientIs(n - 1, c, 0);
      } else {
        MessagesIsCeiling(n - c, c);
      }
    }
  }

  lemma OneMore(x: nat, c: nat)
    requires c > 0
    ensures (x + c) / c == x / c + 1
  {
    var q := x / c;
    assert q * c <= x < q * c + c;
    assert (q + 1) * c == q * c + c;
    QuotientIs(x + c, c, q + 1);
  }

  lemma QuotientIs(x: nat, c: nat, q: nat)
    requires c > 0 && q * c <= x < q * c + c
    ensures x / c == q
  {
    var r := x / c;
    assert r * c <= x < r * c + c;
    if r < q {
      AtLeastOnce(q - r, c);
      assert false;
    } else if q < r {
      AtLeastOnce(r - q, c);
      assert false;
    }
  }

  lemma AtLeastOnce(k: nat, c: nat)
    requires k > 0
    ensures k * c >= c
  {
  }

  /** How a call to the trusted side went. */
  datatype Delivery = Delivered | Lost(code: Failure)

  /** Answers met by a chunk loop: memory for the message, and the delivery of each message. */
  datatype SendWorld = SendWorld(memory: bool, deliver: nat -> Delivery)

  /** Nothing stops the first n messages. */
  predicate AllArrive(w: SendWorld, n: nat) {
    w.memory && forall i: nat :: i < n ==> w.deliver(i).Delivered?
  }

  /** Why a chunk loop stopped after some messages. */
  predicate StoppedBy(w: SendWorld, messages: nat, result: int) {
    if !w.memory then messages == 0 && result == -ERROR_ALLOC
    else w.deliver(messages).Lost? && result == w.deliver(messages).code
  }

  /** send_db_read_commands: all bytes arrive, in the least number of messages, exactly if nothing
      stops a message.  The two sides never disagree. */
  method SendReadCommands(ta: Transfer, blobSize: nat, maxChunk: nat, w: SendWorld)
    returns (result: int, blob: seq<byte>, messages: nat, outOfSync: bool)
    requires ta.Valid() && ta.mode == RDONLY && ta.offset == 0
    requires 0 < blobSize == ta.size <= MAX_TRANSFER && 0 < maxChunk < TWO_32
    modifies ta`remaining, ta`offset
    ensures ta.Valid() && !outOfSync && result <= 0
    ensures blob == ta.data[..ta.offset]
    ensures result == 0 <==> AllArrive(w, Messages(blobSize, maxChunk))
    ensures result == 0 ==> blob == ta.data[..] && messages == Messages(blobSize, maxChunk)
    ensures result < 0 ==> messages < Messages(blobSize, maxChunk) && StoppedBy(w, messages, result)
  {
    hide Packable, Crypto.Inverse;
    blob, messages, outOfSync := [], 0, false;
    if !w.memory {
      return -ERROR_ALLOC, blob, messages, outOfSync;
    }
    result := 0;
    var field := Min(blobSize, maxChunk);
    var left := blobSize;
    while left > 0
      invariant ta.Valid() && ta.mode == RDONLY
      invariant left == ta.remaining && left + |blob| == blobSize
      invariant result == if left == blobSize then 0 else left
      invariant blob == ta.data[..ta.offset]
      invariant messages + Messages(left, maxChunk) == Messages(blobSize, maxChunk)
      invariant AllArrive(w, messages)
    {
      var payload := Min(maxChunk, left);
      var d := w.deliver(messages);
      if d.Lost? {
        return d.code, blob, messages, outOfSync;
      }
      var chunk;
      result, chunk := ta.Read(field, field + COMMAND_SIZE);
      messages := messages + 1;
      if result < 0 {
        assert false;
      }
      left := left - payload;
      if left != result % TWO_32 {
        outOfSync := true;
        return -ERROR_COMM, blob, messages, outOfSync;
      }
      blob := blob + chunk[..payload];
    }
    assert ta.data[..ta.offset] == ta.data[..];
  }

  lemma ChunkArrived(file: seq<byte>, before: seq<byte>, after: seq<byte>, offset: nat, n: nat)
    requires offset + n <= |file| == |before|
    requires before[..offset] == file[..offset]
    requires after == before[..offset] + file[offset..offset + n] + before[offset + n..]
    ensures after[..offset + n] == file[..offset + n]
    ensures offset + n == |file| ==> after == file
  {
  }

  /** send_db_write_commands: exactly if nothing stops a message, all bytes of the file reach the
      trusted side, in the least number of messages, and the result is what unwrapping them
      gives.  The two sides never disagree. */
  method SendWriteCommands(ta: Transfer, file: seq<byte>, maxChunk: nat, w: SendWorld, unpack: World)
    returns (result: int, messages: nat, outOfSync: bool)
    requires ta.Valid() && ta.mode == WRONLY && ta.offset == 0
    requires 0 < |file| == ta.size && 0 < maxChunk < TWO_32
    modifies ta, ta.data
    ensures ta.Valid() && ta.mode == WRONLY && ta.data == old(ta.data)
    ensures !outOfSync && result <= 0
    ensures ta.offset <= |file| && ta.data[..ta.offset] == file[..ta.offset]
    ensures AllArrive(w, Messages(|file|, maxChunk)) ==>
              && ta.data[..] == file && ta.remaining == 0 && messages == Messages(|file|, maxChunk)
              && ta.Settles(file, unpack, old(ta.userDb), result)
    ensures !AllArrive(w, Messages(|file|, maxChunk)) ==>
              && messages < Messages(|file|, maxChunk) && StoppedBy(w, messages, result)
              && result < 0 && ta.userDb == old(ta.userDb)
  {
    hide Packable, Crypto.Inverse, Unwrapped, Confined, Transfer.Settles;
    messages, outOfSync := 0, false;
    if !w.memory {
      return -ERROR_ALLOC, messages, outOfSync;
    }
    result := 0;
    var field := Min(|file|, maxChunk);
    var payloads: seq<byte> := Repeat(0, field);
    var left := |file|;
    var offset := 0;
    while left > 0
      invariant ta.Valid() && ta.mode == WRONLY && ta.data == old(ta.data) && ta.size == |file|
      invariant left == ta.remaining && offset == ta.offset && left + offset == |file|
      invariant ta.data[..offset] == file[..offset]
      invariant |payloads| == field
      invariant messages + Messages(left, maxChunk) == Messages(|file|, maxChunk)
      invariant AllArrive(w, messages)
      invariant left > 0 ==> ta.userDb == old(ta.userDb)
      invariant left == 0 ==> result == 0 && ta.Settles(file, unpack, old(ta.userDb), result)
    {
      var payload := Min(maxChunk, left);
      payloads := file[offset..offset + payload] + payloads[payload..];
      var d := w.deliver(messages);
      if d.Lost? {
        return d.code, messages, outOfSync;
      }
      ghost var before := ta.data[..];
      result := ta.Write(payloads, field, field + COMMAND_SIZE, unpack);
      assert payloads[..payload] == file[offset..offset + payload];
      ChunkArrived(file, before, ta.data[..], offset, payload);
      messages := messages + 1;
      left, offset := left - payload, offset + payload;
      if result < 0 {
        return result, messages, outOfSync;
      }
      if left != result % TWO_32 {
        outOfSync := true;
        return -1, messages, outOfSync;
      }
    }
    assert ta.data[..offset] == ta.data[..] && file[..offset] == file;
  }

  // ---------------------------------------------------------------- store and load

  const PATH_MAX := 4096

  function TempPath(path: Path): Path { path + ".bak" }

  /** The blob is an encryption of this very database. */
  ghost predicate Stores(c: Crypto, blob: Option<seq<byte>>, db: Database)
    requires db.Valid()
  {
    blob.Some? && c.unwrap(blob.value) == Some(Encode(db))
  }

  /** Answers met by a store: the delivery of each command, memory, and the file. */
  datatype StoreWorld = StoreWorld(
    size: Delivery, open: Delivery, ta: OpenWorld, memory: bool, send: SendWorld, file: FileWorld, close: Delivery)

  /** The store gets as far as opening the transfer. */
  predicate ReachesOpen(c: Crypto, db: Option<Database>, path: Path, w: StoreWorld)
    requires db.Some? ==> db.value.Valid()
  {
    && |TempPath(path)| < PATH_MAX && w.size.Delivered? && db.Some?
    && c.wrappedSize(|Encode(db.value)|) > 0
  }

  /** Nothing goes wrong between opening the transfer and renaming the file. */
  predicate BodySucceeds(c: Crypto, mode: int, db: Option<Database>, w: StoreWorld, maxChunk: nat)
    requires (db.Some? ==> db.value.Valid()) && maxChunk > 0
  {
    && db.Some? && w.open.Delivered?
    && var n := c.wrappedSize(|Encode(db.value)|);
    && CanOpen(c, mode, db, RDONLY, n, w.ta) && w.memory
    && AllArrive(w.send, Messages(n, maxChunk))
    && Saves(w.file, n)
  }

  /** Exactly when a store succeeds. */
  predicate CanStore(c: Crypto, mode: int, db: Option<Database>, path: Path, w: StoreWorld, maxChunk: nat)
    requires (db.Some? ==> db.value.Valid()) && maxChunk > 0
  {
    ReachesOpen(c, db, path, w) && BodySucceeds(c, mode, db, w, maxChunk)
  }

  /** db_open, the chunk transfer and the file, up to but without db_close. */
  method StoreBody(ta: Transfer, fs: FileSystem, path: Path, blobSize: nat, maxChunk: nat, w: StoreWorld)
    returns (result: int)
    requires ta.Valid() && 0 < maxChunk < TWO_32
    requires ta.userDb.Some? && 0 < blobSize == ta.crypto.wrappedSize(|Encode(ta.userDb.value)|)
    modifies ta, fs
    ensures ta.Valid() && ta.userDb == old(ta.userDb) && result <= 0
    ensures ta.data == null || ta.data == old(ta.data) || fresh(ta.data)
    ensures result == 0 <==> BodySucceeds(ta.crypto, old(ta.mode), ta.userDb, w, maxChunk)
    ensures result == 0 ==>
              && ta.userDb.Some?
              && At(fs.files, path) == ta.crypto.wrap(Encode(ta.userDb.value), w.ta.nonce)
              && Stores(ta.crypto, At(fs.files, path), ta.userDb.value)
              && 0 < |fs.files[path]| <= MAX_TRANSFER
    ensures result < 0 ==> At(fs.files, path) == At(old(fs.files), path)
    ensures fs.files - {path, TempPath(path)} == old(fs.files) - {path, TempPath(path)}
    ensures old(fs.trace) <= fs.trace
    ensures forall k :: |old(fs.trace)| <= k < |fs.trace| ==>
              At(fs.trace[k], path) in {At(old(fs.files), path), At(fs.files, path)}
  {
    hide Packable, Encode, Crypto.Inverse, Messages, AllArrive, CanWrap;
    if w.open.Lost? {
      return w.open.code;
    }
    result := ta.Open(RDONLY, blobSize, w.ta);
    if result < 0 {
      return;
    }
    if !w.memory {
      return -ERROR_ALLOC;
    }
    var sent, blob, _, _ := SendReadCommands(ta, blobSize, maxChunk, w.send);
    if sent < 0 {
      return sent;
    }
    result := SaveAtomically(fs, blob, path, w.file);
  }

  /** The file takes all n bytes and can be put in place. */
  predicate Saves(w: FileWorld, n: nat) {
    w.opens && w.takes.Some? && w.takes.value >= n && w.renames
  }

  /** Write the temporary file, then rename it over the old one. */
  method SaveAtomically(fs: FileSystem, blob: seq<byte>, path: Path, w: FileWorld) returns (result: int)
    modifies fs
    ensures result <= 0 && (result == 0 <==> Saves(w, |blob|))
    ensures At(fs.files, path) == if result == 0 then Some(blob) else At(old(fs.files), path)
    ensures fs.files - {path, TempPath(path)} == old(fs.files) - {path, TempPath(path)}
    ensures old(fs.trace) <= fs.trace
    ensures forall k :: |old(fs.trace)| <= k < |fs.trace| ==>
              At(fs.trace[k], path) in {At(old(fs.files), path), At(fs.files, path)}
  {
    var temp := TempPath(path);
    assert |temp| != |path|;
    var before := fs.files;
    result := WriteBlobToFile(fs, blob, temp, w);
    SameElsewhere(before, fs.files, temp, path);
    forall k | |old(fs.trace)| <= k < |fs.trace| ensures At(fs.trace[k], path) == At(before, path) {
      SameElsewhere(before, fs.trace[k], temp, path);
    }
    if result < 0 {
      return;
    }
    var renamed := fs.Rename(temp, path, w.renames);
    if !renamed {
      fs.Unlink(temp);
      return -ERROR_IO;
    }
  }

  lemma SameElsewhere(a: Files, b: Files, changed: Path, path: Path)
    requires a - {changed} == b - {changed} && path != changed
    ensures At(a, path) == At(b, path)
    ensures a - {path, changed} == b - {path, changed}
  {
    assert path in a <==> path in a - {changed};
    assert path in b <==> path in b - {changed};
    assert path in a ==> a[path] == (a - {changed})[path];
    assert path in b ==> b[path] == (b - {changed})[path];
    assert a - {path, changed} == (a - {changed}) - {path};
    assert b - {path, changed} == (b - {changed}) - {path};
  }

  /** fpc_tee_store_template_db.  At every moment the file is the complete old blob or the
      complete new one, and the new one exactly on success.  Whatever state an earlier client
      left the transfer in, it is closed afterwards if the close was delivered. */
  method Store(ta: Transfer, fs: FileSystem, path: Path, maxChunk: nat, w: StoreWorld) returns (result: int)
    requires ta.Valid() && 0 < maxChunk < TWO_32
    modifies ta, fs
    ensures ta.Valid() && ta.userDb == old(ta.userDb) && result <= 0
    ensures ta.data == null || ta.data == old(ta.data) || fresh(ta.data)
    ensures result == 0 <==> CanStore(ta.crypto, old(ta.mode), ta.userDb, path, w, maxChunk)
    ensures ReachesOpen(ta.crypto, ta.userDb, path, w) && w.close.Delivered? ==> ta.Closed()
    ensures !ReachesOpen(ta.crypto, ta.userDb, path, w) ==> fs.files == old(fs.files) && ta.mode == old(ta.mode)
    ensures result == 0 ==>
              && ta.userDb.Some?
              && At(fs.files, path) == ta.crypto.wrap(Encode(ta.userDb.value), w.ta.nonce)
              && Stores(ta.crypto, At(fs.files, path), ta.userDb.value)
              && 0 < |fs.files[path]| <= MAX_TRANSFER
    ensures result < 0 ==> At(fs.files, path) == At(old(fs.files), path)
    ensures fs.files - {path, TempPath(path)} == old(fs.files) - {path, TempPath(path)}
    ensures old(fs.trace) <= fs.trace
    ensures forall k :: |old(fs.trace)| <= k < |fs.trace| ==>
              At(fs.trace[k], path) in {At(old(fs.files), path), At(fs.files, path)}
  {
    hide Packable, Encode, Crypto.Inverse, BodySucceeds, Stores;
    if |TempPath(path)| >= PATH_MAX {
      return -ERROR_INPUT;
    }
    if w.size.Lost? {
      return w.size.code;
    }
    var blobSize;
    result, blobSize := ta.BlobSize();
    if result < 0 {
      return;
    }
    if blobSize == 0 {
      return -ERROR_IO;
    }
    result := StoreBody(ta, fs, path, blobSize, maxChunk, w);
    if w.close.Delivered? {
      ta.Close();
    }
  }

  /** Answers met by a load: the file, the delivery of each command, memory on both sides, and what
      the trusted side meets while unpacking. */
  datatype LoadWorld = LoadWorld(
    statFails: bool, readFails: bool, open: Delivery, taMemory: bool, randomId: Option<uint64>,
    memory: bool, send: SendWorld, close: Delivery, unpack: World)

  /** The transfer of a file can be opened. */
  predicate LoadOpens(mode: int, file: seq<byte>, w: LoadWorld) {
    w.open.Delivered? && mode == CLOSED && 0 < |file| <= MAX_TRANSFER && w.taMemory
  }

  /** Exactly when all bytes of the file reach the trusted side. */
  predicate Arrives(mode: int, file: seq<byte>, w: LoadWorld, maxChunk: nat)
    requires maxChunk > 0
  {
    LoadOpens(mode, file, w) && w.memory && !w.readFails && AllArrive(w.send, Messages(|file|, maxChunk))
  }

  /** What a load does: without a file, or with an empty one, the database becomes empty; otherwise
      it becomes what the file stands for, provided all bytes arrive. */
  ghost predicate Loads(
    ta: Transfer, mode: int, file: Option<seq<byte>>, before: Option<Database>, w: LoadWorld, maxChunk: nat, result: int)
    requires maxChunk > 0
    reads ta
  {
    if w.statFails then result < 0 && ta.userDb == before
    else if file.None? || file.value == [] then
      if w.open.Lost? then result < 0 && ta.userDb == before
      else if w.taMemory then
        result == 0 && ta.userDb == Some(Database(if w.randomId.Some? then w.randomId.value else 0, None))
      else result < 0 && ta.userDb == None
    else if Arrives(mode, file.value, w, maxChunk) then ta.Settles(file.value, w.unpack, before, result)
    else result < 0 && ta.userDb == before
  }

  /** The transfer is opened and never closed again: memory for the file runs out on the host. */
  predicate LeftOpen(mode: int, file: Option<seq<byte>>, w: LoadWorld) {
    !w.statFails && file.Some? && LoadOpens(mode, file.value, w) && !w.memory
  }

  /** fpc_tee_load_template_db.  The one way to leave the transfer open although a close would be
      delivered is to run out of memory for the file buffer. */
  method Load(ta: Transfer, fs: FileSystem, path: Path, maxChunk: nat, w: LoadWorld) returns (result: int)
    requires ta.Valid() && 0 < maxChunk < TWO_32
    requires path in fs.files ==> |fs.files[path]| < 0x8000_0000
    modifies ta
    ensures ta.Valid() && result <= 0
    ensures ta.data == null || ta.data == old(ta.data) || fresh(ta.data)
    ensures Loads(ta, old(ta.mode), At(fs.files, path), old(ta.userDb), w, maxChunk, result)
    ensures var file := At(fs.files, path);
            if w.statFails || file.None? || file.value == [] then ta.mode == old(ta.mode)
            else if LeftOpen(old(ta.mode), file, w) then ta.mode == WRONLY && result == -ERROR_ALLOC
            else w.close.Delivered? ==> ta.Closed()
  {
    hide Packable, Crypto.Inverse, Unwrapped, Messages, AllArrive;
    if w.statFails {
      return -ERROR_IO;
    }
    if path !in fs.files || |fs.files[path]| == 0 {
      if w.open.Lost? {
        return w.open.code;
      }
      result := ta.LoadEmpty(w.taMemory, w.randomId);
      return;
    }
    var file := fs.files[path];
    if w.open.Lost? {
      result := w.open.code;
    } else {
      result := ta.Open(WRONLY, |file|, OpenWorld(w.taMemory, 0));
      if result == 0 {
        if !w.memory {
          return -ERROR_ALLOC;
        }
        if w.readFails {
          result := -ERROR_IO;
        } else {
          var sent, _, _ := SendWriteCommands(ta, file, maxChunk, w.send, w.unpack);
          result := sent;
        }
      }
    }
    if w.close.Delivered? {
      ta.Close();
    }
  }

  // ---------------------------------------------------------------- round trip

  /** Clearing free entries does not show in the packed form. */
  lemma EncodeKept(db: Database)
    requires db.Valid()
    ensures Kept(4, db, Generous()).Valid()
    ensures Encode(Kept(4, db, Generous())) == Encode(db)
  {
    hide Be32, Be64, EncodeEntries;
    if db.fingers.Some? {
      EncodeKeptEntries(db.fingers.value.entries);
    }
  }

  lemma {:induction false} EncodeKeptEntries(entries: seq<Fingerprint>)
    requires Flagged(entries)
    ensures Flagged(KeptEntries(4, entries))
    ensures EncodeEntries(4, KeptEntries(4, entries)) == EncodeEntries(4, entries)
  {
    hide Be32, Be64;
    if entries != [] {
      EncodeKeptEntries(entries[1..]);
      assert KeptEntries(4, entries)[1..] == KeptEntries(4, entries[1..]);
      assert KeptEntries(4, entries)[0] == KeptEntry(4, entries[0]);
    }
  }

  /** What a stored blob stands for: the same database with its free entries cleared, or nothing
      for lack of memory.  It never makes a position wrap around. */
  lemma StoredStandsFor(c: Crypto, blob: seq<byte>, db: Database, w: World)
    requires Packable(db) && Stores(c, Some(blob), db)
    ensures Unwrapped(c, blob, w) == Done(Kept(4, db, Generous())) || Unwrapped(c, blob, w).Rejected?
    ensures Grants(w, 4, db) ==> Unwrapped(c, blob, w) == Done(Kept(4, db, Generous()))
  {
    hide Unpack, Encode, Kept;
    EncodedUnpacks(db, w);
    EncodeKept(db);
    if Grants(w, 4, db) {
      EncodedGranted(db, w);
    }
  }

  lemma EncodedGranted(db: Database, w: World)
    requires Packable(db) && Grants(w, 4, db)
    ensures Unpack(Encode(db), w).Done?
  {
    hide Unpack, EncodeVersion, Kept;
    RoundTrip(4, db, w);
  }

  /** Nothing goes wrong in the given answers, for a blob of n bytes. */
  predicate Smooth(w: LoadWorld, n: nat, maxChunk: nat)
    requires maxChunk > 0
  {
    && !w.statFails && !w.readFails && w.open.Delivered? && w.taMemory && w.memory
    && AllArrive(w.send, Messages(n, maxChunk))
  }

  /** Store, then load: where the store can succeed, its close is delivered and nothing goes wrong
      in the load, the database comes back with its free entries cleared. */
  method StoreThenLoad(ta: Transfer, fs: FileSystem, path: Path, maxChunk: nat, w: StoreWorld, w': LoadWorld)
    returns (stored: int, loaded: int)
    requires ta.Valid() && 0 < maxChunk < TWO_32
    requires path in fs.files ==> |fs.files[path]| < 0x8000_0000
    modifies ta, fs
    ensures ta.Valid()
    ensures stored == 0 <==> old(CanStore(ta.crypto, ta.mode, ta.userDb, path, w, maxChunk))
    ensures stored == 0 && w.close.Delivered? ==>
              var db := old(ta.userDb).value;
              && (Smooth(w', ta.crypto.wrappedSize(|Encode(db)|), maxChunk) && Grants(w'.unpack, 4, db) ==>
                    loaded == 0 && ta.userDb == Some(Kept(4, db, Generous())))
              && (loaded == 0 ==> ta.userDb == Some(Kept(4, db, Generous())))
              && (loaded < 0 ==> ta.userDb == Some(db))
  {
    hide Packable, Encode, Crypto.Inverse, Kept, Grants, Unwrapped, AllArrive, Messages;
    ghost var db := ta.userDb;
    stored := Store(ta, fs, path, maxChunk, w);
    if stored == 0 {
      StoredStandsFor(ta.crypto, fs.files[path], db.value, w'.unpack);
    }
    loaded := Load(ta, fs, path, maxChunk, w');
  }
}
