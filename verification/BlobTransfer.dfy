/** The trusted side of the chunked transfer of the encrypted database (fpc_ta_db_blob.c). */
module BlobTransfer {
  import opened Bytes
  import opened DbFormat
  import DbPacker
  import DbUnpacker

  const CLOSED: int := -1
  const RDONLY: int := 0
  const WRONLY: int := 1
  const MAX_TRANSFER := 5 * 250 * 1024

  /** Size of a byte array message without its payload, and of the largest command. */
  const MESSAGE_HEADER := 16
  const COMMAND_SIZE := 40

  /** The check of the length fields as the source computes it, in 32 bits. */
  predicate ByteArrayValid(payload: uint32, sizeBuffer: uint32) {
    var total := (MESSAGE_HEADER + payload) % TWO_32;
    MESSAGE_HEADER <= sizeBuffer && MESSAGE_HEADER <= total && total <= sizeBuffer
  }

  /** It accepts exactly the messages whose true length fits the buffer. */
  lemma ByteArrayValidExact(payload: uint32, sizeBuffer: uint32)
    ensures ByteArrayValid(payload, sizeBuffer) <==> MESSAGE_HEADER + payload <= sizeBuffer
  {
    if MESSAGE_HEADER + payload >= TWO_32 {
      assert (MESSAGE_HEADER + payload) % TWO_32 == MESSAGE_HEADER + payload - TWO_32;
    }
  }

  /** Encryption of the database: wrapping may fail and may depend on a nonce. */
  datatype Crypto = Crypto(
    wrap: (seq<byte>, nat) -> Option<seq<byte>>,
    unwrap: seq<byte> -> Option<seq<byte>>,
    wrappedSize: nat -> uint32)
  {
    /** Unwrapping undoes wrapping, and works in place. */
    ghost predicate Inverse() {
      && (forall d, nonce :: wrap(d, nonce).Some? ==> unwrap(wrap(d, nonce).value) == Some(d))
      && (forall b :: unwrap(b).Some? ==> |unwrap(b).value| <= |b|)
    }
  }

  lemma UnwrapUndoesWrap(c: Crypto, d: seq<byte>, nonce: nat)
    requires c.Inverse()
    ensures c.wrap(d, nonce).Some? ==> c.unwrap(c.wrap(d, nonce).value) == Some(d)
  {
  }

  lemma UnwrapInPlace(c: Crypto, b: seq<byte>)
    requires c.Inverse()
    ensures c.unwrap(b).Some? ==> |c.unwrap(b).value| <= |b|
  {
  }

  /** The packed form fits in 32 bits; the secure heap is smaller than that. */
  predicate Packable(db: Database) {
    db.Valid() && |Encode(db)| < TWO_32
  }

  lemma PackableSized(db: Database)
    requires Packable(db)
    ensures DbPacker.Sized(db) && DbPacker.Total(DbPacker.Fields(db)) < TWO_32
  {
    DbPacker.FieldsAreEncoding(db);
  }

  lemma EmptyPackable(db: Database)
    requires db.fingers.None?
    ensures Packable(db)
  {
    hide Be32, Be64;
  }

  /** What a blob stands for: the database its decrypted bytes unpack to, if memory holds it. */
  function Unwrapped(c: Crypto, blob: seq<byte>, w: World): Parse<Database> {
    var plain := c.unwrap(blob);
    if plain.None? then Rejected(-ERROR_IO)
    else
      var db :- Unpack(plain.value, w);
      if Packable(db) then Done(db) else Rejected(-ERROR_ALLOC)
  }

  /** The blob stands for this database, given enough memory. */
  ghost predicate Holds(c: Crypto, blob: seq<byte>, db: Database) {
    exists w: World :: Unwrapped(c, blob, w) == Done(db)
  }

  lemma UnwrappedPackable(c: Crypto, blob: seq<byte>, w: World)
    ensures Unwrapped(c, blob, w).Done? ==> Packable(Unwrapped(c, blob, w).value)
  {
    hide Unpack, Packable;
  }

  /** No blob that can be transferred makes a position wrap around, if the allocator grants no
      block that does not fit beside the largest one in 32 bits. */
  lemma TransferredNeverWraps(c: Crypto, blob: seq<byte>, w: World)
    requires c.Inverse() && |blob| <= MAX_TRANSFER && Confined(w, MAX_TRANSFER)
    ensures !Unwrapped(c, blob, w).Wrapped?
  {
    hide Unpack, Packable, Crypto.Inverse;
    UnwrapInPlace(c, blob);
    if c.unwrap(blob).Some? {
      NeverWraps(c.unwrap(blob).value, w);
    }
  }

  /** The database can be wrapped with this nonce into a blob of the announced size. */
  predicate CanWrap(c: Crypto, db: Database, nonce: nat)
    requires db.Valid()
  {
    var blob := c.wrap(Encode(db), nonce);
    blob.Some? && |blob.value| == c.wrappedSize(|Encode(db)|)
  }

  /** Answers met while a transfer is opened: whether memory suffices, and the nonce. */
  datatype OpenWorld = OpenWorld(memory: bool, nonce: nat)

  /** Exactly when an open succeeds. */
  predicate CanOpen(c: Crypto, mode: int, db: Option<Database>, wanted: int, announced: nat, w: OpenWorld)
    requires db.Some? ==> db.value.Valid()
  {
    && mode == CLOSED && 0 < announced <= MAX_TRANSFER && w.memory
    && (wanted == WRONLY || (wanted == RDONLY && db.Some? && CanWrap(c, db.value, w.nonce)))
  }

  /** memcpy into the transfer buffer. */
  method CopyIn(a: array<byte>, offset: nat, bytes: seq<byte>)
    requires offset + |bytes| <= a.Length
    modifies a
    ensures a[..] == old(a[..offset]) + bytes + old(a[..])[offset + |bytes|..]
  {
    ghost var before := a[..];
    for i := 0 to |bytes|
      invariant forall k :: 0 <= k < offset ==> a[k] == before[k]
      invariant forall k :: 0 <= k < i ==> a[offset + k] == bytes[k]
      invariant forall k :: offset + i <= k < a.Length ==> a[k] == before[k]
    {
      a[offset + i] := bytes[i];
    }
    assert a[..] == before[..offset] + bytes + before[offset + |bytes|..];
  }

  class Transfer {
    const crypto: Crypto
    var userDb: Option<Database>
    var mode: int
    var size: nat
    var remaining: nat
    var offset: nat
    var data: array?<byte>

    /** What holds between commands, whatever the client has done. */
    ghost predicate Valid()
      reads this
    {
      && crypto.Inverse()
      && (userDb.Some? ==> Packable(userDb.value))
      && mode in {CLOSED, RDONLY, WRONLY}
      && (mode == CLOSED <==> data == null)
      && (data != null ==> data.Length == size < TWO_32 && offset + remaining == size)
      && (mode == WRONLY ==> size <= MAX_TRANSFER)
    }

    ghost predicate Closed()
      reads this
    {
      mode == CLOSED
    }

    /** Nothing but the transfer record and buffers allocated since may differ. */
    twostate predicate Untouched()
      reads this
    {
      && userDb == old(userDb) && mode == old(mode) && size == old(size)
      && remaining == old(remaining) && offset == old(offset) && data == old(data)
    }

    constructor (crypto: Crypto, userDb: Option<Database>)
      requires crypto.Inverse() && (userDb.Some? ==> Packable(userDb.value))
      ensures Valid() && Closed() && this.crypto == crypto && this.userDb == userDb
    {
      this.crypto := crypto;
      this.userDb := userDb;
      mode, size, remaining, offset, data := CLOSED, 0, 0, 0, null;
    }

    method Close()
      requires Valid()
      modifies this
      ensures Valid() && Closed() && userDb == old(userDb)
    {
      mode, size, remaining, offset, data := CLOSED, 0, 0, 0, null;
    }

    /** FPC_TA_BIO_LOAD_EMPTY_DB_CMD: the old database is dropped first. */
    method LoadEmpty(memory: bool, randomId: Option<uint64>) returns (status: int)
      requires Valid()
      modifies this`userDb
      ensures Valid() && status <= 0 && (status == 0 <==> memory)
      ensures status == 0 ==> userDb == Some(Database(if randomId.Some? then randomId.value else 0, None))
      ensures status < 0 ==> userDb == None
    {
      hide Encode;
      userDb := None;
      if !memory {
        return -ERROR_ALLOC;
      }
      var db := Database(if randomId.Some? then randomId.value else 0, None);
      EmptyPackable(db);
      userDb := Some(db);
      return 0;
    }

    /** FPC_TA_BIO_GET_DB_SIZE_CMD. */
    method BlobSize() returns (status: int, blobSize: nat)
      requires Valid()
      ensures status == 0 <==> userDb.Some?
      ensures status == 0 ==> blobSize == crypto.wrappedSize(|Encode(userDb.value)|)
      ensures status <= 0
    {
      hide Encode, DbPacker.Sized, DbPacker.Total, DbPacker.Fields;
      if userDb.None? {
        return -ERROR_INPUT, 0;
      }
      PackableSized(userDb.value);
      var packedSize;
      status, packedSize := DbPacker.GetDataSize(userDb.value);
      assert status == 0;
      blobSize := crypto.wrappedSize(packedSize);
    }

    /** The read side of open: pack, then wrap into a buffer of the announced size. */
    method WrapDatabase(w: OpenWorld) returns (status: int, blob: array?<byte>)
      requires Valid()
      ensures status <= 0
      ensures status == 0 <==> w.memory && userDb.Some? && CanWrap(crypto, userDb.value, w.nonce)
      ensures status == 0 ==>
                && blob != null && fresh(blob)
                && blob.Length == crypto.wrappedSize(|Encode(userDb.value)|)
                && crypto.wrap(Encode(userDb.value), w.nonce) == Some(blob[..])
                && crypto.unwrap(blob[..]) == Some(Encode(userDb.value))
    {
      hide Encode, DbPacker.Sized, DbPacker.Total, DbPacker.Fields, DbPacker.Image;
      blob := null;
      if userDb.None? {
        return -ERROR_IO, null;
      }
      PackableSized(userDb.value);
      NotEmpty(userDb.value);
      var packedSize;
      status, packedSize := DbPacker.GetDataSize(userDb.value);
      assert status == 0 && packedSize == |Encode(userDb.value)| > 0;
      if !w.memory {
        return -ERROR_ALLOC, null;
      }
      var packed := new byte[packedSize](_ => 0);
      status := DbPacker.GetData(userDb.value, packed);
      assert status == 0;
      var wrapped := crypto.wrap(packed[..], w.nonce);
      UnwrapUndoesWrap(crypto, packed[..], w.nonce);
      if !wrapped.Some? || |wrapped.value| != crypto.wrappedSize(packedSize) {
        return -ERROR_IO, null;
      }
      var bytes := wrapped.value;
      blob := new byte[|bytes|](i requires 0 <= i < |bytes| => bytes[i]);
      assert blob[..] == bytes;
      return 0, blob;
    }

    lemma NotEmpty(db: Database)
      requires db.Valid()
      ensures |Encode(db)| > 0
    {
      hide Be64, EncodeSet;
    }

    /** FPC_TA_BIO_DB_OPEN_CMD.  Refused when a transfer is open; a failed open leaves it
        closed. */
    method Open(wanted: int, announced: nat, w: OpenWorld) returns (status: int)
      requires Valid()
      modifies this
      ensures Valid() && userDb == old(userDb) && status <= 0
      ensures status == 0 <==> CanOpen(crypto, old(mode), userDb, wanted, announced, w)
      ensures old(mode) != CLOSED ==> status == -ERROR_IO && Untouched()
      ensures old(mode) == CLOSED && status < 0 ==> Closed()
      ensures status == 0 ==> mode == wanted && remaining == size && offset == 0 && fresh(data)
      ensures status == 0 && wanted == WRONLY ==> size == announced
      ensures status == 0 && wanted == RDONLY ==>
                && size == crypto.wrappedSize(|Encode(userDb.value)|)
                && crypto.wrap(Encode(userDb.value), w.nonce) == Some(data[..])
                && crypto.unwrap(data[..]) == Some(Encode(userDb.value))
    {
      hide CanWrap, Encode;
      if mode != CLOSED {
        return -ERROR_IO;
      }
      if announced == 0 || announced > MAX_TRANSFER {
        return -ERROR_INPUT;
      }
      if wanted == WRONLY {
        if !w.memory {
          return -ERROR_ALLOC;
        }
        data := new byte[announced](_ => 0);
        size, remaining, offset, mode := announced, announced, 0, WRONLY;
        return 0;
      }
      if wanted == RDONLY {
        var blob;
        status, blob := WrapDatabase(w);
        if status < 0 {
          Close();
          return;
        }
        data := blob;
        size, remaining, offset, mode := blob.Length, blob.Length, 0, RDONLY;
        return;
      }
      Close();
      return -ERROR_INPUT;
    }

    /** The end of a write transfer: unwrap and unpack.  The database becomes what the blob
        stands for, or stays.  Where a position wraps around, the outcome is unknown; a
        `Confined` allocator rules that out. */
    method Unwrap(w: World) returns (status: int)
      requires Valid() && mode == WRONLY && remaining == 0
      modifies this`userDb
      ensures Valid() && status <= 0
      ensures Settles(old(data[..]), w, old(userDb), status)
      ensures Confined(w, MAX_TRANSFER) ==> !Unwrapped(crypto, data[..], w).Wrapped?
    {
      hide Unpack, Packable, Kept;
      if Confined(w, MAX_TRANSFER) {
        TransferredNeverWraps(crypto, data[..], w);
      }
      var plain := crypto.unwrap(data[..]);
      if !plain.Some? {
        return -ERROR_IO;
      }
      UnwrapInPlace(crypto, data[..]);
      var r := DbUnpacker.Create(plain.value, w);
      if r.Rejected? {
        return r.error;
      }
      if r.Wrapped? {
        var unknown: Option<Database> := *;
        if !unknown.Some? || Packable(unknown.value) {
          userDb := unknown;
        }
        var code: int := *;
        return if code < 0 then code else 0;
      }
      UnpackedValid(plain.value, w);
      if !Packable(r.value) {
        return -ERROR_ALLOC;
      }
      userDb := Some(r.value);
      return 0;
    }

    /** The database and the status after the last byte of this blob arrived. */
    ghost predicate Settles(blob: seq<byte>, w: World, before: Option<Database>, status: int)
      reads this
    {
      match Unwrapped(crypto, blob, w)
      case Done(db) => status == 0 && userDb == Some(db)
      case Rejected(e) => status == e && userDb == before
      case Wrapped => true
    }

    /** FPC_TA_BIO_DB_WRITE_CMD: answers the number of bytes still missing, or the result of
        unwrapping after the last one. */
    method Write(buffer: seq<byte>, count: uint32, sizeBuffer: uint32, w: World) returns (response: int)
      requires Valid() && (MESSAGE_HEADER + count <= sizeBuffer ==> count <= |buffer|)
      modifies this, data
      ensures Valid()
      ensures mode == old(mode) && size == old(size) && data == old(data)
      ensures old(mode) == WRONLY && count > 0 && MESSAGE_HEADER + count <= sizeBuffer && old(remaining) > 0 ==>
                var n := if count < old(remaining) then count else old(remaining);
                && remaining == old(remaining) - n && offset == old(offset) + n
                && data[..] == old(data[..offset]) + buffer[..n] + old(data[..])[offset..]
      ensures old(mode) == WRONLY && count > 0 && MESSAGE_HEADER + count <= sizeBuffer && old(remaining) > count ==>
                response == remaining && userDb == old(userDb)
      ensures old(mode) == WRONLY && count > 0 && MESSAGE_HEADER + count <= sizeBuffer && 0 < old(remaining) <= count ==>
                && response <= 0
                && Settles(data[..], w, old(userDb), response)
                && (Confined(w, MAX_TRANSFER) ==> !Unwrapped(crypto, data[..], w).Wrapped?)
      ensures old(mode) != WRONLY || count == 0 || old(remaining) == 0 || MESSAGE_HEADER + count > sizeBuffer ==>
                response == -ERROR_INPUT && Untouched() && (data != null ==> data[..] == old(data[..]))
    {
      hide Packable, Settles, Unwrapped, Confined;
      ByteArrayValidExact(count, sizeBuffer);
      if !ByteArrayValid(count, sizeBuffer) {
        return -ERROR_INPUT;
      }
      if mode != WRONLY || count == 0 || remaining == 0 {
        return -ERROR_INPUT;
      }
      var n := if count < remaining then count else remaining;
      CopyIn(data, offset, buffer[..n]);
      remaining, offset := remaining - n, offset + n;
      if remaining == 0 {
        response := Unwrap(w);
        return;
      }
      return remaining;
    }

    /** FPC_TA_BIO_DB_READ_CMD: copies the next bytes and answers how many are left. */
    method Read(count: uint32, sizeBuffer: uint32) returns (response: int, chunk: seq<byte>)
      requires Valid()
      modifies this`remaining, this`offset
      ensures Valid()
      ensures old(mode) == RDONLY && count > 0 && old(remaining) > 0 && MESSAGE_HEADER + count <= sizeBuffer ==>
                var n := if count < old(remaining) then count else old(remaining);
                && remaining == old(remaining) - n && offset == old(offset) + n
                && response == remaining
                && chunk == data[..][old(offset)..offset]
      ensures old(mode) != RDONLY || count == 0 || old(remaining) == 0 || MESSAGE_HEADER + count > sizeBuffer ==>
                response == -ERROR_INPUT && Untouched() && chunk == []
    {
      ByteArrayValidExact(count, sizeBuffer);
      if !ByteArrayValid(count, sizeBuffer) {
        return -ERROR_INPUT, [];
      }
      if count == 0 || mode != RDONLY || remaining == 0 {
        return -ERROR_INPUT, [];
      }
      var n := if count < remaining then count else remaining;
      chunk := data[offset..offset + n];
      remaining, offset := remaining - n, offset + n;
      return remaining, chunk;
    }
  }
}
