/** The template database as values, and its packed byte format: what a packed database is
    (`Encode`), what the unpacker accepts (`Unpack`), and that the two fit together. */
module DbFormat {
  import opened Bytes

  const MARKER_DB: uint32 := 0xABAD1DEA
  const MARKER_SETS: uint32 := 0xBEEFF00D
  const MARKER_SET_IDS: uint32 := 0xBADC0FFE
  const MARKER_EOF: uint32 := 0xB105F00D
  const SLOTS := 5

  type Id256 = s: seq<byte> | |s| == 32 witness Repeat(0, 32)

  const ZERO_ID: Id256 := Repeat(0, 32)

  /** One entry of a set.  `valid` is the raw field: 1 marks an entry in use, 0 a free one. */
  datatype Fingerprint = Fingerprint(valid: uint32, id: Id256, userId: uint64, template: seq<byte>)

  const FREE_ENTRY := Fingerprint(0, ZERO_ID, 0, [])

  datatype FingerprintSet =
    FingerprintSet(key: uint32, setId: Id256, stateId: Id256, entries: seq<Fingerprint>)

  datatype Database = Database(id: uint64, fingers: Option<FingerprintSet>)
  {
    /** A database as the other operations keep it. */
    predicate Valid() {
      fingers.Some? ==> |fingers.value.entries| == SLOTS && Flagged(fingers.value.entries)
    }
  }

  predicate Flagged(entries: seq<Fingerprint>) {
    forall i :: 0 <= i < |entries| ==>
      entries[i].valid in {0, 1} && |entries[i].template| < TWO_32
  }

  // ---------------------------------------------------------------- packed form

  function EncodeEntry(version: byte, f: Fingerprint): seq<byte>
    requires |f.template| < TWO_32
  {
    if f.valid == 1 then
      Be32(1) + f.id + (if version >= 3 then Be64(f.userId) else []) + Be32(|f.template|) + f.template
    else
      Be32(f.valid)
  }

  function EncodeEntries(version: byte, entries: seq<Fingerprint>): seq<byte>
    requires Flagged(entries)
  {
    if entries == [] then []
    else EncodeEntry(version, entries[0]) + EncodeEntries(version, entries[1..])
  }

  function EncodeSet(version: byte, s: FingerprintSet): seq<byte>
    requires Flagged(s.entries)
  {
    Be32(s.key) + Be32(MARKER_SET_IDS) + s.setId + (if version >= 4 then s.stateId else [])
    + EncodeEntries(version, s.entries)
  }

  /** The packed form in format version 2, 3 or 4.  Version 3 adds the database id and the
      secure user ids, version 4 the state id. */
  function EncodeVersion(version: byte, db: Database): seq<byte>
    requires db.Valid()
  {
    Be32(MARKER_DB) + [version] + (if version >= 3 then Be64(db.id) else [])
    + Be32(if db.fingers.Some? then 1 else 0) + Be32(MARKER_SETS)
    + (if db.fingers.Some? then EncodeSet(version, db.fingers.value) else [])
    + Be32(MARKER_EOF)
  }

  function Encode(db: Database): seq<byte>
    requires db.Valid()
  {
    EncodeVersion(4, db)
  }

  // ---------------------------------------------------------------- unpacking

  /** Result of a read.  `Wrapped` stands for a length that makes the 32-bit end position wrap
      around, so that the bound check lets a copy through that leaves the buffer. */
  datatype Parse<+T> = Done(value: T) | Rejected(error: Failure) | Wrapped
  {
    predicate IsFailure() { !Done? }

    function PropagateFailure<U>(): Parse<U>
      requires IsFailure()
    {
      if Rejected? then Rejected(error) else Wrapped
    }

    function Extract(): T
      requires Done?
    {
      value
    }
  }

  /** A failed read whose status the source ignores: the default stays and nothing is
      consumed. */
  function OrElse<T>(r: Parse<(T, nat)>, default: T, pos: nat): Parse<(T, nat)> {
    if r.Rejected? then Done((default, pos)) else r
  }

  /** unpack_uint8_array, with the end position computed in 32 bits. */
  function ReadBytes(b: seq<byte>, pos: nat, n: nat): (r: Parse<(seq<byte>, nat)>)
    ensures r.Done? ==> |r.value.0| == n && r.value.1 == pos + n <= |b|
    ensures r.Wrapped? ==> pos + n >= TWO_32
  {
    if (pos + n) % TWO_32 > |b| then Rejected(-ERROR_DB)
    else if pos + n > |b| then Wrapped
    else Done((b[pos..pos + n], pos + n))
  }

  function Read8(b: seq<byte>, pos: nat): Parse<(byte, nat)> {
    if pos >= |b| then Rejected(-ERROR_DB) else Done((b[pos], pos + 1))
  }

  function Read32(b: seq<byte>, pos: nat): Parse<(uint32, nat)> {
    var (s, end) :- ReadBytes(b, pos, 4);
    Done((FromBe32(s), end))
  }

  function Read64(b: seq<byte>, pos: nat): Parse<(uint64, nat)> {
    var (s, end) :- ReadBytes(b, pos, 8);
    Done((FromBe64(s), end))
  }

  function ReadId(b: seq<byte>, pos: nat): Parse<(Id256, nat)> {
    var (s, end) :- ReadBytes(b, pos, 32);
    Done((s, end))
  }

  function Verify32(expected: uint32, b: seq<byte>, pos: nat): Parse<nat> {
    var (x, end) :- Read32(b, pos);
    if x == expected then Done(end) else Rejected(-ERROR_DB)
  }

  function Verify8(expected: byte, b: seq<byte>, pos: nat): Parse<nat> {
    var (x, end) :- Read8(b, pos);
    if x == expected then Done(end) else Rejected(-ERROR_DB)
  }

  /** Answers of the outside world while unpacking: which allocations succeed, and the random
      identities made up for what old versions do not store. */
  datatype World = World(
    allocDatabase: bool,
    allocSet: bool,
    allocTemplate: nat -> bool,
    randomId: Option<uint64>,
    randomState: Option<Id256>)

  function FromRandom<T>(o: Option<T>, pos: nat): Parse<(T, nat)> {
    if o.Some? then Done((o.value, pos)) else Rejected(-ERROR_IO)
  }

  function UnpackEntry(b: seq<byte>, pos: nat, version: byte, w: World): Parse<(Fingerprint, nat)> {
    var (valid, p0) :- OrElse(Read32(b, pos), 0, pos);
    if valid == 1 then
      var (id, p1) :- OrElse(ReadId(b, p0), ZERO_ID, p0);
      var (userId, p2) :- if version >= 3 then OrElse(Read64(b, p1), 0, p1) else Done((0, p1));
      var (size, p3) :- Read32(b, p2);
      if !w.allocTemplate(size) then Rejected(-ERROR_ALLOC)
      else
        var (template, p4) :- OrElse(ReadBytes(b, p3, size), Repeat(0, size), p3);
        Done((Fingerprint(1, id, userId, template), p4))
    else if valid == 0 then Done((FREE_ENTRY, p0))
    else Rejected(-ERROR_DB)
  }

  function UnpackEntries(b: seq<byte>, pos: nat, version: byte, w: World, n: nat)
    : Parse<(seq<Fingerprint>, nat)>
    decreases n
  {
    if n == 0 then Done(([], pos))
    else
      var (f, p0) :- UnpackEntry(b, pos, version, w);
      var (rest, p1) :- UnpackEntries(b, p0, version, w, n - 1);
      Done(([f] + rest, p1))
  }

  function UnpackSet(b: seq<byte>, pos: nat, version: byte, w: World): Parse<(FingerprintSet, nat)> {
    if !w.allocSet then Rejected(-ERROR_ALLOC)
    else
      var (key, p0) :- OrElse(Read32(b, pos), 0, pos);
      var p1 :- Verify32(MARKER_SET_IDS, b, p0);
      var (setId, p2) :- OrElse(ReadId(b, p1), ZERO_ID, p1);
      var (stateId, p3) :- if version >= 4 then OrElse(ReadId(b, p2), ZERO_ID, p2)
                           else FromRandom(w.randomState, p2);
      var (entries, p4) :- UnpackEntries(b, p3, version, w, SLOTS);
      Done((FingerprintSet(key, setId, stateId, entries), p4))
  }

  /** db_unpack_v2_v3_v4. */
  function UnpackVersion(b: seq<byte>, version: byte, w: World): Parse<Database> {
    if !w.allocDatabase then Rejected(-ERROR_ALLOC)
    else
      var p0 :- Verify32(MARKER_DB, b, 0);
      var p1 :- Verify8(version, b, p0);
      var (id, p2) :- if version >= 3 then OrElse(Read64(b, p1), 0, p1)
                      else FromRandom(w.randomId, p1);
      var (count, p3) :- OrElse(Read32(b, p2), 0, p2);
      var p4 :- Verify32(MARKER_SETS, b, p3);
      if count > 1 then Rejected(-ERROR_DB)
      else if count == 0 then
        var _ :- Verify32(MARKER_EOF, b, p4);
        Done(Database(id, None))
      else
        var (s, p5) :- UnpackSet(b, p4, version, w);
        var _ :- Verify32(MARKER_EOF, b, p5);
        Done(Database(id, Some(s)))
  }

  /** db_unpack: the version byte selects the unpacker; only 2, 3 and 4 are supported. */
  function Unpack(b: seq<byte>, w: World): Parse<Database> {
    var p0 :- Verify32(MARKER_DB, b, 0);
    var (version, _) :- Read8(b, p0);
    if version in {2, 3, 4} then UnpackVersion(b, version, w) else Rejected(-ERROR_DB)
  }

  // ---------------------------------------------------------------- reads of known contents

  lemma ReadsBytes(b: seq<byte>, pos: nat, x: seq<byte>, rest: seq<byte>)
    requires pos <= |b| < TWO_32
    requires b[pos..] == x + rest
    ensures ReadBytes(b, pos, |x|) == Done((x, pos + |x|))
    ensures b[pos + |x|..] == rest
  {
    assert |b| == pos + |x| + |rest|;
    assert b[pos..pos + |x|] == b[pos..][..|x|];
    assert b[pos + |x|..] == b[pos..][|x|..];
  }

  lemma Reads32(b: seq<byte>, pos: nat, x: uint32, rest: seq<byte>)
    requires pos <= |b| < TWO_32
    requires b[pos..] == Be32(x) + rest
    ensures Read32(b, pos) == Done((x, pos + 4))
    ensures b[pos + 4..] == rest
  {
    ReadsBytes(b, pos, Be32(x), rest);
    Be32RoundTrip(x);
  }

  lemma Reads64(b: seq<byte>, pos: nat, x: uint64, rest: seq<byte>)
    requires pos <= |b| < TWO_32
    requires b[pos..] == Be64(x) + rest
    ensures Read64(b, pos) == Done((x, pos + 8))
    ensures b[pos + 8..] == rest
  {
    ReadsBytes(b, pos, Be64(x), rest);
    Be64RoundTrip(x);
  }

  // ---------------------------------------------------------------- round trip

  /** What survives of an entry: version 2 has no user id, and a free entry is cleared. */
  function KeptEntry(version: byte, f: Fingerprint): Fingerprint {
    if f.valid == 1 then f.(userId := if version >= 3 then f.userId else 0) else FREE_ENTRY
  }

  function KeptEntries(version: byte, entries: seq<Fingerprint>): (r: seq<Fingerprint>)
    ensures |r| == |entries|
    ensures forall i :: 0 <= i < |r| ==> r[i] == KeptEntry(version, entries[i])
  {
    seq(|entries|, i requires 0 <= i < |entries| => KeptEntry(version, entries[i]))
  }

  function KeptSet(version: byte, s: FingerprintSet, w: World): FingerprintSet
    requires version < 4 ==> w.randomState.Some?
  {
    FingerprintSet(s.key, s.setId, if version >= 4 then s.stateId else w.randomState.value,
                   KeptEntries(version, s.entries))
  }

  /** What unpacking a packed database must give back. */
  function Kept(version: byte, db: Database, w: World): Database
    requires version < 3 ==> w.randomId.Some?
    requires version < 4 ==> w.randomState.Some?
  {
    Database(if version >= 3 then db.id else w.randomId.value,
             if db.fingers.Some? then Some(KeptSet(version, db.fingers.value, w)) else None)
  }

  /** The world grants the allocations and random numbers needed to read `db`. */
  ghost predicate Grants(w: World, version: byte, db: Database) {
    && w.allocDatabase
    && (version < 3 ==> w.randomId.Some?)
    && (version < 4 ==> w.randomState.Some?)
    && (db.fingers.Some? ==> w.allocSet && GrantsEntries(w, db.fingers.value.entries))
  }

  ghost predicate GrantsEntries(w: World, entries: seq<Fingerprint>) {
    forall i :: 0 <= i < |entries| && entries[i].valid == 1 ==> w.allocTemplate(|entries[i].template|)
  }

  /** The part of an entry after its id. */
  function EncodeRest(version: byte, f: Fingerprint): seq<byte>
    requires |f.template| < TWO_32
  {
    (if version >= 3 then Be64(f.userId) else []) + (Be32(|f.template|) + f.template)
  }

  lemma EncodeEntryParts(version: byte, f: Fingerprint, rest: seq<byte>)
    requires |f.template| < TWO_32 && f.valid == 1
    ensures EncodeEntry(version, f) + rest == Be32(1) + (f.id + (EncodeRest(version, f) + rest))
    ensures |EncodeEntry(version, f)| == 36 + |EncodeRest(version, f)|
  {
    hide Be32, Be64;
  }

  lemma RestRoundTrip(b: seq<byte>, pos: nat, version: byte, f: Fingerprint, rest: seq<byte>)
    requires pos <= |b| < TWO_32 && |f.template| < TWO_32
    requires b[pos..] == EncodeRest(version, f) + rest
    ensures var p := pos + if version >= 3 then 8 else 0;
            && (version >= 3 ==> Read64(b, pos) == Done((f.userId, p)))
            && Read32(b, p) == Done((|f.template|, p + 4))
            && ReadBytes(b, p + 4, |f.template|) == Done((f.template, p + 4 + |f.template|))
            && pos + |EncodeRest(version, f)| == p + 4 + |f.template| <= |b|
    ensures b[pos + |EncodeRest(version, f)|..] == rest
  {
    hide Be32, Be64, Read32, Read64, ReadBytes;
    var r3 := f.template + rest;
    var r2 := Be32(|f.template|) + r3;
    var p := pos;
    if version >= 3 {
      assert b[pos..] == Be64(f.userId) + r2;
      Reads64(b, pos, f.userId, r2);
      p := pos + 8;
    } else {
      assert b[pos..] == r2;
    }
    Reads32(b, p, |f.template|, r3);
    ReadsBytes(b, p + 4, f.template, rest);
    assert p + 4 <= |b|;
  }

  lemma EntryRoundTrip(b: seq<byte>, pos: nat, version: byte, w: World, f: Fingerprint, rest: seq<byte>)
    requires pos <= |b| < TWO_32
    requires f.valid in {0, 1} && |f.template| < TWO_32
    requires f.valid == 1 ==> w.allocTemplate(|f.template|)
    requires b[pos..] == EncodeEntry(version, f) + rest
    ensures UnpackEntry(b, pos, version, w)
            == Done((KeptEntry(version, f), pos + |EncodeEntry(version, f)|))
    ensures pos + |EncodeEntry(version, f)| <= |b|
    ensures b[pos + |EncodeEntry(version, f)|..] == rest
  {
    hide Be32, Read32, Read64, ReadBytes, EncodeRest;
    if f.valid == 1 {
      EncodeEntryParts(version, f, rest);
      var r1 := EncodeRest(version, f) + rest;
      Reads32(b, pos, 1, f.id + r1);
      ReadsBytes(b, pos + 4, f.id, r1);
      RestRoundTrip(b, pos + 36, version, f, rest);
    } else {
      Reads32(b, pos, f.valid, rest);
    }
  }

  lemma {:induction false} EntriesRoundTrip(
    b: seq<byte>, pos: nat, version: byte, w: World, entries: seq<Fingerprint>, rest: seq<byte>)
    requires pos <= |b| < TWO_32
    requires Flagged(entries) && GrantsEntries(w, entries)
    requires b[pos..] == EncodeEntries(version, entries) + rest
    ensures UnpackEntries(b, pos, version, w, |entries|)
            == Done((KeptEntries(version, entries), pos + |EncodeEntries(version, entries)|))
    ensures pos + |EncodeEntries(version, entries)| <= |b|
    ensures b[pos + |EncodeEntries(version, entries)|..] == rest
    decreases |entries|
  {
    hide EncodeEntry, UnpackEntry, KeptEntry;
    if entries != [] {
      var e, tail := EncodeEntry(version, entries[0]), EncodeEntries(version, entries[1..]);
      assert b[pos..] == e + (tail + rest);
      EntryRoundTrip(b, pos, version, w, entries[0], tail + rest);
      EntriesRoundTrip(b, pos + |e|, version, w, entries[1..], rest);
      assert KeptEntries(version, entries)
             == [KeptEntry(version, entries[0])] + KeptEntries(version, entries[1..]);
    }
  }

  lemma EncodeSetParts(version: byte, s: FingerprintSet, rest: seq<byte>)
    requires Flagged(s.entries)
    ensures var state: seq<byte> := if version >= 4 then s.stateId else [];
            && EncodeSet(version, s) + rest
               == Be32(s.key) + (Be32(MARKER_SET_IDS) + (s.setId + (state + (EncodeEntries(version, s.entries) + rest))))
            && |EncodeSet(version, s)| == 40 + |state| + |EncodeEntries(version, s.entries)|
  {
    hide Be32, EncodeEntries;
  }

  lemma SetRoundTrip(
    b: seq<byte>, pos: nat, version: byte, w: World, s: FingerprintSet, rest: seq<byte>)
    requires pos <= |b| < TWO_32
    requires |s.entries| == SLOTS && Flagged(s.entries)
    requires w.allocSet && GrantsEntries(w, s.entries)
    requires version < 4 ==> w.randomState.Some?
    requires b[pos..] == EncodeSet(version, s) + rest
    ensures UnpackSet(b, pos, version, w)
            == Done((KeptSet(version, s, w), pos + |EncodeSet(version, s)|))
    ensures pos + |EncodeSet(version, s)| <= |b|
    ensures b[pos + |EncodeSet(version, s)|..] == rest
  {
    hide Be32, Read32, ReadBytes, UnpackEntries, EncodeEntries, KeptEntries, EncodeSet;
    var r3 := EncodeEntries(version, s.entries) + rest;
    var r2 := (if version >= 4 then s.stateId else []) + r3;
    var r1 := s.setId + r2;
    EncodeSetParts(version, s, rest);
    Reads32(b, pos, s.key, Be32(MARKER_SET_IDS) + r1);
    Reads32(b, pos + 4, MARKER_SET_IDS, r1);
    ReadsBytes(b, pos + 8, s.setId, r2);
    var p := pos + 40;
    if version >= 4 {
      ReadsBytes(b, p, s.stateId, r3);
      p := p + 32;
    } else {
      assert r2 == r3;
    }
    EntriesRoundTrip(b, p, version, w, s.entries, rest);
  }

  /** Unpacking gives back the packed database, in every supported version: key, set id, and of
      each entry in use its id, user id and template. */
  lemma RoundTrip(version: byte, db: Database, w: World)
    requires version in {2, 3, 4}
    requires db.Valid() && |EncodeVersion(version, db)| < TWO_32
    requires Grants(w, version, db)
    ensures Unpack(EncodeVersion(version, db), w) == Done(Kept(version, db, w))
  {
    hide Be32, Be64, Read32, Read64, ReadBytes, UnpackSet, EncodeSet, KeptSet;
    var b := EncodeVersion(version, db);
    var eof := Be32(MARKER_EOF);
    var r5 := (if db.fingers.Some? then EncodeSet(version, db.fingers.value) else []) + eof;
    var r4 := Be32(MARKER_SETS) + r5;
    var r3 := Be32(if db.fingers.Some? then 1 else 0) + r4;
    var r2 := (if version >= 3 then Be64(db.id) else []) + r3;
    assert b == Be32(MARKER_DB) + ([version] + r2);
    assert b[0..] == b;
    Reads32(b, 0, MARKER_DB, [version] + r2);
    ReadsBytes(b, 4, [version], r2);
    assert b[4] == version;
    var p := 5;
    if version >= 3 {
      Reads64(b, p, db.id, r3);
      p := p + 8;
    } else {
      assert r2 == r3;
    }
    Reads32(b, p, if db.fingers.Some? then 1 else 0, r4);
    Reads32(b, p + 4, MARKER_SETS, r5);
    p := p + 8;
    if db.fingers.Some? {
      SetRoundTrip(b, p, version, w, db.fingers.value, eof);
      p := p + |EncodeSet(version, db.fingers.value)|;
    } else {
      assert r5 == eof;
    }
    assert eof == eof + [];
    Reads32(b, p, MARKER_EOF, []);
  }

  // ---------------------------------------------------------------- upgrading

  lemma UnpackedEntry(b: seq<byte>, pos: nat, version: byte, w: World)
    requires UnpackEntry(b, pos, version, w).Done?
    ensures var f := UnpackEntry(b, pos, version, w).value.0;
            f.valid in {0, 1} && |f.template| < TWO_32 && KeptEntry(4, f) == f
  {
    hide Read64, ReadId;
  }

  lemma {:induction false} UnpackedEntries(b: seq<byte>, pos: nat, version: byte, w: World, n: nat)
    requires UnpackEntries(b, pos, version, w, n).Done?
    ensures var es := UnpackEntries(b, pos, version, w, n).value.0;
            && |es| == n && Flagged(es) && KeptEntries(4, es) == es
    decreases n
  {
    hide UnpackEntry, KeptEntry;
    if n > 0 {
      UnpackedEntry(b, pos, version, w);
      var (f, p0) := UnpackEntry(b, pos, version, w).value;
      UnpackedEntries(b, p0, version, w, n - 1);
    }
  }

  lemma UnpackedSet(b: seq<byte>, pos: nat, version: byte, w: World)
    requires UnpackSet(b, pos, version, w).Done?
    ensures var s := UnpackSet(b, pos, version, w).value.0;
            |s.entries| == SLOTS && Flagged(s.entries) && KeptSet(4, s, w) == s
  {
    hide Read32, ReadId, UnpackEntries, KeptEntries;
    var (_, p0) := OrElse(Read32(b, pos), 0, pos).value;
    var p1 := Verify32(MARKER_SET_IDS, b, p0).value;
    var (_, p2) := OrElse(ReadId(b, p1), ZERO_ID, p1).value;
    var (_, p3) := (if version >= 4 then OrElse(ReadId(b, p2), ZERO_ID, p2)
                    else FromRandom(w.randomState, p2)).value;
    UnpackedEntries(b, p3, version, w, SLOTS);
  }

  /** Everything the unpacker accepts is a valid database with its free entries cleared. */
  lemma UnpackedValid(b: seq<byte>, w: World)
    requires Unpack(b, w).Done?
    ensures Unpack(b, w).value.Valid()
    ensures Kept(4, Unpack(b, w).value, w) == Unpack(b, w).value
  {
    hide Read32, Read64, Verify8, UnpackSet, KeptSet;
    var p := Verify32(MARKER_DB, b, 0).value;
    var version := Read8(b, p).value.0;
    var p1 := Verify8(version, b, p).value;
    var (_, p2) := (if version >= 3 then OrElse(Read64(b, p1), 0, p1)
                    else FromRandom(w.randomId, p1)).value;
    var (_, p3) := OrElse(Read32(b, p2), 0, p2).value;
    var p4 := Verify32(MARKER_SETS, b, p3).value;
    if Unpack(b, w).value.fingers.Some? {
      UnpackedSet(b, p4, version, w);
    }
  }

  /** What accepted bytes begin with: the marker, a supported version, from version 3 on an id, a
      count of sets that is 0 or 1, and the marker of the sets; a count of 0 is followed by the end
      marker. */
  lemma AcceptedHeader(b: seq<byte>, w: World)
    requires |b| < TWO_32 && Unpack(b, w).Done?
    ensures |b| >= 17 && FromBe32(b[..4]) == MARKER_DB && b[4] in {2, 3, 4}
    ensures var p := if b[4] >= 3 then 13 else 5;
            && p + 12 <= |b|
            && FromBe32(b[p..p + 4]) == (if Unpack(b, w).value.fingers.Some? then 1 else 0)
            && FromBe32(b[p + 4..p + 8]) == MARKER_SETS
            && (b[4] >= 3 ==> Unpack(b, w).value.id == FromBe64(b[5..13]))
            && (Unpack(b, w).value.fingers.None? ==> FromBe32(b[p + 8..p + 12]) == MARKER_EOF)
  {
    hide UnpackSet, FromBe32, FromBe64;
    assert b[0..4] == b[..4];
    SetNeedsRoom(b, if b[4] >= 3 then 21 else 13, b[4], w);
  }

  /** What an accepted set begins with, and that the end marker follows its slots. */
  lemma AcceptedSet(b: seq<byte>, w: World)
    requires |b| < TWO_32 && Unpack(b, w).Done? && Unpack(b, w).value.fingers.Some?
    ensures var p, s := if b[4] >= 3 then 21 else 13, Unpack(b, w).value.fingers.value;
            && p + 8 <= |b|
            && FromBe32(b[p..p + 4]) == s.key && FromBe32(b[p + 4..p + 8]) == MARKER_SET_IDS
            && exists end: nat :: Verify32(MARKER_EOF, b, end).Done? && UnpackSet(b, p, b[4], w) == Done((s, end))
  {
    hide UnpackSet, FromBe32, FromBe64;
    AcceptedHeader(b, w);
    assert b[0..4] == b[..4];
    SetHeader(b, if b[4] >= 3 then 21 else 13, b[4], w);
  }

  lemma SetHeader(b: seq<byte>, pos: nat, version: byte, w: World)
    requires |b| < TWO_32 && pos <= |b| && UnpackSet(b, pos, version, w).Done?
    ensures pos + 8 <= |b|
    ensures FromBe32(b[pos..pos + 4]) == UnpackSet(b, pos, version, w).value.0.key
    ensures FromBe32(b[pos + 4..pos + 8]) == MARKER_SET_IDS
  {
    hide UnpackEntries, FromBe32, ReadId;
  }

  /** A slot is accepted only with a flag of 0 or 1, which it keeps; without a readable flag it is
      free. */
  lemma AcceptedFlag(b: seq<byte>, pos: nat, version: byte, w: World)
    requires UnpackEntry(b, pos, version, w).Done?
    ensures var flag, f := Read32(b, pos), UnpackEntry(b, pos, version, w).value.0;
            && (flag.Done? ==> flag.value.0 in {0, 1} && f.valid == flag.value.0)
            && (flag.Rejected? ==> f == FREE_ENTRY)
            && (f.valid == 0 ==> f.template == [] && f.userId == 0 && f.id == ZERO_ID)
            && (version < 3 ==> f.userId == 0)
  {
    hide Read32, Read64, ReadId;
  }

  lemma SetNeedsRoom(b: seq<byte>, pos: nat, version: byte, w: World)
    requires |b| < TWO_32 && pos <= |b|
    ensures UnpackSet(b, pos, version, w).Done? ==> pos + 4 <= |b|
  {
    hide UnpackEntries, FromBe32;
  }

  /** Upgrading loses nothing: whatever bytes of version 2, 3 or 4 were accepted, packing the
      result in version 4 and unpacking again gives the same database. */
  lemma UpgradeStable(b: seq<byte>, w: World, w': World)
    requires Unpack(b, w).Done?
    requires var db := Unpack(b, w).value;
             db.Valid() ==> |Encode(db)| < TWO_32 && Grants(w', 4, db)
    ensures Unpack(b, w).value.Valid()
    ensures Unpack(Encode(Unpack(b, w).value), w') == Unpack(b, w)
  {
    hide Unpack;
    UnpackedValid(b, w);
    RoundTrip(4, Unpack(b, w).value, w');
  }

  // ---------------------------------------------------------------- other worlds

  /** The same set up to its state id. */
  predicate SameSet(s: FingerprintSet, s': FingerprintSet) {
    s.key == s'.key && s.setId == s'.setId && s.entries == s'.entries
  }

  predicate SameFingers(db: Database, db': Database) {
    if db.fingers.Some? then db'.fingers.Some? && SameSet(db.fingers.value, db'.fingers.value)
    else db'.fingers.None?
  }

  lemma EntryAnyWorld(b: seq<byte>, pos: nat, version: byte, w: World, w': World)
    requires UnpackEntry(b, pos, version, w).Done?
    ensures UnpackEntry(b, pos, version, w') == UnpackEntry(b, pos, version, w)
            || UnpackEntry(b, pos, version, w').Rejected?
  {
    hide Read32, Read64, ReadId, ReadBytes;
  }

  lemma {:induction false} EntriesAnyWorld(b: seq<byte>, pos: nat, version: byte, w: World, w': World, n: nat)
    requires UnpackEntries(b, pos, version, w, n).Done?
    ensures UnpackEntries(b, pos, version, w', n) == UnpackEntries(b, pos, version, w, n)
            || UnpackEntries(b, pos, version, w', n).Rejected?
    decreases n
  {
    hide UnpackEntry;
    if n > 0 {
      EntryAnyWorld(b, pos, version, w, w');
      EntriesAnyWorld(b, UnpackEntry(b, pos, version, w).value.1, version, w, w', n - 1);
    }
  }

  lemma SetAnyWorld(b: seq<byte>, pos: nat, version: byte, w: World, w': World)
    requires UnpackSet(b, pos, version, w).Done?
    ensures var r, r' := UnpackSet(b, pos, version, w), UnpackSet(b, pos, version, w');
            || r'.Rejected?
            || (r'.Done? && r'.value.1 == r.value.1 && SameSet(r.value.0, r'.value.0) && (version >= 4 ==> r' == r))
  {
    hide Read32, ReadId, UnpackEntries;
    var (_, p0) := OrElse(Read32(b, pos), 0, pos).value;
    var p1 := Verify32(MARKER_SET_IDS, b, p0).value;
    var (_, p2) := OrElse(ReadId(b, p1), ZERO_ID, p1).value;
    var (_, p3) := (if version >= 4 then OrElse(ReadId(b, p2), ZERO_ID, p2)
                    else FromRandom(w.randomState, p2)).value;
    EntriesAnyWorld(b, p3, version, w, w', SLOTS);
  }

  lemma VersionAnyWorld(b: seq<byte>, version: byte, w: World, w': World)
    requires UnpackVersion(b, version, w).Done?
    ensures var r, r' := UnpackVersion(b, version, w), UnpackVersion(b, version, w');
            || r'.Rejected?
            || (r'.Done? && SameFingers(r.value, r'.value) && (version >= 4 ==> r' == r))
  {
    hide Read32, Read64, Verify8, UnpackSet;
    var p := Verify32(MARKER_DB, b, 0).value;
    var p1 := Verify8(version, b, p).value;
    var (_, p2) := (if version >= 3 then OrElse(Read64(b, p1), 0, p1)
                    else FromRandom(w.randomId, p1)).value;
    var (count, p3) := OrElse(Read32(b, p2), 0, p2).value;
    var p4 := Verify32(MARKER_SETS, b, p3).value;
    if count == 1 {
      SetAnyWorld(b, p4, version, w, w');
    }
  }

  /** Which fingerprints some bytes unpack to does not depend on the world; memory or random
      numbers may run out, but bytes that unpack somewhere never go beyond the description. */
  lemma AnyWorld(b: seq<byte>, w: World, w': World)
    requires Unpack(b, w).Done?
    ensures Unpack(b, w').Rejected? || (Unpack(b, w').Done? && SameFingers(Unpack(b, w).value, Unpack(b, w').value))
  {
    hide UnpackVersion, Verify32, Read8;
    var p := Verify32(MARKER_DB, b, 0).value;
    VersionAnyWorld(b, Read8(b, p).value.0, w, w');
  }

  /** A world that grants everything. */
  function Generous(): World {
    World(true, true, _ => true, Some(0), Some(ZERO_ID))
  }

  /** Unpacking a packed database either gives it back or fails for lack of memory. */
  lemma EncodedUnpacks(db: Database, w: World)
    requires db.Valid() && |Encode(db)| < TWO_32
    ensures Unpack(Encode(db), w) == Done(Kept(4, db, Generous())) || Unpack(Encode(db), w).Rejected?
    ensures Unpack(Encode(db), Generous()) == Done(Kept(4, db, Generous()))
  {
    hide UnpackVersion, Kept, Encode, Verify32, Read8;
    RoundTripGenerous(db);
    EncodedVersion(db);
    VersionAnyWorld(Encode(db), 4, Generous(), w);
  }

  lemma RoundTripGenerous(db: Database)
    requires db.Valid() && |Encode(db)| < TWO_32
    ensures Unpack(Encode(db), Generous()) == Done(Kept(4, db, Generous()))
  {
    hide Unpack, EncodeVersion, Kept;
    RoundTrip(4, db, Generous());
  }

  lemma EncodedVersion(db: Database)
    requires db.Valid() && |Encode(db)| < TWO_32
    ensures Verify32(MARKER_DB, Encode(db), 0) == Done(4) && Read8(Encode(db), 4) == Done((4 as byte, 5))
  {
    hide Be32, Be64, Read32, EncodeSet;
    var b := Encode(db);
    assert b == Be32(MARKER_DB) + b[4..];
    assert b[0..] == b;
    Reads32(b, 0, MARKER_DB, b[4..]);
  }

  // ---------------------------------------------------------------- wrapped positions

  /** Bytes p to p + 4 announce a template whose end, counted from there, is beyond 32 bits,
      and memory for it is granted. */
  predicate HugeAt(b: seq<byte>, p: nat, w: World) {
    && p + 4 <= |b|
    && w.allocTemplate(FromBe32(b[p..p + 4]))
    && p + 4 + FromBe32(b[p..p + 4]) >= TWO_32
  }

  /** Short enough for the fixed fields never to reach the end of 32 bits. */
  predicate Moderate(b: seq<byte>) { |b| < TWO_32 - 32 }

  lemma FixedNeverWrap(b: seq<byte>, pos: nat)
    requires pos <= |b| && Moderate(b)
    ensures !Read32(b, pos).Wrapped? && !Read64(b, pos).Wrapped? && !ReadId(b, pos).Wrapped?
    ensures Read32(b, pos).Done? ==>
              && pos + 4 == Read32(b, pos).value.1 <= |b|
              && Read32(b, pos).value.0 == FromBe32(b[pos..pos + 4])
    ensures Read64(b, pos).Done? ==> Read64(b, pos).value.1 <= |b|
    ensures ReadId(b, pos).Done? ==> ReadId(b, pos).value.1 <= |b|
  {
    hide FromBe32, FromBe64;
  }

  lemma EntryWraps(b: seq<byte>, pos: nat, version: byte, w: World)
    requires pos <= |b| && Moderate(b)
    ensures UnpackEntry(b, pos, version, w).Done? ==> UnpackEntry(b, pos, version, w).value.1 <= |b|
    ensures UnpackEntry(b, pos, version, w).Wrapped? ==> exists p: nat :: HugeAt(b, p, w)
  {
    hide Read32, Read64, ReadId, HugeAt, FromBe32;
    FixedNeverWrap(b, pos);
    var (valid, p0) := OrElse(Read32(b, pos), 0, pos).value;
    if valid == 1 {
      FixedNeverWrap(b, p0);
      var (_, p1) := OrElse(ReadId(b, p0), ZERO_ID, p0).value;
      FixedNeverWrap(b, p1);
      var (_, p2) := (if version >= 3 then OrElse(Read64(b, p1), 0, p1) else Done((0, p1))).value;
      FixedNeverWrap(b, p2);
      if UnpackEntry(b, pos, version, w).Wrapped? {
        assert HugeAt(b, p2, w) by { IsHuge(b, p2, w); }
      }
    }
  }

  lemma IsHuge(b: seq<byte>, p: nat, w: World)
    requires p + 4 <= |b| && w.allocTemplate(FromBe32(b[p..p + 4]))
    requires ReadBytes(b, p + 4, FromBe32(b[p..p + 4])).Wrapped?
    ensures HugeAt(b, p, w)
  {
  }

  lemma {:induction false} EntriesWrap(b: seq<byte>, pos: nat, version: byte, w: World, n: nat)
    requires pos <= |b| && Moderate(b)
    ensures UnpackEntries(b, pos, version, w, n).Done? ==> UnpackEntries(b, pos, version, w, n).value.1 <= |b|
    ensures UnpackEntries(b, pos, version, w, n).Wrapped? ==> exists p: nat :: HugeAt(b, p, w)
    decreases n
  {
    hide UnpackEntry, HugeAt;
    if n > 0 {
      EntryWraps(b, pos, version, w);
      var e := UnpackEntry(b, pos, version, w);
      if e.Done? {
        EntriesWrap(b, e.value.1, version, w, n - 1);
      }
    }
  }

  lemma SetWraps(b: seq<byte>, pos: nat, version: byte, w: World)
    requires pos <= |b| && Moderate(b)
    ensures UnpackSet(b, pos, version, w).Done? ==> UnpackSet(b, pos, version, w).value.1 <= |b|
    ensures UnpackSet(b, pos, version, w).Wrapped? ==> exists p: nat :: HugeAt(b, p, w)
  {
    hide Read32, ReadId, UnpackEntries, HugeAt;
    FixedNeverWrap(b, pos);
    var (_, p0) := OrElse(Read32(b, pos), 0, pos).value;
    FixedNeverWrap(b, p0);
    var r1 := Verify32(MARKER_SET_IDS, b, p0);
    if r1.Done? {
      FixedNeverWrap(b, r1.value);
      var (_, p2) := OrElse(ReadId(b, r1.value), ZERO_ID, r1.value).value;
      FixedNeverWrap(b, p2);
      var r3 := if version >= 4 then OrElse(ReadId(b, p2), ZERO_ID, p2) else FromRandom(w.randomState, p2);
      if r3.Done? {
        EntriesWrap(b, r3.value.1, version, w, SLOTS);
      }
    }
  }

  lemma VersionWraps(b: seq<byte>, version: byte, w: World)
    requires Moderate(b)
    ensures UnpackVersion(b, version, w).Wrapped? ==> exists p: nat :: HugeAt(b, p, w)
  {
    hide Read32, Read64, UnpackSet, HugeAt;
    FixedNeverWrap(b, 0);
    var r0 := Verify32(MARKER_DB, b, 0);
    if r0.Done? && Verify8(version, b, r0.value).Done? {
      var p1 := Verify8(version, b, r0.value).value;
      FixedNeverWrap(b, p1);
      var r2 := if version >= 3 then OrElse(Read64(b, p1), 0, p1) else FromRandom(w.randomId, p1);
      if r2.Done? {
        FixedNeverWrap(b, r2.value.1);
        var p3 := OrElse(Read32(b, r2.value.1), 0, r2.value.1).value.1;
        FixedNeverWrap(b, p3);
        var r4 := Verify32(MARKER_SETS, b, p3);
        if r4.Done? {
          FixedNeverWrap(b, r4.value);
          SetWraps(b, r4.value, version, w);
          var r5 := UnpackSet(b, r4.value, version, w);
          if r5.Done? {
            FixedNeverWrap(b, r5.value.1);
          }
        }
      }
    }
  }

  /** A position wraps around only where the bytes announce a template that ends beyond 32 bits
      and memory for it was granted. */
  lemma WrapNeedsHugeTemplate(b: seq<byte>, w: World)
    requires Moderate(b) && Unpack(b, w).Wrapped?
    ensures exists p: nat :: HugeAt(b, p, w)
  {
    hide UnpackVersion, Read32, HugeAt;
    FixedNeverWrap(b, 0);
    VersionWraps(b, Read8(b, Verify32(MARKER_DB, b, 0).value).value.0, w);
  }

  /** No block is granted that together with `length` bytes would exceed 32 bits. */
  ghost predicate Confined(w: World, length: nat) {
    forall n: nat :: w.allocTemplate(n) ==> length + n < TWO_32
  }

  /** With such an allocator no position ever wraps around, whatever the bytes. */
  lemma NeverWraps(b: seq<byte>, w: World)
    requires Moderate(b) && Confined(w, |b|)
    ensures !Unpack(b, w).Wrapped?
  {
    hide Unpack, FromBe32;
    if Unpack(b, w).Wrapped? {
      WrapNeedsHugeTemplate(b, w);
    }
  }

  /** The start of an entry in use that announces n bytes of template and then stops. */
  function Cut(n: uint32): seq<byte> {
    Be32(1) + (ZERO_ID + (Be64(0) + Be32(n)))
  }

  function Filler(t: uint32): Fingerprint {
    Fingerprint(1, ZERO_ID, 0, Repeat(0, t))
  }

  /** A set of one ordinary template of t bytes and a second one that stops after its size. */
  function CutSet(t: uint32, n: uint32): seq<byte> {
    Be32(0) + (Be32(MARKER_SET_IDS) + (ZERO_ID + (ZERO_ID + (EncodeEntry(4, Filler(t)) + Cut(n)))))
  }

  function CutDatabase(t: uint32, n: uint32): (b: seq<byte>)
    ensures |b| == 189 + t
  {
    FillerLength(t);
    Be32(MARKER_DB) + ([4] + (Be64(0) + (Be32(1) + (Be32(MARKER_SETS) + CutSet(t, n)))))
  }

  lemma FillerLength(t: uint32)
    ensures |EncodeEntry(4, Filler(t))| == 48 + t
  {
    hide Be32, Be64;
  }

  lemma CutEntryWraps(b: seq<byte>, pos: nat, n: uint32, w: World)
    requires pos <= |b| && Moderate(b) && b[pos..] == Cut(n)
    requires w.allocTemplate(n) && |b| + n >= TWO_32
    ensures UnpackEntry(b, pos, 4, w).Wrapped?
  {
    hide Be32, Be64, Read32, Read64, ReadBytes;
    Reads32(b, pos, 1, ZERO_ID + (Be64(0) + Be32(n)));
    ReadsBytes(b, pos + 4, ZERO_ID, Be64(0) + Be32(n));
    Reads64(b, pos + 36, 0, Be32(n));
    assert Be32(n) == Be32(n) + [];
    Reads32(b, pos + 44, n, []);
    PastTheEnd(b, n);
  }

  lemma PastTheEnd(b: seq<byte>, n: uint32)
    requires |b| < TWO_32 <= |b| + n
    ensures ReadBytes(b, |b|, n).Wrapped?
  {
  }

  lemma CutEntriesWrap(b: seq<byte>, pos: nat, t: uint32, n: uint32, w: World)
    requires pos <= |b| && Moderate(b) && b[pos..] == EncodeEntry(4, Filler(t)) + Cut(n)
    requires w.allocTemplate(t) && w.allocTemplate(n) && |b| + n >= TWO_32
    ensures UnpackEntries(b, pos, 4, w, SLOTS).Wrapped?
  {
    hide EncodeEntry, UnpackEntry, KeptEntry, Cut;
    EntryRoundTrip(b, pos, 4, w, Filler(t), Cut(n));
    var p := pos + |EncodeEntry(4, Filler(t))|;
    CutEntryWraps(b, p, n, w);
    assert UnpackEntries(b, p, 4, w, SLOTS - 1).Wrapped?;
  }

  lemma CutSetWraps(b: seq<byte>, pos: nat, t: uint32, n: uint32, w: World)
    requires pos <= |b| && Moderate(b) && b[pos..] == CutSet(t, n)
    requires w.allocSet && w.allocTemplate(t) && w.allocTemplate(n) && |b| + n >= TWO_32
    ensures UnpackSet(b, pos, 4, w).Wrapped?
  {
    hide Be32, Read32, ReadBytes, UnpackEntries, EncodeEntry, Cut;
    var r3 := EncodeEntry(4, Filler(t)) + Cut(n);
    Reads32(b, pos, 0, Be32(MARKER_SET_IDS) + (ZERO_ID + (ZERO_ID + r3)));
    Reads32(b, pos + 4, MARKER_SET_IDS, ZERO_ID + (ZERO_ID + r3));
    ReadsBytes(b, pos + 8, ZERO_ID, ZERO_ID + r3);
    ReadsBytes(b, pos + 40, ZERO_ID, r3);
    CutEntriesWrap(b, pos + 72, t, n, w);
  }

  /** These bytes do wrap around wherever memory for both templates is granted. */
  lemma CutDatabaseWraps(t: uint32, n: uint32, w: World)
    requires 189 + t < TWO_32 - 32 && 189 + t + n >= TWO_32
    requires w.allocDatabase && w.allocSet && w.allocTemplate(t) && w.allocTemplate(n)
    ensures Unpack(CutDatabase(t, n), w).Wrapped?
  {
    hide Be32, Be64, Read32, Read64, ReadBytes, UnpackSet, CutSet;
    var b := CutDatabase(t, n);
    var r := CutSet(t, n);
    assert b[0..] == b;
    Reads32(b, 0, MARKER_DB, [4] + (Be64(0) + (Be32(1) + (Be32(MARKER_SETS) + r))));
    ReadsBytes(b, 4, [4], Be64(0) + (Be32(1) + (Be32(MARKER_SETS) + r)));
    assert b[4] == 4;
    Reads64(b, 5, 0, Be32(1) + (Be32(MARKER_SETS) + r));
    Reads32(b, 13, 1, Be32(MARKER_SETS) + r);
    Reads32(b, 17, MARKER_SETS, r);
    CutSetWraps(b, 21, t, n, w);
  }

  /** For example: 189 bytes that announce a template of 4 GiB less one byte, where memory for it
      is granted. */
  lemma HugeTemplateWraps()
    ensures Unpack(CutDatabase(0, 0xFFFF_FFFF), Generous()).Wrapped?
  {
    hide Unpack, CutDatabase;
    CutDatabaseWraps(0, 0xFFFF_FFFF, Generous());
  }

  /** An allocator that grants every smaller block too. */
  ghost predicate Orderly(w: World) {
    && w.allocDatabase && w.allocSet
    && forall m: nat, n: nat :: m <= n && w.allocTemplate(n) ==> w.allocTemplate(m)
  }

  /** Exactly when some input of at most `limit` bytes makes a position wrap around. */
  lemma WrapExactly(w: World, limit: nat)
    requires Orderly(w) && 189 <= limit <= 0x8000_0000
    ensures (exists b: seq<byte> :: |b| <= limit && Unpack(b, w).Wrapped?)
            <==> exists n: uint32 :: w.allocTemplate(n) && limit + n >= TWO_32
  {
    hide Unpack, FromBe32, CutDatabase;
    if b: seq<byte> :| |b| <= limit && Unpack(b, w).Wrapped? {
      WrapNeedsHugeTemplate(b, w);
      var p: nat :| HugeAt(b, p, w);
      assert limit + FromBe32(b[p..p + 4]) >= TWO_32;
    }
    if n: uint32 :| w.allocTemplate(n) && limit + n >= TWO_32 {
      CutDatabaseWraps(limit - 189, n, w);
      assert |CutDatabase(limit - 189, n)| <= limit;
    }
  }
}
