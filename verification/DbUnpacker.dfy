/** The unpacker as it runs: a 32-bit read counter moving over the packed bytes, one byte at a
    time. */
module DbUnpacker {
  import opened Bytes
  import opened DbFormat

  /** Put entries read earlier in front of the rest. */
  function Prepend(entries: seq<Fingerprint>, r: Parse<(seq<Fingerprint>, nat)>)
    : Parse<(seq<Fingerprint>, nat)>
  {
    if r.Done? then Done((entries + r.value.0, r.value.1)) else r
  }

  /** The default stays when the status of a read is ignored. */
  function Ignoring<T>(r: Parse<T>, default: T): Parse<T> {
    if r.Rejected? then Done(default) else r
  }

  class Reader {
    const packed: seq<byte>
    var counter: nat

    ghost predicate Valid()
      reads this
    {
      counter <= |packed| < TWO_32
    }

    constructor (packed: seq<byte>)
      requires |packed| < TWO_32
      ensures Valid() && this.packed == packed && counter == 0
    {
      this.packed, counter := packed, 0;
    }

    /** A read did what the format says: the value and the new counter, or an error and the old
        one. */
    ghost predicate Did<T>(r: Parse<T>, from: nat, wanted: Parse<(T, nat)>)
      reads this
    {
      match wanted
      case Done(v) => r == Done(v.0) && counter == v.1
      case Rejected(e) => r == Rejected(e) && counter == from
      case Wrapped => r.Wrapped?
    }

    method UnpackUint8() returns (r: Parse<byte>)
      requires Valid()
      modifies this`counter
      ensures Valid() && Did(r, old(counter), Read8(packed, old(counter)))
    {
      if counter >= |packed| {
        return Rejected(-ERROR_DB);
      }
      r := Done(packed[counter]);
      counter := counter + 1;
    }

    /** The copying loop is entered whenever the 32-bit sum passes the check. */
    method UnpackUint8Array(n: uint32) returns (r: Parse<seq<byte>>)
      requires Valid()
      modifies this`counter
      ensures Valid() && Did(r, old(counter), ReadBytes(packed, old(counter), n))
    {
      if (counter + n) % TWO_32 > |packed| {
        return Rejected(-ERROR_DB);
      }
      var data: seq<byte>, start := [], counter;
      for i := 0 to n
        invariant Valid() && counter == start + i
        invariant data == packed[start..counter]
      {
        if counter >= |packed| {
          return Wrapped;
        }
        data := data + [packed[counter]];
        counter := counter + 1;
      }
      return Done(data);
    }

    method UnpackUint32() returns (r: Parse<uint32>)
      requires Valid()
      modifies this`counter
      ensures Valid() && Did(r, old(counter), Read32(packed, old(counter)))
    {
      if (counter + 4) % TWO_32 > |packed| {
        return Rejected(-ERROR_DB);
      }
      if counter + 4 > |packed| {
        return Wrapped;
      }
      var result := 0;
      ghost var s := packed[counter..counter + 4];
      for i := 0 to 4
        invariant counter == old(counter) + i
        invariant i == 0 ==> result == 0
        invariant i == 1 ==> result == s[0] as int
        invariant i == 2 ==> result == s[0] as int * 0x100 + s[1] as int
        invariant i == 3 ==> result == s[0] as int * 0x1_0000 + s[1] as int * 0x100 + s[2] as int
        invariant i == 4 ==> result == FromBe32(s)
      {
        result := result * 0x100 + packed[counter] as int;
        counter := counter + 1;
      }
      return Done(result);
    }

    method UnpackUint64() returns (r: Parse<uint64>)
      requires Valid()
      modifies this`counter
      ensures Valid() && Did(r, old(counter), Read64(packed, old(counter)))
    {
      hide FromBe32;
      if (counter + 8) % TWO_32 > |packed| {
        return Rejected(-ERROR_DB);
      }
      if counter + 8 > |packed| {
        return Wrapped;
      }
      ghost var s := packed[counter..counter + 8];
      var high := UnpackUint32();
      assert s[..4] == packed[old(counter)..old(counter) + 4];
      var low := UnpackUint32();
      assert s[4..] == packed[old(counter) + 4..old(counter) + 8];
      return Done(high.value * TWO_32 + low.value);
    }

    method UnpackId() returns (r: Parse<Id256>)
      requires Valid()
      modifies this`counter
      ensures Valid() && Did(r, old(counter), ReadId(packed, old(counter)))
    {
      var s :- UnpackUint8Array(32);
      return Done(s);
    }

    method Verify(expected: uint32) returns (r: Parse<()>)
      requires Valid()
      modifies this`counter
      ensures Valid()
      ensures match Verify32(expected, packed, old(counter))
              case Done(end) => r.Done? && counter == end
              case Rejected(e) => r == Rejected(e)
              case Wrapped => r.Wrapped?
    {
      hide Read32;
      var x :- UnpackUint32();
      if x != expected {
        return Rejected(-ERROR_DB);
      }
      return Done(());
    }

    method UnpackFingerprint(version: byte, w: World) returns (r: Parse<Fingerprint>)
      requires Valid()
      modifies this`counter
      ensures Valid() || r.Wrapped?
      ensures match UnpackEntry(packed, old(counter), version, w)
              case Done(f) => r == Done(f.0) && counter == f.1
              case Rejected(e) => r == Rejected(e)
              case Wrapped => r.Wrapped?
    {
      hide Read32, Read64, ReadId, ReadBytes;
      var valid := UnpackUint32();
      var flag :- Ignoring(valid, 0);
      if flag == 0 {
        return Done(FREE_ENTRY);
      }
      if flag != 1 {
        return Rejected(-ERROR_DB);
      }
      var raw := UnpackId();
      var id :- Ignoring(raw, ZERO_ID);
      var userId := 0;
      if version >= 3 {
        var user := UnpackUint64();
        userId :- Ignoring(user, 0);
      }
      var size :- UnpackUint32();
      if !w.allocTemplate(size) {
        return Rejected(-ERROR_ALLOC);
      }
      var bytes := UnpackUint8Array(size);
      var template :- Ignoring(bytes, Repeat(0, size));
      return Done(Fingerprint(1, id, userId, template));
    }

    /** The loop over the five entries. */
    method ReadEntries(version: byte, w: World) returns (r: Parse<seq<Fingerprint>>)
      requires Valid()
      modifies this`counter
      ensures Valid() || r.Wrapped?
      ensures match UnpackEntries(packed, old(counter), version, w, SLOTS)
              case Done(es) => r == Done(es.0) && counter == es.1
              case Rejected(e) => r == Rejected(e)
              case Wrapped => r.Wrapped?
    {
      hide UnpackEntry;
      var entries: seq<Fingerprint> := [];
      ghost var all := UnpackEntries(packed, counter, version, w, SLOTS);
      assert all.Done? ==> entries + all.value.0 == all.value.0;
      for j := 0 to SLOTS
        invariant Valid()
        invariant all == Prepend(entries, UnpackEntries(packed, counter, version, w, SLOTS - j))
      {
        var f :- UnpackFingerprint(version, w);
        ghost var rest := UnpackEntries(packed, counter, version, w, SLOTS - j - 1);
        assert rest.Done? ==> entries + ([f] + rest.value.0) == entries + [f] + rest.value.0;
        entries := entries + [f];
      }
      assert entries + [] == entries;
      return Done(entries);
    }

    method ReadSet(version: byte, w: World) returns (r: Parse<FingerprintSet>)
      requires Valid()
      modifies this`counter
      ensures Valid() || r.Wrapped?
      ensures match UnpackSet(packed, old(counter), version, w)
              case Done(s) => r == Done(s.0) && counter == s.1
              case Rejected(e) => r == Rejected(e)
              case Wrapped => r.Wrapped?
    {
      hide UnpackEntries, Read32, ReadId;
      if !w.allocSet {
        return Rejected(-ERROR_ALLOC);
      }
      var raw := UnpackUint32();
      var key :- Ignoring(raw, 0);
      var _ :- Verify(MARKER_SET_IDS);
      var rawId := UnpackId();
      var setId :- Ignoring(rawId, ZERO_ID);
      var stateId;
      if version >= 4 {
        rawId := UnpackId();
        stateId :- Ignoring(rawId, ZERO_ID);
      } else if w.randomState.None? {
        return Rejected(-ERROR_IO);
      } else {
        stateId := w.randomState.value;
      }
      var entries :- ReadEntries(version, w);
      return Done(FingerprintSet(key, setId, stateId, entries));
    }

    /** db_unpack_v2_v3_v4, from the beginning of the bytes. */
    method ReadDatabase(version: byte, w: World) returns (r: Parse<Database>)
      requires Valid() && counter == 0
      modifies this`counter
      ensures r == UnpackVersion(packed, version, w)
    {
      hide UnpackSet, Read32, Read64;
      if !w.allocDatabase {
        return Rejected(-ERROR_ALLOC);
      }
      var _ :- Verify(MARKER_DB);
      var v :- UnpackUint8();
      if v != version {
        return Rejected(-ERROR_DB);
      }
      var id;
      if version >= 3 {
        var rawId := UnpackUint64();
        id :- Ignoring(rawId, 0);
      } else if w.randomId.None? {
        return Rejected(-ERROR_IO);
      } else {
        id := w.randomId.value;
      }
      var rawCount := UnpackUint32();
      var count :- Ignoring(rawCount, 0);
      var _ :- Verify(MARKER_SETS);
      if count > 1 {
        return Rejected(-ERROR_DB);
      }
      if count != 1 {
        var _ :- Verify(MARKER_EOF);
        return Done(Database(id, None));
      }
      var fingers :- ReadSet(version, w);
      var _ :- Verify(MARKER_EOF);
      return Done(Database(id, Some(fingers)));
    }
  }

  /** fpc_db_create from packed bytes. */
  method Create(b: seq<byte>, w: World) returns (r: Parse<Database>)
    requires |b| < TWO_32
    ensures r == Unpack(b, w)
    ensures Moderate(b) && Confined(w, |b|) ==> !r.Wrapped?
  {
    hide UnpackVersion, Read32;
    if Moderate(b) && Confined(w, |b|) {
      NeverWraps(b, w);
    }
    var reader := new Reader(b);
    var _ :- reader.Verify(MARKER_DB);
    var version :- reader.UnpackUint8();
    if version !in {2, 3, 4} {
      return Rejected(-ERROR_DB);
    }
    reader := new Reader(b);
    r := reader.ReadDatabase(version, w);
  }
}
