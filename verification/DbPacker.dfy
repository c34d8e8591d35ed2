/** The packer: fields written one after the other through a moving counter, once without a
    buffer to learn the size and once into a buffer of that size. */
module DbPacker {
  import opened Bytes
  import opened DbFormat

  /** A value handed to a pack function.  Single bytes and byte arrays are refused when they
      would end exactly at the end of the buffer (`strict`); numbers are not. */
  datatype Field = Field(data: seq<byte>, strict: bool)

  function Total(fields: seq<Field>): nat {
    if fields == [] then 0 else Total(fields[..|fields| - 1]) + |fields[|fields| - 1].data|
  }

  function Joined(fields: seq<Field>): (s: seq<byte>)
    ensures |s| == Total(fields)
  {
    if fields == [] then [] else Joined(fields[..|fields| - 1]) + fields[|fields| - 1].data
  }

  predicate Fits(image: seq<byte>, f: Field, size: nat) {
    if f.strict then |image| + |f.data| < size else |image| + |f.data| <= size
  }

  /** What a buffer of `size` bytes holds after offering it all fields: a field that does not
      fit is skipped. */
  function Image(fields: seq<Field>, size: nat): (s: seq<byte>)
    ensures |s| <= size && |s| <= Total(fields)
  {
    if fields == [] then []
    else
      var before := Image(fields[..|fields| - 1], size);
      var f := fields[|fields| - 1];
      if Fits(before, f, size) then before + f.data else before
  }

  lemma AppendField(fields: seq<Field>, f: Field)
    ensures (fields + [f])[..|fields|] == fields
    ensures Total(fields + [f]) == Total(fields) + |f.data|
    ensures Joined(fields + [f]) == Joined(fields) + f.data
  {
    assert (fields + [f])[..|fields|] == fields;
  }

  lemma AppendImage(fields: seq<Field>, f: Field, size: nat)
    ensures Image(fields + [f], size)
            == if Fits(Image(fields, size), f, size) then Image(fields, size) + f.data
               else Image(fields, size)
  {
    assert (fields + [f])[..|fields|] == fields;
  }

  lemma {:induction false} PrefixTotal(a: seq<Field>, b: seq<Field>)
    requires a <= b
    ensures Total(a) <= Total(b)
  {
    if |a| < |b| {
      PrefixTotal(a, b[..|b| - 1]);
    } else {
      assert a == b;
    }
  }

  /** The triple (buffer, write counter, size) passed to every pack function.  `plan` is what is
      going to be packed, and `packed` says how much of it has been. */
  class Packer {
    const buffer: array?<byte>
    const size: nat
    ghost const plan: seq<Field>
    var counter: nat
    ghost var packed: nat

    ghost predicate Valid()
      reads this, buffer
    {
      && packed <= |plan|
      && (if buffer == null then counter == Total(plan[..packed]) % TWO_32
          else
            && Total(plan) < TWO_32
            && buffer.Length == size < TWO_32
            && counter <= size
            && buffer[..counter] == Image(plan[..packed], size)
            && buffer[counter..] == Repeat(1, size - counter))
    }

    constructor (buffer: array?<byte>, size: nat, ghost plan: seq<Field>)
      requires buffer != null ==> buffer.Length == size < TWO_32 && Total(plan) < TWO_32
      requires buffer != null ==> buffer[..] == Repeat(1, size)
      ensures Valid() && packed == 0
      ensures this.buffer == buffer && this.size == size && this.plan == plan
    {
      this.buffer := buffer;
      this.plan := plan;
      this.size := size;
      counter := 0;
      packed := 0;
    }

    /** `f` is the next field to pack.  When writing, all fields together stay below 4 GiB, so
        that no sum of the counter and a length wraps. */
    ghost predicate CanPack(f: Field)
      reads this, buffer
    {
      Valid() && packed < |plan| && plan[packed] == f
    }

    /** Dry run: only the counter moves. */
    method Count(n: nat)
      requires Valid() && buffer == null && packed < |plan| && n == |plan[packed].data|
      modifies this`counter, this`packed
      ensures Valid() && packed == old(packed) + 1
    {
      hide Total;
      AppendField(plan[..packed], plan[packed]);
      assert plan[..packed] + [plan[packed]] == plan[..packed + 1];
      ghost var total := Total(plan[..packed]);
      assert ((total % TWO_32) + n) % TWO_32 == (total + n) % TWO_32;
      counter := (counter + n) % TWO_32;
      packed := packed + 1;
    }

    /** A field that does not fit is left out and nothing else changes. */
    ghost method Skip()
      requires Valid() && buffer != null && packed < |plan|
      requires !Fits(buffer[..counter], plan[packed], size)
      modifies this`packed
      ensures Valid() && packed == old(packed) + 1
    {
      hide Image, Total, Joined;
      AppendImage(plan[..packed], plan[packed], size);
      assert plan[..packed] + [plan[packed]] == plan[..packed + 1];
      packed := packed + 1;
    }

    /** The bytes of a field that fits, one at a time. */
    method Write(data: seq<byte>)
      requires Valid() && buffer != null && packed < |plan| && data == plan[packed].data
      requires Fits(buffer[..counter], plan[packed], size)
      modifies this`counter, this`packed, buffer
      ensures Valid() && packed == old(packed) + 1
    {
      hide Image, Total, Joined;
      var start := counter;
      ghost var before := buffer[..];
      for i := 0 to |data|
        invariant counter == start + i
        invariant forall k :: 0 <= k < start ==> buffer[k] == before[k]
        invariant forall k :: 0 <= k < i ==> buffer[start + k] == data[k]
        invariant forall k :: counter <= k < size ==> buffer[k] == before[k]
        invariant packed == old(packed)
      {
        buffer[counter] := data[i];
        counter := counter + 1;
      }
      assert buffer[..counter] == before[..start] + data;
      AppendImage(plan[..packed], plan[packed], size);
      assert plan[..packed] + [plan[packed]] == plan[..packed + 1];
      packed := packed + 1;
      assert buffer[counter..] == before[start..][|data|..];
    }

    lemma CounterBound()
      requires Valid() && buffer != null && packed < |plan|
      ensures counter == |Image(plan[..packed], size)| && counter + |plan[packed].data| < TWO_32
    {
      hide Image, Total, Joined;
      PrefixTotal(plan[..packed + 1], plan);
      AppendField(plan[..packed], plan[packed]);
      assert plan[..packed] + [plan[packed]] == plan[..packed + 1];
    }

    method PackUint8(data: byte) returns (status: int)
      requires CanPack(Field([data], true))
      modifies this`counter, this`packed, buffer
      ensures Valid() && packed == old(packed) + 1
      ensures status == 0 <==> buffer == null || Fits(Image(plan[..old(packed)], size), Field([data], true), size)
    {
      hide Image, Total, Joined;
      if buffer == null {
        Count(1);
        return 0;
      }
      CounterBound();
      if (counter + 1) % TWO_32 >= size {
        Skip();
        return -ERROR_DB;
      }
      Write([data]);
      return 0;
    }

    method PackUint8Array(data: seq<byte>) returns (status: int)
      requires CanPack(Field(data, true))
      modifies this`counter, this`packed, buffer
      ensures Valid() && packed == old(packed) + 1
      ensures status == 0 <==> buffer == null || Fits(Image(plan[..old(packed)], size), Field(data, true), size)
    {
      hide Image, Total, Joined;
      if buffer == null {
        Count(|data|);
        return 0;
      }
      CounterBound();
      if (counter + |data|) % TWO_32 >= size {
        Skip();
        return -ERROR_DB;
      }
      Write(data);
      return 0;
    }

    method PackUint32(data: uint32) returns (status: int)
      requires CanPack(Field(Be32(data), false))
      modifies this`counter, this`packed, buffer
      ensures Valid() && packed == old(packed) + 1
      ensures status == 0 <==> buffer == null || Fits(Image(plan[..old(packed)], size), Field(Be32(data), false), size)
    {
      hide Image, Total, Joined;
      if buffer == null {
        Count(4);
        return 0;
      }
      CounterBound();
      if (counter + 4) % TWO_32 > size {
        Skip();
        return -ERROR_DB;
      }
      Write([(data / 0x100_0000) as byte, (data / 0x1_0000 % 0x100) as byte,
             (data / 0x100 % 0x100) as byte, (data % 0x100) as byte]);
      return 0;
    }

    method PackUint64(data: uint64) returns (status: int)
      requires CanPack(Field(Be64(data), false))
      modifies this`counter, this`packed, buffer
      ensures Valid() && packed == old(packed) + 1
      ensures status == 0 <==> buffer == null || Fits(Image(plan[..old(packed)], size), Field(Be64(data), false), size)
    {
      hide Image, Total, Joined;
      if buffer == null {
        Count(8);
        return 0;
      }
      CounterBound();
      if (counter + 8) % TWO_32 > size {
        Skip();
        return -ERROR_DB;
      }
      Write(Be64(data));
      return 0;
    }
  }

  // ---------------------------------------------------------------- fields of a database

  predicate Sized(db: Database) {
    db.fingers.Some? ==>
      && |db.fingers.value.entries| == SLOTS
      && forall i :: 0 <= i < SLOTS ==> |db.fingers.value.entries[i].template| < TWO_32
  }

  function EntryFields(f: Fingerprint): seq<Field>
    requires |f.template| < TWO_32
  {
    if f.valid == 1 then
      [Field(Be32(1), false), Field(f.id, true), Field(Be64(f.userId), false),
       Field(Be32(|f.template|), false), Field(f.template, true)]
    else [Field(Be32(f.valid), false)]
  }

  function EntriesFields(entries: seq<Fingerprint>): seq<Field>
    requires forall i :: 0 <= i < |entries| ==> |entries[i].template| < TWO_32
  {
    if entries == [] then []
    else EntriesFields(entries[..|entries| - 1]) + EntryFields(entries[|entries| - 1])
  }

  function HeaderFields(db: Database): seq<Field> {
    [Field(Be32(MARKER_DB), false), Field([4], true), Field(Be64(db.id), false),
     Field(Be32(if db.fingers.Some? then 1 else 0), false), Field(Be32(MARKER_SETS), false)]
  }

  function SetFields(s: FingerprintSet): seq<Field> {
    [Field(Be32(s.key), false), Field(Be32(MARKER_SET_IDS), false),
     Field(s.setId, true), Field(s.stateId, true)]
  }

  const EOF_FIELD := Field(Be32(MARKER_EOF), false)

  /** All fields before the end marker. */
  function BodyFields(db: Database): seq<Field>
    requires Sized(db)
  {
    HeaderFields(db) +
    (if db.fingers.Some? then SetFields(db.fingers.value) + EntriesFields(db.fingers.value.entries) else [])
  }

  function Fields(db: Database): seq<Field>
    requires Sized(db)
  {
    BodyFields(db) + [EOF_FIELD]
  }

  lemma NoFields()
    ensures Total([]) == 0 && Joined([]) == []
  {
  }

  lemma {:induction false} TotalConcat(a: seq<Field>, b: seq<Field>)
    ensures Total(a + b) == Total(a) + Total(b)
    ensures Joined(a + b) == Joined(a) + Joined(b)
  {
    hide Total, Joined;
    if b == [] {
      assert a + b == a;
      NoFields();
    } else {
      var init, f := b[..|b| - 1], b[|b| - 1];
      TotalConcat(a, init);
      AppendField(init, f);
      AppendField(a + init, f);
      assert b == init + [f];
      assert a + b == a + init + [f];
    }
  }

  lemma JoinedEntry(f: Fingerprint)
    requires |f.template| < TWO_32
    ensures Joined(EntryFields(f)) == EncodeEntry(4, f)
  {
    hide Be32, Be64;
    if f.valid == 1 {
      var fs := EntryFields(f);
      AppendField([], fs[0]);
      AppendField(fs[..1], fs[1]);
      AppendField(fs[..2], fs[2]);
      AppendField(fs[..3], fs[3]);
      AppendField(fs[..4], fs[4]);
      assert [] + [fs[0]] == fs[..1] && fs[..1] + [fs[1]] == fs[..2] && fs[..2] + [fs[2]] == fs[..3]
             && fs[..3] + [fs[3]] == fs[..4] && fs[..4] + [fs[4]] == fs;
    }
  }

  lemma {:induction false} EncodeEntriesSnoc(entries: seq<Fingerprint>, f: Fingerprint)
    requires Flagged(entries) && f.valid in {0, 1} && |f.template| < TWO_32
    ensures Flagged(entries + [f])
    ensures EncodeEntries(4, entries + [f]) == EncodeEntries(4, entries) + EncodeEntry(4, f)
  {
    hide EncodeEntry;
    if entries != [] {
      assert (entries + [f])[1..] == entries[1..] + [f];
      EncodeEntriesSnoc(entries[1..], f);
    } else {
      assert (entries + [f])[1..] == [];
    }
  }

  lemma {:induction false} JoinedEntries(entries: seq<Fingerprint>)
    requires Flagged(entries)
    ensures Joined(EntriesFields(entries)) == EncodeEntries(4, entries)
  {
    hide EncodeEntry, EntryFields;
    if entries != [] {
      var init, last := entries[..|entries| - 1], entries[|entries| - 1];
      assert entries == init + [last];
      EncodeEntriesSnoc(init, last);
      JoinedEntries(init);
      JoinedEntry(last);
      TotalConcat(EntriesFields(init), EntryFields(last));
    }
  }

  lemma JoinedHeader(db: Database)
    ensures Joined(HeaderFields(db))
            == Be32(MARKER_DB) + [4] + Be64(db.id) + Be32(if db.fingers.Some? then 1 else 0)
               + Be32(MARKER_SETS)
  {
    hide Be32, Be64, Joined, Total;
    var fs := HeaderFields(db);
    AppendField(fs[..1], fs[1]);
    AppendField(fs[..2], fs[2]);
    AppendField(fs[..3], fs[3]);
    AppendField(fs[..4], fs[4]);
    JoinedOne(fs[0]);
    assert fs[..1] == [fs[0]] && fs[..1] + [fs[1]] == fs[..2] && fs[..2] + [fs[2]] == fs[..3]
           && fs[..3] + [fs[3]] == fs[..4] && fs[..4] + [fs[4]] == fs;
  }

  lemma JoinedSet(s: FingerprintSet)
    ensures Joined(SetFields(s)) == Be32(s.key) + Be32(MARKER_SET_IDS) + s.setId + s.stateId
  {
    hide Be32, Joined, Total;
    var fs := SetFields(s);
    AppendField(fs[..1], fs[1]);
    AppendField(fs[..2], fs[2]);
    AppendField(fs[..3], fs[3]);
    JoinedOne(fs[0]);
    assert fs[..1] == [fs[0]] && fs[..1] + [fs[1]] == fs[..2] && fs[..2] + [fs[2]] == fs[..3]
           && fs[..3] + [fs[3]] == fs;
  }

  lemma JoinedOne(f: Field)
    ensures Joined([f]) == f.data
  {
    AppendField([], f);
    assert [] + [f] == [f];
  }

  /** The packed fields, put together, are the packed form of version 4. */
  lemma FieldsAreEncoding(db: Database)
    requires db.Valid() && Sized(db)
    ensures Joined(Fields(db)) == Encode(db)
    ensures Total(Fields(db)) == |Encode(db)|
  {
    hide Be32, Be64, Joined, Total, HeaderFields, SetFields, EntriesFields, EncodeEntries;
    JoinedHeader(db);
    AppendField(BodyFields(db), EOF_FIELD);
    if db.fingers.Some? {
      var s := db.fingers.value;
      JoinedSet(s);
      JoinedEntries(s.entries);
      TotalConcat(SetFields(s), EntriesFields(s.entries));
      TotalConcat(HeaderFields(db), SetFields(s) + EntriesFields(s.entries));
    } else {
      assert BodyFields(db) == HeaderFields(db);
    }
  }

  // ---------------------------------------------------------------- what fits

  /** With room to spare every field is written. */
  lemma {:induction false} AllFit(fields: seq<Field>, size: nat)
    requires Total(fields) < size
    ensures Image(fields, size) == Joined(fields)
  {
    if fields != [] {
      AllFit(fields[..|fields| - 1], size);
    }
  }

  /** A buffer of at least the packed size receives the whole packed form: the strict bound of
      single bytes and arrays never bites, because a database ends with a number. */
  lemma EnoughRoom(db: Database, size: nat)
    requires db.Valid() && Sized(db)
    requires |Encode(db)| <= size
    ensures Image(Fields(db), size) == Encode(db)
  {
    hide Image, Joined, Total, BodyFields, Encode;
    FieldsAreEncoding(db);
    AppendField(BodyFields(db), EOF_FIELD);
    AppendImage(BodyFields(db), EOF_FIELD, size);
    AllFit(BodyFields(db), size);
  }

  // ---------------------------------------------------------------- packing

  method PackEntry(p: Packer, f: Fingerprint) returns (status: int)
    requires p.Valid() && |f.template| < TWO_32
    requires p.packed + |EntryFields(f)| <= |p.plan|
    requires forall i :: 0 <= i < |EntryFields(f)| ==> p.plan[p.packed + i] == EntryFields(f)[i]
    modifies p`counter, p`packed, p.buffer
    ensures p.Valid() && p.packed == old(p.packed) + |EntryFields(f)|
    ensures status == 0 <==> f.valid in {0, 1}
  {
    hide Be32, Be64, Joined, Image, Total, Fits;
    ghost var n := p.packed;
    assert p.plan[n] == EntryFields(f)[0];
    var _ := p.PackUint32(f.valid);
    status := 0;
    if f.valid == 1 {
      assert p.plan[n + 1] == EntryFields(f)[1];
      var _ := p.PackUint8Array(f.id);
      assert p.plan[n + 2] == EntryFields(f)[2];
      var _ := p.PackUint64(f.userId);
      assert p.plan[n + 3] == EntryFields(f)[3];
      var _ := p.PackUint32(|f.template|);
      assert p.plan[n + 4] == EntryFields(f)[4];
      var _ := p.PackUint8Array(f.template);
    } else if f.valid != 0 {
      status := -ERROR_DB;
    }
  }

  method PackEntries(p: Packer, entries: seq<Fingerprint>) returns (status: int)
    requires p.Valid()
    requires forall i :: 0 <= i < |entries| ==> |entries[i].template| < TWO_32
    requires p.packed + |EntriesFields(entries)| <= |p.plan|
    requires p.plan[p.packed..p.packed + |EntriesFields(entries)|] == EntriesFields(entries)
    modifies p`counter, p`packed, p.buffer
    ensures p.Valid()
    ensures status == 0 <==> Flagged(entries)
    ensures status == 0 ==> p.packed == old(p.packed) + |EntriesFields(entries)|
  {
    hide EntryFields, Joined, Image, Total, EntriesFields;
    status := 0;
    NoEntries();
    assert entries[..0] == [];
    for j := 0 to |entries|
      invariant p.Valid() && status == 0
      invariant p.packed == old(p.packed) + |EntriesFields(entries[..j])|
      invariant Flagged(entries[..j])
    {
      EntriesPrefix(entries, j + 1);
      assert entries[..j + 1] == entries[..j] + [entries[j]];
      EntriesSnoc(entries[..j], entries[j]);
      ghost var all, k := EntriesFields(entries), |EntriesFields(entries[..j])|;
      forall i | 0 <= i < |EntryFields(entries[j])|
        ensures p.plan[p.packed + i] == EntryFields(entries[j])[i]
      {
        assert all[k + i] == EntriesFields(entries[..j + 1])[k + i];
        assert all[k + i] == p.plan[old(p.packed)..old(p.packed) + |all|][k + i];
      }
      status := PackEntry(p, entries[j]);
      if status != 0 {
        return;
      }
    }
    assert entries[..|entries|] == entries;
  }

  lemma NoEntries()
    ensures EntriesFields([]) == []
  {
  }

  lemma EntriesSnoc(entries: seq<Fingerprint>, f: Fingerprint)
    requires forall i :: 0 <= i < |entries| ==> |entries[i].template| < TWO_32
    requires |f.template| < TWO_32
    ensures EntriesFields(entries + [f]) == EntriesFields(entries) + EntryFields(f)
  {
    assert (entries + [f])[..|entries|] == entries;
  }

  lemma {:induction false} EntriesPrefix(entries: seq<Fingerprint>, j: nat)
    requires j <= |entries|
    requires forall i :: 0 <= i < |entries| ==> |entries[i].template| < TWO_32
    ensures EntriesFields(entries[..j]) <= EntriesFields(entries)
    decreases |entries|
  {
    if j == |entries| {
      assert entries[..j] == entries;
    } else {
      var init := entries[..|entries| - 1];
      EntriesPrefix(init, j);
      assert init[..j] == entries[..j];
    }
  }

  /** db_pack_v4.  Without a buffer the counter ends at the packed size; with one, the buffer
      holds every field that fitted, in order, and 1s behind them. */
  method PackV4(db: Database, buffer: array?<byte>, size: nat) returns (status: int, counter: nat)
    requires Sized(db)
    requires buffer != null ==> buffer.Length == size < TWO_32 && Total(Fields(db)) < TWO_32
    modifies buffer
    ensures status == 0 <==> db.Valid()
    ensures status == 0 && buffer == null ==> counter == |Encode(db)| % TWO_32
    ensures status == 0 && buffer != null ==>
              && counter == |Image(Fields(db), size)|
              && buffer[..counter] == Image(Fields(db), size)
              && buffer[counter..] == Repeat(1, size - counter)
  {
    hide Be32, Be64, Joined, Image, Total, EntriesFields, Encode, Fields, BodyFields, HeaderFields, SetFields;
    if buffer != null {
      for i := 0 to size
        invariant forall k :: 0 <= k < i ==> buffer[k] == 1
      {
        buffer[i] := 1;
      }
    }
    var p := new Packer(buffer, size, Fields(db));
    PlanParts(db);
    PackHeader(p, db);
    if db.fingers.Some? {
      var s := db.fingers.value;
      PackSetHeader(p, s);
      status := PackEntries(p, s.entries);
      if status != 0 {
        return status, p.counter;
      }
    }
    var _ := p.PackUint32(MARKER_EOF);
    assert p.plan[..p.packed] == Fields(db);
    FieldsAreEncoding(db);
    return 0, p.counter;
  }

  /** Where the parts of a database lie among its fields. */
  lemma PlanParts(db: Database)
    requires Sized(db)
    ensures var all := Fields(db);
            && |all| == |BodyFields(db)| + 1 && all[|all| - 1] == EOF_FIELD
            && |BodyFields(db)| >= 5
            && (forall i :: 0 <= i < 5 ==> all[i] == HeaderFields(db)[i])
            && (db.fingers.None? ==> |BodyFields(db)| == 5)
            && (db.fingers.Some? ==>
                  && |BodyFields(db)| == 9 + |EntriesFields(db.fingers.value.entries)|
                  && (forall i :: 0 <= i < 4 ==> all[5 + i] == SetFields(db.fingers.value)[i])
                  && all[9..|BodyFields(db)|] == EntriesFields(db.fingers.value.entries))
  {
    hide EntriesFields, Be32, Be64;
  }

  method PackHeader(p: Packer, db: Database)
    requires p.Valid() && p.packed == 0 && |p.plan| >= 5
    requires forall i :: 0 <= i < 5 ==> p.plan[i] == HeaderFields(db)[i]
    modifies p`counter, p`packed, p.buffer
    ensures p.Valid() && p.packed == 5
  {
    hide Be32, Be64, Joined, Image, Total, Fits;
    var _ := p.PackUint32(MARKER_DB);
    assert p.plan[1] == HeaderFields(db)[1];
    var _ := p.PackUint8(4);
    assert p.plan[2] == HeaderFields(db)[2];
    var _ := p.PackUint64(db.id);
    assert p.plan[3] == HeaderFields(db)[3];
    var _ := p.PackUint32(if db.fingers.Some? then 1 else 0);
    assert p.plan[4] == HeaderFields(db)[4];
    var _ := p.PackUint32(MARKER_SETS);
  }

  method PackSetHeader(p: Packer, s: FingerprintSet)
    requires p.Valid() && p.packed == 5 && |p.plan| >= 9
    requires forall i :: 0 <= i < 4 ==> p.plan[5 + i] == SetFields(s)[i]
    modifies p`counter, p`packed, p.buffer
    ensures p.Valid() && p.packed == 9
  {
    hide Be32, Joined, Image, Total, Fits;
    assert p.plan[5] == SetFields(s)[0];
    var _ := p.PackUint32(s.key);
    assert p.plan[6] == SetFields(s)[1];
    var _ := p.PackUint32(MARKER_SET_IDS);
    assert p.plan[7] == SetFields(s)[2];
    var _ := p.PackUint8Array(s.setId);
    assert p.plan[8] == SetFields(s)[3];
    var _ := p.PackUint8Array(s.stateId);
  }

  method GetDataSize(db: Database) returns (status: int, size: nat)
    requires Sized(db)
    ensures status == 0 <==> db.Valid()
    ensures status == 0 ==> size == |Encode(db)| % TWO_32
  {
    status, size := PackV4(db, null, 0x4000_0000);
  }

  /** Given a buffer, success means it was filled to the last byte.  A buffer of exactly the
      dry-run size is filled with the packed database; a larger one is refused. */
  method GetData(db: Database, buffer: array<byte>) returns (status: int)
    requires Sized(db) && buffer.Length < TWO_32 && Total(Fields(db)) < TWO_32
    modifies buffer
    ensures !db.Valid() ==> status == -ERROR_DB
    ensures db.Valid() && buffer.Length == |Encode(db)| ==> status == 0 && buffer[..] == Encode(db)
    ensures db.Valid() && buffer.Length > |Encode(db)| ==> status == -ERROR_DB
    ensures db.Valid() ==> (status == 0 <==> |Image(Fields(db), buffer.Length)| == buffer.Length)
    ensures status == 0 ==> buffer[..] == Image(Fields(db), buffer.Length)
    ensures status == 0 ==> (buffer[..] == Encode(db) <==> buffer.Length == |Encode(db)|)
  {
    hide Image, Fields, Encode;
    var counter;
    status, counter := PackV4(db, buffer, buffer.Length);
    if status != 0 {
      return -ERROR_DB;
    }
    if counter != buffer.Length {
      status := -ERROR_DB;
    }
    if |Encode(db)| <= buffer.Length {
      EnoughRoom(db, buffer.Length);
    }
    assert buffer[..buffer.Length] == buffer[..];
  }

  lemma NoImage(size: nat)
    ensures Image([], size) == []
  {
  }

  /** Success alone does not mean the buffer had the right size: an empty database also "fits"
      in 17 bytes, although its packed form has 25, because the last two numbers are skipped. */
  lemma ShortBufferAccepted(id: uint64)
    ensures var db := Database(id, None);
            |Encode(db)| == 25 && |Image(Fields(db), 17)| == 17
  {
    hide Be32, Be64, Image;
    NoImage(17);
    var fs := Fields(Database(id, None));
    AppendImage([], fs[0], 17);
    AppendImage(fs[..1], fs[1], 17);
    AppendImage(fs[..2], fs[2], 17);
    AppendImage(fs[..3], fs[3], 17);
    AppendImage(fs[..4], fs[4], 17);
    AppendImage(fs[..5], fs[5], 17);
    assert [] + [fs[0]] == fs[..1] && fs[..1] + [fs[1]] == fs[..2] && fs[..2] + [fs[2]] == fs[..3]
           && fs[..3] + [fs[3]] == fs[..4] && fs[..4] + [fs[4]] == fs[..5] && fs[..5] + [fs[5]] == fs;
  }
}
