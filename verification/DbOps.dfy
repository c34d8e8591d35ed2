/** Adding, finding and deleting fingerprints, on database values.  `TemplateStore` implements
    these on the slot array in place. */
module DbOps {
  import opened Bytes
  import opened DbFormat

  /** Contents of a deleted id. */
  const WIPED_ID: Id256 := Repeat(0xCC, 32)

  // ---------------------------------------------------------------- entries in use

  function One(f: Fingerprint): multiset<Fingerprint> {
    if f.valid == 1 then multiset{f} else multiset{}
  }

  /** The fingerprints of a list of slots, with multiplicity. */
  function InUseOf(entries: seq<Fingerprint>): multiset<Fingerprint> {
    if entries == [] then multiset{}
    else InUseOf(entries[..|entries| - 1]) + One(entries[|entries| - 1])
  }

  function InUse(db: Database): multiset<Fingerprint> {
    if db.fingers.Some? then InUseOf(db.fingers.value.entries) else multiset{}
  }

  lemma Exchange<T>(a: multiset<T>, a': multiset<T>, x: multiset<T>, y: multiset<T>, z: multiset<T>)
    requires a' + x == a + y
    ensures a' + z + x == a + z + y
  {
    calc {
      a' + z + x;
      a' + x + z;
      a + y + z;
      a + z + y;
    }
  }

  lemma Cancel<T>(a: multiset<T>, b: multiset<T>, x: multiset<T>)
    requires a + x == b + x
    ensures a == b
  {
    forall e: T
      ensures a[e] == b[e]
    {
      assert (a + x)[e] == (b + x)[e];
    }
  }

  lemma {:induction false} InUseUpdate(entries: seq<Fingerprint>, i: nat, f: Fingerprint)
    requires i < |entries|
    ensures InUseOf(entries[i := f]) + One(entries[i]) == InUseOf(entries) + One(f)
  {
    hide One;
    var n := |entries| - 1;
    var rest := InUseOf(entries[..n]);
    if i == n {
      assert entries[i := f][..n] == entries[..n];
    } else {
      InUseUpdate(entries[..n], i, f);
      assert entries[i := f][..n] == entries[..n][i := f];
      Exchange(rest, InUseOf(entries[..n][i := f]), One(entries[i]), One(f), One(entries[n]));
    }
  }

  lemma {:induction false} InUseMember(entries: seq<Fingerprint>, f: Fingerprint)
    ensures f in InUseOf(entries) <==> f in entries && f.valid == 1
  {
    if entries != [] {
      var n := |entries| - 1;
      InUseMember(entries[..n], f);
      assert entries == entries[..n] + [entries[n]];
    }
  }

  lemma {:induction false} NothingInUse(entries: seq<Fingerprint>)
    requires forall i :: 0 <= i < |entries| ==> entries[i].valid != 1
    ensures InUseOf(entries) == multiset{}
  {
    if entries != [] {
      NothingInUse(entries[..|entries| - 1]);
    }
  }

  /** Clearing free entries, as a trip through the packed form does, changes no fingerprint. */
  lemma {:induction false} InUseKept(entries: seq<Fingerprint>)
    ensures InUseOf(KeptEntries(4, entries)) == InUseOf(entries)
  {
    if entries != [] {
      var n := |entries| - 1;
      InUseKept(entries[..n]);
      assert KeptEntries(4, entries)[..n] == KeptEntries(4, entries[..n]);
    }
  }

  // ---------------------------------------------------------------- finding

  function TrimId32(id: Id256): uint32 {
    FromBe32(id[..4])
  }

  /** First free slot at or after `i`, or the number of slots. */
  function FirstFree(entries: seq<Fingerprint>, i: nat): (r: nat)
    requires i <= |entries|
    ensures i <= r <= |entries|
    ensures r < |entries| ==> entries[r].valid == 0
    ensures forall j :: i <= j < r ==> entries[j].valid != 0
    decreases |entries| - i
  {
    if i == |entries| || entries[i].valid == 0 then i else FirstFree(entries, i + 1)
  }

  /** First slot in use at or after `i` whose id trims to `id32`, or the number of slots. */
  function FindId32(entries: seq<Fingerprint>, id32: uint32, i: nat): (r: nat)
    requires i <= |entries|
    ensures i <= r <= |entries|
    ensures r < |entries| ==> entries[r].valid == 1 && TrimId32(entries[r].id) == id32
    ensures forall j :: i <= j < r ==> !(entries[j].valid == 1 && TrimId32(entries[j].id) == id32)
    decreases |entries| - i
  {
    if i == |entries| || (entries[i].valid == 1 && TrimId32(entries[i].id) == id32) then i
    else FindId32(entries, id32, i + 1)
  }

  /** fpc_db_get_index_of_id32. */
  function IndexOfId32(db: Database, id32: uint32): Option<nat> {
    if db.fingers.None? then None
    else
      var i := FindId32(db.fingers.value.entries, id32, 0);
      if i == |db.fingers.value.entries| then None else Some(i)
  }

  // ---------------------------------------------------------------- adding

  /** What the outside world answers while a fingerprint is added: whether a new set can be
      allocated, and the random ids (None when the generator fails). */
  datatype AddWorld = AddWorld(
    allocSet: bool,
    setId: Option<Id256>,
    fingerId: Option<Id256>,
    databaseId: Option<uint64>,
    stateId: Option<Id256>)

  datatype AddResult = AddResult(status: int, index: nat, db: Database)

  function EmptySet(key: uint32, setId: Id256): FingerprintSet {
    FingerprintSet(key, setId, ZERO_ID, seq(SLOTS, _ => FREE_ENTRY))
  }

  function AddToSet(id: uint64, s: FingerprintSet, userId: uint64, template: seq<byte>, w: AddWorld)
    : AddResult
    requires |s.entries| == SLOTS
  {
    var i := FirstFree(s.entries, 0);
    if i == SLOTS then AddResult(-ERROR_NOSPACE, 0, Database(id, Some(s)))
    else if w.fingerId.None? then AddResult(-ERROR_IO, 0, Database(id, Some(s)))
    else
      var f := Fingerprint(1, w.fingerId.value, userId, template);
      AddResult(0, i, Database(
        if w.databaseId.Some? then w.databaseId.value else id,
        Some(s.(entries := s.entries[i := f],
                stateId := if w.stateId.Some? then w.stateId.value else s.stateId))))
  }

  /** fpc_db_add_fingerprint.  A failure after the set was created leaves the empty set. */
  function Add(db: Database, key: uint32, userId: uint64, template: seq<byte>, w: AddWorld): AddResult
    requires db.Valid()
  {
    if db.fingers.Some? then
      if db.fingers.value.key != key then AddResult(-ERROR_INPUT, 0, db)
      else AddToSet(db.id, db.fingers.value, userId, template, w)
    else if !w.allocSet then AddResult(-ERROR_ALLOC, 0, db)
    else if w.setId.None? then AddResult(-ERROR_IO, 0, db)
    else AddToSet(db.id, EmptySet(key, w.setId.value), userId, template, w)
  }

  /** The set an add works on: the one there is, or a new one with only free slots. */
  ghost predicate AddsTo(db: Database, key: uint32, w: AddWorld, s: FingerprintSet) {
    if db.fingers.Some? then s == db.fingers.value
    else
      && s.key == key && Some(s.setId) == w.setId && s.stateId == ZERO_ID && |s.entries| == SLOTS
      && forall i :: 0 <= i < SLOTS ==> s.entries[i] == FREE_ENTRY
  }

  /** What an add does beside gaining a fingerprint.  A success changes the database id, which is
      the authenticator id, and the state id to the ones drawn, unless a draw failed; the new
      fingerprint goes to the first free slot and every other slot stays.  A failure changes
      nothing, or leaves a new empty set. */
  ghost predicate AddChanges(db: Database, key: uint32, w: AddWorld, r: AddResult) {
    if r.status != 0 then
      r.db == db || (db.fingers.None? && r.db.id == db.id && r.db.fingers.Some? && AddsTo(db, key, w, r.db.fingers.value))
    else
      && r.db.fingers.Some? && |r.db.fingers.value.entries| == SLOTS && r.index < SLOTS
      && (w.databaseId.Some? ==> r.db.id == w.databaseId.value)
      && (w.databaseId.None? ==> r.db.id == db.id)
      && exists s :: AddsTo(db, key, w, s) && NewIn(s, r.db.fingers.value, w, r.index)
  }

  /** The set after an add: the slot was the first free one. */
  ghost predicate NewIn(s: FingerprintSet, s': FingerprintSet, w: AddWorld, index: nat) {
    && index < |s.entries| == |s'.entries|
    && s'.key == s.key && s'.setId == s.setId
    && (w.stateId.Some? ==> s'.stateId == w.stateId.value) && (w.stateId.None? ==> s'.stateId == s.stateId)
    && s.entries[index].valid == 0
    && forall j :: 0 <= j < |s.entries| && j != index ==>
         s'.entries[j] == s.entries[j] && (j < index ==> s.entries[j].valid != 0)
  }

  lemma AddToSetChanges(id: uint64, s: FingerprintSet, userId: uint64, template: seq<byte>, w: AddWorld)
    requires |s.entries| == SLOTS
    ensures var r := AddToSet(id, s, userId, template, w);
            && r.db.fingers.Some?
            && (r.status != 0 ==> r.db == Database(id, Some(s)))
            && (r.status == 0 ==>
                  && NewIn(s, r.db.fingers.value, w, r.index)
                  && r.db.id == if w.databaseId.Some? then w.databaseId.value else id)
  {
  }

  lemma AddChangesLittle(db: Database, key: uint32, userId: uint64, template: seq<byte>, w: AddWorld)
    requires db.Valid()
    ensures AddChanges(db, key, w, Add(db, key, userId, template, w))
  {
    hide AddToSet, NewIn;
    if db.fingers.Some? {
      AddToSetChanges(db.id, db.fingers.value, userId, template, w);
      assert AddsTo(db, key, w, db.fingers.value);
    } else if w.allocSet && w.setId.Some? {
      AddToSetChanges(db.id, EmptySet(key, w.setId.value), userId, template, w);
      assert AddsTo(db, key, w, EmptySet(key, w.setId.value));
    }
    NewInSlots();
  }

  lemma NewInSlots()
    ensures forall s, s', w, index: nat :: NewIn(s, s', w, index) ==> index < |s.entries| == |s'.entries|
  {
  }

  /** Adding gains exactly the new fingerprint on success and nothing on failure; it succeeds
      exactly when the key fits, a slot is free and the random ids are available. */
  lemma AddGainsOne(db: Database, key: uint32, userId: uint64, template: seq<byte>, w: AddWorld)
    requires db.Valid() && |template| < TWO_32
    ensures var r := Add(db, key, userId, template, w);
            && r.db.Valid()
            && (r.status == 0 ==>
                  && w.fingerId.Some?
                  && InUse(r.db) == InUse(db) + multiset{Fingerprint(1, w.fingerId.value, userId, template)}
                  && r.db.fingers.Some? && r.db.fingers.value.key == key && r.index < SLOTS
                  && r.db.fingers.value.entries[r.index] == Fingerprint(1, w.fingerId.value, userId, template))
            && (r.status != 0 ==> InUse(r.db) == InUse(db))
            && (r.status == 0 <==>
                  && w.fingerId.Some?
                  && (if db.fingers.Some? then
                        && db.fingers.value.key == key
                        && exists i :: 0 <= i < SLOTS && db.fingers.value.entries[i].valid == 0
                      else w.allocSet && w.setId.Some?))
            && AddChanges(db, key, w, r)
  {
    hide AddChanges;
    AddChangesLittle(db, key, userId, template, w);
    if db.fingers.None? && w.allocSet && w.setId.Some? {
      var s := EmptySet(key, w.setId.value);
      NothingInUse(s.entries);
      AddToSetGainsOne(db.id, s, userId, template, w);
      assert s.entries[0].valid == 0;
    } else if db.fingers.Some? {
      AddToSetGainsOne(db.id, db.fingers.value, userId, template, w);
    }
  }

  lemma AddToSetGainsOne(id: uint64, s: FingerprintSet, userId: uint64, template: seq<byte>, w: AddWorld)
    requires |s.entries| == SLOTS && Flagged(s.entries) && |template| < TWO_32
    ensures var r := AddToSet(id, s, userId, template, w);
            && r.db.Valid() && r.db.fingers.Some? && r.db.fingers.value.key == s.key
            && (r.status == 0 ==>
                  && w.fingerId.Some? && r.index < SLOTS
                  && InUse(r.db) == InUseOf(s.entries) + multiset{Fingerprint(1, w.fingerId.value, userId, template)}
                  && r.db.fingers.value.entries[r.index] == Fingerprint(1, w.fingerId.value, userId, template))
            && (r.status != 0 ==> InUse(r.db) == InUseOf(s.entries))
            && (r.status == 0 <==> w.fingerId.Some? && FirstFree(s.entries, 0) < SLOTS)
  {
    hide InUseOf;
    var i := FirstFree(s.entries, 0);
    if i < SLOTS && w.fingerId.Some? {
      InUseUpdate(s.entries, i, Fingerprint(1, w.fingerId.value, userId, template));
    }
  }

  // ---------------------------------------------------------------- deleting

  datatype DeleteResult = DeleteResult(status: int, db: Database)

  function Wiped(f: Fingerprint): Fingerprint {
    Fingerprint(0, WIPED_ID, f.userId, [])
  }

  predicate NoneInUse(entries: seq<Fingerprint>) {
    forall i :: 0 <= i < |entries| ==> entries[i].valid != 1
  }

  /** fpc_db_delete_fingerprint: the set disappears with its last fingerprint. */
  function Delete(db: Database, key: uint32, index: nat): DeleteResult
    requires db.Valid()
  {
    if index >= SLOTS then DeleteResult(-ERROR_INPUT, db)
    else if db.fingers.None? || db.fingers.value.key != key then DeleteResult(-ERROR_NOENTITY, db)
    else
      var s := db.fingers.value;
      var entries := s.entries[index := Wiped(s.entries[index])];
      DeleteResult(0, db.(fingers := if NoneInUse(entries) then None else Some(s.(entries := entries))))
  }

  /** What a delete does beside losing the fingerprint: its slot is freed and wiped, and the ids
      and every other slot stay. */
  ghost predicate DeleteChanges(db: Database, index: nat, after: Database) {
    && after.id == db.id
    && (after.fingers.Some? ==>
          && db.fingers.Some?
          && var s, s' := db.fingers.value, after.fingers.value;
             && s'.key == s.key && s'.setId == s.setId && s'.stateId == s.stateId
             && index < |s.entries| == |s'.entries|
             && (forall j :: 0 <= j < |s.entries| && j != index ==> s'.entries[j] == s.entries[j])
             && s'.entries[index].valid == 0 && s'.entries[index].template == []
             && (forall k :: 0 <= k < 32 ==> s'.entries[index].id[k] == 0xCC))
  }

  /** Deleting loses exactly the fingerprint in the slot. */
  lemma DeleteLosesOne(db: Database, key: uint32, index: nat)
    requires db.Valid()
    ensures var r := Delete(db, key, index);
            && r.db.Valid()
            && (r.status != 0 ==> r.db == db)
            && (r.status == 0 ==>
                  && index < SLOTS && db.fingers.Some?
                  && InUse(r.db) + One(db.fingers.value.entries[index]) == InUse(db)
                  && DeleteChanges(db, index, r.db)
                  && (r.db.fingers.None? <==> InUse(r.db) == multiset{}))
  {
    hide InUseOf, NoneInUse;
    var r := Delete(db, key, index);
    if r.status == 0 {
      NothingInUse([]);
      var s := db.fingers.value;
      InUseUpdate(s.entries, index, Wiped(s.entries[index]));
      EmptyIfNone(s.entries[index := Wiped(s.entries[index])]);
    }
  }

  lemma EmptyIfNone(entries: seq<Fingerprint>)
    ensures InUseOf(entries) == multiset{} <==> NoneInUse(entries)
  {
    if NoneInUse(entries) {
      NothingInUse(entries);
    } else {
      var i :| 0 <= i < |entries| && entries[i].valid == 1;
      InUseMember(entries, entries[i]);
    }
  }

  /** fpc_ta_bio_delete_template: by trimmed id; id 0 is refused. */
  function DeleteById(db: Database, key: uint32, id32: uint32): DeleteResult
    requires db.Valid()
  {
    if id32 == 0 then DeleteResult(-ERROR_CONFIG, db)
    else
      var i := IndexOfId32(db, id32);
      if i.None? then DeleteResult(-ERROR_NOENTITY, db) else Delete(db, key, i.value)
  }

  /** Deleting what was just added, by its slot, restores the fingerprints. */
  lemma AddThenDelete(db: Database, key: uint32, userId: uint64, template: seq<byte>, w: AddWorld)
    requires db.Valid() && |template| < TWO_32
    requires Add(db, key, userId, template, w).status == 0
    ensures var r := Add(db, key, userId, template, w);
            && r.db.Valid()
            && Delete(r.db, key, r.index).status == 0
            && InUse(Delete(r.db, key, r.index).db) == InUse(db)
  {
    AddGainsOne(db, key, userId, template, w);
    var r := Add(db, key, userId, template, w);
    DeleteLosesOne(r.db, key, r.index);
    Cancel(InUse(Delete(r.db, key, r.index).db), InUse(db), One(r.db.fingers.value.entries[r.index]));
  }

  /** Deleting by id loses exactly one fingerprint, and that one has the id; "no such entity"
      means that no fingerprint has it. */
  lemma DeleteByIdRemoves(db: Database, key: uint32, id32: uint32)
    requires db.Valid()
    ensures var r := DeleteById(db, key, id32);
            && r.db.Valid()
            && (r.status != 0 ==> r.db == db)
            && (r.status == 0 ==>
                  exists f: Fingerprint :: f.valid == 1 && TrimId32(f.id) == id32
                    && InUse(r.db) + multiset{f} == InUse(db))
            && (r.status == -ERROR_NOENTITY && db.fingers.Some? && db.fingers.value.key == key ==>
                  forall f <- InUse(db) :: TrimId32(f.id) != id32)
  {
    var i := IndexOfId32(db, id32);
    if id32 != 0 && i.Some? {
      DeleteLosesOne(db, key, i.value);
    } else if db.fingers.Some? {
      forall f | f in InUse(db) ensures i.None? ==> TrimId32(f.id) != id32 {
        InUseMember(db.fingers.value.entries, f);
      }
    }
  }

  // ---------------------------------------------------------------- listing

  function IdOf(f: Fingerprint): seq<uint32> {
    if f.valid == 1 then [TrimId32(f.id)] else []
  }

  /** The trimmed ids of the slots in use, in order. */
  function IdsOf(entries: seq<Fingerprint>): (ids: seq<uint32>)
    ensures |ids| <= |entries|
  {
    if entries == [] then []
    else IdsOf(entries[..|entries| - 1]) + IdOf(entries[|entries| - 1])
  }

  /** fpc_ta_bio_get_template_ids: only the active set is listed. */
  function ListedIds(db: Database, key: uint32): seq<uint32> {
    if db.fingers.Some? && db.fingers.value.key == key then IdsOf(db.fingers.value.entries) else []
  }

  lemma {:induction false} IdsUpdate(entries: seq<Fingerprint>, i: nat, f: Fingerprint)
    requires i < |entries|
    ensures multiset(IdsOf(entries[i := f])) + multiset(IdOf(entries[i]))
            == multiset(IdsOf(entries)) + multiset(IdOf(f))
  {
    hide IdOf;
    var n := |entries| - 1;
    var rest := IdsOf(entries[..n]);
    if i == n {
      assert entries[i := f][..n] == entries[..n];
    } else {
      IdsUpdate(entries[..n], i, f);
      assert entries[i := f][..n] == entries[..n][i := f];
      Exchange(multiset(rest), multiset(IdsOf(entries[..n][i := f])), multiset(IdOf(entries[i])),
               multiset(IdOf(f)), multiset(IdOf(entries[n])));
    }
  }

  lemma {:induction false} IdsMember(entries: seq<Fingerprint>, id: uint32)
    ensures id in IdsOf(entries) <==> exists i :: 0 <= i < |entries| && entries[i].valid == 1 && TrimId32(entries[i].id) == id
  {
    if entries != [] {
      var n := |entries| - 1;
      IdsMember(entries[..n], id);
      if id in IdsOf(entries[..n]) {
        var i :| 0 <= i < n && entries[..n][i].valid == 1 && TrimId32(entries[..n][i].id) == id;
        assert entries[i] == entries[..n][i];
      }
    }
  }

  /** Deleting a listed id other than 0 succeeds, and takes exactly that id off the list. */
  lemma DeleteByIdShortensList(db: Database, key: uint32, id: uint32)
    requires db.Valid()
    ensures id != 0 && id in ListedIds(db, key) ==> DeleteById(db, key, id).status == 0
    ensures DeleteById(db, key, id).status == 0 ==>
              multiset(ListedIds(DeleteById(db, key, id).db, key)) + multiset{id} == multiset(ListedIds(db, key))
  {
    hide IdsOf, NoneInUse, TrimId32;
    if db.fingers.Some? && db.fingers.value.key == key {
      var entries := db.fingers.value.entries;
      IdsMember(entries, id);
      var i := IndexOfId32(db, id);
      if id != 0 && i.Some? {
        WipedOffList(entries, i.value);
        NoIds(entries[i.value := Wiped(entries[i.value])]);
      }
    }
  }

  lemma WipedOffList(entries: seq<Fingerprint>, i: nat)
    requires i < |entries| && entries[i].valid == 1
    ensures multiset(IdsOf(entries[i := Wiped(entries[i])])) + multiset{TrimId32(entries[i].id)}
            == multiset(IdsOf(entries))
  {
    hide IdsOf, TrimId32;
    IdsUpdate(entries, i, Wiped(entries[i]));
  }

  lemma {:induction false} NoIds(entries: seq<Fingerprint>)
    ensures IdsOf(entries) == [] <==> NoneInUse(entries)
  {
    if entries != [] {
      var n := |entries| - 1;
      NoIds(entries[..n]);
      assert forall i :: 0 <= i < n ==> entries[..n][i] == entries[i];
    }
  }

  lemma NothingListed(db: Database, key: uint32)
    requires db.fingers.Some? ==> db.fingers.value.key == key
    requires ListedIds(db, key) == []
    ensures InUse(db) == multiset{}
  {
    if db.fingers.Some? {
      NoIds(db.fingers.value.entries);
      NothingInUse(db.fingers.value.entries);
    }
  }
}
