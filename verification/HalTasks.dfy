/** The HAL tasks that change the database: enrolling and removing (fpc_tee_hal.c).  They run
    against the transfer and the file of `HostStorage`, so that what is proved about memory and
    file holds of the real bytes. */
module HalTasks {
  import opened Bytes
  import opened DbFormat
  import opened DbOps
  import opened BlobTransfer
  import opened HostStorage
  import opened Callbacks

  // ---------------------------------------------------------------- memory and file

  function Held(db: Option<Database>): multiset<Fingerprint> {
    if db.Some? then InUse(db.value) else multiset{}
  }

  /** Memory and file hold the same fingerprints; no file, or an empty one, holds none. */
  ghost predicate Agrees(c: Crypto, file: Option<seq<byte>>, db: Option<Database>) {
    if file.None? || file.value == [] then Held(db) == multiset{}
    else exists d: Database :: Holds(c, file.value, d) && InUse(d) == Held(db)
  }

  /** No loading of this file makes a position wrap around. */
  ghost predicate Described(c: Crypto, file: Option<seq<byte>>) {
    file.Some? && file.value != [] ==> forall w: World :: !Unwrapped(c, file.value, w).Wrapped?
  }

  /** A file that agrees with memory, if it holds anything, can be loaded whatever the memory. */
  lemma AgreesDescribed(c: Crypto, file: Option<seq<byte>>, db: Option<Database>)
    requires Agrees(c, file, db)
    ensures Described(c, file)
  {
    hide Unpack, Packable;
    if file.Some? && file.value != [] {
      var d: Database :| Holds(c, file.value, d) && InUse(d) == Held(db);
      var w: World :| Unwrapped(c, file.value, w) == Done(d);
      forall w': World ensures !Unwrapped(c, file.value, w').Wrapped? {
        AnyWorld(c.unwrap(file.value).value, w, w');
      }
    }
  }

  lemma StoredAgrees(c: Crypto, blob: seq<byte>, db: Database)
    requires blob != [] && Packable(db) && Stores(c, Some(blob), db)
    ensures Agrees(c, Some(blob), Some(db)) && Described(c, Some(blob))
  {
    hide Unpack, Encode, Kept, Unwrapped, Packable;
    StoredStandsFor(c, blob, db, Generous());
    assert Holds(c, blob, Kept(4, db, Generous()));
    KeptInUse(db);
    AgreesDescribed(c, Some(blob), Some(db));
  }

  lemma KeptInUse(db: Database)
    ensures InUse(Kept(4, db, Generous())) == InUse(db)
  {
    if db.fingers.Some? {
      InUseKept(db.fingers.value.entries);
    }
  }

  /** After a successful load memory and file agree, unless a position wrapped around. */
  lemma LoadedAgrees(ta: Transfer, mode: int, file: Option<seq<byte>>, before: Option<Database>, w: LoadWorld,
                     maxChunk: nat)
    requires maxChunk > 0 && Loads(ta, mode, file, before, w, maxChunk, 0)
    requires file.Some? && file.value != [] ==> !Unwrapped(ta.crypto, file.value, w.unpack).Wrapped?
    ensures Agrees(ta.crypto, file, ta.userDb)
  {
    hide Unwrapped, Arrives;
    if file.Some? && file.value != [] {
      assert Holds(ta.crypto, file.value, ta.userDb.value);
    }
  }

  // ---------------------------------------------------------------- answers and events

  /** Announcements that an enrolment is complete. */
  function Finals(events: seq<Event>): nat {
    if events == [] then 0
    else Finals(events[..|events| - 1])
         + if events[|events| - 1].OnEnrollResult? && events[|events| - 1].remaining == 0 then 1 else 0
  }

  lemma {:induction false} CountConcat(a: seq<Event>, b: seq<Event>)
    ensures Errors(a + b) == Errors(a) + Errors(b)
    ensures Finals(a + b) == Finals(a) + Finals(b)
  {
    ErrorsConcat(a, b);
    if b == [] {
      assert a + b == a;
    } else {
      var n := |b| - 1;
      CountConcat(a, b[..n]);
      assert (a + b)[..|a| + n] == a + b[..n];
    }
  }

  lemma CountFew(e: Event, f: Event)
    ensures Errors([]) == 0 && Finals([]) == 0
    ensures Errors([e]) == (if e.OnError? then 1 else 0)
    ensures Finals([e]) == (if e.OnEnrollResult? && e.remaining == 0 then 1 else 0)
    ensures Errors([e, f]) == Errors([e]) + Errors([f]) && Finals([e, f]) == Finals([e]) + Finals([f])
  {
    assert [e][..0] == [] && [f][..0] == [];
    assert [e, f] == [e] + [f];
    CountConcat([e], [f]);
  }

  datatype EnrollResult =
    | Success | TooSimilar | TooManyAttempts | TooManyFailedAttempts
    | LowQuality | LowCoverage | LowQualityAndCoverage | AlreadyEnrolled

  const ENROL_COMPLETED := 0
  const ENROL_PROGRESS := 1
  const ENROL_COULD_NOT_COMPLETE := 2
  const ENROL_ALREADY_ENROLLED := 3
  const ENROL_LOW_COVERAGE := 4
  const ENROL_TOO_SIMILAR := 5
  const ENROL_LOW_QUALITY := 6

  /** fpc_ta_bio_enrol: what the library's answer to one touch means.  An enrolment is complete
      exactly when a touch that was good, or too similar to an earlier one, leaves none. */
  function EnrolCode(result: EnrollResult, remaining: nat): (r: int)
    ensures r == ENROL_COMPLETED <==> result in {Success, TooSimilar} && remaining == 0
    ensures r == ENROL_PROGRESS <==> result == Success && remaining > 0
    ensures r == ENROL_TOO_SIMILAR <==> result == TooSimilar && remaining > 0
    ensures r == ENROL_COULD_NOT_COMPLETE <==> result == TooManyFailedAttempts
    ensures r == ENROL_ALREADY_ENROLLED <==> result == AlreadyEnrolled
    ensures r == ENROL_LOW_COVERAGE <==> result == LowCoverage
    ensures r == ENROL_LOW_QUALITY <==> result in {LowQuality, LowQualityAndCoverage, TooManyAttempts}
  {
    match result
    case Success => if remaining == 0 then ENROL_COMPLETED else ENROL_PROGRESS
    case TooSimilar => if remaining == 0 then ENROL_COMPLETED else ENROL_TOO_SIMILAR
    case AlreadyEnrolled => ENROL_ALREADY_ENROLLED
    case TooManyFailedAttempts => ENROL_COULD_NOT_COMPLETE
    case LowCoverage => ENROL_LOW_COVERAGE
    case _ => ENROL_LOW_QUALITY
  }

  /** An answer to one enrolled touch, or a failure of the command. */
  datatype Touch = NoAnswer(status: Failure) | Answer(result: EnrollResult, remaining: nat)

  /** Answers met while an enrolment is finished: transport, the user a valid token names, the
      new template, and the random ids. */
  datatype EndWorld = EndWorld(
    undelivered: Option<Failure>, user: Option<uint64>, template: seq<byte>, add: AddWorld)

  /** One round of an enrolment: the capture, the answer to the touch, the end of the enrolment,
      whether it is cancelled by then, and the answers met while storing, reloading, and storing
      again after the cancelled fingerprint was deleted. */
  datatype EnrolRound = EnrolRound(
    capture: int, touch: Touch, end: EndWorld, store: StoreWorld, reload: LoadWorld, cancelled: bool,
    deleteUndelivered: Option<Failure>, storeAgain: StoreWorld)

  /** The result of the last store or reload a task issued, if any. */
  datatype Sync = NoSync | Synced(result: int)
  {
    predicate Ok() { NoSync? || result == 0 }
  }

  // ---------------------------------------------------------------- what rounds mean

  /** The library answered the touch of this round. */
  ghost predicate Touched(r: EnrolRound) { r.capture == CAPTURE_OK && r.touch.Answer? }

  /** The round leaves the enrolment going: there was no usable image, the image was of no use, or
      touches remain. */
  ghost predicate GoesOn(r: EnrolRound) {
    || r.capture == CAPTURE_QUALIFY_ABORT
    || r.capture == CAPTURE_FINGER_STUCK
    || (Touched(r) && r.touch.result in {Success, TooSimilar} && r.touch.remaining > 0)
    || (Touched(r) && r.touch.result in {LowQuality, LowCoverage, LowQualityAndCoverage, TooManyAttempts})
  }

  /** The last touch of the enrolment. */
  ghost predicate Completes(r: EnrolRound) {
    Touched(r) && r.touch.result in {Success, TooSimilar} && r.touch.remaining == 0
  }

  /** What such a round tells: what was acquired, and the touches remaining after one that was
      good or too similar. */
  ghost predicate Reported(r: EnrolRound, report: seq<Event>) {
    && (r.capture == CAPTURE_QUALIFY_ABORT ==> report == [OnAcquired(ACQUIRED_INSUFFICIENT)])
    && (r.capture == CAPTURE_FINGER_STUCK ==> report == [])
    && (Touched(r) && r.touch.result == Success ==>
          report == [OnAcquired(ACQUIRED_GOOD), OnEnrollResult(0, r.touch.remaining)])
    && (Touched(r) && r.touch.result == TooSimilar ==>
          report == [OnEnrollResult(0, r.touch.remaining), OnAcquired(ACQUIRED_TOO_SIMILAR)])
    && (Touched(r) && r.touch.result == LowCoverage ==> report == [OnAcquired(ACQUIRED_PARTIAL)])
    && (Touched(r) && r.touch.result in {LowQuality, LowQualityAndCoverage, TooManyAttempts} ==>
          report == [OnAcquired(ACQUIRED_DIRTY)])
  }

  ghost predicate AllGoOn(rounds: seq<EnrolRound>, reports: seq<seq<Event>>) {
    |reports| <= |rounds| && forall i :: 0 <= i < |reports| ==> GoesOn(rounds[i]) && Reported(rounds[i], reports[i])
  }

  /** How any other round ends the enrolment: the status, and what it tells before a complaint. */
  ghost predicate EndsWith(r: EnrolRound, status: int, report: seq<Event>) {
    && (r.capture != CAPTURE_OK ==> status == r.capture && report == [])
    && (r.capture == CAPTURE_OK && r.touch.NoAnswer? ==> status == r.touch.status && report == [])
    && (Touched(r) && r.touch.result == TooManyFailedAttempts ==>
          status == 0 && report == [OnError(ERROR_UNABLE_TO_PROCESS)])
    && (Touched(r) && r.touch.result == AlreadyEnrolled ==>
          status == 0 && report == [OnError(ERROR_ALREADY_ENROLLED)])
    && (Completes(r) && status != 0 ==> report == [])
    && (Completes(r) && status == 0 ==>
          r.end.add.fingerId.Some? && report == [OnEnrollResult(TrimId32(r.end.add.fingerId.value), 0)])
  }

  /** The error announced for the status of a finished enrolment. */
  ghost predicate Complained(status: int, complaint: seq<Event>) {
    && (status in {0, -ERROR_CANCELLED} ==> complaint == [])
    && (status == -ERROR_TIMEDOUT ==> complaint == [OnError(ERROR_TIMEOUT)])
    && (status == -ERROR_NOSPACE ==> complaint == [OnError(ERROR_NO_SPACE)])
    && (status !in {0, -ERROR_CANCELLED, -ERROR_TIMEDOUT, -ERROR_NOSPACE} ==> complaint == [OnError(ERROR_HW_UNAVAILABLE)])
  }

  lemma QuietReport(r: EnrolRound, report: seq<Event>)
    requires GoesOn(r) && Reported(r, report)
    ensures Errors(report) == 0 && Finals(report) == 0
    ensures forall e <- report :: !e.OnError?
  {
    hide Errors, Finals;
    var e := OnError(0);
    var a := if |report| > 0 then report[0] else e;
    var b := if |report| > 1 then report[1] else e;
    CountFew(a, b);
    CountFew(b, a);
    assert report == [] || report == [a] || report == [a, b];
  }

  lemma {:induction false} QuietReports(rounds: seq<EnrolRound>, reports: seq<seq<Event>>)
    requires AllGoOn(rounds, reports)
    ensures Errors(Flat(reports)) == 0 && Finals(Flat(reports)) == 0
    ensures forall e <- Flat(reports) :: !e.OnError?
  {
    hide Errors, Finals, GoesOn, Reported;
    var few := OnError(0);
    CountFew(few, few);
    if reports != [] {
      var n := |reports| - 1;
      QuietReports(rounds, reports[..n]);
      QuietReport(rounds[n], reports[n]);
      CountConcat(Flat(reports[..n]), reports[n]);
    }
  }

  /** The database after an enrolment is finished on the trusted side, if that succeeds: the
      command arrives, a valid token names a user, memory holds the template, and there is room. */
  function Enrolled(db: Option<Database>, key: uint32, w: EndWorld): (r: Option<Database>)
    requires db.Some? ==> db.value.Valid()
    ensures r.Some? ==> r.value.Valid()
  {
    if w.undelivered.Some? || w.user.None? || db.None? || |w.template| >= TWO_32 then None
    else
      var r := Add(db.value, key, w.user.value, w.template, w.add);
      if r.status == 0 && r.db.Valid() && Packable(r.db) then Some(r.db) else None
  }

  /** The fingerprint an enrolment adds. */
  function NewFinger(w: EndWorld): Fingerprint
    requires w.user.Some? && w.add.fingerId.Some?
  {
    Fingerprint(1, w.add.fingerId.value, w.user.value, w.template)
  }

  lemma EnrolledGains(db: Option<Database>, key: uint32, w: EndWorld)
    requires db.Some? ==> db.value.Valid()
    requires Enrolled(db, key, w).Some?
    ensures w.user.Some? && w.add.fingerId.Some?
    ensures var after := Enrolled(db, key, w).value;
            && Packable(after) && after.fingers.Some? && after.fingers.value.key == key
            && InUse(after) == InUse(db.value) + multiset{NewFinger(w)}
  {
    hide Add, InUse;
    AddGainsOne(db.value, key, w.user.value, w.template, w.add);
  }

  /** Exactly when an enrolment is finished. */
  lemma EnrolledExactly(db: Option<Database>, key: uint32, w: EndWorld)
    requires db.Some? ==> db.value.Valid()
    ensures Enrolled(db, key, w).Some? <==>
              && w.undelivered.None? && w.user.Some? && db.Some? && |w.template| < TWO_32
              && w.add.fingerId.Some?
              && (if db.value.fingers.Some? then
                    && db.value.fingers.value.key == key
                    && exists i :: 0 <= i < SLOTS && db.value.fingers.value.entries[i].valid == 0
                  else w.add.allocSet && w.add.setId.Some?)
              && Packable(Add(db.value, key, w.user.value, w.template, w.add).db)
  {
    hide Add, Packable, AddChanges, InUse;
    if db.Some? && w.user.Some? && |w.template| < TWO_32 {
      AddGainsOne(db.value, key, w.user.value, w.template, w.add);
    }
  }

  /** Deleting the id of a stored fingerprint finds one. */
  lemma DeleteFinds(db: Database, key: uint32, f: Fingerprint)
    requires db.Valid() && db.fingers.Some? && db.fingers.value.key == key
    requires f in InUse(db) && TrimId32(f.id) != 0
    ensures var id := TrimId32(f.id);
            && DeleteById(db, key, id).status == 0
            && IndexOfId32(db, id).Some?
            && InUse(DeleteById(db, key, id).db) + multiset{db.fingers.value.entries[IndexOfId32(db, id).value]} == InUse(db)
  {
    hide InUseOf;
    var id := TrimId32(f.id);
    InUseMember(db.fingers.value.entries, f);
    DeleteLosesOne(db, key, IndexOfId32(db, id).value);
  }

  /** The announcements for the first i of these ids, counting down. */
  function Removals(ids: seq<uint32>, i: nat): (events: seq<Event>)
    requires i <= |ids|
    ensures |events| == i
    ensures forall k :: 0 <= k < i ==> events[k] == OnRemoved(ids[k], |ids| - 1 - k)
  {
    if i == 0 then [] else Removals(ids, i - 1) + [OnRemoved(ids[i - 1], |ids| - i)]
  }

  lemma {:induction false} NoErrors(ids: seq<uint32>, i: nat)
    requires i <= |ids|
    ensures Errors(Removals(ids, i)) == 0
    ensures i == 0 ==> Removals(ids, i) == []
  {
    var few := OnError(0);
    if i == 0 {
      CountFew(few, few);
    } else {
      NoErrors(ids, i - 1);
      CountFew(OnRemoved(ids[i - 1], |ids| - i), few);
      CountConcat(Removals(ids, i - 1), [OnRemoved(ids[i - 1], |ids| - i)]);
    }
  }

  /** The database has no set but the active one. */
  predicate OneSet(db: Option<Database>, key: uint32) {
    db.Some? && db.value.fingers.Some? ==> db.value.fingers.value.key == key
  }

  /** The transport does not report its own failures as "no such entity". */
  predicate Candid(undelivered: seq<Option<Failure>>) {
    forall i :: 0 <= i < |undelivered| && undelivered[i].Some? ==> undelivered[i].value != -ERROR_NOENTITY
  }

  /** The ids still listed are those from the i-th on. */
  predicate Remaining(db: Option<Database>, key: uint32, ids: seq<uint32>, i: nat) {
    i <= |ids| && db.Some? && multiset(ListedIds(db.value, key)) == multiset(ids[i..])
  }

  lemma AfterDelete(db: Database, key: uint32, ids: seq<uint32>, i: nat)
    requires db.Valid() && i < |ids|
    ensures var r := DeleteById(db, key, ids[i]);
            && (r.status == 0 && Remaining(Some(db), key, ids, i) ==> Remaining(Some(r.db), key, ids, i + 1))
            && (Remaining(Some(db), key, ids, i) ==> r.status != -ERROR_NOENTITY)
            && (OneSet(Some(db), key) ==> OneSet(Some(r.db), key))
  {
    hide DeleteById, ListedIds, OneSet;
    DeleteByIdShortensList(db, key, ids[i]);
    DeleteKeepsKey(db, key, ids[i]);
    assert ids[i..] == [ids[i]] + ids[i + 1..];
    var r := DeleteById(db, key, ids[i]);
    if Remaining(Some(db), key, ids, i) {
      assert ids[i] in multiset(ids[i..]);
      if r.status == 0 {
        Cancel(multiset(ListedIds(r.db, key)), multiset(ids[i + 1..]), multiset{ids[i]});
      }
    }
  }

  lemma DeleteKeepsKey(db: Database, key: uint32, id: uint32)
    requires db.Valid()
    ensures OneSet(Some(db), key) ==> OneSet(Some(DeleteById(db, key, id).db), key)
    ensures id == 0 ==> DeleteById(db, key, id).status != -ERROR_NOENTITY
  {
  }

  // ---------------------------------------------------------------- when nothing goes wrong

  /** In these answers nothing goes wrong for any database whose packed form has at most `limit`
      bytes. */
  ghost predicate Reliable(c: Crypto, w: StoreWorld, limit: nat) {
    && w.size.Delivered? && w.open.Delivered? && w.close.Delivered?
    && w.ta.memory && w.memory && w.send.memory && (forall i: nat :: w.send.deliver(i).Delivered?)
    && Saves(w.file, MAX_TRANSFER)
    && forall db: Database :: Packable(db) && |Encode(db)| <= limit ==>
         CanWrap(c, db, w.ta.nonce) && 0 < c.wrappedSize(|Encode(db)|) <= MAX_TRANSFER
  }

  lemma ReliableStores(c: Crypto, db: Database, path: Path, w: StoreWorld, maxChunk: nat, limit: nat)
    requires Packable(db) && |Encode(db)| <= limit && maxChunk > 0
    requires Reliable(c, w, limit) && |TempPath(path)| < PATH_MAX
    ensures CanStore(c, CLOSED, Some(db), path, w, maxChunk)
  {
    hide Encode, Messages, CanWrap;
    assert CanWrap(c, db, w.ta.nonce);
  }

  lemma DeleteStatus(db: Database, key: uint32, id: uint32)
    requires db.Valid() && id != 0
    ensures DeleteById(db, key, id).status in {0, -ERROR_NOENTITY}
  {
  }

  /** Small enough for the reliable answers. */
  predicate Within(db: Option<Database>, limit: nat) {
    db.Some? && db.value.Valid() && |Encode(db.value)| <= limit
  }

  // ---------------------------------------------------------------- the device

  class Hal {
    const ta: Transfer
    const fs: FileSystem
    const path: Path
    const maxChunk: nat
    const activeKey: uint32

    constructor (ta: Transfer, fs: FileSystem, path: Path, maxChunk: nat, activeKey: uint32)
      requires ta.Valid() && 0 < maxChunk < TWO_32
      requires path in fs.files ==> |fs.files[path]| < 0x8000_0000
      ensures Valid() && this.ta == ta && this.fs == fs && this.path == path && this.activeKey == activeKey
    {
      this.ta, this.fs, this.path, this.maxChunk, this.activeKey := ta, fs, path, maxChunk, activeKey;
    }

    ghost predicate Valid()
      reads ta, fs
    {
      && ta.Valid() && 0 < maxChunk < TWO_32
      && (path in fs.files ==> |fs.files[path]| < 0x8000_0000)
    }

    ghost function File(): Option<seq<byte>>
      reads fs
    {
      At(fs.files, path)
    }

    /** Memory and file hold the same fingerprints. */
    ghost predicate InStep()
      reads ta, fs
    {
      Agrees(ta.crypto, File(), ta.userDb)
    }

    lemma DatabaseValid()
      requires Valid()
      ensures ta.userDb.Some? ==> ta.userDb.value.Valid()
    {
    }

    lemma PackableValid(db: Database)
      requires Packable(db)
      ensures db.Valid()
    {
    }

    method StoreDb(w: StoreWorld) returns (result: int)
      requires Valid()
      modifies ta, fs
      ensures Valid() && ta.userDb == old(ta.userDb) && result <= 0
      ensures ta.userDb.Some? ==> ta.userDb.value.Valid()
      ensures result == 0 <==> CanStore(ta.crypto, old(ta.mode), ta.userDb, path, w, maxChunk)
      ensures result == 0 ==> InStep() && Described(ta.crypto, File())
      ensures result == 0 && w.close.Delivered? ==> ta.Closed()
      ensures result != 0 ==> File() == old(File())
    {
      hide Packable, Agrees, Described, BodySucceeds;
      DatabaseValid();
      result := Store(ta, fs, path, maxChunk, w);
      if result == 0 {
        StoredAgrees(ta.crypto, fs.files[path], ta.userDb.value);
      }
    }

    method LoadDb(w: LoadWorld) returns (result: int)
      requires Valid()
      modifies ta
      ensures Valid() && File() == old(File()) && result <= 0
      ensures Loads(ta, old(ta.mode), File(), old(ta.userDb), w, maxChunk, result)
      ensures result == 0 && (Described(ta.crypto, File()) || Confined(w.unpack, MAX_TRANSFER)) ==> InStep()
    {
      hide Packable, Agrees, Unwrapped, Confined;
      result := Load(ta, fs, path, maxChunk, w);
      if result == 0 && (Described(ta.crypto, File()) || Confined(w.unpack, MAX_TRANSFER)) {
        if File().Some? && File().value != [] && Confined(w.unpack, MAX_TRANSFER) {
          TransferredNeverWraps(ta.crypto, File().value, w.unpack);
        }
        LoadedAgrees(ta, old(ta.mode), File(), old(ta.userDb), w, maxChunk);
      }
    }

    /** fpc_tee_end_enrol: one fingerprint more on success, the same ones otherwise. */
    method EndEnrol(w: EndWorld) returns (status: int, id: uint32)
      requires Valid()
      modifies ta`userDb
      ensures Valid() && status <= 0
      ensures old(ta.userDb).Some? ==> old(ta.userDb).value.Valid()
      ensures status == 0 <==> Enrolled(old(ta.userDb), activeKey, w).Some?
      ensures status == 0 ==>
                && ta.userDb == Enrolled(old(ta.userDb), activeKey, w)
                && w.user.Some? && w.add.fingerId.Some? && id == TrimId32(w.add.fingerId.value)
                && Held(ta.userDb) == Held(old(ta.userDb)) + multiset{NewFinger(w)}
      ensures status != 0 ==> Held(ta.userDb) == Held(old(ta.userDb))
    {
      hide Packable, Add;
      id := 0;
      DatabaseValid();
      if w.undelivered.Some? {
        return w.undelivered.value, 0;
      }
      if w.user.None? || ta.userDb.None? || |w.template| >= TWO_32 {
        return -ERROR_INPUT, 0;
      }
      AddGainsOne(ta.userDb.value, activeKey, w.user.value, w.template, w.add);
      var r := Add(ta.userDb.value, activeKey, w.user.value, w.template, w.add);
      if !Packable(r.db) {
        return -ERROR_ALLOC, 0;
      }
      ta.userDb := Some(r.db);
      if r.status != 0 {
        return -ERROR_INPUT, 0;
      }
      return 0, TrimId32(w.add.fingerId.value);
    }

    /** fpc_tee_delete_template.  Without a database the trusted side reads through a null pointer
        (`crashed`), and nothing more is said. */
    method DeleteTemplate(id: uint32, undelivered: Option<Failure>) returns (status: int, crashed: bool)
      requires Valid()
      modifies ta`userDb
      ensures Valid()
      ensures crashed <==> undelivered.None? && id != 0 && old(ta.userDb).None?
      ensures crashed ==> ta.userDb == old(ta.userDb)
      ensures undelivered.Some? ==> status == undelivered.value
      ensures !crashed && old(ta.userDb).None? ==> status != 0
      ensures !crashed && status != 0 ==> ta.userDb == old(ta.userDb)
      ensures undelivered.None? && old(ta.userDb).Some? ==>
                && old(ta.userDb).value.Valid()
                && var r := DeleteById(old(ta.userDb).value, activeKey, id);
                   status == r.status && (status == 0 ==> ta.userDb == Some(r.db))
      ensures !crashed && status == 0 ==>
                exists f: Fingerprint :: f.valid == 1 && TrimId32(f.id) == id
                  && Held(ta.userDb) + multiset{f} == Held(old(ta.userDb))
    {
      hide Packable, DeleteById;
      DatabaseValid();
      crashed := false;
      if undelivered.Some? {
        return undelivered.value, false;
      }
      if ta.userDb.None? {
        if id == 0 {
          return -ERROR_CONFIG, false;
        }
        status := *;
        return status, true;
      }
      DeleteByIdRemoves(ta.userDb.value, activeKey, id);
      var r := DeleteById(ta.userDb.value, activeKey, id);
      if r.status == 0 {
        DeletedPackable(ta.userDb.value, activeKey, id);
        ta.userDb := Some(r.db);
      }
      return r.status, false;
    }

    lemma DeletedPackable(db: Database, key: uint32, id: uint32)
      requires Packable(db) && DeleteById(db, key, id).status == 0
      ensures Packable(DeleteById(db, key, id).db)
    {
      DeletedSmaller(db, key, id);
    }

    /** The enrolment finished in this round gets as far as being stored. */
    ghost predicate Secures(r: EnrolRound)
      reads ta, fs
      requires Valid()
    {
      var db := Enrolled(ta.userDb, activeKey, r.end);
      db.Some? && CanStore(ta.crypto, ta.mode, db, path, r.store, maxChunk)
    }

    /** What a cancelled enrolment leaves: without a delete the new fingerprint stays; with one, the
        first fingerprint that has its trimmed id goes. */
    ghost predicate AfterCancel(before: Option<Database>, after: Option<Database>, r: EnrolRound)
      requires r.end.user.Some? && r.end.add.fingerId.Some?
    {
      var f := NewFinger(r.end);
      var id := TrimId32(f.id);
      if r.deleteUndelivered.Some? || id == 0 then Held(after) == Held(before) + multiset{f}
      else
        && (exists g: Fingerprint :: TrimId32(g.id) == id && Held(after) + multiset{g} == Held(before) + multiset{f})
        && ((forall g <- Held(before) :: TrimId32(g.id) != id) ==> Held(after) == Held(before))
    }

    /** The end of an enrolment, after the last touch. */
    method Complete(r: EnrolRound) returns (status: int, events: seq<Event>, sync: Sync)
      requires Valid()
      modifies ta, fs
      ensures Valid()
      ensures status == 0 <==> old(Secures(r)) && !r.cancelled
      ensures status == 0 ==>
                && sync == Synced(0) && InStep() && r.end.add.fingerId.Some?
                && events == [OnEnrollResult(TrimId32(r.end.add.fingerId.value), 0)]
      ensures status != 0 ==> events == []
      ensures old(Secures(r)) && r.cancelled ==>
                && status == -ERROR_CANCELLED && r.end.user.Some? && r.end.add.fingerId.Some?
                && AfterCancel(old(ta.userDb), ta.userDb, r)
      ensures old(InStep()) && sync.Ok() ==> InStep()
    {
      hide Packable, Agrees, Described, CanStore, Enrolled, AfterCancel, Held, Loads, Confined;
      var id;
      events, sync := [], NoSync;
      ghost var before := ta.userDb;
      status, id := EndEnrol(r.end);
      if status != 0 {
        if old(InStep()) {
          SameHeld(ta.crypto, File(), before, ta.userDb);
        }
        return;
      }
      status := StoreDb(r.store);
      sync := Synced(status);
      if status != 0 {
        var reloaded := LoadDb(r.reload);
        sync := Synced(reloaded);
        if old(InStep()) {
          AgreesDescribed(ta.crypto, old(File()), before);
        }
        return;
      }
      if r.cancelled {
        CancelEnrolment(before, id, r);
        var stored := StoreDb(r.storeAgain);
        sync := Synced(stored);
        return -ERROR_CANCELLED, events, sync;
      }
      events := [OnEnrollResult(id, 0)];
    }

    /** The new fingerprint is deleted again by its trimmed id, whatever the answer. */
    method CancelEnrolment(ghost before: Option<Database>, id: uint32, r: EnrolRound)
      requires Valid() && (before.Some? ==> before.value.Valid())
      requires Enrolled(before, activeKey, r.end).Some? && ta.userDb == Enrolled(before, activeKey, r.end)
      requires r.end.add.fingerId.Some? && id == TrimId32(r.end.add.fingerId.value)
      modifies ta`userDb
      ensures Valid() && r.end.user.Some? && AfterCancel(before, ta.userDb, r)
    {
      hide Packable, DeleteById, InUse, TrimId32, CanStore;
      EnrolledGains(before, activeKey, r.end);
      ghost var after := ta.userDb.value;
      ghost var f := NewFinger(r.end);
      assert before.Some?;
      var status, crashed := DeleteTemplate(id, r.deleteUndelivered);
      if r.deleteUndelivered.None? {
        if id == 0 {
          ZeroIdRefused(after, activeKey);
        } else {
          DeleteFinds(after, activeKey, f);
          OnlyOne(before.value, after, f, ta.userDb.value, activeKey);
        }
      }
    }

    lemma ZeroIdRefused(db: Database, key: uint32)
      requires db.Valid()
      ensures DeleteById(db, key, 0).status != 0
    {
    }

    /** If no other fingerprint has the id, the one found is the new one. */
    lemma OnlyOne(before: Database, after: Database, f: Fingerprint, left: Database, key: uint32)
      requires after.Valid() && after.fingers.Some? && after.fingers.value.key == key
      requires InUse(after) == InUse(before) + multiset{f}
      requires TrimId32(f.id) != 0 && left == DeleteById(after, key, TrimId32(f.id)).db
      ensures exists g: Fingerprint :: TrimId32(g.id) == TrimId32(f.id) && InUse(left) + multiset{g} == InUse(after)
      ensures (forall g <- InUse(before) :: TrimId32(g.id) != TrimId32(f.id)) ==> InUse(left) == InUse(before)
    {
      hide DeleteById, InUse, TrimId32;
      DeleteFinds(after, key, f);
      var g := after.fingers.value.entries[IndexOfId32(after, TrimId32(f.id)).value];
      assert TrimId32(g.id) == TrimId32(f.id);
      assert g in InUse(after);
      if forall g' <- InUse(before) :: TrimId32(g'.id) != TrimId32(f.id) {
        assert g == f;
        Cancel(InUse(left), InUse(before), multiset{f});
      }
    }

    /** One round of do_enroll: `done` when it leaves the loop. */
    method Round(r: EnrolRound) returns (status: int, done: bool, events: seq<Event>, sync: Sync)
      requires Valid()
      modifies ta, fs
      ensures Valid()
      ensures old(InStep()) && sync.Ok() ==> InStep()
      ensures done <==> !GoesOn(r)
      ensures !done ==>
                Reported(r, events) && sync == NoSync && ta.userDb == old(ta.userDb) && File() == old(File())
      ensures done ==> EndsWith(r, status, events)
      ensures Completes(r) && status == 0 ==> sync == Synced(0) && InStep()
      ensures Completes(r) ==> (status == 0 <==> old(Secures(r)) && !r.cancelled)
    {
      hide Packable, Agrees, Secures, AfterCancel;
      events, sync, done := [], NoSync, false;
      status := r.capture;
      if status == CAPTURE_QUALIFY_ABORT {
        events := [OnAcquired(ACQUIRED_INSUFFICIENT)];
        return;
      } else if status == CAPTURE_FINGER_STUCK {
        return;
      } else if status != 0 {
        done := true;
        return;
      }
      if r.touch.NoAnswer? {
        return r.touch.status, true, events, sync;
      }
      status := EnrolCode(r.touch.result, r.touch.remaining);
      if status == ENROL_COMPLETED {
        done := true;
        status, events, sync := Complete(r);
      } else if status == ENROL_PROGRESS {
        events := [OnAcquired(ACQUIRED_GOOD), OnEnrollResult(0, r.touch.remaining)];
      } else if status == ENROL_COULD_NOT_COMPLETE {
        return 0, true, [OnError(ERROR_UNABLE_TO_PROCESS)], sync;
      } else if status == ENROL_TOO_SIMILAR {
        events := [OnEnrollResult(0, r.touch.remaining), OnAcquired(ACQUIRED_TOO_SIMILAR)];
      } else if status == ENROL_ALREADY_ENROLLED {
        return 0, true, [OnError(ERROR_ALREADY_ENROLLED)], sync;
      } else if status == ENROL_LOW_QUALITY {
        events := [OnAcquired(ACQUIRED_DIRTY)];
      } else if status == ENROL_LOW_COVERAGE {
        events := [OnAcquired(ACQUIRED_PARTIAL)];
      }
    }

    /** do_enroll, followed for as many rounds as given; `reports` holds what each round told.
        Every round is used until one ends the run, and a complaint about a bad status comes last.
        Completion is announced at most once, as the last event, exactly for a run that ends well
        with a touch after which none remains, and only after a successful store; a finished run
        that was not cancelled makes exactly one announcement of completion or error.  Memory and
        file agree afterwards if they did before and the last store or reload succeeded. */
    method DoEnroll(authorize: int, begin: int, rounds: seq<EnrolRound>)
      returns (status: int, finished: bool, reports: seq<seq<Event>>, complaint: seq<Event>, events: seq<Event>,
               sync: Sync)
      requires Valid()
      modifies ta, fs
      ensures Valid()
      ensures |reports| <= |rounds| && events == Flat(reports) + complaint
      ensures if finished then Complained(status, complaint) else complaint == []
      ensures authorize != 0 || begin != 0 ==>
                && finished && reports == [] && sync == NoSync
                && status == if authorize != 0 then authorize else begin
      ensures authorize == 0 && begin == 0 && !finished ==>
                |reports| == |rounds| && AllGoOn(rounds, reports) && sync == NoSync
      ensures authorize == 0 && begin == 0 && finished ==>
                && reports != [] && AllGoOn(rounds, reports[..|reports| - 1])
                && var r := rounds[|reports| - 1]; !GoesOn(r) && EndsWith(r, status, reports[|reports| - 1])
      ensures Finals(events) == 1 <==>
                && finished && reports != [] && status == 0
                && var r := rounds[|reports| - 1];
                   && r.capture == CAPTURE_OK && r.touch.Answer?
                   && r.touch.result in {Success, TooSimilar} && r.touch.remaining == 0
      ensures Finals(events) == 1 ==>
                && sync == Synced(0) && InStep()
                && var last := events[|events| - 1]; last.OnEnrollResult? && last.remaining == 0
      ensures OnError(ERROR_UNABLE_TO_PROCESS) in events <==>
                && finished && reports != []
                && var r := rounds[|reports| - 1];
                   r.capture == CAPTURE_OK && r.touch.Answer? && r.touch.result == TooManyFailedAttempts
      ensures OnError(ERROR_ALREADY_ENROLLED) in events <==>
                && finished && reports != []
                && var r := rounds[|reports| - 1];
                   r.capture == CAPTURE_OK && r.touch.Answer? && r.touch.result == AlreadyEnrolled
      ensures Finals(events) + Errors(events) == (if finished && status != -ERROR_CANCELLED then 1 else 0)
      ensures old(InStep()) && sync.Ok() ==> InStep()
    {
      hide Agrees, Errors, Finals, Flat, GoesOn, Reported, EndsWith, Complained, Secures;
      reports, complaint, sync, finished := [], [], NoSync, true;
      FlatSnoc([], []);
      status := authorize;
      if status == 0 {
        status := begin;
      }
      if status == 0 {
        finished := false;
        while |reports| < |rounds| && !finished
          invariant Valid() && |reports| <= |rounds|
          invariant old(InStep()) && sync.Ok() ==> InStep()
          invariant !finished ==> sync == NoSync && AllGoOn(rounds, reports)
          invariant finished ==>
                      && reports != [] && AllGoOn(rounds, reports[..|reports| - 1])
                      && !GoesOn(rounds[|reports| - 1])
                      && EndsWith(rounds[|reports| - 1], status, reports[|reports| - 1])
                      && (Completes(rounds[|reports| - 1]) && status == 0 ==> sync == Synced(0) && InStep())
        {
          var report, s;
          status, finished, report, s := Round(rounds[|reports|]);
          sync := if s.Synced? then s else sync;
          ghost var before := reports;
          reports := reports + [report];
          assert reports[..|reports| - 1] == before;
        }
        if !finished {
          events := Flat(reports);
          assert events + [] == events;
          QuietReports(rounds, reports);
          return;
        }
      }
      if status != 0 && status != -ERROR_CANCELLED {
        var code := if status == -ERROR_TIMEDOUT then ERROR_TIMEOUT
                    else if status == -ERROR_NOSPACE then ERROR_NO_SPACE
                    else ERROR_HW_UNAVAILABLE;
        complaint := [OnError(code)];
      }
      assert Complained(status, complaint) by { IsComplaint(status, complaint); }
      events := Flat(reports) + complaint;
      if reports == [] {
        OnlyComplaint(status, complaint);
      } else {
        EndCounts(rounds, reports, status, complaint);
      }
    }

    lemma IsComplaint(status: int, complaint: seq<Event>)
      requires status in {0, -ERROR_CANCELLED} ==> complaint == []
      requires status !in {0, -ERROR_CANCELLED} ==>
                 complaint == [OnError(if status == -ERROR_TIMEDOUT then ERROR_TIMEOUT
                                       else if status == -ERROR_NOSPACE then ERROR_NO_SPACE
                                       else ERROR_HW_UNAVAILABLE)]
      ensures Complained(status, complaint)
    {
    }

    lemma ComplaintCounts(status: int, complaint: seq<Event>)
      requires Complained(status, complaint)
      ensures Finals(complaint) == 0
      ensures Errors(complaint) == |complaint| == if status in {0, -ERROR_CANCELLED} then 0 else 1
      ensures OnError(ERROR_UNABLE_TO_PROCESS) !in complaint && OnError(ERROR_ALREADY_ENROLLED) !in complaint
    {
      hide Errors, Finals;
      var c := if complaint == [] then OnError(0) else complaint[0];
      CountFew(c, c);
      assert complaint == [] || complaint == [c];
    }

    lemma OnlyComplaint(status: int, complaint: seq<Event>)
      requires Complained(status, complaint) && status != 0
      ensures var events := Flat([]) + complaint;
              && Finals(events) == 0 && Errors(events) == (if status == -ERROR_CANCELLED then 0 else 1)
              && OnError(ERROR_UNABLE_TO_PROCESS) !in events && OnError(ERROR_ALREADY_ENROLLED) !in events
    {
      hide Errors, Finals;
      ComplaintCounts(status, complaint);
      assert Flat([]) + complaint == complaint;
    }

    /** What the round that ends an enrolment announces. */
    lemma LastCounts(r: EnrolRound, status: int, last: seq<Event>)
      requires !GoesOn(r) && EndsWith(r, status, last)
      ensures Finals(last) + Errors(last) == if status == 0 then 1 else 0
      ensures Finals(last) == 1 <==> status == 0 && Completes(r)
      ensures Finals(last) == 1 ==> |last| == 1 && last[0].OnEnrollResult? && last[0].remaining == 0
      ensures OnError(ERROR_UNABLE_TO_PROCESS) in last <==> Touched(r) && r.touch.result == TooManyFailedAttempts
      ensures OnError(ERROR_ALREADY_ENROLLED) in last <==> Touched(r) && r.touch.result == AlreadyEnrolled
    {
      hide Errors, Finals;
      var e := if last == [] then OnError(0) else last[0];
      CountFew(e, e);
      assert last == [] || last == [e];
    }

    /** Announcements of a finished run, counted. */
    lemma EndCounts(rounds: seq<EnrolRound>, reports: seq<seq<Event>>, status: int, complaint: seq<Event>)
      requires 0 < |reports| <= |rounds| && AllGoOn(rounds, reports[..|reports| - 1])
      requires !GoesOn(rounds[|reports| - 1]) && EndsWith(rounds[|reports| - 1], status, reports[|reports| - 1])
      requires Complained(status, complaint)
      ensures var events, r := Flat(reports) + complaint, rounds[|reports| - 1];
              && Finals(events) + Errors(events) == (if status == -ERROR_CANCELLED then 0 else 1)
              && (Finals(events) == 1 <==> status == 0 && Completes(r))
              && (Finals(events) == 1 ==>
                    && events != []
                    && var last := events[|events| - 1]; last.OnEnrollResult? && last.remaining == 0)
              && (OnError(ERROR_UNABLE_TO_PROCESS) in events <==> Touched(r) && r.touch.result == TooManyFailedAttempts)
              && (OnError(ERROR_ALREADY_ENROLLED) in events <==> Touched(r) && r.touch.result == AlreadyEnrolled)
    {
      hide Errors, Finals, GoesOn, Reported, EndsWith, Complained, Completes;
      var n := |reports| - 1;
      var told, last := Flat(reports[..n]), reports[n];
      QuietReports(rounds, reports[..n]);
      LastCounts(rounds[n], status, last);
      ComplaintCounts(status, complaint);
      CountConcat(told, last);
      CountConcat(told + last, complaint);
    }

    // -------------------------------------------------------------- removing

    /** The ids do_remove works on: the one asked for, or all that are listed. */
    ghost function Targets(fid: uint32): seq<uint32>
      reads ta
    {
      if fid != 0 then [fid] else if ta.userDb.Some? then ListedIds(ta.userDb.value, activeKey) else []
    }

    /** One turn of the loop of do_remove: delete, and store what is left. */
    method RemoveOne(ghost ids: seq<uint32>, ghost i: nat, ghost limit: nat, id: uint32,
                     undelivered: Option<Failure>, w: StoreWorld)
      returns (failed: bool, crashed: bool, sync: Sync)
      requires Valid() && i < |ids| && ids[i] == id
      modifies ta, fs
      ensures Valid()
      ensures crashed <==> undelivered.None? && id != 0 && old(ta.userDb).None?
      ensures crashed ==> failed && ta.userDb == old(ta.userDb) && File() == old(File())
      ensures !failed ==> sync.Ok() && (old(InStep()) ==> InStep())
      ensures old(InStep()) || old(Described(ta.crypto, File())) ==> Described(ta.crypto, File())
      ensures old(ta.userDb).Some? ==> ta.userDb.Some?
      ensures OneSet(old(ta.userDb), activeKey) ==> OneSet(ta.userDb, activeKey)
      ensures !failed && Remaining(old(ta.userDb), activeKey, ids, i)
              && (undelivered.Some? ==> undelivered.value != -ERROR_NOENTITY)
              ==> Remaining(ta.userDb, activeKey, ids, i + 1)
      ensures old(ta.Closed()) && Within(old(ta.userDb), limit) && Reliable(ta.crypto, w, limit)
              && |TempPath(path)| < PATH_MAX && undelivered.None? && id != 0
              ==> !failed && ta.Closed() && Within(ta.userDb, limit)
    {
      hide Agrees, Described, DeleteById, Packable, Held, Remaining, OneSet, CanStore, Reliable, Encode;
      failed, sync := false, NoSync;
      if InStep() {
        AgreesDescribed(ta.crypto, File(), ta.userDb);
      }
      ghost var before := ta.userDb;
      var status;
      status, crashed := DeleteTemplate(id, undelivered);
      if crashed {
        failed := true;
        return;
      }
      if undelivered.None? && before.Some? {
        assert before == Some(before.value);
        AfterDelete(before.value, activeKey, ids, i);
        if id != 0 {
          DeleteStatus(before.value, activeKey, id);
        }
        if status == 0 {
          DeletedSmaller(before.value, activeKey, id);
        }
      }
      NothingRemains(before, ids, i);
      if status != 0 && status != -ERROR_NOENTITY {
        failed := true;
      } else if status == 0 {
        if Reliable(ta.crypto, w, limit) && |TempPath(path)| < PATH_MAX && Within(ta.userDb, limit) {
          ReliableStores(ta.crypto, ta.userDb.value, path, w, maxChunk, limit);
          ReliableCloses(w, limit);
        }
        var stored := StoreDb(w);
        sync := Synced(stored);
        failed := stored != 0;
      }
    }

    lemma ReliableCloses(w: StoreWorld, limit: nat)
      requires Reliable(ta.crypto, w, limit)
      ensures w.close.Delivered?
    {
    }

    /** Nothing can go wrong in a removal: every command is delivered, every store can succeed from
        a closed transfer, and no id is 0. */
    ghost predicate Smoothly(fid: uint32, listFails: bool, undelivered: seq<Option<Failure>>, stores: seq<StoreWorld>)
      reads ta
      requires ta.Valid()
    {
      && ta.Closed() && ta.userDb.Some? && |TempPath(path)| < PATH_MAX
      && (forall i :: 0 <= i < |undelivered| ==> undelivered[i].None?)
      && (forall i :: 0 <= i < |stores| ==> Reliable(ta.crypto, stores[i], |Encode(ta.userDb.value)|))
      && (fid == 0 ==> !listFails) && 0 !in Targets(fid)
    }

    lemma NothingRemains(db: Option<Database>, ids: seq<uint32>, i: nat)
      ensures db.None? ==> !Remaining(db, activeKey, ids, i)
    {
    }

    /** do_remove, where id 0 means all: one store for each fingerprint deleted, one announcement
        for each id, counting down, a closing one unless a single id is removed on a Treble
        device, and an error and a reload when anything fails.  Memory and
        file agree afterwards if they did before and the last store or reload succeeded.
        Removing all of the only set leaves no fingerprint.  Removing a single id without a
        database crashes the trusted side (`crashed`). */
    method DoRemove(fid: uint32, treble: bool, listFails: bool, undelivered: seq<Option<Failure>>,
                    stores: seq<StoreWorld>, reload: LoadWorld)
      returns (failed: bool, crashed: bool, removed: nat, events: seq<Event>, sync: Sync)
      requires Valid() && |undelivered| == |stores| == SLOTS
      modifies ta, fs
      ensures Valid()
      ensures crashed <==> fid != 0 && old(ta.userDb).None? && undelivered[0].None?
      ensures crashed ==> events == [] && ta.userDb == old(ta.userDb) && File() == old(File())
      ensures !crashed && old(InStep()) && sync.Ok() ==> InStep()
      ensures removed <= |old(Targets(fid))|
      ensures !crashed && failed ==> events == Removals(old(Targets(fid)), removed) + [OnError(ERROR_UNABLE_TO_REMOVE)]
      ensures !crashed ==> Errors(events) == if failed then 1 else 0
      ensures !failed ==>
                && !crashed && sync.Ok() && removed == |old(Targets(fid))|
                && events == Removals(old(Targets(fid)), removed) + (if fid == 0 || !treble then [OnRemoved(0, 0)] else [])
      ensures !failed && fid == 0 && OneSet(old(ta.userDb), activeKey) && Candid(undelivered) ==>
                Held(ta.userDb) == multiset{}
      ensures old(Smoothly(fid, listFails, undelivered, stores)) ==> !failed
    {
      hide Agrees, Errors, Described, Packable, ListedIds, OneSet, Removals, InUse, Confined, Loads, Reliable, Encode;
      DatabaseValid();
      ghost var smooth := Smoothly(fid, listFails, undelivered, stores);
      ghost var limit := if ta.userDb.Some? then |Encode(ta.userDb.value)| else 0;
      events, sync, failed, crashed, removed := [], NoSync, false, false, 0;
      var ids: seq<uint32> := [fid];
      if fid == 0 {
        if listFails || ta.userDb.None? {
          failed := true;
          ids := [];
        } else {
          PackableValid(ta.userDb.value);
          ids := ListedIds(ta.userDb.value, activeKey);
          ListedFew(ta.userDb.value);
        }
      }
      NoErrors(ids, 0);
      NoErrors(old(Targets(fid)), 0);
      if old(InStep()) {
        AgreesDescribed(ta.crypto, File(), ta.userDb);
      }
      assert ids[0..] == ids;
      while removed < |ids| && !failed
        invariant Valid() && removed <= |ids| <= SLOTS
        invariant !failed ==> sync.Ok() && (old(InStep()) ==> InStep())
        invariant old(InStep()) ==> Described(ta.crypto, File())
        invariant events == Removals(ids, removed)
        invariant crashed <==> failed && removed == 0 && fid != 0 && old(ta.userDb).None? && undelivered[0].None?
        invariant crashed ==> ta.userDb == old(ta.userDb) && File() == old(File())
        invariant removed == 0 && !failed ==> ta.userDb == old(ta.userDb) && File() == old(File())
        invariant fid == 0 && !failed ==> ta.userDb.Some?
        invariant fid != 0 && removed > 0 ==> old(ta.userDb).Some? || undelivered[0].Some?
        invariant !failed && fid == 0 && Candid(undelivered) ==> Remaining(ta.userDb, activeKey, ids, removed)
        invariant OneSet(old(ta.userDb), activeKey) ==> OneSet(ta.userDb, activeKey)
        invariant smooth ==> !failed && ta.Closed() && Within(ta.userDb, limit)
        decreases |ids| - removed, if failed then 0 else 1
      {
        var s;
        failed, crashed, s := RemoveOne(ids, removed, limit, ids[removed], undelivered[removed], stores[removed]);
        sync := if s.Synced? then s else sync;
        if !failed {
          NextRemoval(ids, removed);
          events := events + [OnRemoved(ids[removed], |ids| - 1 - removed)];
          removed := removed + 1;
        }
      }
      if crashed {
        return;
      }
      NoErrors(ids, removed);
      if failed {
        events := Announce(events, OnError(ERROR_UNABLE_TO_REMOVE));
        var reloaded := LoadDb(reload);
        sync := Synced(reloaded);
        return;
      }
      if !treble || fid == 0 {
        events := Announce(events, OnRemoved(0, 0));
      }
      if fid == 0 {
        if OneSet(ta.userDb, activeKey) && Candid(undelivered) {
          assert ids[|ids|..] == [];
          NothingLeft(ta.userDb, ids);
        }
      }
    }

    method Announce(events: seq<Event>, e: Event) returns (more: seq<Event>)
      ensures more == events + [e]
      ensures Errors(more) == Errors(events) + if e.OnError? then 1 else 0
    {
      CountFew(e, e);
      CountConcat(events, [e]);
      more := events + [e];
    }

    lemma NextRemoval(ids: seq<uint32>, i: nat)
      requires i < |ids|
      ensures Removals(ids, i + 1) == Removals(ids, i) + [OnRemoved(ids[i], |ids| - 1 - i)]
    {
    }

    lemma ListedFew(db: Database)
      requires db.Valid()
      ensures |ListedIds(db, activeKey)| <= SLOTS
    {
    }

    lemma NothingLeft(db: Option<Database>, ids: seq<uint32>)
      requires Remaining(db, activeKey, ids, |ids|) && OneSet(db, activeKey)
      ensures Held(db) == multiset{}
    {
      assert ids[|ids|..] == [];
      NothingListed(db.value, activeKey);
    }

    lemma SameHeld(c: Crypto, file: Option<seq<byte>>, a: Option<Database>, b: Option<Database>)
      requires Held(a) == Held(b) && Agrees(c, file, a)
      ensures Agrees(c, file, b)
    {
    }
  }

  lemma {:induction false} EncodeEntriesUpdate(entries: seq<Fingerprint>, i: nat, f: Fingerprint)
    requires i < |entries| && Flagged(entries) && Flagged(entries[i := f]) && |f.template| < TWO_32
    ensures |EncodeEntries(4, entries[i := f])| + |EncodeEntry(4, entries[i])|
            == |EncodeEntries(4, entries)| + |EncodeEntry(4, f)|
  {
    hide EncodeEntry;
    if i == 0 {
      assert entries[i := f][1..] == entries[1..];
    } else {
      assert entries[i := f][1..] == entries[1..][i - 1 := f];
      EncodeEntriesUpdate(entries[1..], i - 1, f);
    }
  }

  lemma WipedSmaller(f: Fingerprint)
    requires |f.template| < TWO_32
    ensures |EncodeEntry(4, Wiped(f))| <= |EncodeEntry(4, f)|
  {
    hide Be32, Be64;
  }

  /** Deleting makes the packed form no longer. */
  lemma DeletedSmaller(db: Database, key: uint32, id: uint32)
    requires db.Valid() && DeleteById(db, key, id).status == 0
    ensures DeleteById(db, key, id).db.Valid()
    ensures |Encode(DeleteById(db, key, id).db)| <= |Encode(db)|
  {
    hide EncodeEntry, EncodeEntries, Be32, Be64;
    var r := DeleteById(db, key, id);
    DeleteByIdRemoves(db, key, id);
    var entries, i := db.fingers.value.entries, IndexOfId32(db, id).value;
    EncodeLength(db);
    EncodeLength(r.db);
    if r.db.fingers.Some? {
      EncodeEntriesUpdate(entries, i, Wiped(entries[i]));
      WipedSmaller(entries[i]);
    }
  }

  lemma EncodeLength(db: Database)
    requires db.Valid()
    ensures |Encode(db)| == 25 + if db.fingers.Some? then 72 + |EncodeEntries(4, db.fingers.value.entries)| else 0
  {
    hide Be32, Be64, EncodeEntries;
  }
}
