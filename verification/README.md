# Fingerprint stack: a verified model

This project models the hard core of a fingerprint stack that is split between the normal world
(HAL and TEE client) and a trusted application (TA), and proves what its parts promise together.
Five areas are covered.

1. **Task hand-off and sensor arbitration.** `WorkerThread` is the one-slot worker thread with its
   mutex, its single condition variable and spurious wake-ups, one step per statement.
   `WorkerSpec` is what a client may rely on, and `WorkerThread.Refines` connects the two.
   `Arbitration` interleaves the HAL client, the HAL worker, the navigation worker and a thread
   that switches navigation on and off.
2. **The template database.** `DbFormat` says what packed bytes mean; `DbPacker` and `DbUnpacker`
   are the code that writes and reads them; `DbOps` adds, finds and deletes on values;
   `TemplateStore` does the same in place on the five-slot array with its buffer ownership; `Bio`
   identifies a finger and rewrites templates.
3. **Moving the database between the worlds.** `BlobTransfer` is the TA side of the chunked
   transfer, `HostStorage` the client side and the file; they are composed, so that store and load
   are statements about bytes on both sides. `HalTasks` runs enrolment and removal on top.
4. **Challenges and tokens.** `HwAuth` is the module with its fields, `HwAuthRuns` reasons about
   every run of commands, and `HwAuthServer` serves such runs on the module's objects.
5. **Loops with history.** `CircularLog`, `SensorCapture`, `NavLoop`, `Authenticate` and `Compare`;
   `Callbacks` is what the HAL tells the framework.

Code that changes state is modelled by classes and methods with loops; each is proved against a
function or a predicate on values, and the lemmas are about those. Concurrent code is a step
relation with an inductive invariant. Whatever the outside world answers (allocation, random
numbers, the transport, files, the sensor, the matching library) is a parameter, so every statement
holds for all answers, and success is stated as an if-and-only-if over them where it matters.

## Where the code surprises

- `fpc_db_get_data` accepts some buffers that are too short (`DbPacker.ShortBufferAccepted`);
  `DbPacker.GetData` says exactly when success means the whole packed database.
- The slot moved to the front after a match is numbered by the index in the template list, not by
  the slot of the matched template. `Bio.MatchedBecomesFirst` says exactly when the two agree and
  `Bio.HoleKeepsMatchBack` gives a database where they do not.
- A log message as long as the buffer is not logged but destroys older messages
  (`CircularLog.OverlongSpoils`); `CircularLog.Log.OverlongHarmless` says exactly when no such
  message can.
- A stored id that trims to 0 makes an authentication succeed with no match at all
  (`HwAuthRuns.WithoutMatch` states exactly when, `HwAuthRuns.ZeroIdNeedsNoMatch` is an instance).
- The random source is documented to return a byte count. The callers that draw ids and challenges
  take every result other than 0 for a failure (fpc_db.c:112 and 126, fpc_ta_hw_auth.c:141), the one
  that draws the database id only a negative one (fpc_db.c:91). The model follows the callers.
- The 32-bit end position computed by the unpacker can wrap around, after which the copy leaves the
  buffer (`Wrapped`). `DbFormat.HugeTemplateWraps` gives 189 bytes that do it,
  `DbFormat.WrapNeedsHugeTemplate` shows that only an announced template ending beyond 32 bits, with
  memory granted for it, can, and `DbFormat.WrapExactly` says exactly which allocators let any
  input of a given length do it. With every other allocator loads are described completely.
- Deleting a single id when no database is loaded reads through a null pointer (fpc_db.c:1294). The
  exact condition is part of `HalTasks.Hal.DeleteTemplate` and `HalTasks.Hal.DoRemove` (`crashed`).

## Model

| member | source | states |
|---|---|---|
| `WorkerThread.InvStep` | fingerprint_hal/fingerprint_common/fpc_worker.c:41-92 | the invariant on mutex ownership, fields, pending wake-ups and task history is kept by every step, spurious wake-ups included |
| `WorkerThread.InvHolds` | fingerprint_hal/fingerprint_common/fpc_worker.c:41-140 | it holds in every reachable state |
| `WorkerThread.HistoryGrows` | fingerprint_hal/fingerprint_common/fpc_worker.c:41-82 | the sequences of submitted, started and finished tasks only grow along a run |
| `WorkerThread.TasksRunOnceInOrder` | fingerprint_hal/fingerprint_common/fpc_worker.c:41-82 | tasks are started and finished in submission order, each once, at most one in the slot and one in its body |
| `WorkerThread.CallsReturnLate` | fingerprint_hal/fingerprint_common/fpc_worker.c:71-92 | run_task returns only when every submitted task was taken, join_task only when every body has returned |
| `WorkerThread.NeverBothAsleep` | fingerprint_hal/fingerprint_common/fpc_worker.c:45-92 | signal instead of broadcast loses no wake-up: never both asleep, and a sleeper whose condition holds is about to be signalled |
| `WorkerThread.CallNeverStuck` | fingerprint_hal/fingerprint_common/fpc_worker.c:45-135 | while a call is in progress some thread can move without being woken |
| `WorkerThread.RankStep` | fingerprint_hal/fingerprint_common/fpc_worker.c:41-135 | each step of a call lowers a rank, a spurious wake-up raises it by three |
| `WorkerThread.CallRank` | fingerprint_hal/fingerprint_common/fpc_worker.c:41-135 | so the length of a call is bounded by its initial rank and its spurious wake-ups |
| `WorkerThread.CallsReturn` | fingerprint_hal/fingerprint_common/fpc_worker.c:71-135 | a call with k spurious wake-ups ends within 51 + 4k steps and cannot stop before its end |
| `WorkerThread.DestroyReturns` | fingerprint_hal/fingerprint_common/fpc_worker.c:122-135 | once terminate is stored, destroy gets the worker to its exit within 20 steps however threads are woken |
| `WorkerThread.Refines` | fingerprint_hal/fingerprint_common/fpc_worker.c:41-92 | every concrete step is one step of the abstract worker or none |
| `Arbitration.NavCallKeepsInv` | fingerprint_hal/fingerprint_common/nav/fpc_hal_navigation.c:191-262 | every step of pause, resume and set_enabled keeps the navigation invariant: the worker runs only when it may |
| `Arbitration.NavWorkerKeepsInv` | fingerprint_hal/fingerprint_common/nav/fpc_hal_navigation.c:58-170 | so does every step of the navigation worker |
| `Arbitration.ControlInvStep` | fingerprint_hal/fingerprint_common/fpc_tee_hal.c:78-122 | every step of the four threads keeps the global invariant |
| `Arbitration.EventInvStep` | fingerprint_hal/fingerprint_common/fpc_tee_hal.c:657-672 | every step keeps: no callback of a task after that task was reported cancelled |
| `Arbitration.InvHolds` | fingerprint_hal/fingerprint_common/fpc_tee_hal.c:78-122 | the invariant holds in every reachable state after open |
| `Arbitration.SensorExclusive` | fingerprint_hal/fingerprint_common/fpc_tee_hal.c:78-122 | a HAL task body, nav_loop and synchronous client work never overlap; between navigation calls the navigation worker is idle unless enabled and not paused |
| `Arbitration.CancelNeverLeaks` | fingerprint_tac/normal/src/fpc_tee_sensor.c:581-607 | a task is taken only with the cancel flag clear and the cancel pipe empty, and no clear reads an empty pipe |
| `Arbitration.CancelReported` | fingerprint_hal/fingerprint_common/fpc_tee_hal.c:657-672 | every cancel ends with exactly one report, for a HAL task after it has gone quiet |
| `Arbitration.SilentAfterCancel` | fingerprint_hal/fingerprint_common/fpc_tee_hal.c:657-672 | after CANCELED is reported for a HAL task, it and all earlier tasks make no callback |
| `Arbitration.CallsNeverStuck` | fingerprint_hal/fingerprint_common/nav/fpc_hal_navigation.c:191-262 | no call deadlocks: while one is under way some thread can move without interrupt, finger or new call, given that a cancelled task body ends |
| `Arbitration.CancelledLoopEnds` | fingerprint_hal/fingerprint_common/nav/fpc_hal_navigation.c:191-205 | a call that waits for the cancelled loop waits for at most five steps of the navigation worker, interrupts included, after which the worker is idle |
| `Arbitration.LoopForEachTurningOn` | fingerprint_hal/fingerprint_common/nav/fpc_hal_navigation.c:191-262 | in every run, whenever no navigation call is under way, nav_loop was handed to its worker exactly as often as navigation was turned on, by resume, by set_enabled and by nothing else |
| `Arbitration.NavigationComesBack` | fingerprint_hal/fingerprint_common/fpc_tee_hal.c:78-122 | in every run, when the client and the HAL worker are at rest navigation is not paused, and every turning on has had its loop |
| `Bytes.Be32RoundTrip` | fingerprint_ta/secure/src/fpc_db.c:357-379 | reading a packed 32-bit number gives it back |
| `Bytes.Be64RoundTrip` | fingerprint_ta/secure/src/fpc_db.c:381-412 | the same for 64 bits |
| `DbFormat.RoundTrip` | fingerprint_ta/secure/src/fpc_db.c:447-618 | unpacking a packed database of version 2, 3 or 4 gives it back up to what the version omits and the clearing of free slots |
| `DbFormat.UnpackedValid` | fingerprint_ta/secure/src/fpc_db.c:447-618 | whatever bytes are accepted, the result is a valid database with cleared free slots |
| `DbFormat.AcceptedHeader` | fingerprint_ta/secure/src/fpc_db.c:447-501 | accepted bytes carry the markers, a supported version, the id and a count of 0 or 1 in their places |
| `DbFormat.AcceptedSet` | fingerprint_ta/secure/src/fpc_db.c:503-571 | an accepted set carries its key and marker in their places and is followed by the end marker |
| `DbFormat.AcceptedFlag` | fingerprint_ta/secure/src/fpc_db.c:529-563 | an accepted slot has a flag of 0 or 1 and keeps it; a free one is cleared |
| `DbFormat.UpgradeStable` | fingerprint_ta/secure/src/fpc_db.c:254-618 | packing anything accepted as version 4 and unpacking it gives the same database |
| `DbFormat.AnyWorld` | fingerprint_ta/secure/src/fpc_db.c:447-618 | which fingerprints bytes unpack to does not depend on memory or random numbers, only whether they do |
| `DbFormat.VersionAnyWorld` | fingerprint_ta/secure/src/fpc_db.c:447-573 | for version 4 the whole database is independent of them |
| `DbFormat.EncodedUnpacks` | fingerprint_ta/secure/src/fpc_db.c:254-618 | a packed database unpacks to itself or is rejected for lack of memory, never misread |
| `DbFormat.WrapNeedsHugeTemplate` | fingerprint_ta/secure/src/fpc_db.c:339-355 | a position wraps only at an announced template size that was granted and ends beyond 32 bits |
| `DbFormat.NeverWraps` | fingerprint_ta/secure/src/fpc_db.c:447-618 | with an allocator that grants no such block no input of any content wraps |
| `DbFormat.CutDatabaseWraps` | fingerprint_ta/secure/src/fpc_db.c:339-355 | an explicit family of inputs that do wrap wherever memory is granted |
| `DbFormat.HugeTemplateWraps` | fingerprint_ta/secure/src/fpc_db.c:346-346 | 189 concrete bytes that wrap |
| `DbFormat.WrapExactly` | fingerprint_ta/secure/src/fpc_db.c:339-618 | some input of at most a given length wraps exactly if a block is granted that ends beyond 32 bits behind that length |
| `DbPacker.FieldsAreEncoding` | fingerprint_ta/secure/src/fpc_db.c:254-316 | the fields packed one after the other are the version 4 format |
| `DbPacker.EnoughRoom` | fingerprint_ta/secure/src/fpc_db.c:172-316 | in a buffer of at least the packed size no bound check fails, the strict ones included |
| `DbPacker.Packer.PackUint8` | fingerprint_ta/secure/src/fpc_db.c:172-186 | counts in a dry run; otherwise writes the byte exactly if it ends before the end of the buffer |
| `DbPacker.Packer.PackUint8Array` | fingerprint_ta/secure/src/fpc_db.c:188-209 | the same for an array, whose bound is strict |
| `DbPacker.Packer.PackUint32` | fingerprint_ta/secure/src/fpc_db.c:211-229 | the same for a big-endian number, which may end at the end of the buffer |
| `DbPacker.Packer.PackUint64` | fingerprint_ta/secure/src/fpc_db.c:231-252 | the same for 64 bits |
| `DbPacker.PackHeader` | fingerprint_ta/secure/src/fpc_db.c:275-279 | the first five fields, in order |
| `DbPacker.PackSetHeader` | fingerprint_ta/secure/src/fpc_db.c:286-292 | the four fields of a set, in order |
| `DbPacker.PackEntry` | fingerprint_ta/secure/src/fpc_db.c:294-312 | one slot; refused exactly if its valid field is neither 0 nor 1 |
| `DbPacker.PackEntries` | fingerprint_ta/secure/src/fpc_db.c:294-312 | the five slots in order, refused exactly if one has a bad valid field |
| `DbPacker.PackV4` | fingerprint_ta/secure/src/fpc_db.c:254-316 | the dry run counts the packed size in 32 bits; the writing run leaves every field that fitted, and 1s behind |
| `DbPacker.GetDataSize` | fingerprint_ta/secure/src/fpc_db.c:705-722 | the size is that of the packed form |
| `DbPacker.GetData` | fingerprint_ta/secure/src/fpc_db.c:724-747 | a buffer of exactly the dry-run size is filled with the packed database and 0 returned, a larger one is refused, and a success holds the whole database exactly for the right size |
| `DbPacker.ShortBufferAccepted` | fingerprint_ta/secure/src/fpc_db.c:724-747 | an empty database, 25 bytes packed, is accepted by a buffer of 17 |
| `DbUnpacker.Reader.UnpackUint8Array` | fingerprint_ta/secure/src/fpc_db.c:339-355 | the byte loop behind a bound check computed in 32 bits gives the bytes, an error, or leaves the buffer exactly where the format says |
| `DbUnpacker.Reader.UnpackUint32` | fingerprint_ta/secure/src/fpc_db.c:357-379 | four bytes read one by one give the big-endian number |
| `DbUnpacker.Reader.UnpackUint64` | fingerprint_ta/secure/src/fpc_db.c:381-412 | the same for 64 bits |
| `DbUnpacker.Reader.ReadEntries` | fingerprint_ta/secure/src/fpc_db.c:529-563 | the loop over the slots with its moving counter reads what the format says |
| `DbUnpacker.Create` | fingerprint_ta/secure/src/fpc_db.c:447-648 | the running unpacker with its 32-bit counter computes exactly `Unpack`, for which the round trips are proved, and never leaves its buffer with a confined allocator |
| `DbOps.FirstFree` | fingerprint_ta/secure/src/fpc_db.c:950-1031 | the first free slot and no earlier one |
| `DbOps.FindId32` | fingerprint_ta/secure/src/fpc_db.c:1290-1316 | the first slot in use whose id trims to the one asked for |
| `DbOps.AddGainsOne` | fingerprint_ta/secure/src/fpc_db.c:950-1031 | adding gains exactly the new fingerprint or nothing, and succeeds exactly if the key fits, a slot is free and the ids can be drawn; it takes the first free slot, renews the database id and the state id unless a draw fails, and leaves everything else |
| `DbOps.DeleteLosesOne` | fingerprint_ta/secure/src/fpc_db.c:1045-1081 | deleting loses exactly the fingerprint in the slot, wipes the slot, keeps all ids and other slots, and the set disappears exactly with its last one |
| `DbOps.AddThenDelete` | fingerprint_ta/secure/src/fpc_db.c:950-1081 | deleting what was just added restores the fingerprints |
| `DbOps.DeleteByIdRemoves` | fingerprint_ta/secure/src/fpc_ta_bio.c:493-507 | deleting by id loses one fingerprint, which has the id; "no such entity" means none has it |
| `DbOps.DeleteByIdShortensList` | fingerprint_ta/secure/src/fpc_ta_bio.c:493-568 | a listed id other than 0 can be deleted, which takes exactly it off the list |
| `DbOps.InUseKept` | fingerprint_ta/secure/src/fpc_db.c:529-563 | a trip through the packed form keeps the multiset of fingerprints |
| `DbOps.NothingListed` | fingerprint_ta/secure/src/fpc_ta_bio.c:530-568 | an empty list for the only set means no fingerprint is stored |
| `TemplateStore.Store.constructor` | fingerprint_ta/secure/src/fpc_db.c:620-648 | a database created from nothing is empty |
| `TemplateStore.Store.TrimId` | fingerprint_ta/secure/src/fpc_db.c:918-932 | the trimmed id is the big-endian number in the first four bytes |
| `TemplateStore.Store.FindById` | fingerprint_ta/secure/src/fpc_db.c:1290-1316 | the scan finds the first slot with the id, or reports that there is none |
| `TemplateStore.Store.FindByBuffer` | fingerprint_ta/secure/src/fpc_db.c:1318-1341 | finds a slot in use owning this buffer, or reports that there is none |
| `TemplateStore.Store.AllTemplates` | fingerprint_ta/secure/src/fpc_db.c:1203-1232 | the buffers of the slots in use, in order, up to the limit |
| `TemplateStore.Store.SetTemplateFirst` | fingerprint_ta/secure/src/fpc_db.c:1190-1201 | the slot goes to the front, those before it move up, and buffer ownership is kept |
| `TemplateStore.Store.AddFingerprint` | fingerprint_ta/secure/src/fpc_db.c:950-1031 | in place what `Add` says, with the caller's buffer changing owner |
| `TemplateStore.Store.DeleteFingerprint` | fingerprint_ta/secure/src/fpc_db.c:1033-1081 | in place what `Delete` says, giving up exactly the buffer of the slot |
| `TemplateStore.MoveToFrontIsPermutation` | fingerprint_ta/secure/src/fpc_db.c:1190-1201 | the move loses and doubles nothing, and where each slot goes |
| `TemplateStore.PositionsComplete` | fingerprint_ta/secure/src/fpc_db.c:1203-1232 | every slot in use is listed |
| `TemplateStore.ListIndexIsSlot` | fingerprint_ta/secure/src/fpc_db.c:1203-1232 | list index m names slot m exactly if slots 0 to m are in use |
| `TemplateStore.BuffersAfterWipe` | fingerprint_ta/secure/src/fpc_db.c:1045-1081 | wiping a slot gives up its buffer and no other |
| `Bio.BioTa.constructor` | fingerprint_ta/secure/src/fpc_ta_bio.c:635-667 | at start no set, no active key and no match |
| `Bio.BioTa.Identify` | fingerprint_ta/secure/src/fpc_ta_bio.c:307-420 | a match reports the id of the listed template and moves one slot to the front; any other outcome changes no slot and no match result |
| `Bio.BioTa.Reallocate` | fingerprint_ta/secure/src/fpc_ta_bio.c:437-470 | each named slot, found by buffer identity, gets a buffer of the new size; where and why the loop stops |
| `Bio.BioTa.Fill` | fingerprint_ta/secure/src/fpc_ta_bio.c:471-479 | the contents written through the handles reach exactly the named slots |
| `Bio.BioTa.UpdateTemplates` | fingerprint_ta/secure/src/fpc_ta_bio.c:422-491 | never changes an id or user id; for distinct indices exactly the named fingerprints get new buffers and, on success, the new contents |
| `Bio.ListOfLists` | fingerprint_ta/secure/src/fpc_db.c:1203-1232 | the list names buffers in use, each once |
| `Bio.AppliedTo` | fingerprint_ta/secure/src/fpc_ta_bio.c:437-479 | for distinct indices a slot gets exactly the contents of the update that names it |
| `Bio.IdentifyThenUpdate` | fingerprint_ta/secure/src/fpc_ta_bio.c:386-470 | seen from before the match, each slot survives with its identity, and has new contents exactly if its list index was updated |
| `Bio.MatchedBecomesFirst` | fingerprint_ta/secure/src/fpc_ta_bio.c:386-413 | the matched template becomes slot 0 exactly if all slots up to its list index are in use |
| `Bio.HoleKeepsMatchBack` | fingerprint_ta/secure/src/fpc_ta_bio.c:412-412 | with slot 0 free, the match stays where it was |
| `BlobTransfer.ByteArrayValidExact` | fingerprint_ta/interface/fpc_ta_targets.h:83-104 | the 32-bit length check accepts exactly the messages whose true length fits |
| `BlobTransfer.CopyIn` | fingerprint_ta/secure/src/db_blob/fpc_ta_db_blob.c:206-230 | the bytes land at the offset and nothing else changes |
| `BlobTransfer.TransferredNeverWraps` | fingerprint_ta/secure/src/db_blob/fpc_ta_db_blob.c:67-87 | no blob that can be transferred makes a position wrap if the allocator grants no block that does not fit beside it in 32 bits |
| `BlobTransfer.Transfer.Close` | fingerprint_ta/secure/src/db_blob/fpc_ta_db_blob.c:43-65 | closes from any state, keeping the database |
| `BlobTransfer.Transfer.LoadEmpty` | fingerprint_ta/secure/src/fpc_ta_bio.c:509-518 | an empty database, or none exactly if memory runs out |
| `BlobTransfer.Transfer.BlobSize` | fingerprint_ta/secure/src/db_blob/fpc_ta_db_blob.c:28-41 | the wrapped size of the packed form |
| `BlobTransfer.Transfer.WrapDatabase` | fingerprint_ta/secure/src/db_blob/fpc_ta_db_blob.c:128-191 | succeeds exactly if memory suffices and the database can be wrapped to the announced size; then a fresh buffer that unwraps to the packed database |
| `BlobTransfer.Transfer.Open` | fingerprint_ta/secure/src/db_blob/fpc_ta_db_blob.c:96-203 | the exact condition of success; refused and without effect when open, closed after any other failure; on success ready at offset 0 |
| `BlobTransfer.Transfer.Unwrap` | fingerprint_ta/secure/src/db_blob/fpc_ta_db_blob.c:67-87 | the database becomes what the blob stands for, with the status that goes with it, or is kept with the error; a confined allocator leaves no other case |
| `BlobTransfer.Transfer.Write` | fingerprint_ta/secure/src/db_blob/fpc_ta_db_blob.c:206-230 | the next bytes are placed and the number missing answered; offset and remaining always add up to the size; the last chunk settles the database; a refused message changes nothing |
| `BlobTransfer.Transfer.Read` | fingerprint_ta/secure/src/db_blob/fpc_ta_db_blob.c:233-248 | the next bytes are delivered, or the message is refused without effect |
| `HostStorage.WriteBlobToFile` | fingerprint_tac/normal/src/fpc_tee_host_storage.c:80-107 | succeeds exactly if the file can be opened and takes all bytes, and then is the blob; no other file is ever touched |
| `HostStorage.MessagesIsCeiling` | fingerprint_tac/normal/src/fpc_tee_host_storage.c:186-211 | the number of messages is the size divided by the chunk size, rounded up |
| `HostStorage.SendReadCommands` | fingerprint_tac/normal/src/fpc_tee_host_storage.c:168-217 | for every chunk size, exactly if nothing stops a message, the TA's bytes arrive in that many messages; otherwise where and why it stopped; out-of-sync is unreachable |
| `HostStorage.SendWriteCommands` | fingerprint_tac/normal/src/fpc_tee_host_storage.c:219-271 | for every chunk size, exactly if nothing stops a message, the file's bytes reach the TA in that many messages and the result is that of unwrapping them; otherwise where and why it stopped; out-of-sync is unreachable |
| `HostStorage.SaveAtomically` | fingerprint_tac/normal/src/fpc_tee_host_storage.c:312-323 | the exact condition of success; after every file operation the file is wholly old or wholly new |
| `HostStorage.StoreBody` | fingerprint_tac/normal/src/fpc_tee_host_storage.c:292-323 | succeeds exactly if the transfer is closed and nothing goes wrong, with the file the wrapped database in memory |
| `HostStorage.Store` | fingerprint_tac/normal/src/fpc_tee_host_storage.c:273-330 | the exact condition of success; at every step the file is the complete old or new blob, new exactly on success; a delivered close leaves the TA closed from any state |
| `HostStorage.Load` | fingerprint_tac/normal/src/fpc_tee_host_storage.c:332-376 | the database becomes what the file stands for exactly if all bytes arrive, a fresh one with the drawn id without a file, or stays; a delivered close leaves the TA closed, and exactly running out of file memory skips the close |
| `HostStorage.EncodeKept` | fingerprint_ta/secure/src/fpc_db.c:254-316 | clearing free slots does not show in the packed form |
| `HostStorage.StoredStandsFor` | fingerprint_tac/normal/src/fpc_tee_host_storage.c:273-330 | a stored blob stands for the database it was made from with free slots cleared, or fails for lack of memory, and never wraps |
| `HostStorage.StoreThenLoad` | fingerprint_tac/normal/src/fpc_tee_host_storage.c:273-376 | a store that can succeed, followed by a load in which nothing goes wrong, succeeds and gives the database back with free slots cleared |
| `HwAuth.SwapBytes` | fingerprint_ta/secure/src/hw_auth/fpc_ta_hw_auth.c:25-35 | reverses the bytes in place |
| `HwAuth.HwAuthTa.constructor` | fingerprint_ta/secure/src/hw_auth/fpc_ta_hw_auth.c:310-322 | the initial fields |
| `HwAuth.VerifiesExactlySigned` | fingerprint_ta/secure/src/hw_auth/fpc_ta_hw_auth.c:52-83 | the tokens that verify are exactly those of version 0 signed under the installed key, one for each content |
| `HwAuth.ValidExactly` | fingerprint_ta/secure/src/hw_auth/fpc_ta_hw_auth.c:85-112 | exactly which tokens validate and when; nothing changes except that an expired challenge is reported and withdrawn, after which nothing validates |
| `HwAuth.IssueExactly` | fingerprint_ta/secure/src/hw_auth/fpc_ta_hw_auth.c:128-157 | a challenge is issued exactly if the first non-zero of six draws came without an error; it is that number, issued now |
| `HwAuth.SwappedBytes` | fingerprint_ta/secure/src/hw_auth/fpc_ta_hw_auth.c:213-216 | swapping reverses the bytes of a number |
| `HwAuth.HwAuthTa.EnrollmentAllowed` | fingerprint_ta/secure/src/hw_auth/fpc_ta_hw_auth.c:114-126 | allowed exactly for a valid token, naming its user |
| `HwAuth.HwAuthTa.GetEnrolChallenge` | fingerprint_ta/secure/src/hw_auth/fpc_ta_hw_auth.c:128-157 | issues the first non-zero draw of six, never 0, with its time; a failure withdraws the old one |
| `HwAuth.HwAuthTa.AuthorizeEnrol` | fingerprint_ta/secure/src/hw_auth/fpc_ta_hw_auth.c:159-170 | keeps the token presented and validates it; a short one changes nothing |
| `HwAuth.HwAuthTa.GetAuthResult` | fingerprint_ta/secure/src/hw_auth/fpc_ta_hw_auth.c:180-238 | the signed token for the matched fingerprint, with the challenge, the database id, the type and the time of the match byte-reversed, or the error |
| `HwAuthRuns.ChallengeHolds` | fingerprint_ta/secure/src/hw_auth/fpc_ta_hw_auth.c:85-170 | after every run the outgoing challenge is the latest one issued, with its time, and the token one that was presented |
| `HwAuthRuns.FinishAuthorised` | fingerprint_ta/secure/src/fpc_ta_bio.c:193-271 | a successful end_enrol met a valid token and adds exactly one fingerprint with its user id |
| `HwAuthRuns.FinishExactly` | fingerprint_ta/secure/src/fpc_ta_bio.c:193-271 | exactly when end_enrol succeeds |
| `HwAuthRuns.EnrolmentIsAuthorised` | fingerprint_ta/secure/src/fpc_ta_bio.c:226-253 | in every run a fingerprint is added only for a presented, correctly signed token bearing the latest challenge, at most 600000 ms old |
| `HwAuthRuns.ExpiryBlocksEnrolment` | fingerprint_ta/secure/src/hw_auth/fpc_ta_hw_auth.c:85-126 | after a detected expiry nothing is added until a new challenge is issued |
| `HwAuthRuns.MatchHolds` | fingerprint_ta/secure/src/hw_auth/fpc_ta_hw_auth.c:172-238 | in every run a non-zero matched id comes, with its time, from the last identification that matched since the last challenge |
| `HwAuthRuns.AuthenticationNeedsMatch` | fingerprint_ta/secure/src/hw_auth/fpc_ta_hw_auth.c:180-238 | where no stored id trims to 0, a reported authentication needs such a match of an id still stored, and the token carries the time of the last one |
| `HwAuthRuns.WithoutMatch` | fingerprint_ta/secure/src/hw_auth/fpc_ta_hw_auth.c:180-238 | with no such match, one is reported exactly if the buffer is large enough, signing works and a stored id trims to 0 |
| `HwAuthRuns.ZeroIdNeedsNoMatch` | fingerprint_ta/secure/src/hw_auth/fpc_ta_hw_auth.c:180-238 | a run in which that happens |
| `HwAuthRuns.ReportedTokenVerifies` | fingerprint_ta/secure/src/hw_auth/fpc_ta_hw_auth.c:180-238 | a reported token passes the check made on incoming ones, has version 0 and the type of a fingerprint, and names the matched user, the database, the challenge and the time of the match |
| `HwAuthRuns.SettingsHold` | fingerprint_ta/secure/src/hw_auth/fpc_ta_hw_auth.c:172-256 | in every run the challenge, the key and the active set are those of the last command that set them |
| `HwAuthServer.Server.EndEnrol` | fingerprint_ta/secure/src/fpc_ta_bio.c:193-271 | the running end_enrol on the module and the database computes the step of the histories |
| `HwAuthServer.Server.Execute` | fingerprint_ta/secure/src/hw_auth/fpc_ta_hw_auth.c:263-308 | every command served on the objects is one step of the histories, status included |
| `HwAuthServer.Server.Serve` | fingerprint_ta/secure/src/hw_auth/fpc_ta_hw_auth.c:263-308 | after any history from start-up the fields and all answers are those the run theorems speak about |
| `CircularLog.Vsnprintf` | fingerprint_ta/secure/src/debug/fpc_debug.c:53-58 | the text that fits, a terminator, and nothing else changed |
| `CircularLog.StreamIsComplete` | fingerprint_ta/secure/src/debug/fpc_debug.c:35-79 | no message is lost, cut or reordered on its way into the stream, and no cycle exceeds the buffer |
| `CircularLog.WrapsExactly` | fingerprint_ta/secure/src/debug/fpc_debug.c:60-72 | a message starts a new cycle exactly if its line does not fit behind the others |
| `CircularLog.DumpMeaning` | fingerprint_ta/secure/src/debug/fpc_debug.c:81-103 | before the first wrap the dump is all messages, afterwards the last n bytes of the zero-padded stream |
| `CircularLog.PaddedLength` | fingerprint_ta/secure/src/debug/fpc_debug.c:60-72 | completed cycles have the size of the buffer |
| `CircularLog.Log.Wrap` | fingerprint_ta/secure/src/debug/fpc_debug.c:60-72 | the rest of the buffer is cleared and a new cycle begins |
| `CircularLog.Log.Append` | fingerprint_ta/secure/src/debug/fpc_debug.c:66-77 | a message that fits extends the current cycle by its line |
| `CircularLog.Log.Write` | fingerprint_ta/secure/src/debug/fpc_debug.c:35-79 | the buffer represents the stream fed with the message, the end never passing the last byte; exactly what an over-long message does instead and when it spoils the dump |
| `CircularLog.Log.Read` | fingerprint_ta/secure/src/debug/fpc_debug.c:81-103 | the dump is the one defined on the stream |
| `CircularLog.OverlongExact` | fingerprint_ta/secure/src/debug/fpc_debug.c:53-58 | exactly what one over-long message does to the parts of the buffer that a dump shows |
| `CircularLog.Log.OverlongHarmless` | fingerprint_ta/secure/src/debug/fpc_debug.c:53-103 | no over-long message changes the dump exactly if the log has not wrapped, no room is left, or one zero byte is |
| `CircularLog.OverlongSpoils` | fingerprint_ta/secure/src/debug/fpc_debug.c:53-58 | an over-long message that destroys an older one |
| `SensorCapture.MsDiffAccurate` | fingerprint_tac/normal/src/fpc_tee_sensor.c:160-169 | non-negative and within 1 ms of the exact difference under truncating division; where 2000 is reached |
| `SensorCapture.MsDiffMonotone` | fingerprint_tac/normal/src/fpc_tee_sensor.c:160-169 | monotone in the stop time |
| `SensorCapture.WaitFingerLost` | fingerprint_tac/normal/src/fpc_tee_sensor.c:190-225 | ends at the first round that is cancelled, answered or at 2000 ms, with the status of that cause, within 101 rounds, and never stuck at or below 1999 ms |
| `SensorCapture.WaitOutcomes` | fingerprint_ta/secure/src/fpc_ta_sensor.c:39-65 | whatever the sensor answers a wait ends well exactly if the finger was lost before a cancel, and otherwise in an error or stuck |
| `SensorCapture.PollQualify` | fingerprint_ta/secure/src/fpc_ta_sensor.c:165-224 | at most 60 readings, ending exactly at the first failure, the first with enough zones, or after 30 ms |
| `SensorCapture.QualifyCode` | fingerprint_ta/secure/src/fpc_ta_sensor.c:115-148 | exactly which sensor answers give a capture, a lost finger and a hardware error |
| `SensorCapture.SensorCommand` | fingerprint_tac/normal/src/fpc_tee_sensor.c:65-157 | the first attempt decides unless it answers a hardware error; then exactly the second does |
| `SensorCapture.QualifyAndCapture` | fingerprint_tac/normal/src/fpc_tee_sensor.c:257-280 | described by the answers alone: all passes before the last lost the finger in the capture, the first failing set-up or wait is the status and no image follows it, four lost captures abort, and the number of images taken |
| `SensorCapture.CaptureImage` | fingerprint_tac/normal/src/fpc_tee_sensor.c:242-290 | succeeds exactly if one of the first four passes captures and all before it lost the finger; the exact actions: wake-up is disabled at every end, and deep sleep follows every failure |
| `SensorCapture.NeverFingerLost` | fingerprint_tac/normal/src/fpc_tee_sensor.c:228-290 | whatever the sensor answers, a capture never reports a lost finger |
| `SensorCapture.PassesNeverLost` | fingerprint_tac/normal/src/fpc_tee_sensor.c:257-280 | from any pass on, only success, abort or an error can result |
| `SensorCapture.HalCaptureImage` | fingerprint_hal/fingerprint_common/fpc_tee_hal.c:124-157 | goes round exactly for a lost finger |
| `SensorCapture.HalLeavesAtOnce` | fingerprint_hal/fingerprint_common/fpc_tee_hal.c:133-151 | so it leaves after one pass |
| `NavLoop.Pass` | fingerprint_hal/fingerprint_common/nav/fpc_hal_navigation.c:105-136 | exactly which keys one poll reports, given the flags, and which flags it leaves |
| `NavLoop.Run` | fingerprint_hal/fingerprint_common/nav/fpc_hal_navigation.c:58-170 | in every run presses and releases alternate from a press, navigation keys are adjacent down/up pairs, within one touch navigation and a new press exclude each other, and apart from that every event, press and release is reported; why the run ends |
| `NavLoop.ExclusiveSnoc` | fingerprint_hal/fingerprint_common/nav/fpc_hal_navigation.c:105-142 | the blocking flags carry that exclusion from poll to poll |
| `NavLoop.BlockedSnoc` | fingerprint_hal/fingerprint_common/nav/fpc_hal_navigation.c:138-141 | the flags are exactly what was reported since the finger was last absent |
| `HalTasks.StoredAgrees` | fingerprint_hal/fingerprint_common/fpc_tee_hal.c:405-420 | after a successful store file and memory hold the same fingerprints |
| `HalTasks.LoadedAgrees` | fingerprint_hal/fingerprint_common/fpc_tee_hal.c:405-411 | so they do after a successful load |
| `HalTasks.AgreesDescribed` | fingerprint_hal/fingerprint_common/fpc_tee_hal.c:694-736 | a file that agrees with memory can be loaded again whatever the memory, without any position wrapping |
| `HalTasks.AfterDelete` | fingerprint_hal/fingerprint_common/fpc_tee_hal.c:694-717 | deleting the next listed id leaves the rest of the list and is never "no such entity" |
| `HalTasks.EnrolCode` | fingerprint_ta/secure/src/fpc_ta_bio.c:151-191 | exactly which answer of the library means what: complete exactly for a good or too similar touch after which none remains |
| `HalTasks.EnrolledGains` | fingerprint_ta/secure/src/fpc_ta_bio.c:193-271 | a finished enrolment gains exactly the new fingerprint, in the active set |
| `HalTasks.EnrolledExactly` | fingerprint_ta/secure/src/fpc_ta_bio.c:193-271 | exactly when an enrolment is finished |
| `HalTasks.DeleteFinds` | fingerprint_ta/secure/src/fpc_ta_bio.c:493-507 | deleting the id of a stored fingerprint loses the first one that has it |
| `HalTasks.QuietReports` | fingerprint_hal/fingerprint_common/fpc_tee_hal.c:363-470 | rounds that leave the enrolment going announce neither completion nor error |
| `HalTasks.Hal.EndEnrol` | fingerprint_tac/normal/src/fpc_tee_bio.c:80-91 | the exact condition of success; one fingerprint more on success, the same ones otherwise |
| `HalTasks.Hal.DeleteTemplate` | fingerprint_tac/normal/src/fpc_tee_bio.c:168-179 | exactly one fingerprint with the id less on success, no change otherwise; crashes exactly without a database for a delivered id other than 0 |
| `HalTasks.Hal.StoreDb` | fingerprint_hal/fingerprint_common/fpc_tee_hal.c:405-420 | succeeds exactly if a store can; memory and file agree after success, the file is unchanged after failure |
| `HalTasks.Hal.LoadDb` | fingerprint_hal/fingerprint_common/fpc_tee_hal.c:405-411 | memory and file agree after success, for any file with a confined allocator and for any stored file without |
| `HalTasks.Hal.Complete` | fingerprint_hal/fingerprint_common/fpc_tee_hal.c:397-436 | completion is announced exactly if the enrolment is finished, stored and not cancelled, with the id of the new fingerprint; agreement survives every path whose last store or reload succeeded |
| `HalTasks.Hal.CancelEnrolment` | fingerprint_hal/fingerprint_common/fpc_tee_hal.c:413-420 | the new fingerprint stays if the delete is lost or its id trims to 0; otherwise the first with its trimmed id goes, which restores the fingerprints if no other has that id |
| `HalTasks.Hal.Round` | fingerprint_hal/fingerprint_common/fpc_tee_hal.c:363-470 | goes on exactly for touches that are of no use or leave some remaining; what each round tells and returns |
| `HalTasks.Hal.EndCounts` | fingerprint_hal/fingerprint_common/fpc_tee_hal.c:363-492 | whatever the rounds, an ended run that is not cancelled announces exactly one completion or error, a completion last |
| `HalTasks.Hal.DoEnroll` | fingerprint_hal/fingerprint_common/fpc_tee_hal.c:340-496 | what each round tells, in the terms of the library's answer, and every round is used until one ends the run; completion exactly if the last touch is good or too similar, leaves none remaining and the fingerprint is stored; each error exactly for its cause; exactly one completion or error per finished uncancelled run; memory and file agree if the last store or reload succeeded |
| `HalTasks.Hal.RemoveOne` | fingerprint_hal/fingerprint_common/fpc_tee_hal.c:694-717 | one deletion keeps agreement unless it fails, and takes the id off the list |
| `HalTasks.Hal.DoRemove` | fingerprint_hal/fingerprint_common/fpc_tee_hal.c:674-738 | it succeeds if nothing goes wrong; the exact announcements on success and on failure, agreement as above, nothing left after removing all, and exactly when the TA crashes |
| `HalTasks.DeletedSmaller` | fingerprint_ta/secure/src/fpc_db.c:1045-1081 | a deletion never makes the packed form longer |
| `Authenticate.Attempt` | fingerprint_hal/fingerprint_common/fpc_tee_hal.c:213-316 | one round tells and returns what its answers mean, the first failure deciding, and leaves no stale id |
| `Authenticate.NoneAccepted` | fingerprint_hal/fingerprint_common/fpc_tee_hal.c:277-316 | no acceptance is counted exactly if no event is one |
| `Authenticate.CountRound` | fingerprint_hal/fingerprint_common/fpc_tee_hal.c:217-316 | a round adds one rejection exactly if it rejects, one acceptance exactly if it accepts, and no error |
| `Authenticate.DoAuthenticate` | fingerprint_hal/fingerprint_common/fpc_tee_hal.c:195-338 | what each round tells, and every round is used until one ends the run; at most five rejections; an acceptance exactly if the last round matched and was signed, with its id and as the last report; the status is that of the first failure in the last round, and an error follows exactly for a failed, uncancelled run |
| `Compare.MemCmp` | fingerprint_ta/secure/src/fpc_crypto.c:29-38 | 0 exactly for equal ranges |
| `Compare.StringValid` | fingerprint_ta/interface/fpc_ta_targets.h:106-122 | valid exactly if a terminator lies inside the array |

## Left out

- Binder and HIDL services, Java API, callback proxies and legacy HAL shims: marshalling only.
- The matching, image and sensor libraries: their answers are arbitrary within their documented result codes; the library writes new template contents exactly through the handles it is given.
- Cryptography: wrapping and unwrapping are an arbitrary inverse pair with a size function, and the message authentication code is an arbitrary function of key and token.
- The transport below `fpc_tac_transfer`: a message is either delivered and answered or reported as failed and not delivered.
- `fpc_tee_secure_storage.c` and `fpc_ta_fs.c`: a thin alternative to the blob route.
- Sensor tests, calibration, KPI and engineering extensions, database migration, the force-sensor variant of capture in `do_authenticate`, the interrupt form of waiting for a lost finger, the frame rate limit of `nav_loop`: they would only add easy members.
- Null-pointer checks, logging and error strings.
- Freeing memory on a blob load: the database that is replaced is not destroyed in the source; buffer ownership is claimed inside the database API only.
- What happens after the unpacker has left its buffer (`Wrapped`): the outcome of such a load is unknown; which inputs and allocators lead there is exact.
- BlobTransfer.Transfer.Unwrap: a database whose packed form would reach 4 GiB is taken not to fit in memory and to be refused like any other allocation; the same holds for `HalTasks.Hal.EndEnrol`.
- DbPacker.GetData: the packed form is taken to be shorter than 4 GiB, as the secure heap is; the dry run alone is described in 32 bits without this.
- HostStorage.Load: files of 2 GiB and more are not described, since the source passes their size as an int.
- HostStorage.Store: host faults are those of each file operation; a write that is cut short by a power failure after rename is not described.
- HalTasks.Hal.DoEnroll: the source loops without bound; the run is followed over any finite sequence of rounds, and `finished` tells whether it has ended. The same holds for `Authenticate.DoAuthenticate`, `SensorCapture.HalCaptureImage` and `NavLoop.Run`.
- HalTasks.Hal.EndEnrol: the token check is a parameter here; it is proved in `HwAuthRuns`.
- HalTasks.Hal.DeleteTemplate: nothing is claimed after the trusted side has crashed; in `HwAuthRuns` a database is always loaded.
- HalTasks.Hal.DoRemove: that nothing is left after removing all needs a transport that does not report its own failures as "no such entity", which the source takes for an id already gone.
- HwAuthServer.Server.Execute: a failed unwrap is taken to leave the old key bytes; they are unusable either way; it is answered with one error code.
- HwAuthRuns.EnrolmentIsAuthorised: loading, deleting and updating templates are one command that may change the database arbitrarily.
- CircularLog.Vsnprintf: an encoding error of the formatter is not described.
- SensorCapture.WaitFingerLost: the clock is taken to advance by the 20 ms slept between rounds.
- Arbitration.SensorExclusive: the two workers are the abstract ones that `WorkerThread.Refines` proves of the code; pipe operations are taken to succeed; a task body that is cancelled by flag and pipe is taken to end; open and close themselves are outside the run.
