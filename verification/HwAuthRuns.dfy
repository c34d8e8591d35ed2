/** Runs of commands against the trusted application: what an enrolment and a successful
    authentication must have been preceded by. */
module HwAuthRuns {
  import opened Bytes
  import opened DbFormat
  import opened DbOps
  import opened HwAuth

  /** A command with the answers of the outside world it meets.  `ChangeDatabase` stands for
      loading, deleting and updating templates. */
  datatype Command =
    | SetSharedKey(unwrapped: Option<seq<byte>>)
    | GetEnrolChallenge(draws: Draws)
    | AuthorizeEnrol(token: Token, size: nat, macFails: bool)
    | EndEnrol(template: Option<seq<byte>>, world: AddWorld, macFails: bool)
    | SetAuthChallenge(challenge: uint64)
    | Identify(matched: Option<nat>, time: uint64)
    | GetAuthResult(size: nat, macFails: bool)
    | SetActiveSet(key: uint32)
    | ChangeDatabase(db: Database)

  datatype Call = Call(command: Command, now: uint64)

  datatype Ta = Ta(auth: Auth, db: Database, activeKey: uint32)

  const START_TA := Ta(START, Database(0, None), 0xFFFF_FFFF)

  predicate WellFormed(c: Command) {
    && (c.ChangeDatabase? ==> c.db.Valid())
    && (c.EndEnrol? && c.template.Some? ==> |c.template.value| < TWO_32)
  }

  /** The id reported by an identification, which finds only entries of the active set. */
  function MatchedId(s: Ta, matched: Option<nat>): Option<uint32> {
    if && matched.Some? && s.db.fingers.Some? && s.db.fingers.value.key == s.activeKey
       && matched.value < |s.db.fingers.value.entries|
       && s.db.fingers.value.entries[matched.value].valid == 1
    then Some(TrimId32(s.db.fingers.value.entries[matched.value].id))
    else None
  }

  function Finish(s: Ta, c: Command, now: uint64, mac: Mac): (int, Ta)
    requires c.EndEnrol? && s.db.Valid()
  {
    if c.template.None? then (-ERROR_INPUT, s)
    else
      var (status, auth) := Validate(s.auth, now, mac, c.macFails);
      if status != 0 then (-ERROR_INPUT, s.(auth := auth))
      else
        var r := Add(s.db, s.activeKey, auth.token.userId, c.template.value, c.world);
        (if r.status == 0 then 0 else -ERROR_INPUT, s.(auth := auth, db := r.db))
  }

  function Step(s: Ta, call: Call, mac: Mac): (int, Ta)
    requires s.db.Valid() && WellFormed(call.command)
  {
    var c, now := call.command, call.now;
    match c
    case SetSharedKey(k) =>
      (if k.Some? then 0 else -ERROR_IO,
       s.(auth := s.auth.(keyReady := k.Some?, key := if k.Some? then k.value else s.auth.key)))
    case GetEnrolChallenge(draws) =>
      var (status, auth) := Issue(s.auth, draws, now);
      (status, s.(auth := auth))
    case AuthorizeEnrol(t, size, macFails) =>
      if size < TOKEN_SIZE then (-ERROR_INPUT, s)
      else
        var (status, auth) := Validate(s.auth.(token := t), now, mac, macFails);
        (status, s.(auth := auth))
    case EndEnrol(_, _, _) => Finish(s, c, now, mac)
    case SetAuthChallenge(x) =>
      (0, s.(auth := s.auth.(incoming := x, matchedId := 0, matchedTime := TWO_64 - 1)))
    case Identify(m, time) =>
      var id := MatchedId(s, m);
      if id.Some? then (0, s.(auth := s.auth.(matchedId := id.value, matchedTime := time)))
      else (if m.Some? then -ERROR_NOENTITY else 0, s)
    case GetAuthResult(size, macFails) =>
      (Result(s.auth, s.db, s.activeKey, size, mac, macFails).0, s)
    case SetActiveSet(key) => (0, s.(activeKey := key))
    case ChangeDatabase(db) => (0, s.(db := db))
  }

  lemma StepKeepsDatabase(s: Ta, call: Call, mac: Mac)
    requires s.db.Valid() && WellFormed(call.command)
    ensures Step(s, call, mac).1.db.Valid()
  {
    var c := call.command;
    if c.EndEnrol? && c.template.Some? {
      AddGainsOne(s.db, s.activeKey, s.auth.token.userId, c.template.value, c.world);
    }
  }

  /** A history of commands; the uptime never goes back. */
  ghost predicate IsLog(log: seq<Call>) {
    && (forall i :: 0 <= i < |log| ==> WellFormed(log[i].command))
    && (forall i, j :: 0 <= i < j < |log| ==> log[i].now <= log[j].now)
  }

  ghost function After(log: seq<Call>, mac: Mac): (s: Ta)
    requires IsLog(log)
    ensures s.db.Valid()
  {
    if log == [] then START_TA
    else
      var n := |log| - 1;
      StepKeepsDatabase(After(log[..n], mac), log[n], mac);
      Step(After(log[..n], mac), log[n], mac).1
  }

  ghost function Status(log: seq<Call>, mac: Mac): int
    requires IsLog(log) && log != []
  {
    var n := |log| - 1;
    Step(After(log[..n], mac), log[n], mac).0
  }

  // ---------------------------------------------------------------- enrolment

  /** Command j issued the challenge, and no later one asked for another. */
  ghost predicate LatestIssue(log: seq<Call>, j: nat, challenge: uint64) {
    && j < |log|
    && log[j].command.GetEnrolChallenge? && Challenge(log[j].command.draws) == Some(challenge)
    && forall k :: j < k < |log| ==> !log[k].command.GetEnrolChallenge?
  }

  ghost predicate Presented(log: seq<Call>, t: Token) {
    exists m :: 0 <= m < |log| && log[m].command.AuthorizeEnrol? && log[m].command.token == t
  }

  /** What the challenge, timestamp and token fields stand for. */
  ghost predicate ChallengeInv(log: seq<Call>, a: Auth) {
    && (a.outgoing != 0 ==> exists j: nat :: LatestIssue(log, j, a.outgoing) && log[j].now == a.issuedAt)
    && (a.token == NO_TOKEN || Presented(log, a.token))
  }

  /** How one command treats those fields. */
  lemma ChallengeStep(s: Ta, call: Call, mac: Mac)
    requires s.db.Valid() && WellFormed(call.command)
    ensures var a, a' := s.auth, Step(s, call, mac).1.auth;
            && (if call.command.GetEnrolChallenge? then
                  a'.outgoing != 0 ==> Challenge(call.command.draws) == Some(a'.outgoing) && a'.issuedAt == call.now
                else a'.outgoing == 0 || (a'.outgoing == a.outgoing && a'.issuedAt == a.issuedAt))
            && (a'.token == a.token || (call.command.AuthorizeEnrol? && a'.token == call.command.token))
  {
  }

  lemma {:induction false} ChallengeHolds(log: seq<Call>, mac: Mac)
    requires IsLog(log)
    ensures ChallengeInv(log, After(log, mac).auth)
  {
    hide Step, Challenge;
    if log != [] {
      var n := |log| - 1;
      var before := log[..n];
      ChallengeHolds(before, mac);
      var s := After(before, mac);
      ChallengeStep(s, log[n], mac);
      var a, a' := s.auth, After(log, mac).auth;
      if a'.outgoing != 0 {
        if log[n].command.GetEnrolChallenge? {
          assert LatestIssue(log, n, a'.outgoing);
        } else {
          var j: nat :| LatestIssue(before, j, a.outgoing) && before[j].now == a.issuedAt;
          assert LatestIssue(log, j, a'.outgoing);
        }
      }
      if a'.token == a.token && a.token != NO_TOKEN {
        var m :| 0 <= m < |before| && before[m].command.AuthorizeEnrol? && before[m].command.token == a.token;
        assert log[m] == before[m];
      } else if a'.token != a.token {
        assert log[n].command.token == a'.token;
      }
    }
  }

  /** What a successful end of enrolment means for the state it met. */
  lemma FinishAuthorised(s: Ta, c: Command, now: uint64, mac: Mac)
    requires c.EndEnrol? && s.db.Valid() && WellFormed(c)
    requires Finish(s, c, now, mac).0 == 0
    ensures s.auth.outgoing != 0 && Authorises(s.auth.token, s.auth, mac, s.auth.outgoing)
    ensures (now - s.auth.issuedAt) % TWO_64 <= CHALLENGE_LIFETIME
    ensures c.template.Some? && c.world.fingerId.Some?
    ensures InUse(Finish(s, c, now, mac).1.db)
            == InUse(s.db) + multiset{Fingerprint(1, c.world.fingerId.value, s.auth.token.userId, c.template.value)}
  {
    hide Add, InUse;
    AddGainsOne(s.db, s.activeKey, s.auth.token.userId, c.template.value, c.world);
  }

  /** And exactly when it succeeds: the library made a template, a token in time authorises it, and
      the database takes it. */
  lemma FinishExactly(s: Ta, c: Command, now: uint64, mac: Mac)
    requires c.EndEnrol? && s.db.Valid() && WellFormed(c)
    ensures Finish(s, c, now, mac).0 == 0 <==>
              && c.template.Some? && !c.macFails && s.auth.outgoing != 0
              && Authorises(s.auth.token, s.auth, mac, s.auth.outgoing)
              && (now - s.auth.issuedAt) % TWO_64 <= CHALLENGE_LIFETIME
              && c.world.fingerId.Some?
              && (if s.db.fingers.Some? then
                    && s.db.fingers.value.key == s.activeKey
                    && exists i :: 0 <= i < SLOTS && s.db.fingers.value.entries[i].valid == 0
                  else c.world.allocSet && c.world.setId.Some?)
    ensures Finish(s, c, now, mac).0 == 0 ==>
              AddChanges(s.db, s.activeKey, c.world, Add(s.db, s.activeKey, s.auth.token.userId, c.template.value, c.world))
              && Finish(s, c, now, mac).1.db == Add(s.db, s.activeKey, s.auth.token.userId, c.template.value, c.world).db
  {
    hide Add, AddChanges, Authorises, Validate;
    ValidExactly(s.auth, now, now, mac, c.macFails);
    if c.template.Some? {
      AddGainsOne(s.db, s.activeKey, s.auth.token.userId, c.template.value, c.world);
    }
  }

  lemma EndEnrolFinishes(s: Ta, call: Call, mac: Mac)
    requires s.db.Valid() && WellFormed(call.command) && call.command.EndEnrol?
    ensures Step(s, call, mac) == Finish(s, call.command, call.now, mac)
    ensures s.auth.outgoing == 0 ==> Finish(s, call.command, call.now, mac).0 != 0
                                     && Finish(s, call.command, call.now, mac).1.db == s.db
  {
  }

  /** Every fingerprint ever added carries the user id of a presented token that is signed under
      the installed key and bears the latest issued challenge, at most ten minutes old. */
  lemma EnrolmentIsAuthorised(log: seq<Call>, mac: Mac)
    requires IsLog(log) && log != []
    requires log[|log| - 1].command.EndEnrol? && Status(log, mac) == 0
    ensures var before, last := log[..|log| - 1], log[|log| - 1];
            var s := After(before, mac);
            exists j: nat, challenge: uint64 ::
              && LatestIssue(before, j, challenge) && challenge != 0
              && 0 <= last.now - before[j].now <= CHALLENGE_LIFETIME
              && Authorises(s.auth.token, s.auth, mac, challenge)
              && Presented(before, s.auth.token)
    ensures var before, c := log[..|log| - 1], log[|log| - 1].command;
            && c.template.Some? && c.world.fingerId.Some?
            && InUse(After(log, mac).db)
               == InUse(After(before, mac).db)
                  + multiset{Fingerprint(1, c.world.fingerId.value, After(before, mac).auth.token.userId, c.template.value)}
  {
    var before, last := log[..|log| - 1], log[|log| - 1];
    var s := After(before, mac);
    hide InUse, Finish, Challenge, Step, Authorises, Presented, WellFormed, LatestIssue;
    EndEnrolFinishes(s, last, mac);
    ChallengeHolds(before, mac);
    FinishAuthorised(s, last.command, last.now, mac);
    var j := LatestInTime(before, last.now, s.auth);
  }

  /** The age computed in 64 bits is the true age of the latest challenge. */
  lemma LatestInTime(log: seq<Call>, now: uint64, a: Auth) returns (j: nat)
    requires ChallengeInv(log, a) && a.outgoing != 0
    requires forall i :: 0 <= i < |log| ==> log[i].now <= now
    requires (now - a.issuedAt) % TWO_64 <= CHALLENGE_LIFETIME
    ensures LatestIssue(log, j, a.outgoing) && 0 <= now - log[j].now <= CHALLENGE_LIFETIME
  {
    j :| LatestIssue(log, j, a.outgoing) && log[j].now == a.issuedAt;
    assert (now - a.issuedAt) % TWO_64 == now - a.issuedAt;
  }

  /** Once a challenge has been found expired, nothing is added until a new one is issued. */
  lemma {:induction false} ExpiryBlocksEnrolment(log: seq<Call>, i: nat, mac: Mac)
    requires IsLog(log) && i < |log|
    requires var before := After(log[..i], mac);
             && IsLog(log[..i])
             && before.auth.outgoing != 0
             && After(log[..i + 1], mac).auth.outgoing == 0
    requires forall k :: i < k < |log| ==>
               log[k].command.GetEnrolChallenge? ==> Challenge(log[k].command.draws).None?
    ensures After(log, mac).auth.outgoing == 0
    ensures i < |log| - 1 && log[|log| - 1].command.EndEnrol? ==>
              Status(log, mac) != 0 && After(log, mac).db == After(log[..|log| - 1], mac).db
  {
    hide Step, Finish, Challenge;
    var n := |log| - 1;
    if i == n {
      assert log[..i + 1] == log;
    } else {
      var before := log[..n];
      assert before[..i] == log[..i] && before[..i + 1] == log[..i + 1];
      ExpiryBlocksEnrolment(before, i, mac);
      ChallengeStep(After(before, mac), log[n], mac);
      if log[n].command.EndEnrol? {
        EndEnrolFinishes(After(before, mac), log[n], mac);
      }
    }
  }

  // ---------------------------------------------------------------- authentication

  /** Command j is an identification that matched a stored fingerprint of the active set with this
      trimmed id, and reported this time. */
  ghost predicate MatchedAt(log: seq<Call>, mac: Mac, j: nat, id: uint32, time: uint64)
    requires IsLog(log)
  {
    && j < |log| && log[j].command.Identify? && log[j].command.time == time && log[j].command.matched.Some?
    && IsLog(log[..j])
    && var s, m := After(log[..j], mac), log[j].command.matched.value;
       && s.db.fingers.Some? && s.db.fingers.value.key == s.activeKey
       && m < |s.db.fingers.value.entries| && s.db.fingers.value.entries[m].valid == 1
       && TrimId32(s.db.fingers.value.entries[m].id) == id
  }

  /** It was the last one that matched, and no challenge was set since. */
  ghost predicate MatchSince(log: seq<Call>, mac: Mac, j: nat, id: uint32, time: uint64)
    requires IsLog(log)
  {
    && MatchedAt(log, mac, j, id, time)
    && (forall k :: j < k < |log| ==> !log[k].command.SetAuthChallenge?)
    && (forall k: nat, id': uint32, time': uint64 :: j < k < |log| ==> !MatchedAt(log, mac, k, id', time'))
  }

  lemma MatchStep(s: Ta, call: Call, mac: Mac)
    requires s.db.Valid() && WellFormed(call.command)
    ensures var a, a' := s.auth, Step(s, call, mac).1.auth;
            match call.command
            case SetAuthChallenge(_) => a'.matchedId == 0
            case Identify(m, time) =>
              if MatchedId(s, m).Some? then a'.matchedId == MatchedId(s, m).value && a'.matchedTime == time
              else a'.matchedId == a.matchedId && a'.matchedTime == a.matchedTime
            case _ => a'.matchedId == a.matchedId && a'.matchedTime == a.matchedTime
  {
  }

  /** The last command matched exactly if it is an identification that found an id. */
  lemma MatchedLast(log: seq<Call>, mac: Mac)
    requires IsLog(log) && log != []
    ensures var n := |log| - 1;
            && IsLog(log[..n])
            && forall id: uint32, time: uint64 :: MatchedAt(log, mac, n, id, time) <==>
                 && log[n].command.Identify? && log[n].command.time == time
                 && MatchedId(After(log[..n], mac), log[n].command.matched) == Some(id)
  {
    hide Step;
  }

  /** What happened before does not depend on what follows. */
  lemma MatchedPrefix(log: seq<Call>, mac: Mac)
    requires IsLog(log) && log != []
    ensures var before := log[..|log| - 1];
            && IsLog(before)
            && forall k: nat, id: uint32, time: uint64 :: k < |before| ==>
                 (MatchedAt(log, mac, k, id, time) <==> MatchedAt(before, mac, k, id, time))
  {
    hide Step;
    var before := log[..|log| - 1];
    forall k: nat, id: uint32, time: uint64 | k < |before|
      ensures MatchedAt(log, mac, k, id, time) <==> MatchedAt(before, mac, k, id, time)
    {
      assert before[..k] == log[..k];
    }
  }

  /** A matched id other than 0 comes from the last identification that matched since the last
      challenge, or since start-up, and so does the time kept with it. */
  lemma {:induction false} MatchHolds(log: seq<Call>, mac: Mac)
    requires IsLog(log)
    ensures var a := After(log, mac).auth;
            a.matchedId != 0 ==> exists j: nat :: MatchSince(log, mac, j, a.matchedId, a.matchedTime)
  {
    hide Step, MatchedId, MatchedAt;
    if log != [] {
      var n := |log| - 1;
      var before := log[..n];
      MatchHolds(before, mac);
      MatchedLast(log, mac);
      MatchedPrefix(log, mac);
      var s := After(before, mac);
      MatchStep(s, log[n], mac);
      var a := After(log, mac).auth;
      if a.matchedId != 0 {
        if log[n].command.Identify? && MatchedId(s, log[n].command.matched).Some? {
          assert MatchSince(log, mac, n, a.matchedId, a.matchedTime);
        } else {
          var j: nat :| MatchSince(before, mac, j, a.matchedId, a.matchedTime);
          assert MatchedAt(before, mac, j, a.matchedId, a.matchedTime);
          assert j < n by { MatchedInside(before, mac, j, a.matchedId, a.matchedTime); }
          assert MatchSince(log, mac, j, a.matchedId, a.matchedTime);
        }
      }
    }
  }

  lemma MatchedInside(log: seq<Call>, mac: Mac, j: nat, id: uint32, time: uint64)
    requires IsLog(log) && MatchedAt(log, mac, j, id, time)
    ensures j < |log|
  {
  }

  lemma ResultStep(s: Ta, call: Call, mac: Mac)
    requires s.db.Valid() && WellFormed(call.command) && call.command.GetAuthResult?
    ensures Step(s, call, mac).0 == 0 <==>
              && call.command.size >= TOKEN_SIZE && !call.command.macFails
              && IndexOfId32(s.db, s.auth.matchedId).Some?
    ensures Step(s, call, mac).0 == 0 ==>
              Result(s.auth, s.db, s.activeKey, call.command.size, mac, false).0 == 0
  {
  }

  lemma FoundIsStored(db: Database, id: uint32)
    ensures IndexOfId32(db, id).Some? <==> exists f :: f in InUse(db) && TrimId32(f.id) == id
  {
    if db.fingers.Some? {
      var entries := db.fingers.value.entries;
      if IndexOfId32(db, id).Some? {
        InUseMember(entries, entries[IndexOfId32(db, id).value]);
      } else if f :| f in InUse(db) && TrimId32(f.id) == id {
        InUseMember(entries, f);
      }
    }
  }

  /** The token reported by the command that follows this history. */
  ghost function Reported(log: seq<Call>, mac: Mac, size: nat): Option<Token>
    requires IsLog(log)
  {
    var s := After(log, mac);
    Result(s.auth, s.db, s.activeKey, size, mac, false).1
  }

  /** Where no stored id trims to 0, an authentication is reported only if some identification
      since the last challenge (or since start-up) matched an id that is still stored, and the
      token carries the time of the last one that did, byte-reversed. */
  lemma AuthenticationNeedsMatch(log: seq<Call>, mac: Mac)
    requires IsLog(log) && log != []
    requires log[|log| - 1].command.GetAuthResult? && Status(log, mac) == 0
    requires forall f <- InUse(After(log[..|log| - 1], mac).db) :: TrimId32(f.id) != 0
    ensures var before := log[..|log| - 1];
            var t := Reported(before, mac, log[|log| - 1].command.size);
            && t.Some?
            && exists j: nat, id: uint32, time: uint64 ::
                 && MatchSince(before, mac, j, id, time)
                 && (exists f :: f in InUse(After(before, mac).db) && TrimId32(f.id) == id)
                 && Be64(t.value.timestamp) == Reversed(Be64(time))
  {
    hide Step, InUse, IndexOfId32, MatchSince, TrimId32, Be64, Result;
    var before := log[..|log| - 1];
    var s := After(before, mac);
    MatchHolds(before, mac);
    ResultStep(s, log[|log| - 1], mac);
    FoundIsStored(s.db, s.auth.matchedId);
    var size := log[|log| - 1].command.size;
    ReportedTokenVerifies(s.auth, s.db, s.activeKey, size, mac);
    var j: nat :| MatchSince(before, mac, j, s.auth.matchedId, s.auth.matchedTime);
  }

  ghost predicate NoMatch(log: seq<Call>, mac: Mac)
    requires IsLog(log)
  {
    forall j: nat, id: uint32, time: uint64 :: !MatchSince(log, mac, j, id, time)
  }

  /** Without such an identification the matched id is 0, and an authentication is reported
      exactly if the caller's buffer is large enough, signing works, and some stored id trims
      to 0. */
  lemma WithoutMatch(log: seq<Call>, mac: Mac)
    requires IsLog(log) && log != [] && log[|log| - 1].command.GetAuthResult?
    requires IsLog(log[..|log| - 1]) && NoMatch(log[..|log| - 1], mac)
    ensures var s, c := After(log[..|log| - 1], mac), log[|log| - 1].command;
            Status(log, mac) == 0
            <==> c.size >= TOKEN_SIZE && !c.macFails && exists f :: f in InUse(s.db) && TrimId32(f.id) == 0
  {
    hide Step, InUse, IndexOfId32, MatchSince, TrimId32;
    var before := log[..|log| - 1];
    var s := After(before, mac);
    MatchHolds(before, mac);
    ResultStep(s, log[|log| - 1], mac);
    FoundIsStored(s.db, 0);
  }

  /** So an id of zeros defeats the link between matching and reporting: right after start-up
      and a load, with no identification at all, an authentication is reported. */
  lemma ZeroIdNeedsNoMatch(mac: Mac)
    ensures var f := Fingerprint(1, ZERO_ID, 0, []);
            var fingers := FingerprintSet(0, ZERO_ID, ZERO_ID, [f, FREE_ENTRY, FREE_ENTRY, FREE_ENTRY, FREE_ENTRY]);
            var log := [Call(ChangeDatabase(Database(0, Some(fingers))), 0), Call(GetAuthResult(TOKEN_SIZE, false), 0)];
            IsLog(log) && Status(log, mac) == 0
  {
    var f := Fingerprint(1, ZERO_ID, 0, []);
    var entries := [f, FREE_ENTRY, FREE_ENTRY, FREE_ENTRY, FREE_ENTRY];
    var db := Database(0, Some(FingerprintSet(0, ZERO_ID, ZERO_ID, entries)));
    var log := [Call(ChangeDatabase(db), 0), Call(GetAuthResult(TOKEN_SIZE, false), 0)];
    assert log[..1] == [log[0]];
    assert After(log[..1], mac) == START_TA.(db := db);
    assert TrimId32(f.id) == 0;
    assert FindId32(entries, 0, 0) == 0;
  }

  /** A reported token passes the check made on incoming tokens.  It has version 0 and names the
      challenge set, the user of the match and the database; its type is that of a fingerprint and
      its time that of the match, both with their bytes reversed. */
  lemma ReportedTokenVerifies(a: Auth, db: Database, activeKey: uint32, size: nat, mac: Mac)
    requires Result(a, db, activeKey, size, mac, false).0 == 0
    ensures var t := Result(a, db, activeKey, size, mac, false).1;
            && t.Some?
            && (a.keyReady ==> Integrity(a, t.value, mac, false) == 0)
            && t.value.version == 0 && t.value.challenge == a.incoming && t.value.authenticatorId == db.id
            && Be32(t.value.authenticatorType) == [2, 0, 0, 0]
            && Be64(t.value.timestamp) == Reversed(Be64(a.matchedTime))
            && db.fingers.Some?
            && exists f ::
                 && f in InUse(db) && TrimId32(f.id) == a.matchedId
                 && t.value.userId == if db.fingers.value.key == activeKey then f.userId else 0
  {
    hide Be32, Be64, Swap64, Swap32, Reversed;
    var i := IndexOfId32(db, a.matchedId).value;
    InUseMember(db.fingers.value.entries, db.fingers.value.entries[i]);
    var t := Result(a, db, activeKey, size, mac, false).1.value;
    assert Unsigned(t) == ResultToken(a, db, activeKey, i);
    SwappedBytes(a.matchedTime, 2);
    TypeBytes();
  }

  // ---------------------------------------------------------------- settings

  ghost predicate LastChallenge(log: seq<Call>, j: nat) {
    && j < |log| && log[j].command.SetAuthChallenge?
    && forall k :: j < k < |log| ==> !log[k].command.SetAuthChallenge?
  }

  ghost predicate LastKey(log: seq<Call>, j: nat) {
    && j < |log| && log[j].command.SetSharedKey?
    && forall k :: j < k < |log| ==> !log[k].command.SetSharedKey?
  }

  ghost predicate LastActive(log: seq<Call>, j: nat) {
    && j < |log| && log[j].command.SetActiveSet?
    && forall k :: j < k < |log| ==> !log[k].command.SetActiveSet?
  }

  /** Which command changes which setting. */
  lemma SettingStep(s: Ta, call: Call, mac: Mac)
    requires s.db.Valid() && WellFormed(call.command)
    ensures var s' := Step(s, call, mac).1;
            && (if call.command.SetAuthChallenge? then s'.auth.incoming == call.command.challenge
                else s'.auth.incoming == s.auth.incoming)
            && (if call.command.SetSharedKey? then
                  && s'.auth.keyReady == call.command.unwrapped.Some?
                  && (s'.auth.keyReady ==> s'.auth.key == call.command.unwrapped.value)
                else s'.auth.keyReady == s.auth.keyReady && s'.auth.key == s.auth.key)
            && (if call.command.SetActiveSet? then s'.activeKey == call.command.key else s'.activeKey == s.activeKey)
  {
  }

  /** After every run the challenge reported, the key and the active set are those of the last
      command that set them; before any, there is no key. */
  lemma {:induction false} SettingsHold(log: seq<Call>, mac: Mac)
    requires IsLog(log)
    ensures var s := After(log, mac);
            && (forall j: nat :: LastChallenge(log, j) ==> s.auth.incoming == log[j].command.challenge)
            && (forall j: nat :: LastKey(log, j) ==>
                  && s.auth.keyReady == log[j].command.unwrapped.Some?
                  && (s.auth.keyReady ==> s.auth.key == log[j].command.unwrapped.value))
            && (forall j: nat :: LastActive(log, j) ==> s.activeKey == log[j].command.key)
            && (s.auth.keyReady ==> exists j: nat :: LastKey(log, j))
  {
    hide Step;
    if log != [] {
      var n := |log| - 1;
      var before := log[..n];
      SettingsHold(before, mac);
      SettingStep(After(before, mac), log[n], mac);
      assert forall j: nat :: j < n ==> (LastChallenge(log, j) ==> LastChallenge(before, j));
      assert forall j: nat :: j < n ==> (LastKey(log, j) ==> LastKey(before, j));
      assert forall j: nat :: j < n ==> (LastActive(log, j) ==> LastActive(before, j));
      if After(log, mac).auth.keyReady {
        if log[n].command.SetSharedKey? {
          assert LastKey(log, n);
        } else {
          var j: nat :| LastKey(before, j);
          assert LastKey(log, j);
        }
      }
    }
  }
}
