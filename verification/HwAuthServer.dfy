/** The trusted application serving commands: the module of `HwAuth` beside the database.  What
    `HwAuthRuns` proves of every history holds of the fields of these objects. */
module HwAuthServer {
  import opened Bytes
  import opened DbFormat
  import opened DbOps
  import opened HwAuth
  import opened HwAuthRuns

  class Server {
    const auth: HwAuthTa
    var db: Database
    var activeKey: uint32

    ghost predicate Valid()
      reads this
    {
      db.Valid()
    }

    ghost function View(): Ta
      reads this, auth
    {
      Ta(auth.State(), db, activeKey)
    }

    constructor (mac: Mac)
      ensures Valid() && fresh(auth) && auth.mac == mac && View() == START_TA
    {
      auth := new HwAuthTa(mac);
      db, activeKey := Database(0, None), 0xFFFF_FFFF;
    }

    /** fpc_ta_bio_end_enrol. */
    method EndEnrol(template: Option<seq<byte>>, world: AddWorld, macFails: bool, now: uint64) returns (status: int)
      requires Valid() && (template.Some? ==> |template.value| < TWO_32)
      modifies this, auth
      ensures (status, View()) == Finish(old(View()), Command.EndEnrol(template, world, macFails), now, auth.mac)
    {
      hide Add, Validate;
      if template.None? {
        return -ERROR_INPUT;
      }
      var allowed, user := auth.EnrollmentAllowed(now, macFails);
      if !allowed {
        return -ERROR_INPUT;
      }
      var r := Add(db, activeKey, user, template.value, world);
      db := r.db;
      return if r.status == 0 then 0 else -ERROR_INPUT;
    }

    /** The part of fpc_ta_bio_identify that the authentication depends on. */
    method Identify(matched: Option<nat>, time: uint64) returns (status: int)
      requires Valid()
      modifies auth
      ensures (status, View()) == Step(old(View()), Call(Command.Identify(matched, time), 0), auth.mac)
    {
      var id := MatchedId(Ta(START, db, activeKey), matched);
      if id.None? {
        return if matched.Some? then -ERROR_NOENTITY else 0;
      }
      auth.matchedId, auth.matchedTime := id.value, time;
      return 0;
    }

    /** One command: the fields follow the step function of the histories. */
    method Execute(call: Call) returns (status: int)
      requires Valid() && WellFormed(call.command)
      modifies this, auth
      ensures Valid() && (status, View()) == Step(old(View()), call, auth.mac)
    {
      hide Finish, Issue, Validate, Result, MatchedId, Database.Valid;
      StepKeepsDatabase(View(), call, auth.mac);
      status := 0;
      match call.command {
        case SetSharedKey(unwrapped) => status := auth.SetSharedKey(unwrapped);
        case GetEnrolChallenge(draws) =>
          var issued, _ := auth.GetEnrolChallenge(draws, call.now);
          status := issued;
        case AuthorizeEnrol(token, size, macFails) =>
          status := auth.AuthorizeEnrol(token, size, call.now, macFails);
        case EndEnrol(template, world, macFails) =>
          status := EndEnrol(template, world, macFails, call.now);
        case SetAuthChallenge(challenge) => auth.SetAuthChallenge(challenge);
        case Identify(matched, time) => status := Identify(matched, time);
        case GetAuthResult(size, macFails) =>
          var reported, _ := auth.GetAuthResult(db, activeKey, size, macFails);
          status := reported;
        case SetActiveSet(key) => activeKey := key;
        case ChangeDatabase(newDb) => db := newDb;
      }
    }

    lemma StartUp(mac: Mac)
      ensures IsLog([]) && After([], mac) == START_TA
    {
    }

    lemma PrefixStep(log: seq<Call>, i: nat)
      requires IsLog(log) && i < |log|
      ensures IsLog(log[..i]) && IsLog(log[..i + 1]) && WellFormed(log[i].command)
      ensures (Status(log[..i + 1], auth.mac), After(log[..i + 1], auth.mac))
              == Step(After(log[..i], auth.mac), log[i], auth.mac)
    {
      hide Step, WellFormed;
      assert log[..i + 1][..i] == log[..i];
    }

    /** The i-th command of the history is answered with this status. */
    ghost predicate Answered(log: seq<Call>, i: nat, status: int)
      requires i < |log|
    {
      IsLog(log[..i + 1]) && status == Status(log[..i + 1], auth.mac)
    }

    /** A whole history from start-up: the state and every status are those of the histories, so
        that enrolments are authorised and authentications matched. */
    method Serve(log: seq<Call>) returns (statuses: seq<int>)
      requires Valid() && IsLog(log) && View() == START_TA
      modifies this, auth
      ensures Valid() && View() == After(log, auth.mac)
      ensures |statuses| == |log|
      ensures forall i :: 0 <= i < |log| ==> Answered(log, i, statuses[i])
    {
      hide Step, WellFormed, Database.Valid, IsLog, Status, After;
      statuses := [];
      assert log[..0] == [];
      StartUp(auth.mac);
      for i := 0 to |log|
        invariant Valid() && IsLog(log[..i]) && View() == After(log[..i], auth.mac)
        invariant |statuses| == i
        invariant forall k :: 0 <= k < i ==> Answered(log, k, statuses[k])
      {
        PrefixStep(log, i);
        var status := Execute(log[i]);
        statuses := statuses + [status];
      }
      assert log[..|log|] == log;
    }
  }
}
