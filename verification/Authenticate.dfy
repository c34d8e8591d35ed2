/** The callbacks of an authentication (do_authenticate in fpc_tee_hal.c). */
module Authenticate {
  import opened Bytes
  import opened Callbacks

  const MAX_FAILED_ATTEMPTS := 5

  predicate Accepts(e: Event) { e.OnAuthenticated? && e.id != 0 }

  predicate Rejects(e: Event) { e.OnAuthenticated? && e.id == 0 }

  function Rejections(events: seq<Event>): nat {
    if events == [] then 0
    else Rejections(events[..|events| - 1]) + if Rejects(events[|events| - 1]) then 1 else 0
  }

  function Acceptances(events: seq<Event>): nat {
    if events == [] then 0
    else Acceptances(events[..|events| - 1]) + if Accepts(events[|events| - 1]) then 1 else 0
  }

  /** An acceptance is the last thing said about the authentication. */
  predicate AcceptanceIsLast(events: seq<Event>) {
    forall i, j :: 0 <= i < j < |events| && Accepts(events[i]) ==> !events[j].OnAuthenticated?
  }

  /** What one round meets: the capture, the identification with the id it writes on success, the
      signed result, and the template update. */
  datatype Round = Round(capture: int, identify: int, id: uint32, result: int, update: int)

  // ---------------------------------------------------------------- what a round means

  ghost predicate Aborted(r: Round) { r.capture == CAPTURE_QUALIFY_ABORT || r.capture == CAPTURE_FINGER_STUCK }

  /** A good image was compared with the templates. */
  ghost predicate Compared(r: Round) {
    r.capture == CAPTURE_OK && r.identify >= 0 && r.identify != CAPTURE_BAD_QUALITY
  }

  /** The finger matched in this very round. */
  ghost predicate Recognised(r: Round) { r.capture == CAPTURE_OK && r.identify == 0 && r.id != 0 }

  ghost predicate Accepting(r: Round) { Recognised(r) && r.result == 0 }

  ghost predicate Rejecting(r: Round) { Aborted(r) || (Compared(r) && !Recognised(r)) }

  /** The round leaves the authentication going, as long as attempts remain. */
  ghost predicate GoesOn(r: Round) {
    || Aborted(r)
    || (r.capture == CAPTURE_OK && r.identify == CAPTURE_BAD_QUALITY)
    || (Compared(r) && !Recognised(r) && r.update == 0)
  }

  /** What a round tells: a good image is acknowledged before the verdict. */
  ghost predicate Reported(r: Round, report: seq<Event>) {
    && (Aborted(r) ==> report == [OnAuthenticated(0)])
    && (r.capture == CAPTURE_OK && r.identify == CAPTURE_BAD_QUALITY ==> report == [OnAcquired(ACQUIRED_INSUFFICIENT)])
    && (Accepting(r) ==> report == [OnAcquired(ACQUIRED_GOOD), OnAuthenticated(r.id)])
    && (Recognised(r) && r.result != 0 ==> report == [OnAcquired(ACQUIRED_GOOD)])
    && (Compared(r) && !Recognised(r) ==> report == [OnAcquired(ACQUIRED_GOOD), OnAuthenticated(0)])
    && ((r.capture != CAPTURE_OK && !Aborted(r)) || (r.capture == CAPTURE_OK && r.identify < 0) ==> report == [])
  }

  /** How many of the rounds reject. */
  ghost function Failures(rounds: seq<Round>): nat {
    if rounds == [] then 0
    else Failures(rounds[..|rounds| - 1]) + if Rejecting(rounds[|rounds| - 1]) then 1 else 0
  }

  // ---------------------------------------------------------------- counting

  lemma CountOne(events: seq<Event>, e: Event)
    ensures Rejections(events + [e]) == Rejections(events) + if Rejects(e) then 1 else 0
    ensures Acceptances(events + [e]) == Acceptances(events) + if Accepts(e) then 1 else 0
    ensures Errors(events + [e]) == Errors(events) + if e.OnError? then 1 else 0
    ensures AcceptanceIsLast(events) && (!e.OnAuthenticated? || Acceptances(events) == 0) ==>
              AcceptanceIsLast(events + [e])
  {
    assert (events + [e])[..|events|] == events;
    NoneAccepted(events);
  }

  lemma {:induction false} NoneAccepted(events: seq<Event>)
    ensures Acceptances(events) == 0 <==> forall i :: 0 <= i < |events| ==> !Accepts(events[i])
  {
    if events != [] {
      var n := |events| - 1;
      NoneAccepted(events[..n]);
      assert forall i :: 0 <= i < n ==> events[..n][i] == events[i];
    }
  }

  /** What one more round adds to a trace without acceptance. */
  lemma CountRound(events: seq<Event>, r: Round, report: seq<Event>)
    requires Acceptances(events) == 0 && AcceptanceIsLast(events) && Reported(r, report)
    ensures var all := events + report;
            && Rejections(all) == Rejections(events) + (if Rejecting(r) then 1 else 0)
            && Acceptances(all) == (if Accepting(r) then 1 else 0)
            && Errors(all) == Errors(events) && AcceptanceIsLast(all)
            && (Accepting(r) ==> all != [] && all[|all| - 1] == OnAuthenticated(r.id))
  {
    hide Rejections, Acceptances, Errors, AcceptanceIsLast;
    if |report| == 0 {
      assert events + report == events;
    } else {
      CountOne(events, report[0]);
      if |report| == 2 {
        CountOne(events + [report[0]], report[1]);
        assert events + report == events + [report[0]] + [report[1]];
      } else {
        assert report == [report[0]];
      }
    }
  }

  lemma CountComplaint(events: seq<Event>, complaint: seq<Event>)
    requires AcceptanceIsLast(events) && (complaint == [] || complaint == [OnError(ERROR_HW_UNAVAILABLE)])
    ensures var all := events + complaint;
            && Rejections(all) == Rejections(events) && Acceptances(all) == Acceptances(events)
            && Errors(all) == Errors(events) + |complaint| && AcceptanceIsLast(all)
  {
    hide Rejections, Acceptances, Errors, AcceptanceIsLast;
    if complaint == [] {
      assert events + complaint == events;
    } else {
      CountOne(events, complaint[0]);
    }
  }

  lemma Nothing()
    ensures Flat([]) == [] && Failures([]) == 0
    ensures Rejections([]) == 0 && Acceptances([]) == 0 && Errors([]) == 0 && AcceptanceIsLast([])
  {
  }

  lemma FailuresSnoc(rounds: seq<Round>, i: nat)
    requires i < |rounds|
    ensures Failures(rounds[..i + 1]) == Failures(rounds[..i]) + if Rejecting(rounds[i]) then 1 else 0
  {
    assert rounds[..i + 1][..i] == rounds[..i];
  }

  // ---------------------------------------------------------------- the loop

  /** One round, with the id left by the rounds before, which is 0: `done` when it leaves the
      loop. */
  method Attempt(r: Round, stale: uint32) returns (status: int, done: bool, report: seq<Event>, rejected: bool, id: uint32)
    requires stale == 0
    ensures Reported(r, report)
    ensures done <==> !GoesOn(r)
    ensures rejected <==> GoesOn(r) && Rejecting(r)
    ensures !done ==> id == 0
    ensures done ==> EndsWith(r, status)
  {
    id, report, done, rejected := stale, [], false, false;
    status := r.capture;
    if status == CAPTURE_QUALIFY_ABORT || status == CAPTURE_FINGER_STUCK {
      report, rejected := [OnAuthenticated(0)], true;
      return;
    } else if status != CAPTURE_OK {
      done := true;
      return;
    }
    status := r.identify;
    if status < 0 {
      done := true;
      return;
    }
    if status == 0 {
      id := r.id;
    }
    if status == CAPTURE_BAD_QUALITY {
      report := [OnAcquired(ACQUIRED_INSUFFICIENT)];
      return;
    }
    report := [OnAcquired(ACQUIRED_GOOD)];
    if id != 0 {
      done := true;
      status := r.result;
      if status != 0 {
        return;
      }
      report := report + [OnAuthenticated(id)];
      status := r.update;
    } else {
      report := report + [OnAuthenticated(0)];
      status := r.update;
      if status != 0 {
        done := true;
        return;
      }
      rejected := true;
    }
  }

  /** The status with which a round that does not go on ends the authentication: the first of
      capture, identification, signing and update that failed. */
  ghost predicate EndsWith(r: Round, status: int) {
    && (r.capture != CAPTURE_OK ==> status == r.capture)
    && (r.capture == CAPTURE_OK && r.identify < 0 ==> status == r.identify)
    && (Recognised(r) && r.result != 0 ==> status == r.result)
    && (Accepting(r) || (Compared(r) && !Recognised(r)) ==> status == r.update)
  }

  /** do_authenticate, followed for as many rounds as given; `reports` holds what each round told.
      Every round is used until one ends the run, and a complaint about a bad status comes last.
      There are at most five rejections, after which the run is over; at most one acceptance, which
      is the last report and names the id matched in the last round, whose result was signed; and an
      error exactly when a finished run failed without being cancelled. */
  method DoAuthenticate(challenge: int, rounds: seq<Round>)
    returns (status: int, finished: bool, reports: seq<seq<Event>>, complaint: seq<Event>, events: seq<Event>)
    ensures |reports| <= |rounds| && events == Flat(reports) + complaint
    ensures complaint == if finished && status !in {0, -ERROR_CANCELLED} then [OnError(ERROR_HW_UNAVAILABLE)] else []
    ensures challenge != 0 ==> finished && reports == [] && status == challenge
    ensures !finished ==> |reports| == |rounds|
    ensures forall i :: 0 <= i < |reports| ==> Reported(rounds[i], reports[i])
    ensures forall i :: 0 <= i < |reports| - (if finished then 1 else 0) ==> GoesOn(rounds[i])
    ensures challenge == 0 && finished ==>
              && reports != []
              && var r := rounds[|reports| - 1];
                 if GoesOn(r) then status == -ERROR_CANCELLED && Failures(rounds[..|reports|]) == MAX_FAILED_ATTEMPTS
                 else
                   && (r.capture != CAPTURE_OK ==> status == r.capture)
                   && (r.capture == CAPTURE_OK && r.identify < 0 ==> status == r.identify)
                   && (r.capture == CAPTURE_OK && r.identify == 0 && r.id != 0 && r.result != 0 ==> status == r.result)
                   && (Accepting(r) || Rejecting(r) ==> status == r.update)
    ensures Rejections(events) == Failures(rounds[..|reports|]) <= MAX_FAILED_ATTEMPTS
    ensures Rejections(events) == MAX_FAILED_ATTEMPTS ==> finished && Acceptances(events) == 0
    ensures Acceptances(events) <= 1 && AcceptanceIsLast(events)
    ensures Acceptances(events) == 1 <==>
              && reports != []
              && var r := rounds[|reports| - 1];
                 r.capture == CAPTURE_OK && r.identify == 0 && r.id != 0 && r.result == 0
    ensures Acceptances(events) == 1 ==> finished && OnAuthenticated(rounds[|reports| - 1].id) in events
    ensures Errors(events) == if finished && status != 0 && status != -ERROR_CANCELLED then 1 else 0
  {
    hide Rejections, Acceptances, Errors, AcceptanceIsLast, Flat, Failures, Reported;
    Nothing();
    assert rounds[..0] == [];
    events, reports, complaint, finished := [], [], [], true;
    status := challenge;
    if status == 0 {
      finished := false;
      var failed, id: uint32 := 0, 0;
      while |reports| < |rounds| && !finished
        invariant |reports| <= |rounds| && events == Flat(reports)
        invariant forall i :: 0 <= i < |reports| ==> Reported(rounds[i], reports[i])
        invariant Rejections(events) == Failures(rounds[..|reports|]) <= MAX_FAILED_ATTEMPTS
        invariant Errors(events) == 0 && AcceptanceIsLast(events)
        invariant Acceptances(events) == if reports != [] && Accepting(rounds[|reports| - 1]) then 1 else 0
        invariant forall i :: 0 <= i < |reports| - (if finished then 1 else 0) ==> GoesOn(rounds[i])
        invariant !finished ==> failed == Rejections(events) < MAX_FAILED_ATTEMPTS && id == 0
        invariant finished ==>
                    && reports != []
                    && var r := rounds[|reports| - 1];
                       if GoesOn(r)
                       then status == -ERROR_CANCELLED && Failures(rounds[..|reports|]) == MAX_FAILED_ATTEMPTS
                       else EndsWith(r, status)
        invariant Acceptances(events) == 1 ==> finished && OnAuthenticated(rounds[|reports| - 1].id) in events
        invariant Rejections(events) == MAX_FAILED_ATTEMPTS ==> finished && Acceptances(events) == 0
      {
        ghost var n := |reports|;
        var r := rounds[|reports|];
        FailuresSnoc(rounds, n);
        var report, rejected;
        status, finished, report, rejected, id := Attempt(r, id);
        CountRound(events, r, report);
        FlatSnoc(reports, report);
        events, reports := events + report, reports + [report];
        if rejected {
          failed := failed + 1;
          if failed >= MAX_FAILED_ATTEMPTS {
            status, finished := -ERROR_CANCELLED, true;
          }
        }
      }
      if !finished {
        assert events + [] == events;
        return;
      }
    }
    if status != 0 && status != -ERROR_CANCELLED {
      complaint := [OnError(ERROR_HW_UNAVAILABLE)];
    }
    CountComplaint(events, complaint);
    events := events + complaint;
  }
}
