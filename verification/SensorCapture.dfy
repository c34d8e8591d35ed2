/** Capturing an image: the trusted sensor commands (fpc_ta_sensor.c), their client
    (fpc_tee_sensor.c) and the HAL loop around it. */
module SensorCapture {
  import opened Bytes

  const RESULT_OK := 0
  const RESULT_WAIT_TIME := 1
  const RESULT_FINGER_PRESENT := 2
  const RESULT_FINGER_LOST := 3
  const RESULT_ERROR_SENSOR := -11

  // ---------------------------------------------------------------- elapsed time

  const NS_PER_MS := 1_000_000
  const NS_PER_S := 1_000_000_000

  datatype Timespec = Timespec(sec: int, nsec: int)
  {
    predicate Normal() { 0 <= nsec < NS_PER_S }

    function Nanos(): int { sec * NS_PER_S + nsec }
  }

  /** Division as in C: the quotient is truncated towards zero. */
  function CDiv(a: int, b: int): int
    requires b > 0
  {
    if a >= 0 then a / b else -((-a) / b)
  }

  /** fpc_get_ms_diff. */
  function MsDiff(start: Timespec, stop: Timespec): int {
    var sec := stop.sec - start.sec;
    var ms := CDiv(stop.nsec - start.nsec, NS_PER_MS);
    if sec > 0 then ms + 1000 * sec else ms
  }

  /** Truncation loses less than one unit. */
  lemma CDivError(a: int, b: int)
    requires b > 0
    ensures a >= 0 ==> 0 <= a - CDiv(a, b) * b < b
    ensures a <= 0 ==> 0 <= CDiv(a, b) * b - a < b
  {
    if a < 0 {
      var q := (-a) / b;
      assert (-q) * b == -(q * b);
    }
  }

  /** Between two readings of a monotone clock the difference is not negative and within one
      millisecond of the exact time; so it reaches 2000 no later than 2000 ms and no earlier than
      just after 1999 ms. */
  lemma MsDiffAccurate(start: Timespec, stop: Timespec)
    requires start.Normal() && stop.Normal() && start.Nanos() <= stop.Nanos()
    ensures MsDiff(start, stop) >= 0
    ensures var error := MsDiff(start, stop) * NS_PER_MS - (stop.Nanos() - start.Nanos());
            -NS_PER_MS < error < NS_PER_MS
    ensures stop.Nanos() - start.Nanos() >= 2000 * NS_PER_MS ==> MsDiff(start, stop) >= 2000
    ensures stop.Nanos() - start.Nanos() <= 1999 * NS_PER_MS ==> MsDiff(start, stop) <= 1999
  {
    CDivError(stop.nsec - start.nsec, NS_PER_MS);
  }

  lemma MsDiffMonotone(start: Timespec, stop: Timespec, later: Timespec)
    requires start.Normal() && stop.Normal() && later.Normal()
    requires start.Nanos() <= stop.Nanos() <= later.Nanos()
    ensures MsDiff(start, stop) <= MsDiff(start, later)
  {
    hide CDiv;
    CDivError(stop.nsec - start.nsec, NS_PER_MS);
    CDivError(later.nsec - start.nsec, NS_PER_MS);
    if stop.sec == later.sec {
      CDivMonotone(stop.nsec - start.nsec, later.nsec - start.nsec);
    } else {
      LaterSecond(stop.nsec - start.nsec, later.nsec - start.nsec);
    }
  }

  /** Fractions of a second never make up for a whole one. */
  lemma LaterSecond(a: int, b: int)
    requires -NS_PER_S < a < NS_PER_S && -NS_PER_S < b < NS_PER_S && a - b < NS_PER_S
    ensures CDiv(a, NS_PER_MS) - CDiv(b, NS_PER_MS) <= 1000
  {
    hide CDiv;
    CDivError(a, NS_PER_MS);
    CDivError(b, NS_PER_MS);
  }

  lemma CDivMonotone(a: int, b: int)
    requires a <= b
    ensures CDiv(a, NS_PER_MS) <= CDiv(b, NS_PER_MS)
  {
    hide CDiv;
    CDivError(a, NS_PER_MS);
    CDivError(b, NS_PER_MS);
  }


  // ---------------------------------------------------------------- trusted commands

  /** fpc_ta_check_finger_lost. */
  function CheckLostCode(sensor: int): int {
    if sensor == RESULT_FINGER_LOST then 1
    else if sensor == RESULT_WAIT_TIME then 0
    else if sensor == RESULT_ERROR_SENSOR then -ERROR_RESET_HARDWARE
    else -ERROR_IO
  }

  /** fpc_ta_wakeup_setup and fpc_ta_deep_sleep. */
  function SetupCode(sensor: int): int {
    if sensor == RESULT_OK then 0
    else if sensor == RESULT_ERROR_SENSOR then -ERROR_RESET_HARDWARE
    else -ERROR_IO
  }

  /** fpc_ta_capture_image. */
  function ImageCode(sensor: int): int {
    if sensor == RESULT_OK then CAPTURE_OK
    else if sensor == RESULT_FINGER_LOST then CAPTURE_FINGER_LOST
    else if sensor == RESULT_ERROR_SENSOR then -ERROR_RESET_HARDWARE
    else -ERROR_IO
  }

  /** One reading of the finger detection zones, and the time after it. */
  datatype Zones = Zones(status: int, count: nat, time: uint64)

  const POLL_TIMEOUT_US := 30 * 1000
  const POLL_RETRIES := 60

  /** What a reading that did not end the poll says. */
  function Absent(z: Zones): int {
    if z.count == 0 then RESULT_FINGER_LOST else RESULT_WAIT_TIME
  }

  /** fpc_ta_poll_qualify: at most 60 readings.  It ends at the first failed reading or the
      first with enough zones, and otherwise reports the last one before 30 ms are over. */
  method PollQualify(limitStatus: int, expected: nat, start: uint64, zones: nat -> Zones)
    returns (ret: int, readings: nat)
    ensures readings <= POLL_RETRIES
    ensures limitStatus < 0 ==> ret == limitStatus && readings == 0
    ensures limitStatus >= 0 ==>
              && readings >= 1
              && (forall i: nat :: i < readings - 1 ==>
                    && zones(i).status >= 0 && zones(i).count < expected
                    && (zones(i).time - start) % TWO_64 < POLL_TIMEOUT_US)
              && (zones(readings - 1).status >= 0 && zones(readings - 1).count < expected ==>
                    readings == POLL_RETRIES || (zones(readings - 1).time - start) % TWO_64 >= POLL_TIMEOUT_US)
              && (var z := zones(readings - 1);
                  ret == if z.status < 0 then z.status
                         else if z.count >= expected then RESULT_FINGER_PRESENT
                         else Absent(z))
  {
    ret, readings := limitStatus, 0;
    if limitStatus < 0 {
      return;
    }
    var now := start;
    while (now - start) % TWO_64 < POLL_TIMEOUT_US && readings < POLL_RETRIES
      invariant readings <= POLL_RETRIES
      invariant readings == 0 ==> now == start
      invariant forall i: nat :: i < readings ==> zones(i).status >= 0 && zones(i).count < expected
      invariant forall i: nat :: i < readings - 1 ==> (zones(i).time - start) % TWO_64 < POLL_TIMEOUT_US
      invariant readings > 0 ==> ret == Absent(zones(readings - 1)) && now == zones(readings - 1).time
      decreases POLL_RETRIES - readings
    {
      var z := zones(readings);
      readings := readings + 1;
      if z.status < 0 {
        return z.status, readings;
      }
      if z.count >= expected {
        return RESULT_FINGER_PRESENT, readings;
      }
      ret := Absent(z);
      now := z.time;
    }
  }

  /** What is known of the finger: the poll decides where the wake-up saw none, or not enough. */
  ghost function Seen(qualification: int, poll: int): int {
    if qualification == RESULT_FINGER_LOST || qualification == RESULT_WAIT_TIME then poll else qualification
  }

  /** fpc_ta_qualify_capture, given the answers of the wake-up qualification, of the poll and of
      the image capture. */
  function QualifyCode(qualification: int, poll: int, image: int): (r: int)
    ensures r in {CAPTURE_OK, CAPTURE_FINGER_LOST, -ERROR_RESET_HARDWARE, -ERROR_IO}
    ensures r == CAPTURE_OK <==> Seen(qualification, poll) == RESULT_FINGER_PRESENT && image == RESULT_OK
    ensures r == CAPTURE_FINGER_LOST <==>
              || Seen(qualification, poll) in {RESULT_FINGER_LOST, RESULT_WAIT_TIME}
              || (Seen(qualification, poll) == RESULT_FINGER_PRESENT && image == RESULT_FINGER_LOST)
    ensures r == -ERROR_RESET_HARDWARE <==>
              || Seen(qualification, poll) == RESULT_ERROR_SENSOR
              || (Seen(qualification, poll) == RESULT_FINGER_PRESENT && image == RESULT_ERROR_SENSOR)
  {
    var status := if qualification in {RESULT_FINGER_LOST, RESULT_WAIT_TIME} then poll else qualification;
    if status == RESULT_FINGER_PRESENT then ImageCode(image)
    else if status in {RESULT_FINGER_LOST, RESULT_WAIT_TIME} then CAPTURE_FINGER_LOST
    else if status == RESULT_ERROR_SENSOR then -ERROR_RESET_HARDWARE
    else -ERROR_IO
  }

  // ---------------------------------------------------------------- client commands

  /** One attempt to send a command: the transport fails, or the trusted side answers. */
  datatype Attempt = Undelivered(status: Failure) | Answered(response: int)

  /** A command is attempted at most twice. */
  type Attempts = s: seq<Attempt> | |s| == 2 witness [Answered(0), Answered(0)]

  /** sensor_transfer and sensor_command: one retry, and only after a hardware error. */
  method SensorCommand(attempts: Attempts) returns (result: int)
    ensures result == CommandResult(attempts)
    ensures attempts[0].Undelivered? ==> result == attempts[0].status
    ensures attempts[0].Answered? && attempts[0].response != -ERROR_RESET_HARDWARE ==> result == attempts[0].response
    ensures attempts[0] == Answered(-ERROR_RESET_HARDWARE) ==>
              && (attempts[1].Undelivered? ==> result == attempts[1].status)
              && (attempts[1].Answered? && attempts[1].response != -ERROR_RESET_HARDWARE ==> result == attempts[1].response)
              && (attempts[1] == Answered(-ERROR_RESET_HARDWARE) ==> result == -ERROR_HARDWARE)
  {
    for i := 0 to 2
      invariant forall k :: 0 <= k < i ==> attempts[k] == Answered(-ERROR_RESET_HARDWARE)
    {
      if attempts[i].Undelivered? {
        return attempts[i].status;
      }
      if attempts[i].response != -ERROR_RESET_HARDWARE {
        return attempts[i].response;
      }
    }
    return -ERROR_HARDWARE;
  }

  function AttemptResult(a: Attempt): int {
    if a.Undelivered? then a.status else a.response
  }

  function CommandResult(attempts: Attempts): int {
    if attempts[0] != Answered(-ERROR_RESET_HARDWARE) then AttemptResult(attempts[0])
    else if attempts[1] != Answered(-ERROR_RESET_HARDWARE) then AttemptResult(attempts[1])
    else -ERROR_HARDWARE
  }

  // ---------------------------------------------------------------- waiting for the finger to leave

  const STUCK_MS := 2000
  const POLL_SLEEP_NS := 20 * NS_PER_MS

  /** What one round of the wait sees: the cancel flag, the answer to "finger lost?", and the
      clock read afterwards. */
  datatype Round = Round(cancelled: bool, answer: int, now: Timespec)

  /** The round ends the wait. */
  predicate Ends(start: Timespec, r: Round) {
    r.cancelled || r.answer != 0 || MsDiff(start, r.now) >= STUCK_MS
  }

  function Outcome(r: Round): int {
    if r.cancelled then -ERROR_CANCELLED
    else if r.answer > 0 then 0
    else if r.answer < 0 then r.answer
    else CAPTURE_FINGER_STUCK
  }

  /** A clock that advances by the sleep between rounds. */
  ghost predicate Ticks(start: Timespec, rounds: nat -> Round) {
    && start.Normal() && start.Nanos() <= rounds(0).now.Nanos()
    && (forall i: nat :: rounds(i).now.Normal())
    && (forall i: nat :: rounds(i).now.Nanos() + POLL_SLEEP_NS <= rounds(i + 1).now.Nanos())
  }

  /** fpc_tee_wait_finger_lost, polling form: it ends at the first round that can end it, and so
      within 101 rounds. */
  method WaitFingerLost(start: Timespec, rounds: nat -> Round) returns (status: int, last: nat)
    requires Ticks(start, rounds)
    ensures forall i: nat :: i < last ==> !Ends(start, rounds(i))
    ensures Ends(start, rounds(last)) && status == Outcome(rounds(last))
    ensures rounds(last).cancelled ==> status == -ERROR_CANCELLED
    ensures !rounds(last).cancelled && rounds(last).answer > 0 ==> status == 0
    ensures !rounds(last).cancelled && rounds(last).answer < 0 ==> status == rounds(last).answer
    ensures !rounds(last).cancelled && rounds(last).answer == 0 ==>
              status == CAPTURE_FINGER_STUCK && MsDiff(start, rounds(last).now) >= 2000
    ensures forall i: nat :: i < last ==>
              !rounds(i).cancelled && rounds(i).answer == 0 && MsDiff(start, rounds(i).now) < 2000
    ensures last <= 100
    ensures status == CAPTURE_FINGER_STUCK && rounds(last).answer == 0 ==>
              rounds(last).now.Nanos() - start.Nanos() > 1999 * NS_PER_MS
  {
    hide MsDiff, Timespec.Nanos;
    last := 0;
    while true
      invariant forall i: nat :: i < last ==> !Ends(start, rounds(i))
      invariant start.Nanos() + last * POLL_SLEEP_NS <= rounds(last).now.Nanos()
      invariant last <= 100
      decreases 100 - last
    {
      var r := rounds(last);
      MsDiffAccurate(start, r.now);
      if r.cancelled {
        return -ERROR_CANCELLED, last;
      }
      if r.answer > 0 {
        return 0, last;
      } else if r.answer < 0 {
        return r.answer, last;
      }
      if MsDiff(start, r.now) >= STUCK_MS {
        return CAPTURE_FINGER_STUCK, last;
      }
      assert rounds(last).now.Nanos() + POLL_SLEEP_NS <= rounds(last + 1).now.Nanos();
      last := last + 1;
    }
  }

  /** The answers to "finger lost?" come from the trusted side, whatever the sensor said. */
  ghost predicate LostAnswers(attempts: Attempts) {
    forall i :: 0 <= i < 2 && attempts[i].Answered? ==> exists s :: attempts[i].response == CheckLostCode(s)
  }

  /** So a wait ends well exactly when the sensor lost the finger before it was cancelled, and
      otherwise with an error or stuck. */
  lemma WaitOutcomes(r: Round, attempts: Attempts)
    requires LostAnswers(attempts) && r.answer == CommandResult(attempts)
    ensures Outcome(r) <= 0 || Outcome(r) == CAPTURE_FINGER_STUCK
    ensures Outcome(r) == 0 <==> !r.cancelled && AttemptResult(Deciding(attempts)) == CheckLostCode(RESULT_FINGER_LOST)
    ensures Outcome(r) == CAPTURE_FINGER_STUCK <==>
              !r.cancelled && AttemptResult(Deciding(attempts)) == CheckLostCode(RESULT_WAIT_TIME)
  {
    assert forall i :: 0 <= i < 2 && attempts[i].Answered? ==> attempts[i].response <= 1;
  }

  /** The attempt that decides: the second one exactly after a hardware error. */
  ghost function Deciding(attempts: Attempts): Attempt {
    if attempts[0] == Answered(-ERROR_RESET_HARDWARE) then attempts[1] else attempts[0]
  }

  // ---------------------------------------------------------------- capturing

  const CAPTURE_RETRIES := 4

  /** Visible actions of a capture. */
  datatype Action = EnableWakeup | WaitLost | SetupWakeup | WaitDown | TakeImage | DisableWakeup | DeepSleep

  /** Raw sensor answers behind one qualified capture. */
  datatype Qualified = Qualified(qualification: int, poll: int, image: int)

  /** The outside world during one pass of "wait for the finger, then capture": the attempts at
      each command, and the result of the interrupt wait. */
  datatype Pass = Pass(setup: Attempts, irq: int, capture: Attempts)

  /** The world of one call of fpc_tee_capture_image. */
  datatype Capture = Capture(enable: int, lost: int, passes: nat -> Pass)

  /** fpc_tee_wait_finger_down. */
  function DownStatus(p: Pass): int {
    if CommandResult(p.setup) != 0 then CommandResult(p.setup) else p.irq
  }

  /** Passes from the i-th on: only a lost finger during the capture itself is tried again. */
  function PassesStatus(passes: nat -> Pass, i: nat): int
    requires i <= CAPTURE_RETRIES
    decreases CAPTURE_RETRIES - i
  {
    if i == CAPTURE_RETRIES then CAPTURE_QUALIFY_ABORT
    else if DownStatus(passes(i)) != 0 then DownStatus(passes(i))
    else if CommandResult(passes(i).capture) != CAPTURE_FINGER_LOST then CommandResult(passes(i).capture)
    else PassesStatus(passes, i + 1)
  }

  function CaptureStatus(c: Capture): int {
    if c.enable != 0 then c.enable
    else if c.lost != 0 then c.lost
    else PassesStatus(c.passes, 0)
  }

  /** The pass lost the finger, during the capture itself. */
  ghost predicate LostInCapture(p: Pass) {
    CommandResult(p.setup) == 0 && p.irq == 0 && CommandResult(p.capture) == CAPTURE_FINGER_LOST
  }

  ghost predicate AllLost(passes: nat -> Pass, n: nat) {
    forall k: nat :: k < n ==> LostInCapture(passes(k))
  }

  ghost predicate Captures(p: Pass) {
    CommandResult(p.setup) == 0 && p.irq == 0 && CommandResult(p.capture) == CAPTURE_OK
  }

  /** The actions of n passes that got as far as the capture. */
  ghost function Shots(n: nat): (actions: seq<Action>)
    ensures |actions| == 3 * n
    ensures Images(actions) == n
  {
    if n == 0 then []
    else
      var s := Shots(n - 1);
      ImagesOfThree(s);
      s + [SetupWakeup, WaitDown, TakeImage]
  }

  ghost function Images(actions: seq<Action>): nat {
    if actions == [] then 0
    else Images(actions[..|actions| - 1]) + if actions[|actions| - 1] == TakeImage then 1 else 0
  }

  lemma ImagesOfThree(s: seq<Action>)
    ensures Images(s + [SetupWakeup, WaitDown, TakeImage]) == Images(s) + 1
  {
    ImagesSnoc(s, SetupWakeup);
    ImagesSnoc(s + [SetupWakeup], WaitDown);
    ImagesSnoc(s + [SetupWakeup] + [WaitDown], TakeImage);
    assert s + [SetupWakeup, WaitDown, TakeImage] == s + [SetupWakeup] + [WaitDown] + [TakeImage];
  }

  lemma ImagesSnoc(s: seq<Action>, a: Action)
    ensures Images(s + [a]) == Images(s) + if a == TakeImage then 1 else 0
  {
    assert (s + [a])[..|s|] == s;
  }

  /** The passes, described by the answers alone: all before the last one lost the finger in the
      capture, and the last one ends them. */
  ghost predicate PassesEnd(passes: nat -> Pass, reached: nat, status: int, actions: seq<Action>) {
    && 1 <= reached <= CAPTURE_RETRIES && AllLost(passes, reached - 1)
    && var p := passes(reached - 1);
       && (CommandResult(p.setup) != 0 ==>
             status == CommandResult(p.setup) && actions == Shots(reached - 1) + [SetupWakeup])
       && (CommandResult(p.setup) == 0 && p.irq != 0 ==>
             status == p.irq && actions == Shots(reached - 1) + [SetupWakeup, WaitDown])
       && (CommandResult(p.setup) == 0 && p.irq == 0 ==> actions == Shots(reached))
       && (CommandResult(p.setup) == 0 && p.irq == 0 && CommandResult(p.capture) != CAPTURE_FINGER_LOST ==>
             status == CommandResult(p.capture))
       && (LostInCapture(p) ==> reached == CAPTURE_RETRIES && status == CAPTURE_QUALIFY_ABORT)
  }

  /** fpc_tee_capture_image: wake-up is disabled at the end of every capture, and every failed
      one puts the sensor into deep sleep.  It succeeds exactly if some pass among the first four
      sets up, sees the finger and captures it, and all before it lost the finger in the capture. */
  method CaptureImage(c: Capture) returns (status: int, actions: seq<Action>, reached: nat)
    ensures status == CaptureStatus(c)
    ensures c.enable != 0 ==> status == c.enable && reached == 0 && actions == [EnableWakeup, DisableWakeup, DeepSleep]
    ensures c.enable == 0 && c.lost != 0 ==>
              status == c.lost && reached == 0 && actions == [EnableWakeup, WaitLost, DisableWakeup, DeepSleep]
    ensures c.enable == 0 && c.lost == 0 ==>
              exists passed: seq<Action> ::
                && PassesEnd(c.passes, reached, status, passed)
                && actions == [EnableWakeup, WaitLost] + passed + [DisableWakeup] + (if status == 0 then [] else [DeepSleep])
    ensures status == 0 <==>
              && c.enable == 0 && c.lost == 0
              && exists i: nat :: i < 4 && Captures(c.passes(i)) && AllLost(c.passes, i)
    ensures c.enable == 0 && c.lost == 0 && AllLost(c.passes, 4) ==> status == CAPTURE_QUALIFY_ABORT
    ensures |actions| >= 2 && actions[0] == EnableWakeup
    ensures status == 0 ==> actions[|actions| - 1] == DisableWakeup && TakeImage in actions
    ensures status != 0 ==> actions[|actions| - 2..] == [DisableWakeup, DeepSleep]
  {
    hide PassesEnd, Captures, AllLost, PassesStatus;
    actions, reached := [EnableWakeup], 0;
    status := c.enable;
    if status == 0 {
      actions := actions + [WaitLost];
      status := c.lost;
    }
    if status == 0 {
      var passed;
      status, passed, reached := QualifyAndCapture(c.passes);
      actions := actions + passed;
    }
    actions := actions + [DisableWakeup];
    if status != 0 {
      actions := actions + [DeepSleep];
    }
  }

  /** The retry loop of fpc_tee_capture_image. */
  method QualifyAndCapture(passes: nat -> Pass)
    returns (status: int, actions: seq<Action>, reached: nat)
    ensures status == PassesStatus(passes, 0)
    ensures PassesEnd(passes, reached, status, actions)
    ensures status == 0 <==> exists i: nat :: i < CAPTURE_RETRIES && Captures(passes(i)) && AllLost(passes, i)
    ensures AllLost(passes, CAPTURE_RETRIES) ==> status == CAPTURE_QUALIFY_ABORT
    ensures status == 0 ==> TakeImage in actions
    ensures Images(actions) == reached - (if DownStatus(passes(reached - 1)) == 0 then 0 else 1)
  {
    hide CommandResult, PassesStatus, Images;
    actions, reached := [], 0;
    while reached < CAPTURE_RETRIES
      invariant reached <= CAPTURE_RETRIES
      invariant PassesStatus(passes, reached) == PassesStatus(passes, 0)
      invariant AllLost(passes, reached) && actions == Shots(reached)
      decreases CAPTURE_RETRIES - reached
    {
      ghost var p := passes(reached);
      PassesUnfold(passes, reached);
      FirstDecides(passes, reached);
      reached := reached + 1;
      ImagesSnoc(actions, SetupWakeup);
      ImagesSnoc(actions + [SetupWakeup], WaitDown);
      actions := actions + [SetupWakeup];
      status := SensorCommand(passes(reached - 1).setup);
      if status == 0 {
        actions := actions + [WaitDown];
        status := passes(reached - 1).irq;
      }
      if status != 0 {
        return;
      }
      actions := actions + [TakeImage];
      status := SensorCommand(passes(reached - 1).capture);
      if status != CAPTURE_FINGER_LOST {
        return;
      }
    }
    status := CAPTURE_QUALIFY_ABORT;
    PassesAbort(passes);
    assert forall i: nat :: i < CAPTURE_RETRIES && LostInCapture(passes(i)) ==> !Captures(passes(i));
  }

  /** Once a pass does not lose the finger in its capture, no later one matters. */
  lemma FirstDecides(passes: nat -> Pass, n: nat)
    requires n < CAPTURE_RETRIES && AllLost(passes, n)
    ensures !LostInCapture(passes(n)) ==>
              && !AllLost(passes, CAPTURE_RETRIES)
              && ((exists i: nat :: i < CAPTURE_RETRIES && Captures(passes(i)) && AllLost(passes, i)) <==> Captures(passes(n)))
  {
    hide CommandResult;
    forall i: nat | i < CAPTURE_RETRIES && Captures(passes(i)) && AllLost(passes, i)
      ensures i == n || LostInCapture(passes(n))
    {
      assert i < n ==> !Captures(passes(i));
    }
  }

  lemma PassesUnfold(passes: nat -> Pass, i: nat)
    requires i < CAPTURE_RETRIES
    ensures PassesStatus(passes, i) ==
            if DownStatus(passes(i)) != 0 then DownStatus(passes(i))
            else if CommandResult(passes(i).capture) != CAPTURE_FINGER_LOST then CommandResult(passes(i).capture)
            else PassesStatus(passes, i + 1)
  {
  }

  lemma PassesAbort(passes: nat -> Pass)
    ensures PassesStatus(passes, CAPTURE_RETRIES) == CAPTURE_QUALIFY_ABORT
  {
  }

  /** The answers come from the trusted commands above, whatever the sensor said. */
  ghost predicate FromTrustedSide(p: Pass) {
    && p.irq <= 0
    && (forall i :: 0 <= i < 2 && p.setup[i].Answered? ==> exists s :: p.setup[i].response == SetupCode(s))
    && (forall i :: 0 <= i < 2 && p.capture[i].Answered? ==>
          exists q: Qualified :: p.capture[i].response == QualifyCode(q.qualification, q.poll, q.image))
  }

  /** Wake-up enabling fails with an error, and the wait for the finger to leave ends in success,
      in an error, or stuck, as `WaitFingerLost` has it. */
  ghost predicate Plausible(c: Capture) {
    && c.enable <= 0
    && (c.lost <= 0 || c.lost == CAPTURE_FINGER_STUCK)
    && forall i: nat :: FromTrustedSide(c.passes(i))
  }

  lemma TrustedResults(p: Pass)
    requires FromTrustedSide(p)
    ensures DownStatus(p) <= 0
    ensures CommandResult(p.capture) <= CAPTURE_FINGER_LOST
  {
    assert forall i :: 0 <= i < 2 && p.setup[i].Answered? ==> p.setup[i].response <= 0;
    assert forall i :: 0 <= i < 2 && p.capture[i].Answered? ==> p.capture[i].response <= CAPTURE_FINGER_LOST;
  }

  /** "Finger lost" never leaves a capture, whatever the sensor answers. */
  lemma {:induction false} NeverFingerLost(c: Capture)
    requires Plausible(c)
    ensures CaptureStatus(c) in {CAPTURE_OK, CAPTURE_QUALIFY_ABORT, CAPTURE_FINGER_STUCK}
            || CaptureStatus(c) < 0
  {
    PassesNeverLost(c.passes, 0);
  }

  lemma {:induction false} PassesNeverLost(passes: nat -> Pass, i: nat)
    requires i <= CAPTURE_RETRIES && forall k: nat :: FromTrustedSide(passes(k))
    ensures PassesStatus(passes, i) in {CAPTURE_OK, CAPTURE_QUALIFY_ABORT} || PassesStatus(passes, i) < 0
    decreases CAPTURE_RETRIES - i
  {
    if i < CAPTURE_RETRIES {
      TrustedResults(passes(i));
      PassesNeverLost(passes, i + 1);
    }
  }

  /** capture_image of the HAL: an unbounded loop, followed here for as many passes as given,
      that goes round only for a lost finger. */
  method HalCaptureImage(captures: seq<Capture>) returns (status: int, rounds: nat, finished: bool)
    ensures rounds <= |captures|
    ensures forall i :: 0 <= i < rounds - (if finished then 1 else 0) ==>
              CaptureStatus(captures[i]) == CAPTURE_FINGER_LOST
    ensures finished ==> rounds > 0 && status == CaptureStatus(captures[rounds - 1]) != CAPTURE_FINGER_LOST
    ensures !finished ==> rounds == |captures|
  {
    status, rounds, finished := 0, 0, false;
    while rounds < |captures|
      invariant rounds <= |captures|
      invariant forall i :: 0 <= i < rounds ==> CaptureStatus(captures[i]) == CAPTURE_FINGER_LOST
    {
      var s, _, _ := CaptureImage(captures[rounds]);
      status, rounds := s, rounds + 1;
      if status != CAPTURE_FINGER_LOST {
        finished := true;
        return;
      }
    }
  }

  /** It therefore leaves after its first pass. */
  lemma HalLeavesAtOnce(captures: seq<Capture>, rounds: nat, finished: bool)
    requires 0 < |captures| && rounds <= |captures| && Plausible(captures[0])
    requires forall i :: 0 <= i < rounds - (if finished then 1 else 0) ==>
               CaptureStatus(captures[i]) == CAPTURE_FINGER_LOST
    requires finished ==> rounds > 0
    requires !finished ==> rounds == |captures|
    ensures finished && rounds == 1
  {
    NeverFingerLost(captures[0]);
  }
}
