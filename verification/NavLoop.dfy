/** The key events reported by nav_loop (fpc_hal_navigation.c, with the force sensor). */
module NavLoop {
  const FORCE_NOT_AVAILABLE := -1
  const NO_EVENT := 0

  /** What one pass sees: the cancel flag, the polled data, and the result of the wait it
      requested. */
  datatype Poll = Poll(cancel: bool, status: int, event: nat, force: int, fingerDown: bool, wait: int)

  datatype Thresholds = NotConfigured | Thresholds(trigger: int, untrigger: int)

  /** Reported input: a navigation key, the raw force, or the force key. */
  datatype Key = NavKey(event: nat, down: bool) | RawForce(force: int) | PressKey(down: bool)

  /** The force key after these events, if its presses and releases alternate from `down`. */
  datatype ForceKey = Broken | Now(down: bool)

  function AfterPresses(keys: seq<Key>): ForceKey {
    if keys == [] then Now(false)
    else
      var before, k := AfterPresses(keys[..|keys| - 1]), keys[|keys| - 1];
      if !k.PressKey? then before
      else if before == Now(!k.down) then Now(k.down)
      else Broken
  }

  /** Every navigation key goes down and immediately up again. */
  predicate NavPaired(keys: seq<Key>) {
    if keys == [] then true
    else
      var n := |keys|;
      var k := keys[n - 1];
      if !k.NavKey? then NavPaired(keys[..n - 1])
      else !k.down && n >= 2 && keys[n - 2] == NavKey(k.event, true) && NavPaired(keys[..n - 2])
  }

  ghost predicate HasNav(keys: seq<Key>) { exists e, d :: NavKey(e, d) in keys }

  ghost predicate HasPress(keys: seq<Key>) { PressKey(true) in keys }

  /** No poll without a finger among these. */
  ghost predicate FingerStays(polls: seq<Poll>, i: nat, j: nat)
    requires i <= j <= |polls|
  {
    forall k :: i <= k < j ==> polls[k].fingerDown
  }

  /** Between two polls without a finger, a navigation key and a new press exclude each other. */
  ghost predicate Exclusive(reports: seq<seq<Key>>, polls: seq<Poll>)
    requires |reports| <= |polls|
  {
    forall i, j :: 0 <= i <= j < |reports| && FingerStays(polls, i, j) ==>
      && !(HasNav(reports[i]) && HasPress(reports[j]))
      && !(HasPress(reports[i]) && HasNav(reports[j]))
  }

  lemma AppendNav(keys: seq<Key>, e: nat)
    ensures var r := keys + [NavKey(e, true), NavKey(e, false)];
            && AfterPresses(r) == AfterPresses(keys)
            && (NavPaired(keys) ==> NavPaired(r))
  {
    var r := keys + [NavKey(e, true), NavKey(e, false)];
    assert r[..|r| - 1] == keys + [NavKey(e, true)];
    assert (keys + [NavKey(e, true)])[..|keys|] == keys;
    assert r[..|r| - 2] == keys;
  }

  lemma AppendOther(keys: seq<Key>, k: Key)
    requires !k.NavKey?
    ensures NavPaired(keys) ==> NavPaired(keys + [k])
    ensures AfterPresses(keys + [k])
            == if !k.PressKey? then AfterPresses(keys)
               else if AfterPresses(keys) == Now(!k.down) then Now(k.down) else Broken
  {
    assert (keys + [k])[..|keys|] == keys;
  }

  function Concat(reports: seq<seq<Key>>): seq<Key> {
    if reports == [] then [] else Concat(reports[..|reports| - 1]) + reports[|reports| - 1]
  }

  lemma ConcatSnoc(reports: seq<seq<Key>>, r: seq<Key>)
    ensures Concat(reports + [r]) == Concat(reports) + r
  {
    assert (reports + [r])[..|reports|] == reports;
  }

  /** A new press was reported since the finger was last absent before poll k. */
  ghost predicate PressedBefore(reports: seq<seq<Key>>, polls: seq<Poll>, k: nat)
    requires k <= |reports| <= |polls|
  {
    exists i :: 0 <= i < k && FingerStays(polls, i, k) && HasPress(reports[i])
  }

  /** A navigation key was. */
  ghost predicate NavBefore(reports: seq<seq<Key>>, polls: seq<Poll>, k: nat)
    requires k <= |reports| <= |polls|
  {
    exists i :: 0 <= i < k && FingerStays(polls, i, k) && HasNav(reports[i])
  }

  predicate Triggered(p: Poll, t: Thresholds) { t.Thresholds? && t.trigger != 0 && p.force >= t.trigger }

  /** The last force measured before poll k; it starts at 0. */
  ghost function LastForce(polls: seq<Poll>, k: nat): int
    requires k <= |polls|
  {
    if k == 0 then 0
    else if polls[k - 1].force != FORCE_NOT_AVAILABLE then polls[k - 1].force
    else LastForce(polls, k - 1)
  }

  /** Exactly what is reported for a poll, given what was reported before in this touch, whether
      the force key is down, and the last force measured. */
  ghost predicate ReportExact(
    r: seq<Key>, p: Poll, t: Thresholds, pressed: bool, navigated: bool, down: bool, force: int)
  {
    && (RawForce(p.force) in r <==> p.force != FORCE_NOT_AVAILABLE && p.force != force)
    && (HasNav(r) <==> p.event != NO_EVENT && !pressed)
    && (HasPress(r) <==> !down && Triggered(p, t) && !navigated && !HasNav(r))
    && (PressKey(false) in r <==>
          down && t.Thresholds? && p.force <= t.untrigger && !(Triggered(p, t) && !navigated && !HasNav(r)))
  }

  ghost predicate ExactAt(reports: seq<seq<Key>>, polls: seq<Poll>, t: Thresholds, k: nat)
    requires k < |reports| <= |polls|
  {
    ReportExact(reports[k], polls[k], t, PressedBefore(reports, polls, k), NavBefore(reports, polls, k),
                AfterPresses(Concat(reports[..k])) == Now(true), LastForce(polls, k))
  }

  lemma BeforeSnoc(reports: seq<seq<Key>>, r: seq<Key>, polls: seq<Poll>, k: nat)
    requires k <= |reports| < |polls|
    ensures PressedBefore(reports + [r], polls, k) == PressedBefore(reports, polls, k)
    ensures NavBefore(reports + [r], polls, k) == NavBefore(reports, polls, k)
  {
    hide HasNav, HasPress;
    var all := reports + [r];
    assert forall i :: 0 <= i < k ==> all[i] == reports[i];
  }

  lemma ExactSnoc(reports: seq<seq<Key>>, r: seq<Key>, polls: seq<Poll>, t: Thresholds, k: nat)
    requires k < |reports| < |polls| && ExactAt(reports, polls, t, k)
    ensures ExactAt(reports + [r], polls, t, k)
  {
    hide ReportExact, PressedBefore, NavBefore, Concat;
    BeforeSnoc(reports, r, polls, k);
    assert (reports + [r])[..k] == reports[..k];
  }

  lemma ExactLast(reports: seq<seq<Key>>, r: seq<Key>, polls: seq<Poll>, t: Thresholds)
    requires |reports| < |polls|
    requires ReportExact(r, polls[|reports|], t, PressedBefore(reports, polls, |reports|),
                         NavBefore(reports, polls, |reports|), AfterPresses(Concat(reports)) == Now(true),
                         LastForce(polls, |reports|))
    ensures ExactAt(reports + [r], polls, t, |reports|)
  {
    hide ReportExact, PressedBefore, NavBefore, Concat;
    BeforeSnoc(reports, r, polls, |reports|);
    assert (reports + [r])[..|reports|] == reports;
  }

  /** The blocking flags are exactly what was reported since the finger was last absent. */
  ghost predicate Blocked(reports: seq<seq<Key>>, polls: seq<Poll>, blockNav: bool, blockSt: bool)
    requires |reports| <= |polls|
  {
    blockNav == PressedBefore(reports, polls, |reports|) && blockSt == NavBefore(reports, polls, |reports|)
  }

  lemma ExclusiveSnoc(reports: seq<seq<Key>>, r: seq<Key>, polls: seq<Poll>, blockNav: bool, blockSt: bool)
    requires |reports| < |polls| && Exclusive(reports, polls) && Blocked(reports, polls, blockNav, blockSt)
    requires HasNav(r) ==> !blockNav
    requires HasPress(r) ==> !blockSt && !HasNav(r)
    ensures Exclusive(reports + [r], polls)
  {
    hide HasNav, HasPress;
    var all := reports + [r];
    forall i, j | 0 <= i <= j < |all| && FingerStays(polls, i, j)
      ensures !(HasNav(all[i]) && HasPress(all[j])) && !(HasPress(all[i]) && HasNav(all[j]))
    {
      if j < |reports| {
        assert all[i] == reports[i] && all[j] == reports[j];
      }
    }
  }

  lemma StaysSnoc(polls: seq<Poll>, i: nat, n: nat)
    requires i <= n < |polls|
    ensures FingerStays(polls, i, n + 1) <==> FingerStays(polls, i, n) && polls[n].fingerDown
  {
    if FingerStays(polls, i, n + 1) {
      assert polls[n].fingerDown;
    }
  }

  lemma BlockedSnoc(reports: seq<seq<Key>>, r: seq<Key>, polls: seq<Poll>,
                    wasNav: bool, wasSt: bool, blockNav: bool, blockSt: bool)
    requires |reports| < |polls| && Blocked(reports, polls, wasNav, wasSt)
    requires blockNav <==> wasNav || HasPress(r)
    requires blockSt <==> wasSt || HasNav(r)
    ensures var stays := polls[|reports|].fingerDown;
            Blocked(reports + [r], polls, stays && blockNav, stays && blockSt)
  {
    hide HasNav, HasPress;
    var n := |reports|;
    var all := reports + [r];
    assert forall i :: 0 <= i < n ==> all[i] == reports[i];
    assert all[n] == r;
    forall i | 0 <= i <= n
      ensures FingerStays(polls, i, n + 1) <==> FingerStays(polls, i, n) && polls[n].fingerDown
    {
      StaysSnoc(polls, i, n);
    }
    assert FingerStays(polls, n, n);
    if polls[n].fingerDown {
      assert FingerStays(polls, n, n + 1);
      if wasNav {
        var i :| 0 <= i < n && FingerStays(polls, i, n) && HasPress(reports[i]);
        assert FingerStays(polls, i, n + 1) && HasPress(all[i]);
      }
      if wasSt {
        var i :| 0 <= i < n && FingerStays(polls, i, n) && HasNav(reports[i]);
        assert FingerStays(polls, i, n + 1) && HasNav(all[i]);
      }
    }
  }

  /** The keys of one poll and what they may contain. */
  ghost predicate ReportOf(r: seq<Key>, p: Poll, t: Thresholds) {
    && (PressKey(true) in r ==> t.Thresholds? && t.trigger != 0 && p.force >= t.trigger)
    && (PressKey(false) in r ==> t.Thresholds? && p.force <= t.untrigger)
    && (forall e, d :: NavKey(e, d) in r ==> e == p.event != NO_EVENT)
    && (forall f :: RawForce(f) in r ==> f == p.force != FORCE_NOT_AVAILABLE)
  }

  /** Keys of one poll: a navigation key or none, the raw force or none, a force key or none. */
  lemma Parts(p: Poll, t: Thresholds, nav: seq<Key>, raw: seq<Key>, press: seq<Key>)
    requires nav == [] || (p.event != NO_EVENT && nav == [NavKey(p.event, true), NavKey(p.event, false)])
    requires raw == [] || (p.force != FORCE_NOT_AVAILABLE && raw == [RawForce(p.force)])
    requires || press == []
             || (press == [PressKey(true)] && t.Thresholds? && t.trigger != 0 && p.force >= t.trigger)
             || (press == [PressKey(false)] && t.Thresholds? && p.force <= t.untrigger)
    ensures var r := nav + raw + press;
            && (HasNav(r) <==> nav != []) && (HasPress(r) <==> press == [PressKey(true)])
            && ReportOf(r, p, t) && (PressKey(false) in r <==> press == [PressKey(false)])
            && (RawForce(p.force) in r <==> raw != [])
  {
    var r := nav + raw + press;
    if raw != [] {
      assert r[|nav|] == RawForce(p.force);
    }
    if nav != [] {
      assert r[0] == NavKey(p.event, true);
    }
    if press != [] {
      assert r[|r| - 1] == press[0];
    }
  }

  /** What one pass reports, in order, and what it does to the stream of keys. */
  lemma PassKeys(keys: seq<Key>, p: Poll, nav: seq<Key>, raw: seq<Key>, press: seq<Key>, down: bool)
    requires AfterPresses(keys) == Now(down) && NavPaired(keys)
    requires nav == [] || nav == [NavKey(p.event, true), NavKey(p.event, false)]
    requires raw == [] || raw == [RawForce(p.force)]
    requires press == [] || press == [PressKey(!down)]
    ensures var r := keys + (nav + raw + press);
            NavPaired(r) && AfterPresses(r) == Now(if press == [] then down else !down)
  {
    var k1, k2 := keys + nav, keys + nav + raw;
    if nav != [] {
      AppendNav(keys, p.event);
    } else {
      assert k1 == keys;
    }
    if raw != [] {
      AppendOther(k1, RawForce(p.force));
    } else {
      assert k2 == k1;
    }
    if press != [] {
      AppendOther(k2, PressKey(!down));
    } else {
      assert k2 + press == k2;
    }
    assert keys + (nav + raw + press) == k2 + press;
  }

  /** The variables nav_loop keeps between passes. */
  datatype Flags = Flags(blockNav: bool, blockSt: bool, previous: int, down: bool)

  /** One pass over polled data: the keys it reports and the flags it leaves, before the finger
      is looked at. */
  method Pass(p: Poll, t: Thresholds, f: Flags, ghost keys: seq<Key>) returns (report: seq<Key>, f': Flags)
    requires AfterPresses(keys) == Now(f.down) && NavPaired(keys)
    ensures AfterPresses(keys + report) == Now(f'.down) && NavPaired(keys + report)
    ensures ReportOf(report, p, t)
    ensures ReportExact(report, p, t, f.blockNav, f.blockSt, f.down, f.previous)
    ensures f'.previous == if p.force == FORCE_NOT_AVAILABLE then f.previous else p.force
    ensures f'.blockNav <==> f.blockNav || HasPress(report)
    ensures f'.blockSt <==> f.blockSt || HasNav(report)
  {
    hide HasNav, HasPress, ReportOf, AfterPresses, NavPaired;
    f' := f;
    var nav: seq<Key>, raw: seq<Key>, press: seq<Key> := [], [], [];
    if !f'.blockNav && p.event != NO_EVENT {
      f' := f'.(blockSt := true);
      nav := [NavKey(p.event, true), NavKey(p.event, false)];
    }
    if p.force != FORCE_NOT_AVAILABLE && p.force != f'.previous {
      raw := [RawForce(p.force)];
      f' := f'.(previous := p.force);
    }
    if t.Thresholds? {
      if !f'.blockSt && t.trigger != 0 && p.force >= t.trigger {
        if !f'.down {
          f' := f'.(down := true, blockNav := true);
          press := [PressKey(true)];
        }
      } else if p.force <= t.untrigger {
        if f'.down {
          f' := f'.(down := false);
          press := [PressKey(false)];
        }
      }
    }
    PassKeys(keys, p, nav, raw, press, f.down);
    Parts(p, t, nav, raw, press);
    report := nav + raw + press;
  }

  /** Why the loop ends after n polls: the next one is cancelled or fails, or the wait requested by
      the last one ends in an error. */
  predicate Stops(polls: seq<Poll>, n: nat) {
    || (n < |polls| && (polls[n].cancel || polls[n].status != 0))
    || (0 < n <= |polls| && polls[n - 1].wait != 0)
  }

  /** nav_loop over the polls given; `reports` holds the keys reported by each of them.  Presses
      and releases of the force key alternate, starting with a press; every navigation key goes
      down and up at once; a navigation key and a new press never come from the same touch; and
      apart from that every event, press and release is reported. */
  method Run(setup: int, polls: seq<Poll>, t: Thresholds)
    returns (keys: seq<Key>, reports: seq<seq<Key>>, finished: bool)
    ensures |reports| <= |polls|
    ensures keys == Concat(reports)
    ensures AfterPresses(keys).Now?
    ensures NavPaired(keys)
    ensures Exclusive(reports, polls)
    ensures setup != 0 ==> keys == [] && finished
    ensures !finished ==> |reports| == |polls|
    ensures forall i :: 0 <= i < |reports| ==> !polls[i].cancel && polls[i].status == 0
    ensures forall i :: 0 <= i < |reports| - 1 ==> polls[i].wait == 0
    ensures setup == 0 && finished ==> Stops(polls, |reports|)
    ensures forall i :: 0 <= i < |reports| ==> ExactAt(reports, polls, t, i)
    ensures forall i :: 0 <= i < |reports| ==> ReportOf(reports[i], polls[i], t)
  {
    hide HasNav, HasPress, ReportOf, Exclusive, AfterPresses, NavPaired, Concat, ExactAt, PressedBefore, NavBefore;
    keys, reports, finished := [], [], false;
    NothingYet(polls);
    if setup != 0 {
      finished := true;
      return;
    }
    var f := Flags(false, false, 0, false);
    for i := 0 to |polls|
      invariant |reports| == i && keys == Concat(reports)
      invariant AfterPresses(keys) == Now(f.down) && NavPaired(keys)
      invariant Exclusive(reports, polls)
      invariant Blocked(reports, polls, f.blockNav, f.blockSt)
      invariant f.previous == LastForce(polls, i)
      invariant forall k :: 0 <= k < i ==> ReportOf(reports[k], polls[k], t)
      invariant forall k :: 0 <= k < i ==> ExactAt(reports, polls, t, k)
      invariant forall k :: 0 <= k < i ==> !polls[k].cancel && polls[k].status == 0 && polls[k].wait == 0
    {
      var p := polls[i];
      if p.cancel || p.status != 0 {
        finished := true;
        return;
      }
      var report, f' := Pass(p, t, f, keys);
      ConcatSnoc(reports, report);
      ExactLast(reports, report, polls, t);
      forall k | 0 <= k < i ensures ExactAt(reports + [report], polls, t, k) {
        ExactSnoc(reports, report, polls, t, k);
      }
      ExclusiveSnoc(reports, report, polls, f.blockNav, f.blockSt);
      BlockedSnoc(reports, report, polls, f.blockNav, f.blockSt, f'.blockNav, f'.blockSt);
      keys, reports := keys + report, reports + [report];
      f := if p.fingerDown then f' else f'.(blockNav := false, blockSt := false);
      if p.wait != 0 {
        finished := true;
        return;
      }
    }
  }

  lemma NothingYet(polls: seq<Poll>)
    ensures AfterPresses([]) == Now(false) && NavPaired([]) && Concat([]) == []
    ensures Exclusive([], polls) && Blocked([], polls, false, false)
  {
  }
}
