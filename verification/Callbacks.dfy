/** What the HAL tells the framework. */
module Callbacks {
  import opened Bytes

  /** A rejected authentication is reported with id 0. */
  datatype Event =
    | OnAcquired(code: int)
    | OnEnrollResult(id: uint32, remaining: nat)
    | OnRemoved(id: uint32, remaining: nat)
    | OnAuthenticated(id: uint32)
    | OnError(code: int)

  const ACQUIRED_GOOD := 0
  const ACQUIRED_PARTIAL := 1
  const ACQUIRED_INSUFFICIENT := 2
  const ACQUIRED_DIRTY := 3
  const ACQUIRED_TOO_SIMILAR := 1000
  const ERROR_HW_UNAVAILABLE := 1
  const ERROR_UNABLE_TO_PROCESS := 2
  const ERROR_TIMEOUT := 3
  const ERROR_NO_SPACE := 4
  const ERROR_UNABLE_TO_REMOVE := 6
  const ERROR_ALREADY_ENROLLED := 1000

  function Errors(events: seq<Event>): nat {
    if events == [] then 0
    else Errors(events[..|events| - 1]) + if events[|events| - 1].OnError? then 1 else 0
  }

  /** The reports of successive rounds, one after the other. */
  function Flat(reports: seq<seq<Event>>): seq<Event> {
    if reports == [] then [] else Flat(reports[..|reports| - 1]) + reports[|reports| - 1]
  }

  lemma FlatSnoc(reports: seq<seq<Event>>, r: seq<Event>)
    ensures Flat(reports + [r]) == Flat(reports) + r
    ensures Flat([]) == []
  {
    assert (reports + [r])[..|reports|] == reports;
  }

  lemma {:induction false} FlatMember(reports: seq<seq<Event>>, e: Event)
    ensures e in Flat(reports) <==> exists i :: 0 <= i < |reports| && e in reports[i]
  {
    if reports != [] {
      var n := |reports| - 1;
      FlatMember(reports[..n], e);
      if e in Flat(reports[..n]) {
        var i :| 0 <= i < n && e in reports[..n][i];
        assert e in reports[i];
      }
    }
  }

  lemma {:induction false} ErrorsConcat(a: seq<Event>, b: seq<Event>)
    ensures Errors(a + b) == Errors(a) + Errors(b)
  {
    if b == [] {
      assert a + b == a;
    } else {
      var n := |b| - 1;
      ErrorsConcat(a, b[..n]);
      assert (a + b)[..|a| + n] == a + b[..n];
    }
  }
}
