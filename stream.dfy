/** The change detection of `GET /stream` (app.py:437-470): the handler reads a
    list's updated_at, then polls it once a second and sends one
    `data: updated` event each time the value read differs from the last one. */
module Stream {
  import opened Requests
  import opened Table

  /** `SELECT updated_at FROM lists WHERE name = ?`: None both for a missing
      row and for a row whose updated_at is still NULL. */
  function Observed(lists: map<string, nat>, name: string): (v: Option<nat>)
    ensures v.Some? ==> name in lists && v.value == lists[name]
    ensures v.None? ==> Version(lists, name) == 0
  {
    if name in lists && lists[name] > 0 then Some(lists[name]) else None
  }

  /** A stamp of a registered list at a time later than anything read before
      is seen by the next poll. */
  lemma StampIsObserved(lists: map<string, nat>, name: string, t: nat, last: Option<nat>)
    requires name in lists && lists[name] < t
    requires last.Some? ==> last.value < t
    ensures Observed(Stamp(lists, name, t), name) == Some(t)
    ensures Observed(Stamp(lists, name, t), name) != Observed(lists, name)
    ensures Observed(Stamp(lists, name, t), name) != last
  {
  }

  /** The number of events a sequence of polls produces, starting from the
      value read when the stream opened. None is a list without a row. */
  function Events(last: Option<nat>, polls: seq<Option<nat>>): (n: nat)
    ensures n <= |polls|
    decreases |polls|
  {
    if polls == [] then 0
    else (if polls[0] != last then 1 else 0) + Events(polls[0], polls[1..])
  }

  /** The last value seen after a sequence of polls. */
  function LastSeen(last: Option<nat>, polls: seq<Option<nat>>): Option<nat> {
    if polls == [] then last else polls[|polls| - 1]
  }

  /** The polling loop, given the values its polls read. */
  method Watch(initial: Option<nat>, polls: seq<Option<nat>>) returns (events: nat)
    ensures events == Events(initial, polls)
  {
    var last := initial;
    events := 0;
    var k := 0;
    while k < |polls|
      invariant 0 <= k <= |polls|
      invariant last == LastSeen(initial, polls[..k])
      invariant events + Events(last, polls[k..]) == Events(initial, polls)
    {
      var now := polls[k];
      assert polls[k..] == [now] + polls[k + 1..];
      if now != last {
        events := events + 1;
      }
      last := now;
      k := k + 1;
    }
  }

  /** Polls that read the same value as before send nothing. */
  lemma {:induction false} SteadyIsSilent(last: Option<nat>, polls: seq<Option<nat>>)
    requires forall i :: 0 <= i < |polls| ==> polls[i] == last
    ensures Events(last, polls) == 0
    decreases |polls|
  {
    if polls != [] {
      SteadyIsSilent(last, polls[1..]);
    }
  }

  /** Events over two stretches of polling add up. */
  lemma {:induction false} EventsSplit(last: Option<nat>, a: seq<Option<nat>>, b: seq<Option<nat>>)
    ensures Events(last, a + b) == Events(last, a) + Events(LastSeen(last, a), b)
    decreases |a|
  {
    if a != [] {
      assert (a + b)[1..] == a[1..] + b;
      assert (a + b)[0] == a[0];
      EventsSplit(a[0], a[1..], b);
      assert LastSeen(a[0], a[1..]) == LastSeen(last, a);
    } else {
      assert a + b == b;
    }
  }

  /** When every poll reads a new value (each handler call in between stamped
      the list again), every poll sends an event. */
  lemma {:induction false} EveryChangeIsSent(last: Option<nat>, polls: seq<Option<nat>>)
    requires |polls| > 0 ==> polls[0] != last
    requires forall i :: 0 < i < |polls| ==> polls[i] != polls[i - 1]
    ensures Events(last, polls) == |polls|
    decreases |polls|
  {
    if polls != [] {
      var rest := polls[1..];
      assert forall i :: 0 < i < |rest| ==> rest[i] == polls[i + 1] && rest[i - 1] == polls[i];
      assert |rest| > 0 ==> rest[0] == polls[1];
      EveryChangeIsSent(polls[0], rest);
    }
  }
}
