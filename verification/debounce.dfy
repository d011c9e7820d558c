/** `debounce(func, wait = 150)`: every call cancels the pending timer and
    starts a new one for `wait` milliseconds with the latest arguments; the
    function runs when a timer expires. Time is modelled as a trace of calls
    and elapsed intervals, and a run of the function is reported as the
    arguments it received. */
module Debounce {
  import opened Common

  /** The default wait. */
  const DefaultWait: nat := 150

  /** The timer delay for the `wait` argument: an absent argument is 150; a
      negative delay is treated by `setTimeout` as 0. */
  function WaitArg(arg: Option<int>): (w: nat)
    ensures arg.None? ==> w == DefaultWait
    ensures arg.Some? && arg.value >= 0 ==> w == arg.value
    ensures arg.Some? && arg.value < 0 ==> w == 0
  {
    match arg
    case None => DefaultWait
    case Some(v) => if v < 0 then 0 else v
  }

  /** A call of the debounced function with arguments `args`, or `ms`
      milliseconds passing. */
  datatype Event<A> = Call(args: A) | Elapse(ms: nat)

  /** A pending timer: the arguments it will pass and the time left. */
  datatype Pending<A> = Pending(args: A, remaining: nat)

  /** The closure's state: the wait it was created with and the timer
      `timeout` refers to, if it has not fired. */
  datatype Debouncer<A> = Debouncer(wait: nat, pending: Option<Pending<A>>)

  datatype StepResult<A> = StepResult(next: Debouncer<A>, fired: Option<A>)

  /** `debounce(func, wait)`: no timer yet. */
  function Start<A>(wait: Option<int>): Debouncer<A> {
    Debouncer(WaitArg(wait), None)
  }

  /** One event: a call replaces any pending timer and never runs the function
      itself; elapsed time runs the function once the pending timer's time is
      used up. */
  function Step<A>(d: Debouncer<A>, e: Event<A>): (r: StepResult<A>)
    ensures r.next.wait == d.wait
    ensures e.Call? ==> r.fired.None? && r.next.pending == Some(Pending(e.args, d.wait))
    ensures r.fired.Some? ==> e.Elapse? && d.pending.Some? && r.fired.value == d.pending.value.args
    ensures e.Elapse? && d.pending.Some? ==>
      (r.fired.Some? <==> d.pending.value.remaining <= e.ms)
  {
    match e
    case Call(a) => StepResult(Debouncer(d.wait, Some(Pending(a, d.wait))), None)
    case Elapse(ms) =>
      match d.pending
      case None => StepResult(d, None)
      case Some(p) =>
        if p.remaining <= ms then StepResult(Debouncer(d.wait, None), Some(p.args))
        else StepResult(Debouncer(d.wait, Some(Pending(p.args, p.remaining - ms))), None)
  }

  /** The state after a trace. */
  function StateAfter<A>(d: Debouncer<A>, events: seq<Event<A>>): Debouncer<A> {
    if |events| == 0 then d
    else Step(StateAfter(d, events[..|events| - 1]), events[|events| - 1]).next
  }

  /** What event `i` of the trace runs the function with, if anything. */
  function FiredAt<A>(d: Debouncer<A>, events: seq<Event<A>>, i: nat): Option<A>
    requires i < |events|
  {
    Step(StateAfter(d, events[..i]), events[i]).fired
  }

  /** The arguments of every run of the function during a trace, in order. */
  function Fired<A>(d: Debouncer<A>, events: seq<Event<A>>): seq<A> {
    if |events| == 0 then []
    else
      var prefix := events[..|events| - 1];
      Fired(d, prefix) + match Step(StateAfter(d, prefix), events[|events| - 1]).fired {
        case Some(a) => [a]
        case None => []
      }
  }

  /** The total time that passes during a trace. */
  function ElapsedIn<A>(events: seq<Event<A>>): nat {
    if |events| == 0 then 0
    else ElapsedIn(events[..|events| - 1]) + match events[|events| - 1] {
      case Elapse(ms) => ms
      case Call(_) => 0
    }
  }

  /** The number of calls in a trace. */
  function CallCount<A>(events: seq<Event<A>>): nat {
    if |events| == 0 then 0
    else CallCount(events[..|events| - 1]) + if events[|events| - 1].Call? then 1 else 0
  }

  /** The position of the last call in a trace. */
  function LastCall<A>(events: seq<Event<A>>): (r: Option<nat>)
    ensures r.Some? ==> (r.value < |events| && events[r.value].Call? &&
      forall k :: r.value < k < |events| ==> events[k].Elapse?)
    ensures r.None? ==> forall k :: 0 <= k < |events| ==> events[k].Elapse?
  {
    if |events| == 0 then None
    else if events[|events| - 1].Call? then Some(|events| - 1)
    else LastCall(events[..|events| - 1])
  }

  /** The timer a trace leaves pending, stated without the step function:
      the last call's, unless the time since it has reached the wait and some
      interval has passed since it. */
  function ExpectedPending<A>(wait: nat, events: seq<Event<A>>): Option<Pending<A>> {
    match LastCall(events)
    case None => None
    case Some(j) =>
      var t := ElapsedIn(events[j + 1..]);
      if j == |events| - 1 || t < wait then Some(Pending(events[j].args, wait - t)) else None
  }

  /** A single call followed by one interval of `ms` milliseconds runs the
      function exactly when `ms` reaches the wait: 150 ms when no wait is
      given, the wait itself when it is not negative, and at once when it is
      negative. */
  lemma WaitTiming<A>(wait: Option<int>, a: A, ms: nat)
    ensures FiredAt(Start<A>(wait), [Call(a), Elapse(ms)], 1) ==
      if (wait.None? && ms >= 150) || (wait.Some? && ms >= wait.value) then Some(a) else None
    ensures wait.None? ==> FiredAt(Start<A>(wait), [Call(a), Elapse(149)], 1) == None
    ensures wait.None? ==> FiredAt(Start<A>(wait), [Call(a), Elapse(150)], 1) == Some(a)
  {
    var d := Start<A>(wait);
    assert [Call(a), Elapse(ms)][..1] == [Call(a)];
    assert [Call(a)][..0] == [];
    assert [Call(a), Elapse(149)][..1] == [Call(a)];
    assert [Call(a), Elapse(150)][..1] == [Call(a)];
    assert StateAfter(d, [Call(a)]) == Debouncer(d.wait, Some(Pending(a, d.wait)));
  }

  lemma {:induction false} ElapsedAppend<A>(a: seq<Event<A>>, b: seq<Event<A>>)
    ensures ElapsedIn(a + b) == ElapsedIn(a) + ElapsedIn(b)
  {
    if |b| == 0 {
      assert a + b == a;
    } else {
      ElapsedAppend(a, b[..|b| - 1]);
      assert (a + b)[..|a + b| - 1] == a + b[..|b| - 1];
    }
  }

  /** The pending timer after any trace is the one `ExpectedPending` describes. */
  lemma {:induction false} PendingInvariant<A>(wait: Option<int>, events: seq<Event<A>>)
    ensures StateAfter(Start<A>(wait), events) == Debouncer(WaitArg(wait), ExpectedPending(WaitArg(wait), events))
  {
    if |events| > 0 {
      var w := WaitArg(wait);
      var prefix := events[..|events| - 1];
      var e := events[|events| - 1];
      PendingInvariant(wait, prefix);
      if e.Elapse? {
        assert LastCall(events) == LastCall(prefix);
        match LastCall(prefix)
        case None =>
        case Some(j) =>
          assert events[j + 1..] == prefix[j + 1..] + [e];
          ElapsedAppend(prefix[j + 1..], [e]);
          assert ElapsedIn([e]) == e.ms by {
            assert [e][..0] == [];
          }
          assert events[j] == prefix[j];
      } else {
        assert events[|events|..] == [];
      }
    }
  }

  /** Event `i` runs the function with `a` in the trace's own terms: it is an
      interval, the last call before it passed `a`, the time since that call
      had not reached the wait before this interval (or no interval had
      passed), and with this interval it does. */
  ghost predicate FiresWith<A>(wait: nat, events: seq<Event<A>>, i: nat, a: A)
    requires i < |events|
  {
    && events[i].Elapse?
    && exists j :: FiresAfterCall(wait, events, j, i, a)
  }

  /** The call at `j` is the last one before event `i`, passed `a`, and its
      timer expires during event `i`. */
  ghost predicate FiresAfterCall<A>(wait: nat, events: seq<Event<A>>, j: int, i: nat, a: A)
    requires i < |events|
  {
    && 0 <= j < i && events[j] == Call(a)
    && (forall k :: j < k <= i ==> events[k].Elapse?)
    && (j == i - 1 || ElapsedIn(events[j + 1..i]) < wait)
    && wait <= ElapsedIn(events[j + 1..i + 1])
  }

  /** The function runs at event `i` with arguments `a` exactly when the trace
      says so: the latest arguments, once the wait has passed with no call in
      between. */
  lemma FiresIff<A>(wait: Option<int>, events: seq<Event<A>>, i: nat, a: A)
    requires i < |events|
    ensures FiredAt(Start<A>(wait), events, i) == Some(a) <==> FiresWith(WaitArg(wait), events, i, a)
  {
    var w := WaitArg(wait);
    var prefix := events[..i];
    var e := events[i];
    PendingInvariant(wait, prefix);
    if FiredAt(Start<A>(wait), events, i) == Some(a) {
      var j := LastCall(prefix).value;
      ElapsedThrough(events, j, i);
      assert prefix[j + 1..] == events[j + 1..i];
      assert events[j] == prefix[j];
      forall k | j < k <= i
        ensures events[k].Elapse?
      {
        if k < i {
          assert events[k] == prefix[k];
        }
      }
      assert FiresAfterCall(w, events, j, i, a);
    }
    if FiresWith(w, events, i, a) {
      var j :| FiresAfterCall(w, events, j, i, a);
      ElapsedThrough(events, j, i);
      assert prefix[j] == events[j];
      LastCallUnique(prefix, j);
      assert prefix[j + 1..] == events[j + 1..i];
      var t := ElapsedIn(prefix[j + 1..]);
      assert ExpectedPending(w, prefix) == Some(Pending(a, w - t));
      assert w - t <= e.ms;
    }
  }

  /** The time from `j + 1` through event `i` is the time before `i` plus
      event `i`'s interval. */
  lemma ElapsedThrough<A>(events: seq<Event<A>>, j: nat, i: nat)
    requires j < i < |events|
    ensures ElapsedIn(events[j + 1..i + 1]) == ElapsedIn(events[j + 1..i]) + (if events[i].Elapse? then events[i].ms else 0)
  {
    assert events[j + 1..i + 1][..|events[j + 1..i + 1]| - 1] == events[j + 1..i];
  }

  /** Time only accumulates: a later end sees at least as much of it. */
  lemma ElapsedGrows<A>(events: seq<Event<A>>, j: nat, m: nat, n: nat)
    requires j <= m <= n <= |events|
    ensures ElapsedIn(events[j..m]) <= ElapsedIn(events[j..n])
  {
    assert events[j..n] == events[j..m] + events[m..n];
    ElapsedAppend(events[j..m], events[m..n]);
  }

  /** Two calls each followed only by intervals up to `i` are the same call. */
  lemma SameLastCall<A>(events: seq<Event<A>>, j1: nat, j2: nat, i: nat)
    requires j1 < i && j2 < i < |events|
    requires events[j1].Call? && events[j2].Call?
    requires forall k :: j1 < k <= i ==> events[k].Elapse?
    requires forall k :: j2 < k <= i ==> events[k].Elapse?
    ensures j1 == j2
  {
  }

  /** A call followed only by intervals is the last call. */
  lemma LastCallUnique<A>(events: seq<Event<A>>, j: nat)
    requires j < |events| && events[j].Call?
    requires forall k :: j < k < |events| ==> events[k].Elapse?
    ensures LastCall(events) == Some(j)
  {
  }

  /** Between two runs of the function there is a call: a burst of calls runs
      it at most once. */
  lemma CallBetweenRuns<A>(wait: Option<int>, events: seq<Event<A>>, i1: nat, i2: nat)
    requires i1 < i2 < |events|
    requires FiredAt(Start<A>(wait), events, i1).Some? && FiredAt(Start<A>(wait), events, i2).Some?
    ensures exists j :: i1 < j < i2 && events[j].Call?
  {
    var w := WaitArg(wait);
    var a1 := FiredAt(Start<A>(wait), events, i1).value;
    var a2 := FiredAt(Start<A>(wait), events, i2).value;
    FiresIff(wait, events, i1, a1);
    FiresIff(wait, events, i2, a2);
    var j1 :| FiresAfterCall(w, events, j1, i1, a1);
    var j2 :| FiresAfterCall(w, events, j2, i2, a2);
    if j2 < i1 {
      SameLastCall(events, j1, j2, i1);
      ElapsedGrows(events, j2 + 1, i1 + 1, i2);
      assert false;
    }
    assert i1 < j2;
  }

  /** Each call leads to at most one run: runs never outnumber calls. */
  lemma {:induction false} RunsAtMostCalls<A>(wait: Option<int>, events: seq<Event<A>>)
    ensures |Fired(Start<A>(wait), events)| + (if StateAfter(Start<A>(wait), events).pending.Some? then 1 else 0) <= CallCount(events)
  {
    if |events| > 0 {
      RunsAtMostCalls(wait, events[..|events| - 1]);
    }
  }

  /** Resizing in a burst, 100ms apart, then pausing: only the last call runs,
      once, 150ms after it. */
  lemma BurstExample()
    ensures Fired(Start<int>(None), [Call(1), Elapse(100), Call(2), Elapse(100), Call(3), Elapse(149), Elapse(1)]) == [3]
  {
    var events: seq<Event<int>> := [Call(1), Elapse(100), Call(2), Elapse(100), Call(3), Elapse(149), Elapse(1)];
    var d := Start<int>(None);
    assert events[..1] == [Call(1)];
    assert events[..2][..1] == events[..1];
    assert events[..3][..2] == events[..2];
    assert events[..4][..3] == events[..3];
    assert events[..5][..4] == events[..4];
    assert events[..6][..5] == events[..5];
    assert events[..7][..6] == events[..6];
    assert events[..7] == events;
    assert StateAfter(d, events[..1]) == Debouncer(150, Some(Pending(1, 150)));
    assert StateAfter(d, events[..2]) == Debouncer(150, Some(Pending(1, 50)));
    assert StateAfter(d, events[..3]) == Debouncer(150, Some(Pending(2, 150)));
    assert StateAfter(d, events[..4]) == Debouncer(150, Some(Pending(2, 50)));
    assert StateAfter(d, events[..5]) == Debouncer(150, Some(Pending(3, 150)));
    assert StateAfter(d, events[..6]) == Debouncer(150, Some(Pending(3, 1)));
    assert Fired(d, events[..1]) == [];
    assert Fired(d, events[..2]) == [];
    assert Fired(d, events[..3]) == [];
    assert Fired(d, events[..4]) == [];
    assert Fired(d, events[..5]) == [];
    assert Fired(d, events[..6]) == [];
  }
}
