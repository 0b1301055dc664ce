/** `rafThrottle(fn)`: the returned wrapper asks for an animation frame only
    when none is pending, so the calls made between two frames run `fn` once,
    with the arguments of the first of them. A frame is an explicit step. */
module Throttle {
  import opened Text

  /** What can happen to a throttled wrapper: it is called, or the browser
      paints a frame (running the callback requested, if any). */
  datatype Event<A> = Invoke(args: A) | Tick

  /** The closure's state: the `ticking` flag, the arguments of the pending
      frame callback, and the arguments `fn` has been applied to so far. */
  datatype Snapshot<A> = Snapshot(ticking: bool, pending: Option<A>, ran: seq<A>)

  /** A frame is pending exactly while `ticking` is set. */
  predicate Consistent<A>(s: Snapshot<A>) {
    s.ticking <==> s.pending.Some?
  }

  /** One event on a snapshot. */
  function Step<A>(s: Snapshot<A>, e: Event<A>): (r: Snapshot<A>)
    ensures Consistent(s) ==> Consistent(r)
    // A call never runs `fn`; a frame runs it once, on the pending arguments.
    ensures e.Invoke? ==> r.ran == s.ran
    ensures e.Tick? ==> r.ran == s.ran + (if s.pending.Some? then [s.pending.value] else [])
    // A call while a frame is pending changes nothing.
    ensures e.Invoke? && s.ticking ==> r == s
  {
    match e
    case Invoke(a) =>
      if s.ticking then s else Snapshot(true, Some(a), s.ran)
    case Tick =>
      match s.pending
      case None => s
      case Some(a) => Snapshot(false, None, s.ran + [a])
  }

  /** A run of events, from the left. */
  function Run<A>(s: Snapshot<A>, events: seq<Event<A>>): Snapshot<A>
    decreases |events|
  {
    if events == [] then s else Run(Step(s, events[0]), events[1..])
  }

  function Ticks<A>(events: seq<Event<A>>): nat {
    if events == [] then 0 else (if events[0].Tick? then 1 else 0) + Ticks(events[1..])
  }

  /** The wrapper's closure. */
  class Throttled<A> {
    var ticking: bool
    var pending: Option<A>
    var ran: seq<A>

    function State(): Snapshot<A>
      reads this
    {
      Snapshot(ticking, pending, ran)
    }

    ghost predicate Valid()
      reads this
    {
      Consistent(State())
    }

    /** `rafThrottle(fn)`: nothing pending, nothing run. */
    constructor ()
      ensures Valid() && State() == Snapshot(false, None, [])
    {
      ticking := false;
      pending := None;
      ran := [];
    }

    /** A call of the wrapper: when no frame is pending, set `ticking` and
        request one carrying these arguments; otherwise do nothing. */
    method Call(args: A)
      requires Valid()
      modifies this
      ensures Valid() && ticking && ran == old(ran)
      ensures pending == if old(ticking) then old(pending) else Some(args)
      ensures State() == Step(old(State()), Invoke(args))
    {
      if !ticking {
        ticking := true;
        pending := Some(args);
      }
    }

    /** The browser paints a frame: the requested callback applies `fn` to its
        arguments and clears `ticking`. */
    method Frame()
      requires Valid()
      modifies this
      ensures Valid() && !ticking && pending == None
      ensures ran == old(ran) + (if old(pending).Some? then [old(pending).value] else [])
      ensures State() == Step(old(State()), Tick)
    {
      if pending.Some? {
        ran := ran + [pending.value];
        pending := None;
        ticking := false;
      }
    }
  }

  /** Every run keeps `ticking` and the pending request in step, so at most one
      callback is ever outstanding. */
  lemma {:induction false} RunConsistent<A>(s: Snapshot<A>, events: seq<Event<A>>)
    requires Consistent(s)
    ensures Consistent(Run(s, events))
    decreases |events|
  {
    if events != [] {
      RunConsistent(Step(s, events[0]), events[1..]);
    }
  }

  /** `fn` runs at most once per frame, and what ran before stays as it was. */
  lemma {:induction false} RunOncePerFrame<A>(s: Snapshot<A>, events: seq<Event<A>>)
    ensures s.ran <= Run(s, events).ran
    ensures |Run(s, events).ran| <= |s.ran| + Ticks(events)
    decreases |events|
  {
    if events != [] {
      RunOncePerFrame(Step(s, events[0]), events[1..]);
    }
  }

  /** Calls made while a frame is pending are dropped: no Tick, no change
      besides the first call's request. */
  lemma {:induction false} CallsCoalesce<A>(s: Snapshot<A>, events: seq<Event<A>>)
    requires s.ticking
    requires forall i :: 0 <= i < |events| ==> events[i].Invoke?
    ensures Run(s, events) == s
    decreases |events|
  {
    if events != [] {
      CallsCoalesce(s, events[1..]);
    }
  }

  /** Every argument `fn` is applied to during a run was pending at its
      start or passed to one of its calls. */
  lemma {:induction false} RunOnlyCalledArgs<A>(s: Snapshot<A>, events: seq<Event<A>>, p: nat)
    requires |s.ran| <= p < |Run(s, events).ran|
    ensures s.pending == Some(Run(s, events).ran[p]) || Invoke(Run(s, events).ran[p]) in events
    decreases |events|
  {
    if events != [] {
      var t := Step(s, events[0]);
      var rest := events[1..];
      var x := Run(s, events).ran[p];
      assert Run(s, events) == Run(t, rest);
      if p >= |t.ran| {
        RunOnlyCalledArgs(t, rest, p);
        if Invoke(x) in rest {
          var j :| 0 <= j < |rest| && rest[j] == Invoke(x);
          assert events[1 + j] == Invoke(x);
        }
      } else {
        RunOncePerFrame(t, rest);
        assert t.ran == s.ran + [s.pending.value];
      }
    }
  }

  /** Two calls before a frame: `fn` runs once, with the first call's arguments. */
  lemma FirstCallWins<A>(a: A, b: A)
    ensures Run(Snapshot(false, None, []), [Invoke(a), Invoke(b), Tick]).ran == [a]
  {
    var s0: Snapshot<A> := Snapshot(false, None, []);
    var s1: Snapshot<A> := Snapshot(true, Some(a), []);
    var evs: seq<Event<A>> := [Invoke(a), Invoke(b), Tick];
    assert Step(s0, evs[0]) == s1;
    assert Step(s1, evs[1]) == s1;
    assert Step(s1, evs[2]) == Snapshot(false, None, [a]);
    assert Run(s0, evs) == Run(s1, evs[1..]);
    assert Run(s1, evs[1..]) == Run(s1, evs[2..]);
    assert Run(s1, evs[2..]) == Run(Snapshot(false, None, [a]), evs[3..]);
  }
}
