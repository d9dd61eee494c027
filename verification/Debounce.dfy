/** A function whose calls are gathered in bursts, over a clock and the browser's timers. */
module Debounce {
  import opened Maybe

  /** The function invoked at a time with some arguments. */
  datatype Invocation<A> = Invocation(at: int, args: A)

  /** A pending timer, with the arguments its closure keeps. */
  datatype Timer<A> = Timer(due: int, args: A)

  datatype Event<A> =
    | Call(at: int, args: A)
    | Fire(at: int, id: nat)

  datatype State<A> = State(
    wait: nat,
    immediate: bool,
    timers: map<nat, Timer<A>>,
    next: nat,
    timeout: Option<nat>,
    now: int,
    log: seq<Invocation<A>>)

  function Start<A>(wait: nat, immediate: bool, now: int): State<A> {
    State(wait, immediate, map[], 1, None, now, [])
  }

  /** Time does not go back, and a timer fires no earlier than it is due. */
  predicate Enabled<A>(s: State<A>, e: Event<A>) {
    s.now <= e.at && (e.Fire? ==> e.id in s.timers && s.timers[e.id].due <= e.at)
  }

  function Clear<A>(timers: map<nat, Timer<A>>, timeout: Option<nat>): map<nat, Timer<A>> {
    if timeout.Some? then timers - {timeout.value} else timers
  }

  function Step<A>(s: State<A>, e: Event<A>): State<A>
    requires Enabled(s, e)
  {
    match e
    case Call(at, args) =>
      s.(timers := Clear(s.timers, s.timeout)[s.next := Timer(at + s.wait, args)],
         next := s.next + 1,
         timeout := Some(s.next),
         now := at,
         log := if s.immediate && s.timeout.None? then s.log + [Invocation(at, args)] else s.log)
    case Fire(at, id) =>
      s.(timers := s.timers - {id},
         timeout := None,
         now := at,
         log := if s.immediate then s.log else s.log + [Invocation(at, s.timers[id].args)])
  }

  /** The debounced function; `log` records what it invoked. */
  class Debounced<A, R> {
    const func: A -> R
    const wait: nat
    const immediate: bool
    var timers: map<nat, Timer<A>>
    var next: nat
    var timeout: Option<nat>
    var now: int
    var log: seq<Invocation<A>>
    var result: Option<R>

    ghost function View(): State<A>
      reads this
    {
      State(wait, immediate, timers, next, timeout, now, log)
    }

    /** The value handed back is that of the latest invocation. */
    ghost predicate Latest()
      reads this
    {
      result == if log == [] then None else Some(func(log[|log| - 1].args))
    }

    constructor (func: A -> R, wait: nat, immediate: bool, now: int)
      ensures View() == Start(wait, immediate, now) && Latest() && this.func == func
    {
      this.func, this.wait, this.immediate, this.now := func, wait, immediate, now;
      timers, next, timeout, log, result := map[], 1, None, [], None;
    }

    method Call(at: int, args: A) returns (r: Option<R>)
      requires Enabled(View(), Event.Call(at, args)) && Latest()
      modifies this
      ensures View() == Step(old(View()), Event.Call(at, args)) && Latest()
      ensures r == result
    {
      now := at;
      var callNow := immediate && timeout.None?;
      timers := Clear(timers, timeout);
      timers, timeout, next := timers[next := Timer(at + wait, args)], Some(next), next + 1;
      if callNow {
        Invoke(args);
      }
      r := result;
    }

    method Fire(at: int, id: nat)
      requires Enabled(View(), Event.Fire(at, id)) && Latest()
      modifies this
      ensures View() == Step(old(View()), Event.Fire(at, id)) && Latest()
    {
      now := at;
      var args := timers[id].args;
      timers := timers - {id};
      timeout := None;
      if !immediate {
        Invoke(args);
      }
    }

    method Invoke(args: A)
      modifies this`log, this`result
      ensures log == old(log) + [Invocation(now, args)] && Latest()
    {
      log := log + [Invocation(now, args)];
      result := Some(func(args));
    }
  }

  /* ---- runs ---- */

  ghost predicate Legal<A>(s: State<A>, events: seq<Event<A>>)
    decreases |events|, 0
  {
    events != [] ==>
      Legal(s, Front(events)) && Enabled(Run(s, Front(events)), Last(events))
  }

  ghost function Run<A>(s: State<A>, events: seq<Event<A>>): State<A>
    requires Legal(s, events)
    decreases |events|, 1
  {
    if events == [] then s else Step(Run(s, Front(events)), Last(events))
  }

  function Front<T>(s: seq<T>): seq<T>
    requires s != []
  {
    s[..|s| - 1]
  }

  function Last<T>(s: seq<T>): T
    requires s != []
  {
    s[|s| - 1]
  }

  /** At most one timer is pending, and it is the one `timeout` names. */
  ghost predicate OneTimer<A>(s: State<A>) {
    s.timers.Keys == if s.timeout.Some? then {s.timeout.value} else {}
  }

  ghost predicate Spaced<A>(log: seq<Invocation<A>>, wait: nat) {
    forall i, j | 0 <= i < j < |log| :: log[i].at + wait <= log[j].at
  }

  /** When the next invocation can come, seen from the latest one. */
  ghost predicate Waits<A>(s: State<A>) {
    s.log != [] ==>
      var last := Last(s.log).at;
      last <= s.now
      && (s.timeout.Some? && s.timeout.value in s.timers ==> last + s.wait <= s.timers[s.timeout.value].due)
      && (s.immediate && s.timeout.None? ==> last + s.wait <= s.now)
  }

  lemma StepSpaced<A>(s: State<A>, e: Event<A>)
    requires Enabled(s, e) && OneTimer(s) && Waits(s) && Spaced(s.log, s.wait)
    ensures var t := Step(s, e); OneTimer(t) && Waits(t) && Spaced(t.log, s.wait)
  {
    var t := Step(s, e);
    if t.log != s.log && s.log != [] {
      assert Last(s.log).at + s.wait <= e.at;
      assert forall i | 0 <= i < |s.log| :: s.log[i].at <= Last(s.log).at;
    }
  }

  /** In every timed run, in both modes, at most one timer is pending and two
      invocations are at least `wait` apart. */
  lemma {:induction false} RunSpaced<A>(wait: nat, immediate: bool, now: int, events: seq<Event<A>>)
    requires Legal(Start(wait, immediate, now), events)
    ensures var s := Run(Start(wait, immediate, now), events);
      OneTimer(s) && |s.timers| <= 1 && Waits(s) && Spaced(s.log, wait) && s.wait == wait && s.immediate == immediate
    decreases |events|
  {
    if events != [] {
      RunSpaced(wait, immediate, now, Front(events));
      StepSpaced(Run(Start(wait, immediate, now), Front(events)), Last(events));
    }
    var s := Run(Start(wait, immediate, now), events);
    assert |s.timers| == |s.timers.Keys|;
  }

  /* ---- bursts ---- */

  /** Calls with no firing among them, the first one apart, and the firing that
      ended them if there was one. */
  datatype Burst<A> = Burst(first: Invocation<A>, more: seq<Invocation<A>>, end: Option<int>) {
    function LastCall(): Invocation<A> {
      if more == [] then first else more[|more| - 1]
    }

    predicate Settled(wait: nat) {
      end.Some? ==> LastCall().at + wait <= end.value
    }
  }

  function NextBursts<A>(before: seq<Burst<A>>, e: Event<A>): seq<Burst<A>> {
    match e
    case Call(at, args) =>
      if Open(before) then
        var b := Last(before);
        Front(before) + [b.(more := b.more + [Invocation(at, args)])]
      else before + [Burst(Invocation(at, args), [], None)]
    case Fire(at, _) =>
      if Open(before) then Front(before) + [Last(before).(end := Some(at))] else before
  }

  /** The bursts of a run, from its calls and firings alone. */
  function Bursts<A>(events: seq<Event<A>>): seq<Burst<A>>
    decreases |events|
  {
    if events == [] then []
    else NextBursts(Bursts(Front(events)), Last(events))
  }

  predicate Open<A>(bursts: seq<Burst<A>>) {
    bursts != [] && Last(bursts).end.None?
  }

  /** What a burst invokes: its first call at once, or its last call's arguments
      when it ends. */
  function Due<A>(immediate: bool, b: Burst<A>): seq<Invocation<A>> {
    if immediate then [b.first]
    else if b.end.Some? then [Invocation(b.end.value, b.LastCall().args)]
    else []
  }

  function AllDue<A>(immediate: bool, bursts: seq<Burst<A>>): seq<Invocation<A>>
    decreases |bursts|
  {
    if bursts == [] then [] else AllDue(immediate, Front(bursts)) + Due(immediate, Last(bursts))
  }

  lemma AllDueSnoc<A>(immediate: bool, bursts: seq<Burst<A>>, b: Burst<A>)
    ensures AllDue(immediate, bursts + [b]) == AllDue(immediate, bursts) + Due(immediate, b)
  {
    assert Front(bursts + [b]) == bursts;
  }

  /** The pending timer belongs to the open burst and carries its last call. */
  ghost predicate Pending<A>(s: State<A>, bursts: seq<Burst<A>>) {
    (s.timeout.Some? <==> Open(bursts))
    && (s.timeout.Some? && s.timeout.value in s.timers ==>
      var call := Last(bursts).LastCall();
      s.timers[s.timeout.value] == Timer(call.at + s.wait, call.args))
  }

  ghost predicate Ended<A>(bursts: seq<Burst<A>>) {
    forall i | 0 <= i < |bursts| - 1 :: bursts[i].end.Some?
  }

  /** Every burst but the latest has ended, at least `wait` after its last call. */
  ghost predicate Quiet<A>(bursts: seq<Burst<A>>, wait: nat) {
    Ended(bursts)
    && forall i | 0 <= i < |bursts| :: bursts[i].Settled(wait)
  }

  /** What a debounced function invokes over any timed run: exactly one invocation a
      burst, with the first call in immediate mode and, otherwise, with the last
      call's arguments at the end of the burst; a burst ends only after `wait`
      without a call. */
  lemma {:induction false} RunInvokesBursts<A>(wait: nat, immediate: bool, now: int, events: seq<Event<A>>)
    requires Legal(Start(wait, immediate, now), events)
    ensures var s, bursts := Run(Start(wait, immediate, now), events), Bursts(events);
      s.log == AllDue(immediate, bursts) && Pending(s, bursts) && Quiet(bursts, wait)
    decreases |events|
  {
    if events != [] {
      var s, bursts := Run(Start(wait, immediate, now), Front(events)), Bursts(Front(events));
      RunInvokesBursts(wait, immediate, now, Front(events));
      RunSpaced(wait, immediate, now, Front(events));
      LogStep(s, bursts, Last(events));
      PendingStep(s, bursts, Last(events));
      QuietStep(s, bursts, Last(events));
    }
  }

  lemma LogStep<A>(s: State<A>, bursts: seq<Burst<A>>, e: Event<A>)
    requires Enabled(s, e) && OneTimer(s)
    requires s.log == AllDue(s.immediate, bursts) && Pending(s, bursts)
    ensures Step(s, e).log == AllDue(s.immediate, NextBursts(bursts, e))
  {
    var kept := if Open(bursts) then Front(bursts) else bursts;
    if Open(bursts) {
      assert bursts == kept + [Last(bursts)];
    }
    AllDueSnoc(s.immediate, kept, Last(NextBursts(bursts, e)));
  }

  lemma PendingStep<A>(s: State<A>, bursts: seq<Burst<A>>, e: Event<A>)
    requires Enabled(s, e) && OneTimer(s) && Pending(s, bursts)
    ensures Pending(Step(s, e), NextBursts(bursts, e))
  {
  }

  lemma QuietStep<A>(s: State<A>, bursts: seq<Burst<A>>, e: Event<A>)
    requires Enabled(s, e) && OneTimer(s) && Pending(s, bursts) && Quiet(bursts, s.wait)
    ensures Quiet(NextBursts(bursts, e), s.wait)
  {
    var after := NextBursts(bursts, e);
    assert Last(after).Settled(s.wait) by {
      if e.Fire? {
        OnlyTimer(s, e);
      }
    }
    forall i | 0 <= i < |after|
      ensures after[i].Settled(s.wait)
      ensures i < |after| - 1 ==> after[i].end.Some?
    {
    }
  }

  lemma OnlyTimer<A>(s: State<A>, e: Event<A>)
    requires e.Fire? && Enabled(s, e) && OneTimer(s)
    ensures s.timeout == Some(e.id)
  {
    assert e.id in s.timers.Keys;
  }

  /** One invocation a burst: as many as there are bursts, less the open one while
      it waits. */
  lemma {:induction false} OnePerBurst<A>(immediate: bool, bursts: seq<Burst<A>>)
    requires Ended(bursts)
    ensures |AllDue(immediate, bursts)| == |bursts| - (if !immediate && Open(bursts) then 1 else 0)
    decreases |bursts|
  {
    if bursts != [] {
      OnePerBurst(immediate, Front(bursts));
    }
  }
}
