/** Announcements gathered into batches for a live region; every call makes a debounced
    function of its own. */
module Announce {
  import opened Maybe
  import D = Debounce

  const WAIT: nat := 200

  datatype Announcement = Announcement(text: string, priority: Option<string>)

  /** What is put in the live region at once: the texts, one a line. */
  datatype Batch = Batch(texts: seq<string>, priority: string)

  datatype Event =
    | Say(at: int, what: Announcement)
    | Ring(at: int, k: nat, id: nat)

  datatype State = State(
    queue: seq<Announcement>,
    calls: seq<D.State<()>>,
    batches: seq<Batch>,
    now: int)

  function Start(now: int): State {
    State([], [], [], now)
  }

  /** Timer `id` of the k-th call fires no earlier than it is due. */
  predicate Enabled(s: State, e: Event) {
    s.now <= e.at
    && (e.Ring? ==> e.k < |s.calls| && D.Enabled(s.calls[e.k], D.Fire(e.at, e.id)))
  }

  function Texts(queue: seq<Announcement>): (texts: seq<string>)
    ensures |texts| == |queue| && forall i | 0 <= i < |queue| :: texts[i] == queue[i].text
  {
    seq(|queue|, i requires 0 <= i < |queue| => queue[i].text)
  }

  predicate Loud(a: Announcement) {
    a.priority == Some("assertive")
  }

  /** A batch is assertive exactly when one of its members is. */
  function Render(group: seq<Announcement>): Batch {
    Batch(Texts(group), Priority(group))
  }

  function Priority(group: seq<Announcement>): string {
    if exists a <- group :: Loud(a) then "assertive" else "polite"
  }

  /** A fresh debounced function, called at once. */
  function Debounced(at: int): D.State<()> {
    D.Step(D.Start(WAIT, false, at), D.Call(at, ()))
  }

  /** Emptying the queue; an empty one changes nothing. */
  function Drained(s: State): State {
    if s.queue == [] then s else s.(queue := [], batches := s.batches + [Render(s.queue)])
  }

  function Step(s: State, e: Event): State
    requires Enabled(s, e)
  {
    match e
    case Say(at, what) =>
      s.(queue := s.queue + [what], calls := s.calls + [Debounced(at)], now := at)
    case Ring(at, k, id) =>
      var d := D.Step(s.calls[k], D.Fire(at, id));
      var t := s.(calls := s.calls[k := d], now := at);
      if |d.log| > |s.calls[k].log| then Drained(t) else t
  }

  class Announcer {
    var announcements: seq<Announcement>
    var calls: seq<D.State<()>>
    var batches: seq<Batch>
    var now: int

    ghost function View(): State
      reads this
    {
      State(announcements, calls, batches, now)
    }

    constructor (now: int)
      ensures View() == Start(now)
    {
      announcements, calls, batches, this.now := [], [], [], now;
    }

    /** Takes the queue from its end and writes it to the live region. */
    method Drain()
      modifies this`announcements, this`batches
      ensures View() == Drained(old(View()))
    {
      var text: seq<string> := [];
      var priority := "polite";
      ghost var queue := announcements;
      var il := |announcements|;
      for i := 0 to il
        invariant announcements == queue[..il - i] && batches == old(batches)
        invariant text == Texts(queue)[il - i..]
        invariant priority == Priority(queue[il - i..])
      {
        var announcement := announcements[|announcements| - 1];
        announcements := announcements[..|announcements| - 1];
        assert queue[il - i - 1..] == [announcement] + queue[il - i..];
        text := [announcement.text] + text;
        if Loud(announcement) {
          priority := "assertive";
        }
        PriorityCons(announcement, queue[il - i..]);
      }
      assert queue[0..] == queue;
      if |text| > 0 {
        batches := batches + [Batch(text, priority)];
      }
    }

    method Say(at: int, text: string, priority: Option<string>)
      requires now <= at
      modifies this
      ensures View() == Step(old(View()), Event.Say(at, Announcement(text, priority)))
    {
      now := at;
      announcements := announcements + [Announcement(text, priority)];
      calls := calls + [Debounced(at)];
    }

    method Ring(at: int, k: nat, id: nat)
      requires Enabled(View(), Event.Ring(at, k, id))
      modifies this
      ensures View() == Step(old(View()), Event.Ring(at, k, id))
    {
      now := at;
      var d := D.Step(calls[k], D.Fire(at, id));
      var invoked := |d.log| > |calls[k].log|;
      calls := calls[k := d];
      if invoked {
        Drain();
      }
    }
  }

  lemma PriorityCons(a: Announcement, rest: seq<Announcement>)
    ensures Priority([a] + rest) == if Loud(a) then "assertive" else Priority(rest)
  {
    assert a in [a] + rest;
    if b :| b in rest && Loud(b) {
      assert b in [a] + rest;
    }
  }

  /** The batch has the texts of the group, one by one in order, and is assertive if one
      of its announcements asks for that, and polite otherwise. */
  ghost predicate IsBatch(b: Batch, group: seq<Announcement>) {
    && |b.texts| == |group| && (forall i | 0 <= i < |group| :: b.texts[i] == group[i].text)
    && b.priority == if exists a <- group :: a.priority == Some("assertive") then "assertive" else "polite"
  }

  lemma RenderIsBatch(group: seq<Announcement>)
    ensures IsBatch(Render(group), group)
  {
    assert forall a <- group :: Loud(a) <==> a.priority == Some("assertive");
  }

  /* ---- runs ---- */

  predicate Legal(s: State, events: seq<Event>)
    decreases |events|, 0
  {
    events != [] ==>
      Legal(s, D.Front(events)) && Enabled(Run(s, D.Front(events)), D.Last(events))
  }

  function Run(s: State, events: seq<Event>): State
    requires Legal(s, events)
    decreases |events|, 1
  {
    if events == [] then s else Step(Run(s, D.Front(events)), D.Last(events))
  }

  /** The calls of a run, in order. */
  function Said(events: seq<Event>): seq<Event>
    decreases |events|
  {
    if events == [] then []
    else Said(D.Front(events)) + if D.Last(events).Say? then [D.Last(events)] else []
  }

  /** Announcements of a run, cut at every firing: the closed groups and the open one. */
  function Groups(events: seq<Event>): (seq<seq<Announcement>>, seq<Announcement>)
    decreases |events|
  {
    if events == [] then ([], [])
    else
      var (closed, open) := Groups(D.Front(events));
      match D.Last(events)
      case Say(_, what) => (closed, open + [what])
      case Ring(_, _, _) => if open == [] then (closed, []) else (closed + [open], [])
  }

  /** One call's debounced function: waiting since the call, or done for good. */
  predicate Waiting(call: D.State<()>, at: int) {
    call == Debounced(at)
  }

  predicate Done(call: D.State<()>) {
    call.timers == map[] && call.timeout.None?
  }

  predicate Known(call: D.State<()>, at: int) {
    Waiting(call, at) || Done(call)
  }

  /** Call by call, the timers are those made at that call's time; the latest calls,
      as many as there are in the queue, still wait for theirs. */
  ghost predicate Timed(s: State, said: seq<Event>) {
    && |s.queue| <= |s.calls| == |said|
    && (forall i | 0 <= i < |said| :: Known(s.calls[i], said[i].at))
    && (forall i | |said| - |s.queue| <= i < |said| :: Waiting(s.calls[i], said[i].at))
  }

  /** A call makes exactly one timer, due WAIT later, and its firing invokes the drain
      once. */
  lemma DebouncedOnce(call: D.State<()>, said: int, at: int, id: nat)
    requires Known(call, said) && D.Enabled(call, D.Fire(at, id))
    ensures said + 200 <= at
    ensures var d := D.Step(call, D.Fire(at, id)); |d.log| == |call.log| + 1 && Done(d)
  {
    assert id in call.timers.Keys;
  }

  lemma {:induction false} RunTimed(now: int, events: seq<Event>)
    requires Legal(Start(now), events)
    ensures Timed(Run(Start(now), events), Said(events))
    decreases |events|
  {
    if events != [] {
      var s, said, e := Run(Start(now), D.Front(events)), Said(D.Front(events)), D.Last(events);
      RunTimed(now, D.Front(events));
      if e.Ring? {
        DebouncedOnce(s.calls[e.k], said[e.k].at, e.at, e.id);
      }
    }
  }

  lemma {:induction false} RunBatches(now: int, events: seq<Event>)
    requires Legal(Start(now), events)
    ensures var s, (closed, open) := Run(Start(now), events), Groups(events);
      s.queue == open
      && |s.batches| == |closed|
      && forall i | 0 <= i < |closed| :: closed[i] != [] && IsBatch(s.batches[i], closed[i])
    decreases |events|
  {
    if events != [] {
      var s, said, e := Run(Start(now), D.Front(events)), Said(D.Front(events)), D.Last(events);
      RunBatches(now, D.Front(events));
      RunTimed(now, D.Front(events));
      if e.Ring? {
        DebouncedOnce(s.calls[e.k], said[e.k].at, e.at, e.id);
        RenderIsBatch(s.queue);
      }
    }
  }

  /* ---- each announcement read exactly once ---- */

  function Read(batches: seq<Batch>): seq<string>
    decreases |batches|
  {
    if batches == [] then [] else Read(D.Front(batches)) + D.Last(batches).texts
  }

  function SaidTexts(events: seq<Event>): seq<string>
    decreases |events|
  {
    if events == [] then []
    else SaidTexts(D.Front(events)) + if D.Last(events).Say? then [D.Last(events).what.text] else []
  }

  /** What has been read, followed by the queue, is everything announced, in the order
      of the calls and each exactly once. */
  lemma {:induction false} ReadThenQueue(now: int, events: seq<Event>)
    requires Legal(Start(now), events)
    ensures var s := Run(Start(now), events); Read(s.batches) + Texts(s.queue) == SaidTexts(events)
    decreases |events|
  {
    if events != [] {
      var s := Run(Start(now), D.Front(events));
      ReadThenQueue(now, D.Front(events));
      ReadStep(s, D.Last(events));
    }
  }

  lemma ReadStep(s: State, e: Event)
    requires Enabled(s, e)
    ensures var t := Step(s, e);
      Read(t.batches) + Texts(t.queue) == Read(s.batches) + Texts(s.queue) + if e.Say? then [e.what.text] else []
  {
    var t := Step(s, e);
    if e.Say? {
      assert Texts(s.queue + [e.what]) == Texts(s.queue) + [e.what.text];
    } else if t.queue != s.queue {
      assert D.Front(t.batches) == s.batches;
      assert Texts(t.queue) == [];
    }
  }

  /** Every queued announcement has its own pending timer, due 200 ms after it was made,
      so as long as something is unread some timer is pending. */
  lemma UnreadIsPending(now: int, events: seq<Event>)
    requires Legal(Start(now), events)
    ensures var s, said := Run(Start(now), events), Said(events);
      && |s.queue| <= |s.calls| == |said|
      && (forall i | |said| - |s.queue| <= i < |said| ::
        s.calls[i].timers == map[1 := D.Timer(said[i].at + 200, ())])
      && (Read(s.batches) == SaidTexts(events) || exists call <- s.calls :: call.timers != map[])
  {
    var s, said := Run(Start(now), events), Said(events);
    RunTimed(now, events);
    ReadThenQueue(now, events);
    if s.queue != [] {
      assert s.calls[|said| - 1] in s.calls && 1 in s.calls[|said| - 1].timers;
    }
  }
}
