/**
 Which events keep the displayed table a sound tree, and exactly when one does
 not. The stored interval is the only thing that can go wrong: it may belong to
 another position, or be empty.
 */
module DragSteps {
  import opened Maybe
  import opened TreeTable
  import opened Drag
  import opened DragSound

  /** Every depth a later indent can choose is allowed where the group is now. */
  predicate Covered(d: State)
    requires d.group != []
  {
    var interval := IntervalInUse(d);
    Here(d).min <= Min(interval.min, interval.max) && interval.max <= Here(d).max
  }

  /** The interval at the group's position is not empty. */
  predicate Open(d: State)
    requires d.group != []
  {
    Here(d).min <= Here(d).max
  }

  ghost predicate Ready(d: State) {
    Inv(d) && Fits(d) && Covered(d)
  }

  lemma IndentHere(d: State, diff: int)
    requires Inv(d)
    ensures Inv(Indent(d, diff))
    ensures Here(Indent(d, diff)) == Here(d)
    ensures Indent(d, diff).indents == Target(d, diff)
    ensures IntervalInUse(Indent(d, diff)) == IntervalInUse(d)
  {
    IndentKeeps(d, diff);
  }

  /** One indent leaves a sound table if and only if the depth it settles on is
      allowed between the rows around the group. */
  lemma IndentExact(d: State, diff: int)
    requires Inv(d)
    ensures Sound(Indent(d, diff)) <==> Here(d).min <= Target(d, diff) <= Here(d).max
  {
    IndentHere(d, diff);
    FitsIffSound(Indent(d, diff));
  }

  /** Whatever the pointer or the arrow keys ask for next, the table is sound. */
  ghost predicate Harmless(d: State)
    requires d.group != []
  {
    forall diff: int :: Sound(Indent(d, diff))
  }

  /** All later indents are harmless if and only if the interval in use lies in
      the true one. */
  lemma CoveredExact(d: State)
    requires Inv(d)
    ensures Covered(d) <==> Harmless(d)
  {
    var interval := IntervalInUse(d);
    if Covered(d) {
      forall diff: int
        ensures Sound(Indent(d, diff))
      {
        IndentExact(d, diff);
      }
    }
    if Harmless(d) {
      IndentExact(d, interval.min - d.indents);
      IndentExact(d, interval.max - d.indents);
    }
  }

  lemma IndentReady(d: State, diff: int)
    requires Inv(d) && Covered(d)
    ensures Ready(Indent(d, diff))
  {
    IndentHere(d, diff);
  }

  /** The target just below the group, taken on the way up: its predecessor is
      the group's own last row. */
  predicate OwnTail(d: State, k: int, direction: Direction) {
    direction.Up? && k == |d.above| + |d.group|
  }

  /** A row outside the group, seen in the table and in the rest. */
  lemma SameRow(d: State, k: int)
    requires k < |d.above| || k >= |d.above| + |d.group|
    ensures RowAt(Table(d), k) == RowAt(Rest(d), if k < |d.above| then k else k - |d.group|)
  {
  }

  lemma MovedNeighbours(d: State, i: nat)
    requires i <= |Rest(d)|
    ensures var m := MoveTo(d, i);
      RowAt(m.above, |m.above| - 1) == RowAt(Rest(d), i - 1) && RowAt(m.below, 0) == RowAt(Rest(d), i)
  {
  }

  /** The depth chosen is the allowed one nearest to what was asked for; from an empty
      interval it is the upper bound. */
  lemma TargetNearest(d: State, diff: int, t: int)
    requires d.group != []
    ensures var interval, target, asked := IntervalInUse(d), Target(d, diff), d.indents + diff;
      if interval.min > interval.max then target == interval.max
      else
        && interval.min <= target <= interval.max
        && (interval.min <= t <= interval.max ==>
             Max(target - asked, asked - target) <= Max(t - asked, asked - t))
  {
  }

  /** An accepted target becomes the row just above the group on the way down and just
      below it on the way up; a refused one moves nothing. */
  lemma HoverPlaces(d: State, k: int, direction: Direction)
    requires d.group != [] && Outside(d, k)
    ensures var e := Hover(d, k, direction);
      if !Accepted(d, k, direction) then e.above == d.above && e.below == d.below && e.changed == d.changed
      else
        && e.changed
        && RowAt(if direction.Down? then e.above else e.below, if direction.Down? then |e.above| - 1 else 0)
           == Some(Table(d)[k])
  {
    SameRow(d, k);
    MovedNeighbours(d, SwapIndex(d, if direction.Down? then After else Before, k));
  }

  /** After an accepted target whose neighbours are other rows every later indent is
      harmless, even if the row was at a wrong depth before; only the row just above,
      taken on the way down, needs the row to be placed well, and exactly then. */
  lemma AcceptedCovers(d: State, k: int, direction: Direction)
    requires Inv(d) && Outside(d, k) && Accepted(d, k, direction) && !OwnTail(d, k, direction)
    ensures Covered(Hover(d, k, direction)) <==> (direction.Down? && k + 1 == |d.above| ==> Fits(d))
  {
    if direction.Down? {
      DownCovers(d, k);
    } else {
      SameRow(d, k);
      SameRow(d, k - 1);
      MovedNeighbours(d, SwapIndex(d, Before, k));
    }
  }

  lemma DownCovers(d: State, k: int)
    requires Inv(d) && Outside(d, k) && Accepted(d, k, Down)
    ensures Covered(Hover(d, k, Down)) <==> (k + 1 == |d.above| ==> Fits(d))
  {
    SameRow(d, k);
    MovedNeighbours(d, SwapIndex(d, After, k));
    if k + 1 == |d.above| {
      assert Table(d)[k + 1] == d.group[0];
      assert RowAt(Rest(d), k + 1) == RowAt(d.below, 0);
    } else {
      SameRow(d, k + 1);
    }
  }

  /** A rejected target is stored all the same: afterwards the indents are
      harmless if and only if the rejected position's interval happens to lie in
      the true one. */
  lemma RejectedExact(d: State, k: int, direction: Direction)
    requires Inv(d) && Outside(d, k) && !Accepted(d, k, direction)
    ensures var asked := HoverInterval(d, k, direction);
      Harmless(Hover(d, k, direction)) <==>
        Here(d).min <= Min(asked.min, asked.max) && asked.max <= Here(d).max
  {
    HoverKeeps(d, k, direction);
    CoveredExact(Hover(d, k, direction));
  }

  /** On the way up, the row just below the group measures the group against
      itself; that is harmless if and only if the group's last row allows no more
      than the row above the group does, even if the row was badly placed before. */
  lemma OwnTailExact(d: State)
    requires Inv(d) && d.below != []
    requires Accepted(d, |d.above| + |d.group|, Up)
    ensures var k := |d.above| + |d.group|;
      Harmless(Hover(d, k, Up)) <==> HoverInterval(d, k, Up).max <= Here(d).max
  {
    var k := |d.above| + |d.group|;
    var e := Hover(d, k, Up);
    assert Covered(e) <==> HoverInterval(d, k, Up).max <= Here(d).max by {
      HoverInPlace(d);
    }
    assert Inv(e) by {
      HoverKeeps(d, k, Up);
    }
    CoveredExact(e);
  }

  lemma HoverInPlace(d: State)
    requires Inv(d) && d.below != []
    requires Accepted(d, |d.above| + |d.group|, Up)
    ensures var k := |d.above| + |d.group|;
      && Hover(d, k, Up) == d.(interval := Some(HoverInterval(d, k, Up)), changed := true)
      && HoverInterval(d, k, Up).min == Here(d).min
  {
    assert Rest(d)[..|d.above|] == d.above && Rest(d)[|d.above|..] == d.below;
    assert Table(d)[|d.above| + |d.group|] == d.below[0];
  }

  /* ---- keyboard ---- */

  /** The state in which an up or down key asks for the new interval. */
  function Moved(d: State, i: nat): State
    requires i <= |Rest(d)|
  {
    MoveTo(d, i).(interval := None)
  }

  /** A key move is sound if and only if the interval at the new position is not
      empty; nothing in the code checks that. */
  lemma KeyMoveExact(d: State, i: nat)
    requires Inv(d) && i <= |Rest(d)|
    ensures var m := Moved(d, i);
      && (Sound(Indent(m, 0)) <==> Open(m))
      && (Open(m) ==> Ready(Indent(m, 0)))
  {
    MoveKeeps(d, i);
    IndentExact(Moved(d, i), 0);
    IndentHere(Moved(d, i), 0);
  }

  /** Without a depth limit the interval between two neighbours of a forest is
      never empty for a row that may be indented. */
  lemma NoLimitInterval(d: State, i: nat)
    requires Inv(d) && d.limit == 0 && !d.group[0].root && i <= |Rest(d)|
    ensures Open(Moved(d, i))
  {
    var r := Rest(d);
    var m := Moved(d, i);
    assert RowAt(m.above, i - 1) == RowAt(r, i - 1);
    assert RowAt(m.below, 0) == RowAt(r, i);
    if i < |r| {
      assert Placed(r, i, d.limit);
    }
  }

  /** Root rows move from one top-level place to another. */
  lemma RootReady(d: State, i: nat)
    requires Ready(d) && d.group[0].root && i <= |Rest(d)|
    requires i < |Rest(d)| ==> Rest(d)[i].depth == 0
    ensures Ready(MoveTo(d, i))
  {
    MoveKeeps(d, i);
    var m := MoveTo(d, i);
    assert RowAt(m.below, 0) == RowAt(Rest(d), i);
  }

  lemma RootUpReady(d: State)
    requires Ready(d) && d.group[0].root
    ensures Ready(KeyUp(d))
  {
    if CanRise(d) {
      var top := TopLevelAbove(d.above, |d.above|);
      if top >= 0 {
        RootReady(d, SwapIndex(d, Before, top));
      }
    }
  }

  lemma RootDownReady(d: State)
    requires Ready(d) && d.group[0].root
    ensures Ready(KeyDown(d))
  {
    if CanSink(d) {
      var c := ChildCount(d.below, 0);
      var i := |d.above| + c + 1;
      assert d.below[0].depth == 0;
      if c + 1 < |d.below| {
        assert Rest(d)[i] == d.below[c + 1] && Placed(Rest(d), i, d.limit);
      }
      RootReady(d, SwapIndex(d, After, |d.above| + |d.group| + c));
    }
  }

  /** The up key, for a row that is not a root row: sound if and only if the new
      interval is not empty; with no limit always, whatever happened before. */
  lemma KeyUpExact(d: State)
    requires Inv(d) && !d.group[0].root && CanRise(d)
    ensures var m := Moved(d, |d.above| - 1);
      && (Sound(KeyUp(d)) <==> Open(m))
      && (Open(m) ==> Ready(KeyUp(d)))
    ensures d.limit == 0 ==> Ready(KeyUp(d))
  {
    KeyMoveExact(d, |d.above| - 1);
    if d.limit == 0 { NoLimitInterval(d, |d.above| - 1); }
  }

  lemma KeyDownExact(d: State)
    requires Inv(d) && !d.group[0].root && CanSink(d)
    ensures var m := Moved(d, |d.above| + 1);
      && (Sound(KeyDown(d)) <==> Open(m))
      && (Open(m) ==> Ready(KeyDown(d)))
    ensures d.limit == 0 ==> Ready(KeyDown(d))
  {
    KeyMoveExact(d, |d.above| + 1);
    if d.limit == 0 { NoLimitInterval(d, |d.above| + 1); }
  }

  /** The search for a top-level row always finds one. */
  lemma TopLevelFound(d: State)
    requires Inv(d) && d.above != []
    ensures TopLevelAbove(d.above, |d.above|) >= 0
  {
    assert Placed(Rest(d), 0, d.limit) && Rest(d)[0] == d.above[0];
  }

  /** When the arrow keys move a row. As written the down key never does, and the up
      key does only for a row right below the first one. */
  lemma KeysMoveExact(d: State)
    requires Inv(d)
    ensures if CanRise(d) then KeyUp(d).above != d.above else KeyUp(d) == d
    ensures if CanSink(d) then KeyDown(d).above != d.above else KeyDown(d) == d
    ensures CanRise(d) <==>
      && d.above != [] && (d.selector.Written? ==> |d.above| == 1)
      && (d.group[0].root || |d.above| > 1 || d.above[0].draggable)
    ensures CanSink(d) <==> d.below != [] && d.selector.Intended?
  {
    hide Forest;
    if d.above != [] {
      TopLevelFound(d);
    }
  }

  /** When a down key leaves a sound table, whatever the depth limit. */
  lemma KeyDownSound(d: State)
    requires Inv(d) && Fits(d) && !d.group[0].root
    ensures Sound(KeyDown(d)) <==> (CanSink(d) ==> Open(Moved(d, |d.above| + 1)))
  {
    if CanSink(d) {
      KeyDownExact(d);
    } else {
      FitsIffSound(d);
    }
  }

  /* ---- whole drags ---- */

  /** What an event needs: a target that is accepted, and not the group's own
      tail; for a key, an interval that is not empty. */
  predicate Careful(d: State, e: Event)
    requires d.group != []
  {
    match e
    case Pointer(over, diff) =>
      over.Some? && Outside(d, over.value.0) ==>
        && Accepted(d, over.value.0, over.value.1)
        && !OwnTail(d, over.value.0, over.value.1)
    case Arrow(columns) => true
    case ArrowUp =>
      d.group[0].root || !CanRise(d) || Open(Moved(d, |d.above| - 1))
    case ArrowDown =>
      d.group[0].root || !CanSink(d) || Open(Moved(d, |d.above| + 1))
  }

  lemma StepReady(d: State, e: Event)
    requires Ready(d) && Careful(d, e)
    ensures Ready(Step(d, e))
  {
    match e
    case Pointer(over, diff) =>
      if over.Some? && Outside(d, over.value.0) {
        HoverKeeps(d, over.value.0, over.value.1);
        AcceptedCovers(d, over.value.0, over.value.1);
        IndentReady(Hover(d, over.value.0, over.value.1), diff);
      } else {
        IndentReady(d, diff);
      }
    case Arrow(columns) => IndentReady(d, columns);
    case ArrowUp =>
      if d.group[0].root {
        RootUpReady(d);
      } else if CanRise(d) {
        KeyUpExact(d);
      }
    case ArrowDown =>
      if d.group[0].root {
        RootDownReady(d);
      } else if CanSink(d) {
        KeyDownExact(d);
      }
  }

  function Run(d: State, es: seq<Event>): (r: State)
    requires d.group != []
    ensures |r.group| == |d.group| && r.group[0].draggable == d.group[0].draggable
    decreases |es|
  {
    if es == [] then d
    else
      var next := Step(d, es[0]);
      assert |next.group| == |d.group| && next.group[0].draggable == d.group[0].draggable by {
        StepGroup(d, es[0]);
      }
      Run(next, es[1..])
  }

  lemma StepGroup(d: State, e: Event)
    requires d.group != []
    ensures |Step(d, e).group| == |d.group|
    ensures Step(d, e).group[0].draggable == d.group[0].draggable
  {
  }

  /** Over every run of events whatever, careful or not: the other rows stay as
      they were, in order; the group moves as a block; the limit and the root
      flags are respected; and the displayed table is sound exactly when the
      dragged row lies in the interval of the rows around it. */
  lemma {:induction false} RunKeeps(d: State, es: seq<Event>)
    requires Inv(d)
    ensures var r := Run(d, es);
      && Inv(r) && Rest(r) == Rest(d) && Rigid(d.group, r.group)
      && r.limit == d.limit && r.selector == d.selector
      && (Sound(r) <==> Fits(r)) && GroupKeepsParents(r)
    decreases |es|
  {
    if es == [] {
      FitsIffSound(d);
    } else {
      StepKeeps(d, es[0]);
      RunKeeps(Step(d, es[0]), es[1..]);
    }
  }

  ghost predicate AllCareful(d: State, es: seq<Event>)
    requires d.group != []
    decreases |es|
  {
    es != [] ==>
      Careful(d, es[0]) && Step(d, es[0]).group != [] && AllCareful(Step(d, es[0]), es[1..])
  }

  lemma {:induction false} RunReady(d: State, es: seq<Event>)
    requires Ready(d) && AllCareful(d, es)
    ensures Ready(Run(d, es)) && Sound(Run(d, es))
    decreases |es|
  {
    if es == [] {
      FitsIffSound(d);
    } else {
      StepReady(d, es[0]);
      RunReady(Step(d, es[0]), es[1..]);
    }
  }

  predicate ByKeyboard(e: Event) {
    e.Arrow? || e.ArrowUp? || e.ArrowDown?
  }

  /** As written, an up key that moves a row puts it at the very top, where the
      interval is never empty. */
  lemma WrittenOpen(d: State)
    requires Inv(d) && d.selector.Written? && CanRise(d)
    ensures Open(Moved(d, |d.above| - 1))
  {
    assert Placed(Rest(d), 0, d.limit);
    MovedNeighbours(d, 0);
  }

  /** Every run of arrow keys whatsoever keeps the table a sound tree: as written with
      any depth limit, and as intended without one. */
  lemma {:induction false} KeyboardRunSound(rows: seq<Row>, s: nat, limit: nat, selector: Selector, es: seq<Event>)
    requires Forest(rows, limit) && s < |rows| && rows[s].draggable
    requires limit == 0 || selector.Written?
    requires forall e | e in es :: ByKeyboard(e)
    ensures var r := Run(Grab(rows, s, limit, selector), es); Ready(r) && Sound(r)
  {
    GrabFits(rows, s, limit, selector);
    KeyboardCareful(Grab(rows, s, limit, selector), es);
    RunReady(Grab(rows, s, limit, selector), es);
  }

  lemma KeyCareful(d: State, e: Event)
    requires Inv(d) && (d.limit == 0 || d.selector.Written?) && ByKeyboard(e)
    ensures Careful(d, e)
  {
    if !d.group[0].root && e.ArrowUp? && CanRise(d) {
      if d.limit == 0 { NoLimitInterval(d, |d.above| - 1); } else { WrittenOpen(d); }
    }
    if !d.group[0].root && e.ArrowDown? && CanSink(d) {
      NoLimitInterval(d, |d.above| + 1);
    }
  }

  lemma {:induction false} KeyboardCareful(d: State, es: seq<Event>)
    requires Inv(d) && (d.limit == 0 || d.selector.Written?)
    requires forall e | e in es :: ByKeyboard(e)
    ensures AllCareful(d, es)
    decreases |es|
  {
    if es != [] {
      assert es[0] in es;
      StepKeeps(d, es[0]);
      KeyCareful(d, es[0]);
      KeyboardCareful(Step(d, es[0]), es[1..]);
    }
  }

  lemma PointerLeavesFirst(d: State, k: int, direction: Direction)
    requires d.group != [] && d.above != [] && !d.above[0].draggable && Outside(d, k)
    ensures Hover(d, k, direction).above != []
  {
    assert Table(d)[0] == d.above[0];
  }

  /** An undraggable first row keeps its place through every event but one: the
      up key on a root row, which goes above it if and only if it moves at all and no
      other top-level row lies between. */
  lemma FirstRowStays(d: State, e: Event)
    requires Inv(d) && d.above != [] && !d.above[0].draggable
    ensures
      (Step(d, e).above != [] && Step(d, e).above[0] == d.above[0]) <==>
        !(e.ArrowUp? && d.group[0].root && CanRise(d) && TopLevelAbove(d.above, |d.above|) == 0)
  {
    StepKeeps(d, e);
    var s := Step(d, e);
    assert Rest(s)[0] == Rest(d)[0] == d.above[0];
    assert s.above != [] ==> s.above[0] == Rest(s)[0];
    assert Placed(Rest(d), 0, d.limit);
    StepAbove(d, e);
  }

  lemma StepAbove(d: State, e: Event)
    requires d.group != [] && d.above != [] && !d.above[0].draggable && d.above[0].depth == 0
    ensures Step(d, e).above != [] <==>
      !(e.ArrowUp? && d.group[0].root && CanRise(d) && TopLevelAbove(d.above, |d.above|) == 0)
  {
    match e {
      case Pointer(over, diff) =>
        if over.Some? && Outside(d, over.value.0) {
          PointerLeavesFirst(d, over.value.0, over.value.1);
        }
      case Arrow(columns) =>
      case ArrowUp => UpLeavesFirst(d);
      case ArrowDown =>
    }
  }

  lemma UpLeavesFirst(d: State)
    requires d.group != [] && d.above != [] && !d.above[0].draggable && d.above[0].depth == 0
    ensures KeyUp(d).above != [] <==>
      !(d.group[0].root && CanRise(d) && TopLevelAbove(d.above, |d.above|) == 0)
  {
  }
}
