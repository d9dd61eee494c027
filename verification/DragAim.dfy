/**
 Where an event takes the dragged row: how deep, next to which rows, and whether it
 counts as a change.
 */
module DragAim {
  import opened Maybe
  import opened TreeTable
  import opened Drag
  import opened DragSteps

  function Distance(a: int, b: int): nat {
    if a < b then b - a else a - b
  }

  /** t is the depth of the interval nearest to the one asked for; an empty interval
      leaves its upper bound. */
  ghost predicate Settles(interval: Interval, asked: int, t: int) {
    if interval.min > interval.max then t == interval.max
    else
      && interval.min <= t <= interval.max
      && forall u: int | interval.min <= u <= interval.max :: Distance(t, asked) <= Distance(u, asked)
  }

  /** The columns an event asks for, to the right if positive. */
  function Columns(e: Event): int {
    match e
    case Pointer(_, diff) => diff
    case Arrow(columns) => columns
    case ArrowUp => 0
    case ArrowDown => 0
  }

  predicate Over(d: State, e: Event) {
    e.Pointer? && e.over.Some? && Outside(d, e.over.value.0)
  }

  /** The event takes the group to another place, or past a row of its own. */
  predicate Swaps(d: State, e: Event)
    requires d.group != []
  {
    match e
    case Pointer(over, _) => Over(d, e) && Accepted(d, over.value.0, over.value.1)
    case Arrow(_) => false
    case ArrowUp => CanRise(d)
    case ArrowDown => CanSink(d)
  }

  /** The depths an event may choose from: between the rows that a pointer passes or, for
      a pointer beside all rows or a left or right key, those the row was last allowed;
      for an up or down key, between the rows around the new place; none but its own for
      a row that stays or a root row that such a key moves. */
  function Bounds(d: State, e: Event): Interval
    requires d.group != []
  {
    var before := if d.interval.Some? then d.interval.value else Here(d);
    match e
    case Pointer(over, _) => if Over(d, e) then HoverInterval(d, over.value.0, over.value.1) else before
    case Arrow(_) => before
    case ArrowUp =>
      if CanRise(d) && !d.group[0].root then Here(Moved(d, |d.above| - 1)) else Interval(d.indents, d.indents)
    case ArrowDown =>
      if CanSink(d) && !d.group[0].root then Here(Moved(d, |d.above| + 1)) else Interval(d.indents, d.indents)
  }

  lemma IndentSettles(d: State, diff: int)
    requires d.group != []
    ensures Settles(IntervalInUse(d), d.indents + diff, Indent(d, diff).indents)
  {
  }

  lemma PointerSettles(d: State, e: Event)
    requires d.group != [] && e.Pointer?
    ensures Settles(Bounds(d, e), d.indents + Columns(e), Step(d, e).indents)
  {
    hide Settles, HoverInterval, Here, Accepted, Drag.Indent;
    if Over(d, e) {
      IndentSettles(Hover(d, e.over.value.0, e.over.value.1), e.diff);
    } else {
      IndentSettles(d, e.diff);
    }
  }

  lemma UpSettles(d: State)
    requires d.group != []
    ensures Settles(Bounds(d, ArrowUp), d.indents, KeyUp(d).indents)
  {
    hide Here, Drag.Indent, TopLevelAbove;
    if CanRise(d) && !d.group[0].root {
      IndentSettles(Moved(d, |d.above| - 1), 0);
    }
  }

  lemma DownSettles(d: State)
    requires d.group != []
    ensures Settles(Bounds(d, ArrowDown), d.indents, KeyDown(d).indents)
  {
    hide Here, Drag.Indent, ChildCount;
    if CanSink(d) && !d.group[0].root {
      IndentSettles(Moved(d, |d.above| + 1), 0);
    }
  }

  /** Every event settles the row at the allowed depth nearest to where it is asked to
      go, a positive number of columns meaning deeper. */
  lemma StepSettles(d: State, e: Event)
    requires Inv(d)
    ensures Settles(Bounds(d, e), d.indents + Columns(e), Step(d, e).indents)
    ensures Step(d, e).group != [] && Step(d, e).group[0].depth == Step(d, e).indents
  {
    StepKeeps(d, e);
    StepAims(d, e);
  }

  lemma StepAims(d: State, e: Event)
    requires d.group != []
    ensures Settles(Bounds(d, e), d.indents + Columns(e), Step(d, e).indents)
  {
    hide Settles;
    match e {
      case Pointer(over, diff) => PointerSettles(d, e);
      case Arrow(columns) => IndentSettles(d, columns);
      case ArrowUp => UpSettles(d);
      case ArrowDown => DownSettles(d);
    }
  }

  /** The bounds are kept for what comes next, except by keys that only swap. */
  lemma BoundsKept(d: State, e: Event)
    requires d.group != []
    ensures Step(d, e).interval ==
      if e.Pointer? || e.Arrow? || (Swaps(d, e) && !d.group[0].root) then Some(Bounds(d, e)) else d.interval
  {
    hide Here, HoverInterval, Accepted, ChildCount, TopLevelAbove;
  }

  /** A target whose neighbours are other rows is measured by the rows that will be around
      the group when it is put there, and accepted if and only if some depth is allowed
      there and it is not the place before an undraggable first row. */
  lemma HoverMeasures(d: State, k: int, direction: Direction)
    requires d.group != [] && Outside(d, k) && !OwnTail(d, k, direction)
    requires !(direction.Down? && k + 1 == |d.above|)
    ensures var there := Swap(d, if direction.Down? then After else Before, k);
      && HoverInterval(d, k, direction) == Here(there)
      && (Accepted(d, k, direction) <==> Open(there) && !(k == 0 && !Table(d)[0].draggable))
  {
    if direction.Down? {
      MeasuresBelow(d, k);
    } else {
      MeasuresAbove(d, k);
    }
  }

  lemma MeasuresBelow(d: State, k: int)
    requires d.group != [] && Outside(d, k) && k + 1 != |d.above|
    ensures HoverInterval(d, k, Down) == Here(Swap(d, After, k))
  {
    SameRow(d, k);
    SameRow(d, k + 1);
    MovedNeighbours(d, SwapIndex(d, After, k));
  }

  lemma MeasuresAbove(d: State, k: int)
    requires d.group != [] && Outside(d, k) && k != |d.above| + |d.group|
    ensures HoverInterval(d, k, Up) == Here(Swap(d, Before, k))
  {
    SameRow(d, k);
    SameRow(d, k - 1);
    MovedNeighbours(d, SwapIndex(d, Before, k));
  }

  lemma IndentChanged(d: State, diff: int)
    requires d.group != []
    ensures Indent(d, diff).changed <==> d.changed || Indent(d, diff).indents != d.indents
  {
  }

  /** The row object is marked changed exactly when it was before, the event swaps it
      with a row, or its depth changes. */
  lemma ChangedExact(d: State, e: Event)
    requires d.group != []
    ensures Step(d, e).changed <==> d.changed || Swaps(d, e) || Step(d, e).indents != d.indents
  {
    hide Drag.Indent, Here, HoverInterval, Accepted, ChildCount, TopLevelAbove;
    match e {
      case Pointer(over, diff) =>
        IndentChanged(if Over(d, e) then Hover(d, over.value.0, over.value.1) else d, diff);
      case Arrow(columns) => IndentChanged(d, columns);
      case ArrowUp =>
        if CanRise(d) {
          IndentChanged(Moved(d, |d.above| - 1), 0);
        }
      case ArrowDown =>
        if CanSink(d) {
          IndentChanged(Moved(d, |d.above| + 1), 0);
        }
    }
  }
}
