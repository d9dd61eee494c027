/**
 One drag of a row, as a state machine on values: what the table looks like
 above and below the dragged group, and the group itself. Every operation of the
 row object keeps the rest of the table, above + below, exactly as it was; the
 theorems say when that is enough for the whole table to stay a sound tree.
 */
module Drag {
  import opened Maybe
  import opened TreeTable

  datatype Interval = Interval(min: int, max: int)
  datatype Direction = Up | Down
  datatype Position = Before | After

  /** How the arrow keys look for the row next to the group. As written, the neighbour
      must match `tr:first-of-type`, which only the first row of the table body does;
      what is intended is the neighbour whatever it is. */
  datatype Selector = Written | Intended

  predicate Selects(selector: Selector, i: int) {
    selector.Intended? || i == 0
  }

  datatype State = State(
    above: seq<Row>, group: seq<Row>, below: seq<Row>,
    indents: int, groupDepth: int, interval: Option<Interval>, changed: bool,
    limit: nat, selector: Selector)

  function Table(d: State): seq<Row> {
    d.above + d.group + d.below
  }

  function Rest(d: State): seq<Row> {
    d.above + d.below
  }

  function RowAt(rows: seq<Row>, i: int): Option<Row> {
    if 0 <= i < |rows| then Some(rows[i]) else None
  }

  /* ---- the operations ---- */

  /** A fresh row object for the draggable row at index s. */
  function Grab(rows: seq<Row>, s: nat, limit: nat, selector: Selector): State
    requires s < |rows|
  {
    var n := 1 + ChildCount(rows, s);
    var group := rows[s..s + n];
    State(rows[..s], group, rows[s + n..], rows[s].depth, GroupDepth(group), None, false,
          limit, selector)
  }

  /** The depths allowed to the dragged row between two given rows. */
  function IntervalBetween(d: State, prev: Option<Row>, next: Option<Row>): Interval
    requires d.group != []
  {
    var min := if next.Some? then next.value.depth else 0;
    if prev.None? || !prev.value.draggable || d.group[0].root then
      Interval(min, 0)
    else
      var max := Deepest(prev.value);
      Interval(min, if d.limit > 0 then Min(max, d.limit - (d.groupDepth - d.indents)) else max)
  }

  /** The interval between the rows that really are around the group now. */
  function Here(d: State): Interval
    requires d.group != []
  {
    IntervalBetween(d, RowAt(d.above, |d.above| - 1), RowAt(d.below, 0))
  }

  /** Index k names a row outside the group. */
  predicate Outside(d: State, k: int) {
    0 <= k < |d.above| || |d.above| + |d.group| <= k < |Table(d)|
  }

  function HoverInterval(d: State, k: int, direction: Direction): Interval
    requires d.group != []
  {
    match direction
    case Down => IntervalBetween(d, RowAt(Table(d), k), RowAt(Table(d), k + 1))
    case Up => IntervalBetween(d, RowAt(Table(d), k - 1), RowAt(Table(d), k))
  }

  predicate Accepted(d: State, k: int, direction: Direction)
    requires d.group != [] && Outside(d, k)
  {
    var interval := HoverInterval(d, k, direction);
    interval.min <= interval.max && !(k == 0 && !Table(d)[0].draggable)
  }

  /** Where in Rest the group goes when it is put before or after row k. */
  function SwapIndex(d: State, position: Position, k: int): (i: nat)
    requires Outside(d, k)
    ensures i <= |Rest(d)|
  {
    var r := if k < |d.above| then k else k - |d.group|;
    if position.Before? then r else r + 1
  }

  /** The group moved to index i of the other rows. */
  function MoveTo(d: State, i: nat): State
    requires i <= |Rest(d)|
  {
    d.(above := Rest(d)[..i], below := Rest(d)[i..], changed := true)
  }

  function Swap(d: State, position: Position, k: int): State
    requires Outside(d, k)
  {
    MoveTo(d, SwapIndex(d, position, k))
  }

  function IntervalInUse(d: State): Interval
    requires d.group != []
  {
    if d.interval.Some? then d.interval.value else Here(d)
  }

  /** The depth the dragged row gets when asked to move by diff columns. */
  function Target(d: State, diff: int): int
    requires d.group != []
  {
    Min(Max(d.indents + diff, IntervalInUse(d).min), IntervalInUse(d).max)
  }

  function SetDepth(d: State, t: int): State {
    var delta := t - d.indents;
    d.(group := Shift(d.group, delta), indents := t, groupDepth := d.groupDepth + delta,
       changed := d.changed || delta != 0)
  }

  function Indent(d: State, diff: int): State
    requires d.group != []
  {
    SetDepth(d.(interval := Some(IntervalInUse(d))), Target(d, diff))
  }

  /** The pointer passes row k. The interval is stored whether or not the target
      is accepted. */
  function Hover(d: State, k: int, direction: Direction): State
    requires d.group != [] && Outside(d, k)
  {
    var e := d.(interval := Some(HoverInterval(d, k, direction)));
    if !Accepted(d, k, direction) then e
    else Swap(e, if direction.Down? then After else Before, k)
  }

  /** Nearest row above index i at the root level, or -1. */
  function TopLevelAbove(rows: seq<Row>, i: nat): int
    requires i <= |rows|
  {
    Shallower(rows, i, 1)
  }

  function KeyUp(d: State): State
    requires d.group != []
  {
    var k := |d.above| - 1;
    if k < 0 || !Selects(d.selector, k) then d
    else if d.group[0].root then
      var top := TopLevelAbove(d.above, |d.above|);
      if top < 0 then d else Swap(d, Before, top)
    else if k != 0 || d.above[k].draggable then
      Indent(Swap(d, Before, k).(interval := None), 0)
    else d
  }

  function KeyDown(d: State): State
    requires d.group != []
  {
    var k := |d.above| + |d.group|;
    if d.below == [] || !Selects(d.selector, k) then d
    else if d.group[0].root then Swap(d, After, k + ChildCount(d.below, 0))
    else Indent(Swap(d, After, k).(interval := None), 0)
  }

  /** The up key has somewhere to go. */
  predicate CanRise(d: State)
    requires d.group != []
  {
    d.above != [] && Selects(d.selector, |d.above| - 1) &&
    if d.group[0].root then TopLevelAbove(d.above, |d.above|) >= 0
    else |d.above| > 1 || d.above[0].draggable
  }

  /** The down key has somewhere to go. */
  predicate CanSink(d: State) {
    d.below != [] && Selects(d.selector, |d.above| + |d.group|)
  }

  datatype Event =
    | Pointer(over: Option<(int, Direction)>, diff: int)
    | Arrow(columns: int)
    | ArrowUp
    | ArrowDown

  /** One pointer movement or key press; a pointer over the group itself, or over
      no row, moves nothing vertically. */
  function Step(d: State, e: Event): State
    requires d.group != []
  {
    match e
    case Pointer(over, diff) =>
      if over.Some? && Outside(d, over.value.0)
      then Indent(Hover(d, over.value.0, over.value.1), diff)
      else Indent(d, diff)
    case Arrow(columns) => Indent(d, columns)
    case ArrowUp => KeyUp(d)
    case ArrowDown => KeyDown(d)
  }

  /* ---- what every step keeps ---- */

  ghost predicate IntervalSafe(d: State, interval: Interval)
    requires d.group != []
  {
    && 0 <= interval.min && 0 <= interval.max
    && (d.group[0].root ==> interval.max == 0)
    && (d.limit > 0 ==> interval.max <= d.limit - (d.groupDepth - d.indents))
  }

  /** Holds of every state any run can reach. */
  ghost predicate Inv(d: State) {
    && IsGroup(d.group)
    && Forest(Rest(d), d.limit)
    && d.indents == d.group[0].depth
    && (d.group[0].root ==> d.indents == 0)
    && MaxDepth(d.group, d.groupDepth)
    && InLimit(d.groupDepth, d.limit)
    && (d.interval.Some? ==> IntervalSafe(d, d.interval.value))
  }

  lemma IntervalBetweenSafe(d: State, prev: Option<Row>, next: Option<Row>)
    requires Inv(d)
    ensures IntervalSafe(d, IntervalBetween(d, prev, next))
  {
  }

  lemma MoveKeeps(d: State, i: nat)
    requires i <= |Rest(d)| && Inv(d)
    ensures Inv(MoveTo(d, i)) && Rest(MoveTo(d, i)) == Rest(d)
  {
    assert Rest(d)[..i] + Rest(d)[i..] == Rest(d);
  }

  lemma ShiftedGroup(g: seq<Row>, delta: int, depth: int)
    requires IsGroup(g) && MaxDepth(g, depth) && g[0].depth + delta >= 0
    ensures forall i | 0 <= i < |g| :: Shift(g, delta)[i].depth == g[i].depth + delta
    ensures IsGroup(Shift(g, delta)) && MaxDepth(Shift(g, delta), depth + delta)
  {
    var h := Shift(g, delta);
    forall i | 0 <= i < |g|
      ensures h[i].depth == g[i].depth + delta
    {
      assert i > 0 ==> Hangs(g, i);
    }
    forall i | 0 < i < |h|
      ensures Hangs(h, i)
    {
      assert Hangs(g, i);
    }
    var m :| 0 <= m < |g| && g[m].depth == depth;
    assert h[m].depth == depth + delta;
  }

  lemma ShiftKeeps(d: State, t: int)
    requires Inv(d) && t >= 0
    requires d.group[0].root ==> t == 0
    requires d.limit > 0 ==> t <= d.limit - (d.groupDepth - d.indents)
    ensures Inv(SetDepth(d, t))
    ensures forall i | 0 <= i < |d.group| ::
              SetDepth(d, t).group[i].depth == d.group[i].depth + t - d.indents
  {
    ShiftedGroup(d.group, t - d.indents, d.groupDepth);
  }

  lemma TargetSafe(d: State, diff: int)
    requires Inv(d)
    ensures var t := Target(d, diff);
      && 0 <= t && (d.group[0].root ==> t == 0)
      && (d.limit > 0 ==> t <= d.limit - (d.groupDepth - d.indents))
  {
    IntervalBetweenSafe(d, RowAt(d.above, |d.above| - 1), RowAt(d.below, 0));
  }

  lemma IndentKeeps(d: State, diff: int)
    requires Inv(d)
    ensures Inv(Indent(d, diff)) && Rest(Indent(d, diff)) == Rest(d)
    ensures forall i | 0 <= i < |d.group| ::
      Indent(d, diff).group[i].depth == d.group[i].depth + Target(d, diff) - d.indents
  {
    IntervalBetweenSafe(d, RowAt(d.above, |d.above| - 1), RowAt(d.below, 0));
    var e := d.(interval := Some(IntervalInUse(d)));
    TargetSafe(d, diff);
    ShiftKeeps(e, Target(d, diff));
  }

  lemma HoverKeeps(d: State, k: int, direction: Direction)
    requires Inv(d) && Outside(d, k)
    ensures Inv(Hover(d, k, direction)) && Rest(Hover(d, k, direction)) == Rest(d)
    ensures Hover(d, k, direction).group == d.group
  {
    var e := d.(interval := Some(HoverInterval(d, k, direction)));
    match direction {
      case Down => IntervalBetweenSafe(d, RowAt(Table(d), k), RowAt(Table(d), k + 1));
      case Up => IntervalBetweenSafe(d, RowAt(Table(d), k - 1), RowAt(Table(d), k));
    }
    if Accepted(d, k, direction) {
      MoveKeeps(e, SwapIndex(e, if direction.Down? then After else Before, k));
    }
  }

  /** The group is the old one moved sideways as a block. */
  ghost predicate Rigid(g: seq<Row>, h: seq<Row>) {
    && |g| == |h| > 0
    && forall i | 0 <= i < |g| ::
         h[i] == g[i].(depth := h[i].depth) && h[i].depth - g[i].depth == h[0].depth - g[0].depth
  }

  lemma KeyUpKeeps(d: State)
    requires Inv(d)
    ensures Inv(KeyUp(d)) && Rest(KeyUp(d)) == Rest(d) && Rigid(d.group, KeyUp(d).group)
  {
    var k := |d.above| - 1;
    if k >= 0 && Selects(d.selector, k) {
      if d.group[0].root {
        var top := TopLevelAbove(d.above, |d.above|);
        if top >= 0 { MoveKeeps(d, SwapIndex(d, Before, top)); }
      } else if k != 0 || d.above[k].draggable {
        MoveKeeps(d, SwapIndex(d, Before, k));
        IndentKeeps(Swap(d, Before, k).(interval := None), 0);
      }
    }
  }

  lemma KeyDownKeeps(d: State)
    requires Inv(d)
    ensures Inv(KeyDown(d)) && Rest(KeyDown(d)) == Rest(d) && Rigid(d.group, KeyDown(d).group)
  {
    if CanSink(d) {
      var k := |d.above| + |d.group|;
      if d.group[0].root {
        MoveKeeps(d, SwapIndex(d, After, k + ChildCount(d.below, 0)));
      } else {
        MoveKeeps(d, SwapIndex(d, After, k));
        IndentKeeps(Swap(d, After, k).(interval := None), 0);
      }
    }
  }

  lemma PointerKeeps(d: State, k: int, direction: Direction, diff: int)
    requires Inv(d) && Outside(d, k)
    ensures var e := Indent(Hover(d, k, direction), diff);
      Inv(e) && Rest(e) == Rest(d) && Rigid(d.group, e.group)
  {
    HoverKeeps(d, k, direction);
    IndentKeeps(Hover(d, k, direction), diff);
  }

  lemma ArrowKeeps(d: State, diff: int)
    requires Inv(d)
    ensures var e := Indent(d, diff);
      Inv(e) && Rest(e) == Rest(d) && Rigid(d.group, e.group)
  {
    IndentKeeps(d, diff);
  }

  /** No event, wherever the pointer is and whatever it asks for, disturbs the
      order or the depths of the other rows, the shape of the group, the depth
      limit or a root row's depth. */
  lemma StepKeeps(d: State, e: Event)
    requires Inv(d)
    ensures Inv(Step(d, e)) && Rest(Step(d, e)) == Rest(d) && Rigid(d.group, Step(d, e).group)
    ensures Step(d, e).limit == d.limit && Step(d, e).selector == d.selector
  {
    match e
    case Pointer(over, diff) =>
      if over.Some? && Outside(d, over.value.0) {
        PointerKeeps(d, over.value.0, over.value.1, diff);
      } else {
        ArrowKeeps(d, diff);
      }
    case Arrow(columns) => ArrowKeeps(d, columns);
    case ArrowUp => KeyUpKeeps(d);
    case ArrowDown => KeyDownKeeps(d);
  }
}
