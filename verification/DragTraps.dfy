/** Families of ordinary tables on which a drag, a key press or a drop goes wrong. */
module DragTraps {
  import opened Maybe
  import opened TreeTable
  import opened Drag
  import opened DragSound
  import opened DragSteps
  import opened DropInputs
  import opened DropFields

  /** Passing over an undraggable first row is refused, yet its interval is kept: the
      very next indent, by any amount, puts the group at the margin, and when the row
      below it is not there, takes that row from its parent. */
  lemma RefusedHoverBreaks(d: State, direction: Direction, diff: int)
    requires Inv(d) && Fits(d) && direction.Up?
    requires d.above != [] && !d.above[0].draggable
    requires d.below != [] && d.below[0].depth > 0
    ensures !Accepted(d, 0, direction)
    ensures var e, i := Step(d, Pointer(Some((0, direction)), diff)), |d.above|;
      Rest(e) == Rest(d) && Parent(Table(e), Lift(e, i)) != Lift(e, Parent(Rest(e), i))
      && !OthersKeepParents(e) && !Sound(e)
  {
    assert Table(d)[0] == d.above[0];
    assert Placed(Rest(d), 0, d.limit);
    var e := Step(d, Pointer(Some((0, direction)), diff));
    StepKeeps(d, Pointer(Some((0, direction)), diff));
    assert e.indents == 0 && e.above == d.above && e.below == d.below;
    StolenFrom(e);
  }

  /** A row below a group at the margin that is not there itself does not find its
      parent above the group. */
  lemma StolenFrom(e: State)
    requires Inv(e) && e.indents == 0 && e.below != [] && e.below[0].depth > 0
    ensures var i := |e.above|; Parent(Table(e), Lift(e, i)) != Lift(e, Parent(Rest(e), i))
    ensures !OthersKeepParents(e)
  {
    var t, i := Table(e), |e.above|;
    assert Rest(e)[i] == e.below[0] == t[Lift(e, i)];
    assert t[i] == e.group[0];
    assert Parent(t, Lift(e, i)) >= i;
    assert Parent(Rest(e), i) < i;
  }

  /** On the way up, the row just below the group measures the group against
      itself, so the first row of a table can be indented. */
  lemma OwnTailBreaks(d: State)
    requires Inv(d) && Fits(d) && d.limit == 0 && !d.group[0].root
    requires d.above == [] && d.below != [] && !d.group[|d.group| - 1].leaf
    ensures Outside(d, |d.group|) && Accepted(d, |d.group|, Up)
    ensures !Harmless(Hover(d, |d.group|, Up))
  {
    OwnTailInterval(d);
    hide Inv, HoverInterval, IntervalBetween, Here, Harmless, Hover, Fits;
    OwnTailExact(d);
  }

  lemma OwnTailInterval(d: State)
    requires Inv(d) && Fits(d) && d.limit == 0 && !d.group[0].root
    requires d.above == [] && d.below != [] && !d.group[|d.group| - 1].leaf
    ensures Outside(d, |d.group|) && Accepted(d, |d.group|, Up)
    ensures HoverInterval(d, |d.group|, Up).max > 0 == Here(d).max
  {
    var n := |d.group|;
    assert Table(d)[n] == d.below[0] && Table(d)[n - 1] == d.group[n - 1];
    assert n > 1 ==> Hangs(d.group, n - 1);
  }

  /** With a depth limit, the intended down key puts a group that is too tall between a
      row and its child, and the child changes hands. As written the key does not move
      the group, and nothing happens. */
  lemma LimitedKeyBreaks(d: State)
    requires Inv(d) && Fits(d) && !d.group[0].root && |d.below| > 1
    requires d.limit > 0 && d.below[0].draggable
    requires d.limit - (d.groupDepth - d.indents) < d.below[1].depth
    ensures Sound(KeyDown(d)) <==> d.selector.Written?
  {
    KeyDownSound(d);
    MovedNeighbours(d, |d.above| + 1);
    assert Rest(d)[|d.above|] == d.below[0] && Rest(d)[|d.above| + 1] == d.below[1];
  }

  /** Below a heading, dragging the first child above its parent and dropping it leaves
      the old parent in its input, however far sideways the pointer goes. */
  lemma StaleParentBreaks(d: State, w: WeightInput, diff: int)
    requires Ready(d) && ParentsCarried(d) && ValidInput(w)
    requires |d.above| == 2 && !d.above[0].draggable && d.group[0].parent != ROOT_VALUE
    ensures var e := Step(d, Pointer(Some((1, Up)), diff));
      Sound(e) && e.changed && e.group[0].draggable && !ParentsAgree(Drop(e, w))
  {
    var over := Pointer(Some((1, Up)), diff);
    var e := Step(d, over);
    PassParent(d, diff);
    StepKeeps(d, over);
    FitsIffSound(e);
    RigidAgrees(d.group, e.group, Free);
    assert Table(e)[0] == e.above[0] && Table(e)[1] == e.group[0];
    DropExact(e, w, Free);
  }

  /** The parent below the heading stands at the margin, and so does the child once it
      is put between the two. */
  lemma PassParent(d: State, diff: int)
    requires Ready(d) && |d.above| == 2 && !d.above[0].draggable
    ensures var over := Pointer(Some((1, Up)), diff);
      && Careful(d, over) && Ready(Step(d, over))
      && Step(d, over).above == [d.above[0]] && Step(d, over).indents == 0 && Step(d, over).changed
  {
    var over := Pointer(Some((1, Up)), diff);
    assert Placed(Rest(d), 1, d.limit);
    assert Table(d)[0] == Rest(d)[0] == d.above[0] && Table(d)[1] == Rest(d)[1] == d.above[1];
    assert HoverInterval(d, 1, Up) == Interval(0, 0);
    StepReady(d, over);
    assert Rest(d)[..1] == [d.above[0]];
  }

  function Plain(id: int, depth: nat, parent: int): Row {
    Row(id, depth, true, false, false, parent, depth, 0)
  }

  function Heading(): Row {
    Row(-1, 0, false, false, false, 0, 0, 0)
  }

  /** A heading, a row, its child being dragged, and a sister of that child. */
  lemma RefusedHoverTable(selector: Selector) returns (d: State)
    ensures Inv(d) && Fits(d) && !OthersKeepParents(Step(d, Pointer(Some((0, Up)), 0)))
  {
    d := State([Heading(), Plain(1, 0, 0)], [Plain(2, 1, 1)], [Plain(3, 1, 1)], 1, 1, None, false, 0, selector);
    assert Rest(d) == [Heading(), Plain(1, 0, 0), Plain(3, 1, 1)];
    RefusedHoverBreaks(d, Up, 0);
  }

  /** Two rows at the margin, the upper one being dragged. */
  lemma OwnTailTable(selector: Selector) returns (d: State)
    ensures Inv(d) && Fits(d) && Outside(d, 1) && Accepted(d, 1, Up) && !Harmless(Hover(d, 1, Up))
  {
    d := State([], [Plain(1, 0, 0)], [Plain(2, 0, 0)], 0, 0, None, false, 0, selector);
    assert Rest(d) == [Plain(2, 0, 0)];
    OwnTailBreaks(d);
  }

  /** Two parents with a child each, under a depth limit of 1, and the intended keys. */
  lemma LimitedKeyTable() returns (d: State)
    ensures Inv(d) && Fits(d) && !Sound(KeyDown(d))
  {
    d := State([], [Plain(1, 0, 0), Plain(2, 1, 1)], [Plain(3, 0, 0), Plain(4, 1, 3)],
               0, 1, None, false, 1, Intended);
    assert Rest(d) == [Plain(3, 0, 0), Plain(4, 1, 3)];
    assert d.group[1].depth == 1;
    LimitedKeyBreaks(d);
  }

  /** A heading and one root row below it: the up key puts the row above the heading,
      under either selector. */
  lemma FirstRowTable(selector: Selector) returns (d: State)
    ensures Inv(d) && Fits(d) && d.selector == selector
    ensures d.above == [Heading()] && d.group[0].root && KeyUp(d).above == []
  {
    d := State([Heading()], [Plain(1, 0, 0).(root := true)], [], 0, 0, None, false, 0, selector);
    assert Rest(d) == [Heading()];
    FirstRowStays(d, ArrowUp);
  }

  /** A heading, a row, and its child being dragged. */
  function ChildBelowHeading(selector: Selector): State {
    State([Heading(), Plain(1, 0, 0)], [Plain(2, 1, 1)], [], 1, 1, None, false, 0, selector)
  }

  lemma ChildBelowHeadingReady(selector: Selector)
    ensures Ready(ChildBelowHeading(selector))
    ensures FieldsAgree(Table(ChildBelowHeading(selector)), Strict)
  {
    var d := ChildBelowHeading(selector);
    assert Rest(d) == [Heading(), Plain(1, 0, 0)];
    var t := Table(d);
    assert t == [Heading(), Plain(1, 0, 0), Plain(2, 1, 1)];
    ParentUnique(t, 1, -1);
    ParentUnique(t, 2, 1);
  }

  lemma StaleParentTable(selector: Selector, diff: int) returns (d: State)
    ensures Ready(d) && FieldsAgree(Table(d), Strict)
    ensures var e := Step(d, Pointer(Some((1, Up)), diff));
      Sound(e) && e.group[0].draggable && !ParentsAgree(Drop(e, Number))
  {
    d := ChildBelowHeading(selector);
    ChildBelowHeadingReady(selector);
    AgreesCarried(d, Strict);
    StaleParentBreaks(d, Number, diff);
  }

  /* ---- weight options that run out ---- */

  /** A row, its child, and the child of that, which is dragged: no row has a sibling,
      and one weight option is enough for all. */
  function Chain(selector: Selector): State {
    State([Plain(1, 0, 0), Plain(2, 1, 1)], [Plain(3, 2, 2)], [], 2, 2, None, false, 0, selector)
  }

  lemma ChainReady(selector: Selector)
    ensures Ready(Chain(selector)) && FieldsAgree(Table(Chain(selector)), Strict)
    ensures forall r <- Table(Chain(selector)) :: r.weight == 0
  {
    var d := Chain(selector);
    assert Rest(d) == d.above;
    var t := Table(d);
    assert t == [Plain(1, 0, 0), Plain(2, 1, 1), Plain(3, 2, 2)];
    ParentUnique(t, 0, -1);
    ParentUnique(t, 1, 0);
    ParentUnique(t, 2, 1);
  }

  /** Moved one column to the left, the last row becomes a sibling of its parent, and
      both get the only option, though all inputs agreed before. */
  lemma NoRoomTable(selector: Selector) returns (d: State)
    ensures Ready(d) && FieldsAgree(Table(d), Strict) && forall r <- Table(d) :: r.weight == 0
    ensures var e := Step(d, Arrow(-1));
      Sound(e) && e.group[0].draggable && !WeightsAgree(Drop(e, Select([0])))
  {
    d := Chain(selector);
    ChainReady(selector);
    hide Drag.Step, Room, Ready, Drag.Table, FieldsAgree;
    assert d.group[0].draggable;
    assert Ready(d);
    StepReady(d, Arrow(-1));
    ChainMoved(selector);
    ReadySound(Step(d, Arrow(-1)));
    NoRoom(Step(d, Arrow(-1)), Select([0]));
  }

  lemma ReadySound(d: State)
    requires Ready(d)
    ensures Inv(d) && Fits(d) && Sound(d)
  {
    FitsIffSound(d);
  }

  lemma ChainMoved(selector: Selector)
    ensures var e := Step(Chain(selector), Arrow(-1));
      e.changed && e.group != [] && e.group[0].draggable && !Room(e, Select([0]))
  {
    var e := Step(Chain(selector), Arrow(-1));
    var t := Table(e);
    assert t == [Plain(1, 0, 0), Plain(2, 1, 1), Plain(3, 2, 2).(depth := 1)];
    assert Rank(t, 1, 3, 1) == 2;
  }
}
