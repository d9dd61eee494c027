/** Up and down keys undo each other: the group is back between the same rows. */
module DragUndo {
  import opened TreeTable
  import opened Drag
  import opened DragSound
  import opened DragSteps

  /** Both states have the group between the same rows. */
  predicate SamePlace(d: State, e: State) {
    d.above == e.above && d.below == e.below
  }

  lemma MoveToPlace(d: State, i: nat)
    requires i <= |Rest(d)|
    ensures |MoveTo(d, i).above| == i && Rest(MoveTo(d, i)) == Rest(d)
    ensures i == |d.above| ==> SamePlace(MoveTo(d, i), d)
  {
    assert Rest(d)[..i] + Rest(d)[i..] == Rest(d);
  }

  /** Where the up key puts a group. */
  lemma RisesTo(d: State) returns (i: nat)
    requires Inv(d) && CanRise(d)
    ensures i < |d.above| && |KeyUp(d).above| == i && Rest(KeyUp(d)) == Rest(d)
    ensures if d.group[0].root then i == TopLevelAbove(d.above, |d.above|) else i == |d.above| - 1
  {
    i := if d.group[0].root then TopLevelAbove(d.above, |d.above|) else |d.above| - 1;
    MoveToPlace(d, i);
    KeyUpKeeps(d);
  }

  /** How many rows the down key passes. */
  function Passed(d: State): nat
    requires d.group != [] && d.below != []
  {
    if d.group[0].root then 1 + ChildCount(d.below, 0) else 1
  }

  lemma SinksTo(d: State)
    requires Inv(d) && CanSink(d)
    ensures |KeyDown(d).above| == |d.above| + Passed(d) && Rest(KeyDown(d)) == Rest(d)
  {
    MoveToPlace(d, |d.above| + Passed(d));
    KeyDownKeeps(d);
  }

  /** Equal rests, cut at the same place. */
  lemma CutAlike(d: State, e: State)
    requires Rest(d) == Rest(e) && |d.above| == |e.above|
    ensures SamePlace(d, e)
  {
    assert Rest(d)[..|d.above|] == d.above && Rest(e)[..|e.above|] == e.above;
    assert Rest(d)[|d.above|..] == d.below && Rest(e)[|e.above|..] == e.below;
  }

  /** The rows from the nearest top-level row down to the group are that row and its
      children. */
  lemma TopLevelGroup(d: State)
    requires Inv(d) && Fits(d) && d.group[0].root && TopLevelAbove(d.above, |d.above|) >= 0
    ensures var top := TopLevelAbove(d.above, |d.above|);
      ChildCount(Rest(d)[top..], 0) == |d.above| - top - 1
  {
    var top := TopLevelAbove(d.above, |d.above|);
    var rows, n := Rest(d)[top..], |d.above| - top - 1;
    forall j | 0 < j <= n
      ensures rows[j].draggable && rows[j].depth > rows[0].depth
    {
      assert rows[j] == Rest(d)[top + j] == d.above[top + j];
      assert Placed(Rest(d), top + j, d.limit);
    }
    assert n + 1 < |rows| ==> rows[n + 1] == d.below[0];
    ChildCountUnique(rows, 0, n);
  }

  /** After an up key that moved the group, the down key brings it back, past one row
      or, for a root row, past one whole group, if the keys work as intended; as they
      are written it never does. */
  lemma UpThenDown(d: State)
    requires Ready(d) && CanRise(d)
    ensures SamePlace(KeyDown(KeyUp(d)), d) <==> d.selector.Intended?
  {
    var i := RisesTo(d);
    var e := KeyUp(d);
    KeyUpKeeps(d);
    if d.selector.Intended? {
      assert e.below == Rest(e)[i..] == Rest(d)[i..];
      if d.group[0].root {
        TopLevelGroup(d);
      }
      SinksTo(e);
      CutAlike(KeyDown(e), d);
    } else {
      KeysMoveExact(e);
    }
  }

  /** After a down key that moved the group, the up key brings it back if and only if
      the row it passed is not an undraggable first row; root rows always come back. */
  lemma DownThenUp(d: State)
    requires Ready(d) && CanSink(d)
    ensures SamePlace(KeyUp(KeyDown(d)), d) <==>
      d.group[0].root || d.above != [] || d.below[0].draggable
  {
    var e := KeyDown(d);
    SinksTo(d);
    KeyDownKeeps(d);
    assert e.above == Rest(d)[..|d.above| + Passed(d)];
    assert e.above[|d.above|] == d.below[0];
    if d.group[0].root {
      NearestTop(d);
    }
    if CanRise(e) {
      var i := RisesTo(e);
      CutAlike(KeyUp(e), d);
    }
  }

  /** A down key that cannot move the group, as none can that is written, is no step
      for an up key to undo. */
  lemma IdleDownThenUp(d: State)
    requires Inv(d) && !CanSink(d)
    ensures SamePlace(KeyUp(KeyDown(d)), d) <==> !CanRise(d)
  {
    KeysMoveExact(d);
  }

  /** The nearest top-level row, after passing a group, is the head of that group. */
  lemma NearestTop(d: State)
    requires Inv(d) && Fits(d) && d.below != [] && d.group[0].root
    ensures var above := Rest(d)[..|d.above| + Passed(d)];
      TopLevelAbove(above, |above|) == |d.above|
  {
    var above := Rest(d)[..|d.above| + Passed(d)];
    forall j | |d.above| < j < |above|
      ensures above[j].depth >= 1
    {
      assert above[j] == d.below[j - |d.above|];
    }
    assert above[|d.above|] == d.below[0];
  }
}
