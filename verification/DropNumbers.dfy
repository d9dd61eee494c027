/**
 The weights a drop writes, to the number, in terms of who is whose sibling in the
 displayed tree.
 */
module DropNumbers {
  import opened Maybe
  import opened TreeTable
  import opened Drag
  import opened DragSound
  import opened DropInputs
  import opened DropFields

  /** Row i has a weight input and the same parent as row a. */
  predicate InList(rows: seq<Row>, a: nat, i: nat)
    requires a < |rows| && i < |rows|
  {
    rows[i].draggable && Parent(rows, i) == Parent(rows, a)
  }

  /** How many rows of the list stand before row i. */
  function Place(rows: seq<Row>, a: nat, i: nat): nat
    requires a < |rows| && i <= |rows|
  {
    if i == 0 then 0 else Place(rows, a, i - 1) + if InList(rows, a, i - 1) then 1 else 0
  }

  /** Row f is the first with this parent, whether or not it has an input. */
  ghost predicate Heads(rows: seq<Row>, a: nat, f: nat) {
    && a < |rows| && f < |rows| && Parent(rows, f) == Parent(rows, a)
    && forall j | 0 <= j < f :: Parent(rows, j) != Parent(rows, a)
  }

  /** Row j follows row i in the list. */
  ghost predicate Follows(rows: seq<Row>, a: nat, i: nat, j: nat) {
    && a < |rows| && i < j < |rows| && InList(rows, a, i) && InList(rows, a, j)
    && forall m | i < m < j :: !InList(rows, a, m)
  }

  lemma {:induction false} PlaceIsRank(d: State, i: nat)
    requires Inv(d) && Fits(d) && i <= SiblingsTo(Table(d), |d.above|, d.indents)
    ensures var t, a := Table(d), |d.above|;
      var lo := SiblingsFrom(t, a, d.indents);
      Place(t, a, i) == if i <= lo then 0 else Rank(t, lo, i, d.indents)
  {
    if i > 0 {
      PlaceIsRank(d, i - 1);
      SameDepthExact(d, i - 1);
    }
  }

  lemma HeadIsFirst(d: State, f: nat)
    requires Inv(d) && Fits(d) && Heads(Table(d), |d.above|, f)
    ensures var t, a := Table(d), |d.above|;
      FirstAtDepth(t, SiblingsFrom(t, a, d.indents), d.indents) == f
  {
    var t, a := Table(d), |d.above|;
    var lo := SiblingsFrom(t, a, d.indents);
    SameDepthExact(d, f);
    forall j | lo <= j < f
      ensures t[j].depth != d.indents
    {
      SameDepthExact(d, j);
    }
    FirstAtDepthFound(t, lo, f, d.indents);
  }

  /** The weight of a row of the list is counted from the weight of its first row, which
      is taken for 0 where that row has no input, or is the option at its place, the last
      one where there are not as many. Rows outside the list keep theirs. */
  lemma WeightsExact(d: State, w: WeightInput, f: nat, i: nat)
    requires Inv(d) && Fits(d) && d.changed && ValidInput(w)
    requires Heads(Table(d), |d.above|, f) && i < |Table(d)|
    ensures var t, a, u := Table(d), |d.above|, Drop(d, w);
      && |u| == |t|
      && (!InList(t, a, i) ==> u[i].weight == t[i].weight)
      && (InList(t, a, i) && w.Number? ==>
           u[i].weight == (if t[f].draggable then t[f].weight else 0) + Place(t, a, i))
      && (InList(t, a, i) && w.Select? ==>
           u[i].weight == if Place(t, a, i) < |w.options| then w.options[Place(t, a, i)] else w.options[|w.options| - 1])
  {
    hide NewWeight, Fits, Parent;
    DropRows(d, w);
    if InList(Table(d), |d.above|, i) {
      ListWeight(d, w, f, i);
    } else {
      OutsideWeight(d, w, i);
    }
  }

  lemma OutsideWeight(d: State, w: WeightInput, i: nat)
    requires Inv(d) && Fits(d) && ValidInput(w) && i < |Table(d)| && !InList(Table(d), |d.above|, i)
    ensures NewWeight(Table(d), |d.above|, d.indents, w, i) == Table(d)[i].weight
  {
    SiblingsExact(d, i);
  }

  lemma ListWeight(d: State, w: WeightInput, f: nat, i: nat)
    requires Inv(d) && Fits(d) && ValidInput(w)
    requires Heads(Table(d), |d.above|, f) && i < |Table(d)| && InList(Table(d), |d.above|, i)
    ensures var t, a := Table(d), |d.above|;
      NewWeight(t, a, d.indents, w, i) ==
        WeightAt(w, if t[f].draggable then t[f].weight else 0, Place(t, a, i))
  {
    hide Fits, WeightAt;
    SiblingsExact(d, i);
    SameDepthExact(d, i);
    HeadIsFirst(d, f);
    PlaceIsRank(d, i);
  }

  lemma {:induction false} PlaceGrows(rows: seq<Row>, a: nat, i: nat, j: nat)
    requires a < |rows| && i <= j <= |rows| && forall m | i <= m < j :: !InList(rows, a, m)
    ensures Place(rows, a, j) == Place(rows, a, i)
    decreases j
  {
    if i < j {
      PlaceGrows(rows, a, i, j - 1);
    }
  }

  /** The dropped row's list has a first row. */
  lemma HeadOf(rows: seq<Row>, a: nat) returns (f: nat)
    requires a < |rows|
    ensures Heads(rows, a, f) && f <= a
  {
    f := 0;
    while Parent(rows, f) != Parent(rows, a)
      invariant f <= a && forall j | 0 <= j < f :: Parent(rows, j) != Parent(rows, a)
      decreases a - f
    {
      f := f + 1;
    }
  }

  /** With number fields two rows that follow each other in the dropped row's list get
      weights that differ by one. The first row of the list keeps its weight, or, below a
      row without an input that heads the list, gets 0. */
  lemma NumbersStep(d: State, f: nat, i: nat, j: nat)
    requires Inv(d) && Fits(d) && d.changed && Heads(Table(d), |d.above|, f) && i < |Table(d)|
    ensures |Drop(d, Number)| == |Table(d)|
    ensures Follows(Table(d), |d.above|, i, j) ==> Drop(d, Number)[j].weight == Drop(d, Number)[i].weight + 1
    ensures Table(d)[f].draggable ==> Drop(d, Number)[f].weight == Table(d)[f].weight
    ensures !Table(d)[f].draggable && InList(Table(d), |d.above|, i) && Place(Table(d), |d.above|, i) == 0 ==>
      Drop(d, Number)[i].weight == 0
  {
    var t, a := Table(d), |d.above|;
    WeightsExact(d, Number, f, f);
    PlaceGrows(t, a, 0, f);
    WeightsExact(d, Number, f, i);
    if Follows(t, a, i, j) {
      WeightsExact(d, Number, f, j);
      PlaceGrows(t, a, i + 1, j);
    }
  }
}
