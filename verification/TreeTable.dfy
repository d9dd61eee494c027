/**
 A draggable table as data: a sequence of rows, each with an indentation depth,
 that together are a forest in pre-order.
 */
module TreeTable {
  import opened Maybe

  /** A table row. `parent`, `depthField` and `weight` are the values of its form
      inputs; only draggable rows carry inputs. */
  datatype Row = Row(
    id: int, depth: nat, draggable: bool, root: bool, leaf: bool,
    parent: int, depthField: int, weight: int)

  /** The value of the parent input of a row at the root level. */
  const ROOT_VALUE: int := 0

  /** The deepest a row may stand below `prev`, whatever the depth limit. */
  function Deepest(prev: Row): nat {
    prev.depth + if prev.leaf then 0 else 1
  }

  predicate InLimit(depth: int, limit: nat) {
    limit > 0 ==> depth <= limit
  }

  /** Row i stands at a depth its predecessor and the limit allow. */
  predicate Placed(rows: seq<Row>, i: nat, limit: nat)
    requires i < |rows|
  {
    && InLimit(rows[i].depth, limit)
    && if i == 0 || !rows[i - 1].draggable || rows[i].root || !rows[i].draggable
       then rows[i].depth == 0
       else rows[i].depth <= Deepest(rows[i - 1])
  }

  /** The invariant of a displayed table; a limit of 0 means no limit. */
  ghost predicate Forest(rows: seq<Row>, limit: nat) {
    forall i | 0 <= i < |rows| :: Placed(rows, i, limit)
  }

  /** Row i of a group hangs below its first row. */
  predicate Hangs(group: seq<Row>, i: nat)
    requires 0 < i < |group|
  {
    && group[i].draggable && !group[i].root
    && group[0].depth < group[i].depth <= Deepest(group[i - 1])
  }

  /** A dragged group: a row followed by its descendants. */
  ghost predicate IsGroup(group: seq<Row>) {
    && group != []
    && group[0].draggable
    && forall i | 0 < i < |group| :: Hangs(group, i)
  }

  /** The nearest row before position i that is shallower than `depth`, or -1. */
  function Shallower(rows: seq<Row>, i: nat, depth: int): (p: int)
    requires i <= |rows|
    ensures -1 <= p < i
    ensures p >= 0 ==> rows[p].depth < depth
    ensures forall j | p < j < i :: rows[j].depth >= depth
  {
    if i == 0 then -1
    else if rows[i - 1].depth < depth then i - 1
    else Shallower(rows, i - 1, depth)
  }

  /** The structural parent of row i: an index, or -1 at the root level. */
  function Parent(rows: seq<Row>, i: nat): int
    requires i < |rows|
  {
    Shallower(rows, i, rows[i].depth)
  }

  /** The same, said without a search. */
  ghost predicate IsParent(rows: seq<Row>, i: nat, p: int)
    requires i < |rows|
  {
    && -1 <= p < i
    && (p >= 0 ==> rows[p].depth < rows[i].depth)
    && forall j | p < j < i :: rows[j].depth >= rows[i].depth
  }

  lemma ParentUnique(rows: seq<Row>, i: nat, p: int)
    requires i < |rows| && IsParent(rows, i, p)
    ensures Parent(rows, i) == p
  {
  }

  /** In a forest the parent is exactly one level up and draggable, and only
      rows of depth 0 have none. */
  lemma ParentOneUp(rows: seq<Row>, limit: nat, i: nat)
    requires Forest(rows, limit) && i < |rows|
    ensures Parent(rows, i) == -1 <==> rows[i].depth == 0
    ensures Parent(rows, i) >= 0 ==>
              && rows[Parent(rows, i)].depth == rows[i].depth - 1
              && rows[Parent(rows, i)].draggable
  {
    var p := Parent(rows, i);
    if p >= 0 {
      assert Placed(rows, p + 1, limit);
    } else {
      assert Placed(rows, 0, limit);
    }
  }

  /** Row i stands at the root level because of what it is or what it stands below. */
  predicate AtMargin(rows: seq<Row>, i: nat)
    requires i < |rows|
  {
    i == 0 || !rows[i - 1].draggable || rows[i].root || !rows[i].draggable
  }

  /** The invariant in terms of the tree: rows that must be are at the margin, every other
      row has a parent exactly one level up, which can be dragged and is no leaf, and none
      is deeper than the limit. */
  ghost predicate InTree(rows: seq<Row>, i: nat, limit: nat)
    requires i < |rows|
  {
    var p := Parent(rows, i);
    && (limit == 0 || rows[i].depth <= limit)
    && (AtMargin(rows, i) ==> rows[i].depth == 0)
    && (rows[i].depth > 0 ==>
         p >= 0 && rows[p].depth == rows[i].depth - 1 && rows[p].draggable && !rows[p].leaf)
  }

  lemma PlacedInTree(rows: seq<Row>, limit: nat, i: nat)
    requires Forest(rows, limit) && i < |rows|
    ensures InTree(rows, i, limit)
  {
    ParentOneUp(rows, limit, i);
    assert Placed(rows, i, limit);
    var p := Parent(rows, i);
    if p >= 0 {
      assert Placed(rows, p + 1, limit);
    }
  }

  /** What is checked from row to row is what makes a tree. */
  lemma ForestExact(rows: seq<Row>, limit: nat)
    ensures Forest(rows, limit) <==> forall i | 0 <= i < |rows| :: InTree(rows, i, limit)
  {
    if Forest(rows, limit) {
      forall i | 0 <= i < |rows|
        ensures InTree(rows, i, limit)
      {
        PlacedInTree(rows, limit, i);
      }
    }
    forall i | 0 <= i < |rows| && InTree(rows, i, limit)
      ensures Placed(rows, i, limit)
    {
      assert !AtMargin(rows, i) && rows[i].depth > rows[i - 1].depth ==> Parent(rows, i) == i - 1;
    }
  }

  /** How many rows from i on are draggable and deeper than `depth`. */
  function DeeperRun(rows: seq<Row>, i: nat, depth: int): (n: nat)
    requires i <= |rows|
    ensures i + n <= |rows|
    ensures forall j | i <= j < i + n :: rows[j].draggable && rows[j].depth > depth
    ensures i + n < |rows| ==> !(rows[i + n].draggable && rows[i + n].depth > depth)
    decreases |rows| - i
  {
    if i < |rows| && rows[i].draggable && rows[i].depth > depth
    then 1 + DeeperRun(rows, i + 1, depth)
    else 0
  }

  /** The number of rows `findChildren` collects below row i. */
  function ChildCount(rows: seq<Row>, i: nat): nat
    requires i < |rows|
  {
    DeeperRun(rows, i + 1, rows[i].depth)
  }

  lemma ChildCountUnique(rows: seq<Row>, i: nat, n: nat)
    requires i + n < |rows|
    requires forall j | i < j <= i + n :: rows[j].draggable && rows[j].depth > rows[i].depth
    requires i + n + 1 < |rows| ==>
               !(rows[i + n + 1].draggable && rows[i + n + 1].depth > rows[i].depth)
    ensures ChildCount(rows, i) == n
  {
    var next := i + ChildCount(rows, i) + 1;
    assert next < |rows| ==> !(rows[next].draggable && rows[next].depth > rows[i].depth);
  }

  ghost predicate MaxDepth(group: seq<Row>, depth: int) {
    && (exists i :: 0 <= i < |group| && group[i].depth == depth)
    && (forall i | 0 <= i < |group| :: group[i].depth <= depth)
  }

  /** Deepest indentation of a group, as the row constructor computes it. */
  function GroupDepth(group: seq<Row>): (d: nat)
    requires group != []
    ensures MaxDepth(group, d)
  {
    if |group| == 1 then group[0].depth
    else
      var d := GroupDepth(group[..|group| - 1]);
      var last := group[|group| - 1].depth;
      assert forall i | 0 <= i < |group| - 1 :: group[i] == group[..|group| - 1][i];
      if d < last then last else d
  }

  /** Every row of the group moved by delta columns; an indentation that is not
      there cannot be removed. */
  function Shift(group: seq<Row>, delta: int): (r: seq<Row>)
    ensures |r| == |group|
    ensures forall i | 0 <= i < |r| :: r[i] == group[i].(depth := Max(0, group[i].depth + delta))
  {
    seq(|group|, i requires 0 <= i < |group| => group[i].(depth := Max(0, group[i].depth + delta)))
  }
}
