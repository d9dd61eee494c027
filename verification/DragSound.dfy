/**
 When looking at two neighbours is enough: the table displayed during a drag is a
 sound tree exactly when the dragged row's depth lies in the interval between the
 rows around its group.
 */
module DragSound {
  import opened TreeTable
  import opened Drag

  predicate Fits(d: State)
    requires d.group != []
  {
    Here(d).min <= d.indents <= Here(d).max
  }

  /** The table index of row i of the rest. */
  function Lift(d: State, i: int): int {
    if i < |d.above| then i else i + |d.group|
  }

  /** Every row outside the group has the parent it would have without the group. */
  ghost predicate OthersKeepParents(d: State) {
    forall i | 0 <= i < |Rest(d)| ::
      Parent(Table(d), Lift(d, i)) == Lift(d, Parent(Rest(d), i))
  }

  /** Every row inside the group, but the dragged one, has its parent in the group. */
  ghost predicate GroupKeepsParents(d: State) {
    forall j | 0 < j < |d.group| ::
      Parent(Table(d), |d.above| + j) == |d.above| + Parent(d.group, j)
  }

  ghost predicate Sound(d: State) {
    Forest(Table(d), d.limit) && OthersKeepParents(d)
  }

  lemma FitsForest(d: State)
    requires Inv(d) && Fits(d)
    ensures Forest(Table(d), d.limit)
  {
    var t, a, n := Table(d), |d.above|, |d.group|;
    forall i | 0 <= i < |t|
      ensures Placed(t, i, d.limit)
    {
      if i < a {
        assert Placed(Rest(d), i, d.limit);
      } else if i < a + n {
        assert i > a ==> Hangs(d.group, i - a);
        assert i > a + 1 ==> Hangs(d.group, i - a - 1);
      } else {
        assert i == a + n && n > 1 ==> Hangs(d.group, n - 1);
        assert Placed(Rest(d), i - n, d.limit);
      }
    }
  }

  lemma FitsParentOf(d: State, i: nat)
    requires Inv(d) && Fits(d) && i < |Rest(d)|
    ensures Parent(Table(d), Lift(d, i)) == Lift(d, Parent(Rest(d), i))
  {
    var t, r, a, n := Table(d), Rest(d), |d.above|, |d.group|;
    var p := Parent(r, i);
    assert forall j | 0 <= j < |r| :: t[Lift(d, j)] == r[j];
    forall j | Lift(d, p) < j < Lift(d, i)
      ensures t[j].depth >= r[i].depth
    {
      if j < a {
        assert t[j] == r[j];
      } else if j < a + n {
        assert t[j] == d.group[j - a];
        assert j > a ==> Hangs(d.group, j - a);
        assert r[a].depth >= r[i].depth;
      } else {
        assert t[j] == r[j - n];
      }
    }
    ParentUnique(t, Lift(d, i), Lift(d, p));
  }

  lemma ParentInBlock(t: seq<Row>, a: nat, g: seq<Row>, j: nat)
    requires a + |g| <= |t| && 0 < j < |g|
    requires t[a..a + |g|] == g
    requires Parent(g, j) >= 0
    ensures Parent(t, a + j) == a + Parent(g, j)
  {
    var p := Parent(g, j);
    forall m | a + p < m < a + j
      ensures t[m].depth >= t[a + j].depth
    {
      assert t[m] == g[m - a];
    }
    ParentUnique(t, a + j, a + p);
  }

  lemma GroupParents(d: State)
    requires Inv(d)
    ensures GroupKeepsParents(d)
  {
    forall j | 0 < j < |d.group|
      ensures Parent(Table(d), |d.above| + j) == |d.above| + Parent(d.group, j)
    {
      assert Hangs(d.group, j);
      assert Table(d)[|d.above|..|d.above| + |d.group|] == d.group;
      ParentInBlock(Table(d), |d.above|, d.group, j);
    }
  }

  lemma SoundFits(d: State)
    requires Inv(d) && Sound(d)
    ensures Fits(d)
  {
    var t, a, n := Table(d), |d.above|, |d.group|;
    var m :| 0 <= m < n && d.group[m].depth == d.groupDepth;
    assert Placed(t, a, d.limit);
    if d.below != [] {
      assert Rest(d)[a] == d.below[0] == t[a + n];
      assert Parent(t, Lift(d, a)) == Lift(d, Parent(Rest(d), a)) < a;
      assert t[a].depth >= t[a + n].depth;
    }
  }

  /** The local test is exact: it holds if and only if the whole table is a
      forest within the limit and no other row has changed parent. Inside the
      group nothing ever changes parent. */
  lemma FitsIffSound(d: State)
    requires Inv(d)
    ensures Fits(d) <==> Sound(d)
    ensures GroupKeepsParents(d)
  {
    GroupParents(d);
    if Fits(d) {
      FitsForest(d);
      forall i | 0 <= i < |Rest(d)|
        ensures Parent(Table(d), Lift(d, i)) == Lift(d, Parent(Rest(d), i))
      {
        FitsParentOf(d, i);
      }
    }
    if Sound(d) {
      SoundFits(d);
    }
  }

  lemma GrabGroup(rows: seq<Row>, s: nat, limit: nat, selector: Selector)
    requires Forest(rows, limit) && s < |rows| && rows[s].draggable
    ensures IsGroup(Grab(rows, s, limit, selector).group)
  {
    var g := Grab(rows, s, limit, selector).group;
    forall i | 0 < i < |g|
      ensures Hangs(g, i)
    {
      assert g[i] == rows[s + i] && g[i - 1] == rows[s + i - 1];
      assert Placed(rows, s + i, limit);
    }
  }

  lemma GrabRest(rows: seq<Row>, s: nat, limit: nat, selector: Selector)
    requires Forest(rows, limit) && s < |rows| && rows[s].draggable
    ensures Forest(Rest(Grab(rows, s, limit, selector)), limit)
  {
    var d := Grab(rows, s, limit, selector);
    var n, r := |d.group|, Rest(d);
    assert forall i | 0 <= i < s :: r[i] == rows[i];
    assert forall i | s <= i < |r| :: r[i] == rows[i + n];
    forall i | 0 <= i < |r|
      ensures Placed(r, i, limit)
    {
      assert Placed(rows, if i < s then i else i + n, limit);
      assert Placed(rows, s, limit);
      assert i == s ==> !(rows[s + n].draggable && rows[s + n].depth > rows[s].depth);
    }
  }

  /** A freshly grabbed row fits where it is, and the rest of the table without
      its group is a forest. */
  lemma GrabFits(rows: seq<Row>, s: nat, limit: nat, selector: Selector)
    requires Forest(rows, limit) && s < |rows| && rows[s].draggable
    ensures var d := Grab(rows, s, limit, selector); Inv(d) && Fits(d) && Table(d) == rows
  {
    var d := Grab(rows, s, limit, selector);
    GrabGroup(rows, s, limit, selector);
    GrabRest(rows, s, limit, selector);
    GrabDepth(rows, s, limit, selector);
    assert Table(d) == rows;
    GrabInterval(rows, s, limit, selector);
  }

  lemma GrabInterval(rows: seq<Row>, s: nat, limit: nat, selector: Selector)
    requires Forest(rows, limit) && s < |rows| && rows[s].draggable
    ensures Fits(Grab(rows, s, limit, selector))
  {
    var d := Grab(rows, s, limit, selector);
    GrabDepth(rows, s, limit, selector);
    assert Placed(rows, s, limit);
    if d.below != [] {
      assert d.below[0] == rows[s + |d.group|];
      assert Placed(rows, s + |d.group|, limit);
    }
  }

  lemma GrabDepth(rows: seq<Row>, s: nat, limit: nat, selector: Selector)
    requires Forest(rows, limit) && s < |rows|
    ensures var d := Grab(rows, s, limit, selector);
      d.group[0] == rows[s] && InLimit(d.groupDepth, limit)
  {
    var d := Grab(rows, s, limit, selector);
    var m :| 0 <= m < |d.group| && d.group[m].depth == d.groupDepth;
    assert d.group[m] == rows[s + m] && Placed(rows, s + m, limit);
  }

  /** The children of the dragged row are the rest of its group. */
  lemma FitsChildren(d: State)
    requires Inv(d) && Fits(d)
    ensures ChildCount(Table(d), |d.above|) == |d.group| - 1
  {
    var t, a, n := Table(d), |d.above|, |d.group|;
    forall j | a < j <= a + (n - 1)
      ensures t[j].draggable && t[j].depth > t[a].depth
    {
      assert Hangs(d.group, j - a);
    }
    assert a + n < |t| ==> t[a + n] == d.below[0];
    ChildCountUnique(t, a, n - 1);
  }
}
