/**
 The form inputs determine what a table shows of its draggable rows, whatever other
 rows, such as headings, stand between them.
 */
module RebuildForm {
  import opened TreeTable
  import opened DropFields
  import opened DragHistory
  import opened Rebuild

  /** The rows that carry inputs. */
  function Draggables(rows: seq<Row>): (r: seq<Row>)
    ensures AllDraggable(r) && |r| <= |rows|
  {
    if rows == [] then []
    else
      var last := rows[|rows| - 1];
      Draggables(rows[..|rows| - 1]) + if last.draggable then [last] else []
  }

  /** How many of the first i rows carry inputs. */
  function Before(rows: seq<Row>, i: nat): nat
    requires i <= |rows|
  {
    |Draggables(rows[..i])|
  }

  ghost predicate Named(rows: seq<Row>, i: nat)
    requires i < |rows|
  {
    rows[i].draggable ==>
      rows[i].id != ROOT_VALUE && forall j | 0 <= j < |rows| && rows[j].draggable && rows[j].id == rows[i].id :: i == j
  }

  /** A table whose inputs agree with what it shows; draggable rows have names of their
      own. */
  ghost predicate Agreeing(rows: seq<Row>, limit: nat) {
    Forest(rows, limit) && ParentsAgree(rows) && WeightsAgree(rows) && forall i | 0 <= i < |rows| :: Named(rows, i)
  }

  lemma BeforeStep(rows: seq<Row>, i: nat)
    requires i < |rows|
    ensures Draggables(rows[..i + 1]) == Draggables(rows[..i]) + if rows[i].draggable then [rows[i]] else []
  {
    assert rows[..i + 1][..i] == rows[..i];
  }

  /** The draggable rows of a front part are the first ones. */
  lemma {:induction false} FrontDraggables(rows: seq<Row>, i: nat)
    requires i <= |rows|
    ensures Before(rows, i) <= |Draggables(rows)| && Draggables(rows[..i]) == Draggables(rows)[..Before(rows, i)]
    decreases |rows| - i
  {
    if i == |rows| {
      assert rows[..i] == rows;
    } else {
      FrontDraggables(rows, i + 1);
      BeforeStep(rows, i);
      var a, b := Draggables(rows[..i]), Draggables(rows[..i + 1]);
      assert a == b[..|a|];
    }
  }

  /** Where a draggable row stands among the draggable ones. */
  lemma StandsAt(rows: seq<Row>, i: nat)
    requires i < |rows| && rows[i].draggable
    ensures Before(rows, i) < |Draggables(rows)| && Draggables(rows)[Before(rows, i)] == rows[i]
  {
    BeforeStep(rows, i);
    FrontDraggables(rows, i + 1);
  }

  lemma {:induction false} BeforeGrows(rows: seq<Row>, i: nat, j: nat)
    requires i <= j <= |rows|
    ensures Before(rows, i) <= Before(rows, j)
    ensures i < j && rows[i].draggable ==> Before(rows, i) < Before(rows, j)
    decreases j - i
  {
    if i < j {
      BeforeStep(rows, i);
      BeforeGrows(rows, i + 1, j);
    }
  }

  /** Every draggable row comes from somewhere. */
  lemma {:induction false} ComesFrom(rows: seq<Row>, q: nat) returns (i: nat)
    requires q < |Draggables(rows)|
    ensures i < |rows| && rows[i].draggable && Before(rows, i) == q && Draggables(rows)[q] == rows[i]
    decreases |rows|
  {
    var n := |rows| - 1;
    assert rows[..n + 1] == rows;
    BeforeStep(rows, n);
    if q < Before(rows, n) {
      i := ComesFrom(rows[..n], q);
      assert rows[..n][..i] == rows[..i];
    } else {
      i := n;
    }
  }

  lemma {:induction false} ShallowerFront(rows: seq<Row>, front: seq<Row>, i: nat, depth: int)
    requires i <= |front| <= |rows| && front == rows[..|front|]
    ensures Shallower(rows, i, depth) == Shallower(front, i, depth)
  {
    if i > 0 {
      ShallowerFront(rows, front, i - 1, depth);
    }
  }

  lemma NoDraggables(rows: seq<Row>)
    ensures Draggables(rows[..0]) == []
  {
  }

  /** The search for a shallower row finds the same draggable row among the draggable
      ones. */
  lemma {:induction false} ShallowerDraggable(rows: seq<Row>, i: nat, depth: int)
    requires i <= |rows|
    requires var p := Shallower(rows, i, depth); p < 0 || rows[p].draggable
    ensures var p, front := Shallower(rows, i, depth), Draggables(rows[..i]);
      Shallower(front, |front|, depth) == if p < 0 then -1 else Before(rows, p)
  {
    hide Draggables;
    if i == 0 {
      NoDraggables(rows);
    } else {
      BeforeStep(rows, i - 1);
      var a, b := Draggables(rows[..i - 1]), Draggables(rows[..i]);
      if rows[i - 1].depth >= depth {
        ShallowerDraggable(rows, i - 1, depth);
        ShallowerFront(b, a, |a|, depth);
      }
    }
  }

  lemma ParentDraggable(rows: seq<Row>, limit: nat, i: nat)
    requires Forest(rows, limit) && i < |rows| && rows[i].draggable
    ensures var p, q := Parent(rows, i), Before(rows, i);
      && q < |Draggables(rows)|
      && Parent(Draggables(rows), q) == (if p < 0 then -1 else Before(rows, p))
      && (p >= 0 ==> rows[p].draggable)
      && ParentValue(Draggables(rows), q) == ParentValue(rows, i)
  {
    var p := Parent(rows, i);
    StandsAt(rows, i);
    ParentOneUp(rows, limit, i);
    ShallowerDraggable(rows, i, rows[i].depth);
    FrontDraggables(rows, i);
    ShallowerFront(Draggables(rows), Draggables(rows[..i]), Before(rows, i), rows[i].depth);
    if p >= 0 {
      StandsAt(rows, p);
    }
  }

  lemma DraggablePlaced(rows: seq<Row>, limit: nat, i: nat)
    requires Forest(rows, limit) && i < |rows| && rows[i].draggable
    ensures Before(rows, i) < |Draggables(rows)| && Placed(Draggables(rows), Before(rows, i), limit)
  {
    StandsAt(rows, i);
    assert Placed(rows, i, limit);
    if i > 0 {
      BeforeStep(rows, i - 1);
      if rows[i - 1].draggable {
        StandsAt(rows, i - 1);
      }
    }
  }

  lemma SiblingsDraggable(rows: seq<Row>, limit: nat, i: nat, j: nat)
    requires Forest(rows, limit) && i < |rows| && j < |rows| && rows[i].draggable && rows[j].draggable
    requires Siblings(Draggables(rows), Before(rows, i), Before(rows, j))
    ensures Siblings(rows, i, j)
  {
    ParentDraggable(rows, limit, i);
    ParentDraggable(rows, limit, j);
    var p, q := Parent(rows, i), Parent(rows, j);
    if j <= i {
      BeforeGrows(rows, j, i);
    }
    if 0 <= p < q {
      BeforeGrows(rows, p, q);
    } else if 0 <= q < p {
      BeforeGrows(rows, q, p);
    }
  }

  /** The draggable rows of an agreeing table are an agreeing table of their own. */
  lemma DraggablesDisplayed(rows: seq<Row>, limit: nat)
    requires Agreeing(rows, limit)
    ensures Displayed(Draggables(rows), limit)
  {
    hide Parent, ParentValue, Draggables, Before;
    var d := Draggables(rows);
    forall q | 0 <= q < |d|
      ensures Placed(d, q, limit) && ParentAgrees(d, q) && NamedRow(d, q)
    {
      var i := ComesFrom(rows, q);
      DraggablePlaced(rows, limit, i);
      ParentDraggable(rows, limit, i);
      assert ParentAgrees(rows, i) && Named(rows, i);
    }
    forall q, r | 0 <= q < |d| && 0 <= r < |d| && SameId(d, q, r)
      ensures q == r
    {
      var i := ComesFrom(rows, q);
      var j := ComesFrom(rows, r);
      assert Named(rows, i);
    }
    forall q, r | 0 <= q < r < |d| && Siblings(d, q, r)
      ensures d[q].weight < d[r].weight
    {
      var i := ComesFrom(rows, q);
      var j := ComesFrom(rows, r);
      SiblingsDraggable(rows, limit, i, j);
    }
  }

  /** Two tables that agree with their inputs and whose draggable rows carry the same
      ids, parents and weights, in any order, show the same draggable rows in the same
      order at the same depths. */
  lemma FormDeterminesDisplay(t: seq<Row>, u: seq<Row>, limit: nat)
    requires Agreeing(t, limit) && Agreeing(u, limit)
    requires SameForm(Draggables(t), Draggables(u)) && SameForm(Draggables(u), Draggables(t))
    ensures |Draggables(t)| == |Draggables(u)|
    ensures forall i | 0 <= i < |Draggables(t)| ::
      Inputs(Draggables(t)[i]) == Inputs(Draggables(u)[i]) && Draggables(t)[i].depth == Draggables(u)[i].depth
  {
    DraggablesDisplayed(t, limit);
    DraggablesDisplayed(u, limit);
    InputsDetermineDisplay(Draggables(t), Draggables(u), limit);
  }
}
