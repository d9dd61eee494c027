/** The form inputs determine the displayed table. */
module Rebuild {
  import opened TreeTable
  import opened DropFields
  import opened DragHistory

  /** What the server receives of a row. */
  function Inputs(r: Row): (int, int, int) {
    (r.id, r.parent, r.weight)
  }

  predicate SameId(rows: seq<Row>, i: nat, j: nat)
    requires i < |rows| && j < |rows|
  {
    rows[i].id == rows[j].id
  }

  predicate NamedRow(rows: seq<Row>, i: nat)
    requires i < |rows|
  {
    rows[i].id != ROOT_VALUE
  }

  ghost predicate UniqueIds(rows: seq<Row>) {
    && (forall i | 0 <= i < |rows| :: NamedRow(rows, i))
    && (forall i, j | 0 <= i < |rows| && 0 <= j < |rows| && SameId(rows, i, j) :: i == j)
  }

  ghost predicate Displayed(rows: seq<Row>, limit: nat) {
    Forest(rows, limit) && AllDraggable(rows) && UniqueIds(rows) && ParentsAgree(rows) && WeightsAgree(rows)
  }

  /** Row i of t has the inputs of some row of u. */
  ghost predicate Listed(t: seq<Row>, i: nat, u: seq<Row>)
    requires i < |t|
  {
    exists j :: 0 <= j < |u| && Inputs(t[i]) == Inputs(u[j])
  }

  ghost predicate SameForm(t: seq<Row>, u: seq<Row>) {
    forall i | 0 <= i < |t| :: Listed(t, i, u)
  }

  predicate Matches(t: seq<Row>, u: seq<Row>, i: nat)
    requires i < |t| && i < |u|
  {
    Inputs(t[i]) == Inputs(u[i]) && t[i].depth == u[i].depth
  }

  /** The first k rows agree in inputs and depth. */
  ghost predicate SamePrefix(t: seq<Row>, u: seq<Row>, k: nat) {
    k <= |t| && k <= |u| && forall i | 0 <= i < k :: Matches(t, u, i)
  }

  /** Where the row t[k] stands in u: its parent and its depth are the same. */
  lemma Located(t: seq<Row>, u: seq<Row>, limit: nat, k: nat, m: nat)
    requires Displayed(t, limit) && Displayed(u, limit) && SamePrefix(t, u, k)
    requires k < |t| && k <= m < |u| && Inputs(t[k]) == Inputs(u[m])
    ensures Parent(u, m) == Parent(t, k) && u[m].depth == t[k].depth
    ensures m > k ==> u[k].depth >= u[m].depth
  {
    var p, q := Parent(t, k), Parent(u, m);
    assert ParentAgrees(t, k) && ParentAgrees(u, m);
    ParentOneUp(t, limit, k);
    ParentOneUp(u, limit, m);
    if p >= 0 {
      assert NamedRow(t, p) && Matches(t, u, p);
      assert SameId(u, p, q);
    }
    assert q >= 0 ==> NamedRow(u, q);
  }

  lemma {:induction false} SameShallower(t: seq<Row>, u: seq<Row>, k: nat, depth: int)
    requires SamePrefix(t, u, k)
    ensures Shallower(t, k, depth) == Shallower(u, k, depth)
  {
    if k > 0 {
      assert Matches(t, u, k - 1);
      SameShallower(t, u, k - 1, depth);
    }
  }

  /** A row not among the first k of u is listed in t from k on. */
  lemma ListedLater(t: seq<Row>, u: seq<Row>, k: nat, limit: nat) returns (m: nat)
    requires Displayed(t, limit) && SamePrefix(t, u, k) && SameForm(t, u) && k < |t|
    ensures k <= m < |u| && Inputs(t[k]) == Inputs(u[m])
  {
    assert Listed(t, k, u);
    m :| 0 <= m < |u| && Inputs(t[k]) == Inputs(u[m]);
    if m < k {
      assert Matches(t, u, m);
      assert SameId(t, k, m);
    }
  }

  /** Two displays of one form that agree on k rows agree on the next. */
  lemma NextRow(t: seq<Row>, u: seq<Row>, limit: nat, k: nat)
    requires Displayed(t, limit) && Displayed(u, limit) && SamePrefix(t, u, k)
    requires SameForm(t, u) && SameForm(u, t) && k < |t| && k < |u|
    ensures SamePrefix(t, u, k + 1)
  {
    hide WeightsOrdered;
    SymmetricPrefix(t, u, k);
    var m := ListedLater(t, u, k, limit);
    var j := ListedLater(u, t, k, limit);
    Located(t, u, limit, k, m);
    Located(u, t, limit, k, j);
    if m > k {
      assert !SameId(u, k, m);
      SameShallower(t, u, k, t[k].depth);
      Crossed(t, u, k, m, j);
    }
    assert Matches(t, u, k);
  }

  lemma SymmetricPrefix(t: seq<Row>, u: seq<Row>, k: nat)
    requires SamePrefix(t, u, k)
    ensures SamePrefix(u, t, k)
  {
    forall i | 0 <= i < k
      ensures Matches(u, t, i)
    {
      assert Matches(t, u, i);
    }
  }

  /** Two siblings cannot stand in opposite orders in two agreeing tables. */
  lemma Crossed(t: seq<Row>, u: seq<Row>, k: nat, m: nat, j: nat)
    requires WeightsAgree(t) && WeightsAgree(u) && k < m < |u| && k < j < |t|
    requires Inputs(t[k]) == Inputs(u[m]) && Inputs(u[k]) == Inputs(t[j])
    requires Siblings(t, k, j)
    ensures !Siblings(u, k, m)
  {
  }

  lemma {:induction false} PrefixGrows(t: seq<Row>, u: seq<Row>, limit: nat, k: nat)
    requires Displayed(t, limit) && Displayed(u, limit)
    requires SameForm(t, u) && SameForm(u, t) && SamePrefix(t, u, k)
    ensures |t| == |u| && SamePrefix(t, u, |t|)
    decreases |t| - k
  {
    if k < |t| && k < |u| {
      NextRow(t, u, limit, k);
      PrefixGrows(t, u, limit, k + 1);
    } else if k < |t| {
      var m := ListedLater(t, u, k, limit);
    } else if k < |u| {
      SymmetricPrefix(t, u, k);
      var j := ListedLater(u, t, k, limit);
    }
  }

  /** Two tables whose rows carry the same ids, parents and weights, and whose
      inputs agree with what they show, show the same rows in the same order at
      the same depths: parents and weights alone rebuild the tree. */
  lemma InputsDetermineDisplay(t: seq<Row>, u: seq<Row>, limit: nat)
    requires Displayed(t, limit) && Displayed(u, limit)
    requires SameForm(t, u) && SameForm(u, t)
    ensures |t| == |u|
    ensures forall i | 0 <= i < |t| :: Inputs(t[i]) == Inputs(u[i]) && t[i].depth == u[i].depth
  {
    PrefixGrows(t, u, limit, 0);
    forall i | 0 <= i < |t|
      ensures Inputs(t[i]) == Inputs(u[i]) && t[i].depth == u[i].depth
    {
      assert Matches(t, u, i);
    }
  }
}
