/**
 The field overview keeps a message row at the head of every region. Moving a row
 group past a message row moves it again, through the same handler: a mutual
 recursion that must end with every message row marked right.
 */
module FieldUi {

  /** A table row outside the dragged group. Only message rows carry a mark. */
  datatype Row = Row(id: int, message: bool, draggable: bool, populated: bool)

  /** Message rows have no handle. */
  ghost predicate Messages(rest: seq<Row>) {
    forall i | 0 <= i < |rest| && rest[i].message :: !rest[i].draggable
  }

  /** With the dragged group above row p of the rest: the row after row m can be
      dragged. Groups are made of draggable rows. */
  predicate NextDraggable(rest: seq<Row>, p: nat, m: nat)
    requires m < |rest|
  {
    m + 1 == p || (m + 1 < |rest| && rest[m + 1].draggable)
  }

  predicate Marked(rest: seq<Row>, p: nat, m: nat)
    requires m < |rest|
  {
    rest[m].message ==> (rest[m].populated <==> NextDraggable(rest, p, m))
  }

  ghost predicate AllMarked(rest: seq<Row>, p: nat) {
    forall m | 0 <= m < |rest| :: Marked(rest, p, m)
  }

  /** The table with the group in it. */
  function TableOf(rest: seq<Row>, p: nat, group: seq<Row>): seq<Row>
    requires p <= |rest|
  {
    rest[..p] + group + rest[p..]
  }

  /** A message row of the whole table is marked populated if and only if a draggable row
      comes next. */
  predicate MarkedRow(t: seq<Row>, i: nat)
    requires i < |t|
  {
    t[i].message ==> (t[i].populated <==> i + 1 < |t| && t[i + 1].draggable)
  }

  lemma MarkInTable(rest: seq<Row>, p: nat, group: seq<Row>, m: nat)
    requires p <= |rest| && m < |rest| && group != [] && group[0].draggable
    ensures Marked(rest, p, m) <==> MarkedRow(TableOf(rest, p, group), if m < p then m else m + |group|)
  {
  }

  /** The marks are right exactly if they are in the whole table. */
  lemma MarksExact(rest: seq<Row>, p: nat, group: seq<Row>)
    requires p <= |rest| && group != [] && forall j | 0 <= j < |group| :: group[j].draggable && !group[j].message
    ensures var t := TableOf(rest, p, group);
      AllMarked(rest, p) <==> forall i | 0 <= i < |t| :: MarkedRow(t, i)
  {
    hide Marked;
    var t, n := TableOf(rest, p, group), |group|;
    forall m | 0 <= m < |rest|
      ensures Marked(rest, p, m) <==> MarkedRow(t, if m < p then m else m + n)
    {
      MarkInTable(rest, p, group, m);
    }
    forall i | 0 <= i < |t| && AllMarked(rest, p)
      ensures MarkedRow(t, i)
    {
      if p <= i < p + n {
        assert t[i] == group[i - p];
      } else {
        assert Marked(rest, p, if i < p then i else i - n);
      }
    }
  }

  /** The same rows in the same order; marks may differ. */
  ghost predicate SameRows(rest: seq<Row>, other: seq<Row>) {
    |rest| == |other| && forall m | 0 <= m < |rest| :: rest[m] == other[m].(populated := rest[m].populated)
  }

  /** How many message rows follow directly. */
  function MessagesFrom(rest: seq<Row>, p: nat): (n: nat)
    requires p <= |rest|
    ensures p + n <= |rest|
    ensures forall m | p <= m < p + n :: rest[m].message
    ensures p + n < |rest| ==> !rest[p + n].message
    decreases |rest| - p
  {
    if p < |rest| && rest[p].message then 1 + MessagesFrom(rest, p + 1) else 0
  }

  lemma {:induction false} SameMessages(rest: seq<Row>, other: seq<Row>, p: nat)
    requires SameRows(rest, other) && p <= |rest|
    ensures MessagesFrom(rest, p) == MessagesFrom(other, p)
    decreases |rest| - p
  {
    if p < |rest| { SameMessages(rest, other, p + 1); }
  }

  class Overview {
    /** The rows outside the group, and how many of them are above it. */
    var rest: seq<Row>
    var above: nat
    var keyboard: bool
    var down: bool

    ghost predicate Valid()
      reads this
    {
      above <= |rest| && Messages(rest)
    }

    /** Where the group comes to rest: right where it is when a key moves it up, and past
        the message rows below it otherwise. */
    function Landing(): nat
      requires Valid()
      reads this
    {
      if keyboard && !down then above else above + MessagesFrom(rest, above)
    }

    /** Swaps the group to just after row k of the rest. */
    method SwapAfter(k: nat)
      requires Valid() && k < |rest| && k >= above
      modifies `rest, `above
      ensures Valid() && SameRows(rest, old(rest)) && AllMarked(rest, above)
      ensures above == if keyboard && !down then k + 1 else k + 1 + MessagesFrom(old(rest), k + 1)
      decreases |rest| - k, 0
    {
      above := k + 1;
      OnSwap();
    }

    /** A swap to anywhere, as the drag asks for it. */
    method Swap(at: nat)
      requires Valid() && at <= |rest|
      modifies `rest, `above
      ensures Valid() && SameRows(rest, old(rest)) && AllMarked(rest, above)
      ensures above == if keyboard && !down then at else at + MessagesFrom(old(rest), at)
      ensures (!keyboard || down) && above < |rest| ==> !rest[above].message
    {
      above := at;
      SameMessages(rest, old(rest), at);
      OnSwap();
    }

    /** Sets one message row's mark: empty when no draggable row follows. */
    method Mark(m: nat)
      requires Valid() && m < |rest| && rest[m].message
      modifies `rest
      ensures rest == old(rest)[m := old(rest)[m].(populated := NextDraggable(old(rest), above, m))]
      ensures Valid() && SameRows(rest, old(rest)) && Marked(rest, above, m)
      ensures forall j | 0 <= j < |rest| && j != m :: Marked(rest, above, j) == Marked(old(rest), above, j)
    {
      if !(m + 1 == above || (m + 1 < |rest| && rest[m + 1].draggable)) {
        rest := rest[m := rest[m].(populated := false)];
      } else if !rest[m].populated {
        rest := rest[m := rest[m].(populated := true)];
      }
    }

    /** Handles one row, if it is a message row: the group is moved below it if it is
        right above, and its mark is set. */
    method Visit(m: nat) returns (moved: bool)
      requires Valid() && m < |rest|
      modifies `rest, `above
      ensures Valid() && SameRows(rest, old(rest)) && Marked(rest, above, m)
      ensures forall j | 0 <= j < |rest| :: rest[j].message == old(rest)[j].message
      ensures moved <==> rest[m].message && m == old(above) && (!keyboard || down)
      ensures if moved then AllMarked(rest, above) && above == old(Landing())
              else above == old(above) && forall j | 0 <= j < |rest| && j != m ::
                Marked(rest, above, j) == Marked(old(rest), above, j)
      decreases |rest| - above, 1
    {
      moved := false;
      if rest[m].message {
        if m == above && (!keyboard || down) {
          SwapAfter(m);
          moved := true;
        }
        Mark(m);
      }
    }

    /** Goes over all message rows: a group right above one is swapped below it, and
        every mark is set. */
    method OnSwap()
      requires Valid()
      modifies `rest, `above
      ensures Valid() && SameRows(rest, old(rest)) && AllMarked(rest, above)
      ensures above == old(Landing())
      ensures (!keyboard || down) && above < |rest| ==> !rest[above].message
      decreases |rest| - above, 2
    {
      hide NextDraggable, Marked, MessagesFrom;
      ghost var moved := false;
      for m := 0 to |rest|
        invariant Valid() && SameRows(rest, old(rest))
        invariant forall j | 0 <= j < m :: Marked(rest, above, j)
        invariant if moved then AllMarked(rest, above) && above == old(Landing()) && (!keyboard || down) else above == old(above)
        invariant !moved && m > above && (!keyboard || down) ==> !rest[above].message
      {
        SameMessages(rest, old(rest), above);
        var now := Visit(m);
        moved := moved || now;
      }
      SameMessages(rest, old(rest), above);
    }
  }
}
