/**
 The table and its row object as they are: objects updated in place, with loops
 over neighbouring rows. Each method is proved against the state machine on values.
 */
module TableDrag {
  import opened Maybe
  import opened TreeTable
  import opened Drag
  import opened DragAim
  import opened DropInputs
  import opened DropFields

  /** The row object of one drag. Its group is rows[start..start + size]. */
  class RowObject {
    const table: DragTable
    var start: nat
    var size: nat
    var indents: int
    var groupDepth: int
    var interval: Option<Interval>
    var changed: bool
    var direction: Direction

    ghost predicate Valid()
      reads this, table
    {
      size > 0 && start + size <= |table.rows|
    }

    function View(): (d: State)
      requires Valid()
      reads this, table
      ensures Table(d) == table.rows && d.group != []
    {
      var d := State(table.rows[..start], table.rows[start..start + size], table.rows[start + size..],
                     indents, groupDepth, interval, changed, table.limit, table.selector);
      assert Table(d) == table.rows;
      d
    }

    constructor (table: DragTable, s: nat)
      requires s < |table.rows|
      ensures this.table == table && Valid()
      ensures View() == Grab(table.rows, s, table.limit, table.selector)
      ensures start == s && size == 1 + ChildCount(table.rows, s)
    {
      this.table := table;
      start, size := s, 1;
      indents, groupDepth := table.rows[s].depth, table.rows[s].depth;
      interval, changed, direction := None, false, Down;
      new;
      var rows := table.rows;
      var children := FindChildren(rows, s);
      size := 1 + children;
      groupDepth := MeasureGroup(rows[s..s + size]);
    }

    method ValidIndentInterval(prev: Option<Row>, next: Option<Row>) returns (r: Interval)
      requires Valid()
      ensures r == IntervalBetween(View(), prev, next)
    {
      var min := if next.Some? then next.value.depth else 0;
      var max := 0;
      if prev.Some? && prev.value.draggable && !table.rows[start].root {
        max := prev.value.depth + if prev.value.leaf then 0 else 1;
        if table.limit != 0 {
          max := Min(max, table.limit - (groupDepth - indents));
        }
      }
      r := Interval(min, max);
    }

    method IsValidSwap(k: nat) returns (valid: bool)
      requires Valid() && Outside(View(), k)
      modifies `interval
      ensures Valid()
      ensures View() == old(View()).(interval := Some(HoverInterval(old(View()), k, direction)))
      ensures valid <==> Accepted(old(View()), k, direction)
    {
      var prev, next;
      if direction == Down {
        prev, next := Some(table.rows[k]), RowAt(table.rows, k + 1);
      } else {
        prev, next := RowAt(table.rows, k - 1), Some(table.rows[k]);
      }
      var allowed := ValidIndentInterval(prev, next);
      interval := Some(allowed);
      if allowed.min > allowed.max {
        return false;
      }
      if k == 0 && !table.rows[k].draggable {
        return false;
      }
      return true;
    }

    /** Takes the group out of the table and puts it back before or after row k. */
    method Swap(position: Position, k: nat)
      requires Valid() && Outside(View(), k)
      modifies `start, `changed, table`rows
      ensures Valid() && View() == Drag.Swap(old(View()), position, k)
    {
      var group := table.rows[start..start + size];
      var others := table.rows[..start] + table.rows[start + size..];
      var at := if k < start then k else k - size;
      if position == After {
        at := at + 1;
      }
      table.rows := others[..at] + group + others[at..];
      start := at;
      changed := true;
      assert View().above == others[..at] && View().group == group && View().below == others[at..];
    }

    /** Determines the interval if none is stored yet. */
    method EnsureInterval()
      requires Valid()
      modifies `interval
      ensures Valid() && interval == Some(IntervalInUse(old(View())))
      ensures View() == old(View()).(interval := interval)
    {
      if interval == None {
        ghost var d := View();
        var above, below := RowAt(table.rows, start - 1), RowAt(table.rows, start + size);
        assert above == RowAt(d.above, |d.above| - 1) && below == RowAt(d.below, 0);
        var here := ValidIndentInterval(above, below);
        interval := Some(here);
      }
    }

    /** Moves the group sideways to the allowed depth nearest to the one asked for. */
    method Indent(diff: int) returns (applied: int)
      requires Valid()
      modifies `indents, `groupDepth, `interval, `changed, table`rows
      ensures Valid() && View() == Drag.Indent(old(View()), diff)
      ensures applied == Target(old(View()), diff) - old(indents)
    {
      EnsureInterval();
      var target := Max(indents + diff, interval.value.min);
      target := Min(target, interval.value.max);
      applied := target - indents;
      ShiftGroup(applied);
    }

    /** Moves the group sideways by this many columns. */
    method ShiftGroup(columns: int)
      requires Valid()
      modifies `indents, `groupDepth, `changed, table`rows
      ensures Valid() && View() == SetDepth(old(View()), old(indents) + columns)
    {
      var above, below := table.rows[..start], table.rows[start + size..];
      var shifted := AddColumns(table.rows[start..start + size], columns);
      table.rows := above + shifted + below;
      indents := indents + columns;
      if columns != 0 {
        changed := true;
        groupDepth := groupDepth + columns;
      }
      Slices(above, shifted, below);
    }

    /** Moves next to row k and settles at the allowed depth nearest to the old one. */
    method SwapAndSettle(position: Position, k: nat)
      requires Valid() && Outside(View(), k)
      modifies this, table`rows
      ensures Valid()
      ensures View() == Drag.Indent(Drag.Swap(old(View()), position, k).(interval := None), 0)
      ensures direction == old(direction)
    {
      hide Drag.Indent, Drag.Swap;
      Swap(position, k);
      ghost var e := View();
      interval := None;
      assert View() == e.(interval := None);
      var applied := Indent(0);
    }

    /** The rows at the dragged row's depth that share its parent, in table order. */
    method FindSiblings() returns (siblings: seq<nat>)
      requires Valid() && table.rows[start].depth == indents
      ensures siblings == AtDepth(table.rows, Shallower(table.rows, start, indents) + 1,
                                  NextShallower(table.rows, start + 1, indents), indents)
    {
      var before := SiblingsAbove(table.rows, start, indents);
      var after := SiblingsBelow(table.rows, start + 1, indents);
      siblings := Reversed(before) + [start] + after;
      ghost var from, to := Shallower(table.rows, start, indents) + 1, NextShallower(table.rows, start + 1, indents);
      AtDepthSplit(table.rows, from, start, to, indents);
      AtDepthSplit(table.rows, start, start + 1, to, indents);
    }
  }

  /** The number of rows after row s that are draggable and deeper. */
  method FindChildren(rows: seq<Row>, s: nat) returns (children: nat)
    requires s < |rows|
    ensures children == ChildCount(rows, s)
  {
    var current := s + 1;
    while current < |rows| && rows[current].draggable && rows[current].depth > rows[s].depth
      invariant s < current <= |rows|
      invariant ChildCount(rows, s) == current - s - 1 + DeeperRun(rows, current, rows[s].depth)
    {
      current := current + 1;
    }
    children := current - s - 1;
  }

  /** The deepest indentation in a group. */
  method MeasureGroup(group: seq<Row>) returns (deepest: nat)
    requires group != []
    ensures deepest == GroupDepth(group)
  {
    deepest := group[0].depth;
    for n := 0 to |group|
      invariant n == 0 ==> deepest == group[0].depth
      invariant n > 0 ==> deepest == GroupDepth(group[..n])
    {
      assert n > 0 ==> group[..n + 1][..n] == group[..n];
      deepest := Max(group[n].depth, deepest);
    }
    assert group[..|group|] == group;
  }

  /** Adds or removes indentations, one at a time. */
  method AddColumns(group: seq<Row>, columns: int) returns (shifted: seq<Row>)
    ensures shifted == Shift(group, columns)
  {
    shifted := group;
    ShiftByNone(group);
    var moved := 0;
    var unit := if columns < 0 then -1 else 1;
    while moved != columns
      invariant if columns < 0 then columns <= moved <= 0 else 0 <= moved <= columns
      invariant shifted == Shift(group, moved)
      decreases if columns < 0 then moved - columns else columns - moved
    {
      ShiftOnce(group, moved, unit);
      shifted, moved := Shift(shifted, unit), moved + unit;
    }
  }

  /** Nearest row from the end at the root level, or -1. The search goes on as long as
      the selector finds a neighbour. */
  method PreviousTopLevel(above: seq<Row>, selector: Selector) returns (top: int)
    requires above != [] && Selects(selector, |above| - 1)
    ensures top == TopLevelAbove(above, |above|)
  {
    top := |above| - 1;
    while top >= 0 && above[top].depth > 0
      invariant -1 <= top < |above| && (top >= 0 ==> Selects(selector, top))
      invariant TopLevelAbove(above, |above|) == TopLevelAbove(above, top + 1)
      decreases top
    {
      top := if Selects(selector, top - 1) then top - 1 else -1;
    }
  }

  /** Siblings before row s, nearest first, up to a shallower row. */
  method SiblingsAbove(rows: seq<Row>, s: nat, depth: int) returns (siblings: seq<nat>)
    requires s <= |rows|
    ensures Reversed(siblings) == AtDepth(rows, Shallower(rows, s, depth) + 1, s, depth)
  {
    siblings := [];
    var i := s;
    while i > 0 && rows[i - 1].depth >= depth
      invariant 0 <= i <= s
      invariant forall j | i <= j < s :: rows[j].depth >= depth
      invariant Reversed(siblings) == AtDepth(rows, i, s, depth)
    {
      i := i - 1;
      if rows[i].depth == depth {
        ReversedPush(siblings, i);
        siblings := siblings + [i];
      }
    }
    assert Shallower(rows, s, depth) == i - 1;
  }

  /** Siblings from row s on, up to a shallower row. */
  method SiblingsBelow(rows: seq<Row>, s: nat, depth: int) returns (siblings: seq<nat>)
    requires s <= |rows|
    ensures siblings == AtDepth(rows, s, NextShallower(rows, s, depth), depth)
  {
    siblings := [];
    var i := s;
    while i < |rows| && rows[i].depth >= depth
      invariant s <= i <= |rows|
      invariant forall j | s <= j < i :: rows[j].depth >= depth
      invariant siblings == AtDepth(rows, s, i, depth)
    {
      AtDepthPush(rows, s, i, depth);
      if rows[i].depth == depth {
        siblings := siblings + [i];
      }
      i := i + 1;
    }
    assert NextShallower(rows, s, depth) == i;
  }

  lemma Slices(a: seq<Row>, b: seq<Row>, c: seq<Row>)
    ensures var t := a + b + c;
      t[..|a|] == a && t[|a|..|a| + |b|] == b && t[|a| + |b|..] == c
  {
  }

  lemma ShiftByNone(g: seq<Row>)
    ensures Shift(g, 0) == g
  {
  }

  lemma ShiftOnce(g: seq<Row>, delta: int, unit: int)
    requires (delta >= 0 && unit == 1) || (delta <= 0 && unit == -1)
    ensures Shift(Shift(g, delta), unit) == Shift(g, delta + unit)
  {
  }

  function Reversed(s: seq<nat>): (r: seq<nat>)
    ensures |r| == |s|
  {
    if s == [] then [] else [s[|s| - 1]] + Reversed(s[..|s| - 1])
  }

  lemma ReversedPush(s: seq<nat>, x: nat)
    ensures Reversed(s + [x]) == [x] + Reversed(s)
  {
    assert (s + [x])[..|s|] == s;
  }

  /** The indices in [lo, hi) of the rows at this depth, in order. */
  function AtDepth(rows: seq<Row>, lo: nat, hi: nat, depth: int): seq<nat>
    requires lo <= hi <= |rows|
    decreases hi - lo
  {
    if lo == hi then []
    else (if rows[lo].depth == depth then [lo] else []) + AtDepth(rows, lo + 1, hi, depth)
  }

  lemma {:induction false} AtDepthSplit(rows: seq<Row>, lo: nat, mid: nat, hi: nat, depth: int)
    requires lo <= mid <= hi <= |rows|
    ensures AtDepth(rows, lo, hi, depth) == AtDepth(rows, lo, mid, depth) + AtDepth(rows, mid, hi, depth)
    decreases mid - lo
  {
    if lo < mid {
      AtDepthSplit(rows, lo + 1, mid, hi, depth);
    }
  }

  lemma AtDepthPush(rows: seq<Row>, lo: nat, i: nat, depth: int)
    requires lo <= i < |rows|
    ensures AtDepth(rows, lo, i + 1, depth) ==
      AtDepth(rows, lo, i, depth) + if rows[i].depth == depth then [i] else []
  {
    AtDepthSplit(rows, lo, i, i + 1, depth);
  }

  class DragTable {
    var rows: seq<Row>
    const limit: nat
    const weights: WeightInput
    const selector: Selector

    constructor (rows: seq<Row>, limit: nat, weights: WeightInput, selector: Selector)
      ensures this.rows == rows && this.limit == limit && this.weights == weights && this.selector == selector
    {
      this.rows := rows;
      this.limit := limit;
      this.weights := weights;
      this.selector := selector;
    }

    /** One pointer movement: over another row, or over none. */
    method PointerMove(r: RowObject, over: Option<(int, Direction)>, diff: int)
      requires r.table == this && r.Valid()
      modifies r, `rows
      ensures r.Valid() && r.View() == Step(old(r.View()), Pointer(over, diff))
      ensures Settles(Bounds(old(r.View()), Pointer(over, diff)), old(r.indents) + diff, r.indents)
    {
      hide Drag.Indent, Drag.Swap, Drag.HoverInterval, Drag.Accepted, Settles, Bounds;
      ghost var d := r.View();
      if over.Some? {
        var k := over.value.0;
        r.direction := over.value.1;
        if 0 <= k < r.start || r.start + r.size <= k < |rows| {
          var valid := r.IsValidSwap(k);
          if valid {
            r.Swap(if r.direction == Down then After else Before, k);
          }
        }
      }
      var applied := r.Indent(diff);
      StepAims(d, Pointer(over, diff));
    }

    /** The up arrow key. */
    method KeyUp(r: RowObject)
      requires r.table == this && r.Valid()
      modifies r, `rows
      ensures r.Valid() && r.View() == Drag.KeyUp(old(r.View()))
    {
      hide Drag.Indent, Drag.Swap, TreeTable.GroupDepth;
      if r.start == 0 || !Selects(selector, r.start - 1) {
        return;
      }
      r.direction := Up;
      var previous := r.start - 1;
      if rows[r.start].root {
        var top := PreviousTopLevel(rows[..r.start], selector);
        if top >= 0 {
          r.Swap(Before, top);
        }
      } else if previous != 0 || rows[previous].draggable {
        r.SwapAndSettle(Before, previous);
      }
    }

    /** Moves the dragged group past the whole group that follows it. */
    method SwapPastGroup(r: RowObject)
      requires r.table == this && r.Valid() && r.start + r.size < |rows|
      modifies r, `rows
      ensures r.Valid()
      ensures var d := old(r.View());
        r.View() == Drag.Swap(d, After, |d.above| + |d.group| + ChildCount(d.below, 0))
    {
      hide Drag.Swap, Drag.Grab, TreeTable.ChildCount;
      ghost var d := r.View();
      var next := r.start + r.size;
      assert ChildCount(rows, next) == ChildCount(d.below, 0) by {
        ChildCountBelow(rows[..next], rows[next..]);
        assert rows == rows[..next] + rows[next..];
      }
      var nextGroup := new RowObject(this, next);
      assert r.View() == d;
      r.Swap(After, next + nextGroup.size - 1);
    }

    /** The down arrow key. */
    method KeyDown(r: RowObject)
      requires r.table == this && r.Valid()
      modifies r, `rows
      ensures r.Valid() && r.View() == Drag.KeyDown(old(r.View()))
    {
      hide Drag.Indent, Drag.Swap, TreeTable.ChildCount, TreeTable.GroupDepth;
      var next := r.start + r.size;
      if next == |rows| || !Selects(selector, next) {
        return;
      }
      r.direction := Down;
      if rows[r.start].root {
        SwapPastGroup(r);
      } else {
        r.SwapAndSettle(After, next);
      }
    }

    /** Writes the dropped row's parent input. */
    method UpdateParent(r: RowObject)
      requires r.table == this && r.Valid() && rows[r.start].draggable
      modifies `rows
      ensures rows == old(rows)[r.start := old(rows)[r.start].(
                parent := DroppedParent(old(rows), r.start, r.size, r.indents))]
    {
      var a := r.start;
      var previous: int := a - 1;
      while previous >= 0 && rows[previous].depth >= r.indents
        invariant -1 <= previous < a && rows == old(rows)
        invariant Shallower(rows, a, r.indents) == Shallower(rows, previous + 1, r.indents)
        decreases previous
      {
        previous := previous - 1;
      }
      var value;
      if previous >= 0 {
        value := rows[previous].id;
      } else {
        var source := if rows[0].draggable then Some(0) else None;
        if source == Some(a) {
          var next := a + r.size;
          source := if next < |rows| && rows[next].draggable then Some(next) else None;
        }
        if source == None {
          var first := FirstInput(rows);
          source := Some(first);
        }
        value := rows[source.value].parent;
      }
      rows := rows[a := rows[a].(parent := value)];
    }

    /** Writes one row's depth input. */
    method UpdateDepth(i: nat)
      requires i < |rows|
      modifies `rows
      ensures rows == old(rows)[i := old(rows)[i].(depthField := old(rows)[i].depth)]
    {
      rows := rows[i := rows[i].(depthField := rows[i].depth)];
    }

    /** Renumbers the dropped row and its siblings. */
    method UpdateOrder(r: RowObject)
      requires r.table == this && r.Valid() && rows[r.start].depth == r.indents
      requires weights.Select? ==> weights.options != []
      modifies `rows
      ensures |rows| == |old(rows)|
      ensures forall i | 0 <= i < |rows| ::
        rows[i] == old(rows)[i].(weight := NewWeight(old(rows), r.start, r.indents, weights, i))
    {
      hide NewWeight, Renumbered, FirstAtDepth;
      var siblings := r.FindSiblings();
      ghost var was, lo, hi := rows, SiblingsFrom(rows, r.start, r.indents), SiblingsTo(rows, r.start, r.indents);
      SiblingsHead(rows, lo, r.start, hi, r.indents);
      var first := if rows[siblings[0]].draggable then rows[siblings[0]].weight else 0;
      rows := Renumber(rows, siblings, weights, first, lo, hi, r.indents);
      forall i | 0 <= i < |rows|
        ensures rows[i] == was[i].(weight := NewWeight(was, r.start, r.indents, weights, i))
      {
        RenumberedWeight(was, r.start, r.indents, weights, i);
      }
    }

    /** Drops the row: writes its inputs, its siblings' weights and its
        descendants' depths, unless nothing has moved. */
    method DropRow(r: RowObject)
      requires r.table == this && r.Valid() && rows[r.start].draggable
      requires rows[r.start].depth == r.indents && (weights.Select? ==> weights.options != [])
      modifies `rows
      ensures rows == Drop(old(r.View()), weights)
    {
      hide DroppedParent, NewWeight;
      if r.changed {
        UpdateFields(r);
        UpdateChildren(r);
      }
    }

    /** The dropped row's own inputs, in the order of the table settings. */
    method UpdateFields(r: RowObject)
      requires r.table == this && r.Valid() && rows[r.start].draggable
      requires rows[r.start].depth == r.indents && (weights.Select? ==> weights.options != [])
      modifies `rows
      ensures |rows| == |old(rows)|
      ensures forall i | 0 <= i < |rows| ::
        rows[i] == DropOwn(old(rows), r.start, r.size, r.indents, weights, i)
    {
      hide DroppedParent, NewWeight;
      UpdateParent(r);
      UpdateDepth(r.start);
      ghost var t := rows;
      UpdateOrder(r);
      forall i | 0 <= i < |rows|
        ensures NewWeight(t, r.start, r.indents, weights, i) ==
          NewWeight(old(rows), r.start, r.indents, weights, i)
      {
        SameWeights(t, old(rows), r.start, r.indents, weights, i);
      }
    }

    /** The depth inputs of the dropped row's descendants. */
    method UpdateChildren(r: RowObject)
      requires r.table == this && r.Valid()
      modifies `rows
      ensures |rows| == |old(rows)|
      ensures forall i | 0 <= i < |rows| :: rows[i] == old(rows)[i].(
        depthField := if r.start < i < r.start + r.size then old(rows)[i].depth else old(rows)[i].depthField)
    {
      for n := r.start + 1 to r.start + r.size
        invariant |rows| == |old(rows)|
        invariant forall i | 0 <= i < |rows| :: rows[i] == old(rows)[i].(
          depthField := if r.start < i < n then old(rows)[i].depth else old(rows)[i].depthField)
      {
        UpdateDepth(n);
      }
    }
  }

  /** Row i after the dropped row's own inputs are written. */
  function DropOwn(rows: seq<Row>, at: nat, size: nat, depth: int, w: WeightInput, i: nat): Row
    requires at < |rows| && rows[at].draggable && i < |rows|
    requires w.Select? ==> w.options != []
  {
    var r := rows[i].(weight := NewWeight(rows, at, depth, w, i));
    if i == at then r.(parent := DroppedParent(rows, at, size, depth), depthField := r.depth) else r
  }

  /** The rows agree in everything that decides who gets which weight. */
  ghost predicate SameLayout(t: seq<Row>, u: seq<Row>) {
    && |t| == |u|
    && forall i | 0 <= i < |t| ::
         t[i].depth == u[i].depth && t[i].draggable == u[i].draggable && t[i].weight == u[i].weight
  }

  lemma {:induction false} SameShallower(t: seq<Row>, u: seq<Row>, i: nat, depth: int)
    requires SameLayout(t, u) && i <= |t|
    ensures Shallower(t, i, depth) == Shallower(u, i, depth)
  {
    if i > 0 { SameShallower(t, u, i - 1, depth); }
  }

  lemma {:induction false} SameNext(t: seq<Row>, u: seq<Row>, i: nat, depth: int)
    requires SameLayout(t, u) && i <= |t|
    ensures NextShallower(t, i, depth) == NextShallower(u, i, depth)
    ensures FirstAtDepth(t, i, depth) == FirstAtDepth(u, i, depth)
    decreases |t| - i
  {
    if i < |t| { SameNext(t, u, i + 1, depth); }
  }

  lemma {:induction false} SameRank(t: seq<Row>, u: seq<Row>, lo: nat, hi: nat, depth: int)
    requires SameLayout(t, u) && lo <= hi <= |t|
    ensures Rank(t, lo, hi, depth) == Rank(u, lo, hi, depth)
    decreases hi
  {
    if lo < hi { SameRank(t, u, lo, hi - 1, depth); }
  }

  /** Parent and depth inputs have no say in the weights. */
  lemma SameWeights(t: seq<Row>, u: seq<Row>, at: nat, depth: int, w: WeightInput, i: nat)
    requires SameLayout(t, u) && at < |t| && i < |t| && (w.Select? ==> w.options != [])
    ensures NewWeight(t, at, depth, w, i) == NewWeight(u, at, depth, w, i)
  {
    hide Shallower, NextShallower, FirstAtDepth, Rank;
    SameShallower(t, u, at, depth);
    SameNext(t, u, at + 1, depth);
    SameNext(t, u, SiblingsFrom(t, at, depth), depth);
    if SiblingsFrom(t, at, depth) <= i {
      SameRank(t, u, SiblingsFrom(t, at, depth), i, depth);
    }
  }

  lemma SiblingsHead(rows: seq<Row>, lo: nat, s: nat, hi: nat, depth: int)
    requires lo <= s < hi <= |rows| && rows[s].depth == depth
    ensures AtDepth(rows, lo, hi, depth) != []
    ensures FirstAtDepth(rows, lo, depth) == AtDepth(rows, lo, hi, depth)[0] < |rows|
  {
    AtDepthHead(rows, lo, hi, depth);
    FirstAtDepthFound(rows, lo, AtDepth(rows, lo, hi, depth)[0], depth);
  }

  /** Row i of a renumbered sibling list. */
  function Renumbered(rows: seq<Row>, w: WeightInput, first: int, lo: nat, hi: nat, depth: int, i: nat): Row
    requires lo <= hi <= |rows| && i < |rows| && (w.Select? ==> w.options != [])
  {
    if lo <= i < hi && Ranked(rows[i], depth)
    then rows[i].(weight := WeightAt(w, first, Rank(rows, lo, i, depth)))
    else rows[i]
  }

  /** Renumbering counts from the first row's weight. */
  lemma RenumberedWeight(rows: seq<Row>, at: nat, depth: int, w: WeightInput, i: nat)
    requires at < |rows| && i < |rows| && (w.Select? ==> w.options != [])
    ensures Renumbered(rows, w, FirstWeight(rows, at, depth), SiblingsFrom(rows, at, depth),
                       SiblingsTo(rows, at, depth), depth, i)
      == rows[i].(weight := NewWeight(rows, at, depth, w, i))
  {
  }

  /** Gives the listed rows that have a weight input increasing weights. */
  method Renumber(rows: seq<Row>, siblings: seq<nat>, w: WeightInput, first: int,
                  ghost lo: nat, ghost hi: nat, ghost depth: int) returns (t: seq<Row>)
    requires lo <= hi <= |rows| && siblings == AtDepth(rows, lo, hi, depth)
    requires w.Select? ==> w.options != []
    ensures |t| == |rows|
    ensures forall i | 0 <= i < |rows| :: t[i] == Renumbered(rows, w, first, lo, hi, depth, i)
  {
    t := rows;
    var given := 0;
    ghost var done := lo;
    for m := 0 to |siblings|
      invariant lo <= done <= hi && |t| == |rows|
      invariant siblings[m..] == AtDepth(rows, done, hi, depth)
      invariant given == Rank(rows, lo, done, depth)
      invariant forall i | 0 <= i < done :: t[i] == Renumbered(rows, w, first, lo, hi, depth, i)
      invariant forall i | done <= i < |rows| :: t[i] == rows[i]
    {
      var i := siblings[m];
      assert siblings[m..][0] == i;
      AtDepthHead(rows, done, hi, depth);
      RankSkip(rows, lo, done, i, depth);
      assert siblings[m..][1..] == siblings[m + 1..];
      if t[i].draggable {
        t := t[i := t[i].(weight := WeightAt(w, first, given))];
        given := given + 1;
      }
      done := i + 1;
    }
    AtDepthHead(rows, done, hi, depth);
  }

  /** What heads a list of the rows at one depth. */
  lemma {:induction false} AtDepthHead(rows: seq<Row>, lo: nat, hi: nat, depth: int)
    requires lo <= hi <= |rows|
    ensures var s := AtDepth(rows, lo, hi, depth);
      if s == [] then forall i | lo <= i < hi :: rows[i].depth != depth
      else
        && lo <= s[0] < hi && rows[s[0]].depth == depth
        && (forall i | lo <= i < s[0] :: rows[i].depth != depth)
        && s[1..] == AtDepth(rows, s[0] + 1, hi, depth)
    decreases hi - lo
  {
    if lo < hi {
      AtDepthHead(rows, lo + 1, hi, depth);
    }
  }

  lemma {:induction false} RankSkip(rows: seq<Row>, lo: nat, i: nat, j: nat, depth: int)
    requires lo <= i <= j <= |rows| && forall k | i <= k < j :: rows[k].depth != depth
    ensures Rank(rows, lo, j, depth) == Rank(rows, lo, i, depth)
    decreases j
  {
    if i < j {
      RankSkip(rows, lo, i, j - 1, depth);
    }
  }

  /** The first row with a parent input. */
  method FirstInput(rows: seq<Row>) returns (f: nat)
    requires exists i :: 0 <= i < |rows| && rows[i].draggable
    ensures f == FirstDraggable(rows, 0) < |rows|
  {
    f := 0;
    while f < |rows| && !rows[f].draggable
      invariant 0 <= f <= |rows| && FirstDraggable(rows, 0) == FirstDraggable(rows, f)
    {
      f := f + 1;
    }
  }

  lemma ChildCountBelow(above: seq<Row>, below: seq<Row>)
    requires below != []
    ensures ChildCount(above + below, |above|) == ChildCount(below, 0)
  {
    var n := ChildCount(below, 0);
    ChildCountUnique(above + below, |above|, n);
  }
}
