/**
 What dropping a row writes into the form. Only the dropped row, the depth inputs
 of its descendants and the weights of one sibling list are written; the theorem
 says when every input of the whole table agrees with the displayed tree again.
 */
module DropFields {
  import opened TreeTable
  import opened Drag
  import opened DragSound
  import opened DropInputs

  function IdOrRoot(rows: seq<Row>, p: int): int
    requires p < |rows|
  {
    if p < 0 then ROOT_VALUE else rows[p].id
  }

  /** The parent input of row i, as the displayed tree has it. */
  function ParentValue(rows: seq<Row>, i: nat): int
    requires i < |rows|
  {
    IdOrRoot(rows, Parent(rows, i))
  }

  ghost predicate Siblings(rows: seq<Row>, i: nat, j: nat) {
    i < j < |rows| && rows[i].draggable && rows[j].draggable && Parent(rows, i) == Parent(rows, j)
  }

  predicate ParentAgrees(rows: seq<Row>, i: nat)
    requires i < |rows|
  {
    rows[i].draggable ==> rows[i].parent == ParentValue(rows, i)
  }

  ghost predicate ParentsAgree(rows: seq<Row>) {
    forall i | 0 <= i < |rows| :: ParentAgrees(rows, i)
  }

  ghost predicate DepthsAgree(rows: seq<Row>) {
    forall i | 0 <= i < |rows| && rows[i].draggable :: rows[i].depthField == rows[i].depth
  }

  /** How the weights of siblings follow each other: rising, as a drop leaves those it
      writes; never falling, as in a table whose weights are still all the same; or in
      no order at all. */
  datatype Order = Strict | Weak | Free

  predicate InOrder(o: Order, a: int, b: int) {
    match o
    case Strict => a < b
    case Weak => a <= b
    case Free => true
  }

  ghost predicate WeightsOrdered(rows: seq<Row>, o: Order) {
    forall i, j | 0 <= i < j < |rows| && Siblings(rows, i, j) :: InOrder(o, rows[i].weight, rows[j].weight)
  }

  ghost predicate WeightsAgree(rows: seq<Row>) {
    WeightsOrdered(rows, Strict)
  }

  /** Parents and depths in the form agree with the displayed tree, and weights are in
      this order. */
  ghost predicate FieldsAgree(rows: seq<Row>, o: Order) {
    ParentsAgree(rows) && DepthsAgree(rows) && WeightsOrdered(rows, o)
  }

  /** The table after the drop. Nothing is written when nothing has changed. */
  function Drop(d: State, w: WeightInput): seq<Row>
    requires d.group != [] && d.group[0].draggable
    requires w.Select? ==> w.options != []
  {
    assert Table(d)[|d.above|] == d.group[0];
    if d.changed then DropTable(Table(d), |d.above|, |d.group|, d.indents, w) else Table(d)
  }

  /* ---- what a drag carries along ---- */

  /** The parent inputs of a group, but for its first row's, agree with the group. */
  ghost predicate GroupParentsAgree(g: seq<Row>) {
    forall j | 0 < j < |g| :: ParentAgrees(g, j)
  }

  ghost predicate GroupOrdered(g: seq<Row>, o: Order) {
    forall i, j | 0 < i < j < |g| && Siblings(g, i, j) :: InOrder(o, g[i].weight, g[j].weight)
  }

  ghost predicate ParentsCarried(d: State) {
    ParentsAgree(Rest(d)) && GroupParentsAgree(d.group)
  }

  ghost predicate WeightsCarried(d: State, o: Order) {
    WeightsOrdered(Rest(d), o) && GroupOrdered(d.group, o)
  }

  ghost predicate Carried(d: State, o: Order) {
    ParentsCarried(d) && DepthsAgree(Rest(d)) && WeightsCarried(d, o)
  }

  lemma RigidParents(g: seq<Row>, h: seq<Row>, j: nat)
    requires Rigid(g, h) && j < |g|
    ensures Parent(h, j) == Parent(g, j)
  {
    assert forall i | 0 <= i < |g| :: h[i].depth - h[j].depth == g[i].depth - g[j].depth;
    ParentUnique(h, j, Parent(g, j));
  }

  lemma RigidAgrees(g: seq<Row>, h: seq<Row>, o: Order)
    requires Rigid(g, h)
    ensures GroupParentsAgree(g) ==> GroupParentsAgree(h)
    ensures GroupOrdered(g, o) ==> GroupOrdered(h, o)
  {
    forall j | 0 <= j < |g|
      ensures Parent(h, j) == Parent(g, j)
    {
      RigidParents(g, h, j);
    }
    forall j | 0 < j < |h| && ParentAgrees(g, j)
      ensures ParentAgrees(h, j)
    {
    }
    forall i, j | 0 < i < j < |h| && Siblings(h, i, j)
      ensures Siblings(g, i, j)
    {
    }
  }

  lemma TableRows(d: State)
    ensures forall i | 0 <= i < |Rest(d)| :: Table(d)[Lift(d, i)] == Rest(d)[i]
    ensures forall j | 0 <= j < |d.group| :: Table(d)[|d.above| + j] == d.group[j]
  {
  }

  /** The index in the rest of a table row outside the group. */
  function Lower(d: State, i: int): int {
    if i < |d.above| then i else i - |d.group|
  }

  predicate InGroup(d: State, i: nat) {
    |d.above| < i < |d.above| + |d.group|
  }

  lemma ParentElsewhere(d: State, i: nat)
    requires Inv(d) && Sound(d) && i < |Table(d)| && i != |d.above|
    ensures InGroup(d, i) ==>
      && Table(d)[i] == d.group[i - |d.above|]
      && Parent(Table(d), i) == |d.above| + Parent(d.group, i - |d.above|) >= |d.above|
    ensures !InGroup(d, i) ==>
      && Table(d)[i] == Rest(d)[Lower(d, i)]
      && Parent(Table(d), i) == Lift(d, Parent(Rest(d), Lower(d, i)))
  {
    TableRows(d);
    FitsIffSound(d);
    if InGroup(d, i) {
      assert Hangs(d.group, i - |d.above|);
      assert Parent(Table(d), |d.above| + (i - |d.above|)) == |d.above| + Parent(d.group, i - |d.above|);
    } else {
      assert Lift(d, Lower(d, i)) == i;
      assert Parent(Table(d), Lift(d, Lower(d, i))) == Lift(d, Parent(Rest(d), Lower(d, i)));
    }
  }

  /** What the parent input should hold is the same, seen in the whole table or
      in the part of it the row belongs to. */
  lemma ValueElsewhere(d: State, i: nat)
    requires Inv(d) && Sound(d) && i < |Table(d)| && i != |d.above|
    ensures ParentValue(Table(d), i) ==
      if InGroup(d, i) then ParentValue(d.group, i - |d.above|) else ParentValue(Rest(d), Lower(d, i))
  {
    ParentElsewhere(d, i);
    TableRows(d);
  }

  lemma GroupParentAgrees(d: State, j: nat)
    requires Inv(d) && Sound(d) && ParentsAgree(Table(d)) && 0 < j < |d.group|
    ensures ParentAgrees(d.group, j)
  {
    var i := |d.above| + j;
    ParentElsewhere(d, i);
    ValueElsewhere(d, i);
    assert Hangs(d.group, j);
    assert ParentAgrees(Table(d), i);
  }

  lemma GroupSiblings(d: State, i: nat, j: nat)
    requires Inv(d) && Sound(d) && 0 < i < j && Siblings(d.group, i, j)
    ensures Siblings(Table(d), |d.above| + i, |d.above| + j)
  {
    hide Inv, Sound, Parent, Rest, Lift;
    ParentElsewhere(d, |d.above| + i);
    ParentElsewhere(d, |d.above| + j);
  }

  lemma RestParentAgrees(d: State, i: nat)
    requires Inv(d) && Sound(d) && ParentsAgree(Table(d)) && i < |Rest(d)|
    ensures ParentAgrees(Rest(d), i)
  {
    TableRows(d);
    assert Parent(Table(d), Lift(d, i)) == Lift(d, Parent(Rest(d), i));
    assert ParentAgrees(Table(d), Lift(d, i));
  }

  lemma RestSiblings(d: State, i: nat, j: nat)
    requires Inv(d) && Sound(d) && Siblings(Rest(d), i, j)
    ensures Siblings(Table(d), Lift(d, i), Lift(d, j))
  {
    TableRows(d);
    assert Parent(Table(d), Lift(d, i)) == Lift(d, Parent(Rest(d), i));
    assert Parent(Table(d), Lift(d, j)) == Lift(d, Parent(Rest(d), j));
  }

  /** Taking a group out of a table leaves what agrees in it, kind by kind. */
  lemma AgreesCarried(d: State, o: Order)
    requires Inv(d) && Fits(d)
    ensures ParentsAgree(Table(d)) ==> ParentsCarried(d)
    ensures DepthsAgree(Table(d)) ==> DepthsAgree(Rest(d))
    ensures WeightsOrdered(Table(d), o) ==> WeightsCarried(d, o)
  {
    FitsIffSound(d);
    if ParentsAgree(Table(d)) {
      CarriesParents(d);
    }
    TableRows(d);
    if WeightsOrdered(Table(d), o) {
      CarriesWeights(d, o);
    }
  }

  lemma CarriesParents(d: State)
    requires Inv(d) && Sound(d) && ParentsAgree(Table(d))
    ensures ParentsCarried(d)
  {
    forall i | 0 <= i < |Rest(d)|
      ensures ParentAgrees(Rest(d), i)
    {
      RestParentAgrees(d, i);
    }
    forall j | 0 < j < |d.group|
      ensures ParentAgrees(d.group, j)
    {
      GroupParentAgrees(d, j);
    }
  }

  lemma CarriesWeights(d: State, o: Order)
    requires Inv(d) && Sound(d) && WeightsOrdered(Table(d), o)
    ensures WeightsCarried(d, o)
  {
    hide Inv, Sound, Parent;
    TableRows(d);
    forall i, j | 0 <= i < j < |Rest(d)| && Siblings(Rest(d), i, j)
      ensures InOrder(o, Rest(d)[i].weight, Rest(d)[j].weight)
    {
      RestSiblings(d, i, j);
    }
    forall i, j | 0 < i < j < |d.group| && Siblings(d.group, i, j)
      ensures InOrder(o, d.group[i].weight, d.group[j].weight)
    {
      GroupSiblings(d, i, j);
    }
  }

  /* ---- the sibling list ---- */

  /** The stretch that `findSiblings` walks over holds, at the dropped row's depth, exactly
      the rows with its parent. */
  lemma SameDepthExact(d: State, i: nat)
    requires Inv(d) && Fits(d) && i < |Table(d)|
    ensures SiblingsFrom(Table(d), |d.above|, d.indents) <= i < SiblingsTo(Table(d), |d.above|, d.indents)
        && Table(d)[i].depth == d.indents
      <==> Parent(Table(d), i) == Parent(Table(d), |d.above|)
  {
    FitsForest(d);
    var t, a := Table(d), |d.above|;
    assert t[a] == d.group[0];
    var lo, hi := SiblingsFrom(Table(d), |d.above|, d.indents), SiblingsTo(Table(d), |d.above|, d.indents);
    if lo <= i < hi && t[i].depth == d.indents {
      assert IsParent(t, i, lo - 1);
      ParentUnique(t, i, lo - 1);
    }
    ParentOneUp(t, d.limit, i);
    ParentOneUp(t, d.limit, a);
  }

  /** `findSiblings` collects exactly the rows with the dropped row's parent. */
  lemma SiblingsExact(d: State, i: nat)
    requires Inv(d) && Fits(d) && i < |Table(d)|
    ensures InSiblings(Table(d), |d.above|, d.indents, i) <==>
      Table(d)[i].draggable && Parent(Table(d), i) == Parent(Table(d), |d.above|)
  {
    SameDepthExact(d, i);
  }

  /* ---- the drop ---- */

  /** At the root level the lookup finds a row to copy the parent input from: a
      draggable one above or, at the very top, the one right below the group. */
  predicate Sheltered(d: State) {
    || (exists r <- d.above :: r.draggable)
    || (d.above == [] && d.below != [] && d.below[0].draggable)
  }

  /** The root-level drop that goes wrong: the lookup finds no row but the dropped one,
      whose parent input still names a parent. */
  predicate Stale(d: State)
    requires d.group != []
  {
    d.indents == 0 && d.group[0].parent != ROOT_VALUE && !Sheltered(d)
  }

  /** The lookup ends at the dropped row itself exactly if it finds no other. */
  lemma ShelteredExact(d: State)
    requires d.group != [] && d.group[0].draggable
    ensures Table(d)[|d.above|] == d.group[0]
    ensures RootSource(Table(d), |d.above|, |d.group|) != |d.above| <==> Sheltered(d)
  {
    var t, a := Table(d), |d.above|;
    assert t[a] == d.group[0];
    assert forall i | 0 <= i < a :: t[i] == d.above[i] && t[i] in d.above;
    assert a + |d.group| < |t| ==> t[a + |d.group|] == d.below[0];
  }

  /** The dropped row's parent input is right if and only if it is not stale. */
  lemma DroppedParentExact(d: State)
    requires Inv(d) && Fits(d) && ParentsAgree(Rest(d))
    ensures Table(d)[|d.above|] == d.group[0]
    ensures DroppedParent(Table(d), |d.above|, |d.group|, d.indents) == ParentValue(Table(d), |d.above|) <==> !Stale(d)
  {
    FitsForest(d);
    TableRows(d);
    ShelteredExact(d);
    var t, a := Table(d), |d.above|;
    ParentOneUp(t, d.limit, a);
    if d.indents == 0 && Sheltered(d) {
      RootSourceTop(d);
      var s := RootSource(t, a, |d.group|);
      var i := if s < a then s else s - |d.group|;
      assert Lift(d, i) == s && Rest(d)[i] == t[s];
      ParentOneUp(Rest(d), d.limit, i);
      assert ParentAgrees(Rest(d), i);
    }
  }

  lemma RootSourceTop(d: State)
    requires Inv(d) && Fits(d) && d.indents == 0 && Sheltered(d)
    ensures Table(d)[|d.above|] == d.group[0]
    ensures var s := RootSource(Table(d), |d.above|, |d.group|);
      && (s < |d.above| || s >= |d.above| + |d.group|)
      && Table(d)[s].draggable && Table(d)[s].depth == 0
  {
    FitsForest(d);
    ShelteredExact(d);
    var t, a, s := Table(d), |d.above|, RootSource(Table(d), |d.above|, |d.group|);
    assert Placed(t, s, d.limit);
    if s == a + |d.group| {
      assert t[s] == d.below[0];
    }
  }

  /** The select list, if it is one, has an option for every sibling. */
  predicate Room(d: State, w: WeightInput)
    requires d.group != []
  {
    EnoughOptions(Table(d), |d.above|, d.indents, w)
  }

  /** The weights of the siblings of row a rise. */
  ghost predicate ListRises(rows: seq<Row>, a: nat)
    requires a < |rows|
  {
    forall i, j | 0 <= i < j < |rows| && Siblings(rows, i, j) && Parent(rows, i) == Parent(rows, a) ::
      rows[i].weight < rows[j].weight
  }

  /** What a drop does to the inputs of the whole table, kind by kind, each from the same
      kind alone. Parents agree with the displayed tree if and only if the dropped row's
      was not stale; depths agree; weights stay in whatever order they were, rising
      everywhere if and only if the options did not run out. In the dropped row's list
      they rise, if the options suffice, whatever they were before. */
  lemma DropExact(d: State, w: WeightInput, o: Order)
    requires Inv(d) && Fits(d) && d.changed && ValidInput(w)
    ensures ParentsCarried(d) ==> (ParentsAgree(Drop(d, w)) <==> !Stale(d))
    ensures DepthsAgree(Rest(d)) ==> DepthsAgree(Drop(d, w))
    ensures WeightsCarried(d, o) ==> (WeightsOrdered(Drop(d, w), o) <==> (o.Strict? ==> Room(d, w)))
    ensures |Drop(d, w)| == |Table(d)| && (ListRises(Drop(d, w), |d.above|) <==> Room(d, w))
    ensures forall i | 0 <= i < |Drop(d, w)| :: Drop(d, w)[i].depth == Table(d)[i].depth
  {
    hide Stale, DroppedParent, NewWeight, Fits, Room, WeightsOrdered, ParentsAgree, ListRises;
    if ParentsCarried(d) {
      DropParents(d, w);
    }
    if DepthsAgree(Rest(d)) {
      DropDepths(d, w);
    }
    ListExact(d, w);
    if WeightsCarried(d, o) {
      if o.Strict? && !Room(d, w) {
        NoRoom(d, w);
      } else {
        DropWeights(d, w, o);
      }
    }
  }

  /** The same rows at the same depths; other inputs may differ. */
  ghost predicate SameTree(t: seq<Row>, u: seq<Row>) {
    && |t| == |u|
    && forall i | 0 <= i < |t| ::
         t[i].depth == u[i].depth && t[i].id == u[i].id && t[i].draggable == u[i].draggable
  }

  lemma SameTreeValue(t: seq<Row>, u: seq<Row>, i: nat)
    requires SameTree(t, u) && i < |t|
    ensures Parent(u, i) == Parent(t, i) && ParentValue(u, i) == ParentValue(t, i)
  {
    ParentUnique(u, i, Parent(t, i));
  }

  /** When only row a's parent input is rewritten, all parents agree if and only if
      that one was written right. */
  lemma OneParentWritten(t: seq<Row>, u: seq<Row>, a: nat)
    requires SameTree(t, u) && a < |t| && t[a].draggable
    requires forall i | 0 <= i < |t| && i != a :: ParentAgrees(t, i) && u[i].parent == t[i].parent
    ensures ParentsAgree(u) <==> u[a].parent == ParentValue(t, a)
  {
    forall i | 0 <= i < |u|
      ensures ParentAgrees(u, i) <==> (i == a ==> u[a].parent == ParentValue(t, a))
    {
      SameTreeValue(t, u, i);
    }
    assert ParentsAgree(u) ==> ParentAgrees(u, a);
  }

  lemma DropRows(d: State, w: WeightInput)
    requires d.group != [] && d.group[0].draggable && d.changed && (w.Select? ==> w.options != [])
    ensures SameTree(Table(d), Drop(d, w))
    ensures forall i | 0 <= i < |Table(d)| && i != |d.above| ::
      Drop(d, w)[i].parent == Table(d)[i].parent
    ensures forall i | 0 <= i < |Table(d)| ::
      Drop(d, w)[i].weight == NewWeight(Table(d), |d.above|, d.indents, w, i)
  {
  }

  lemma DropParents(d: State, w: WeightInput)
    requires Inv(d) && Fits(d) && ParentsCarried(d) && d.changed && ValidInput(w)
    ensures ParentsAgree(Drop(d, w)) <==> !Stale(d)
  {
    DropRows(d, w);
    OtherParentsAgree(d);
    DroppedParentExact(d);
    OneParentWritten(Table(d), Drop(d, w), |d.above|);
  }

  /** Every other row's parent input agrees already. */
  lemma OtherParentsAgree(d: State)
    requires Inv(d) && Fits(d) && ParentsCarried(d)
    ensures forall i | 0 <= i < |Table(d)| && i != |d.above| :: ParentAgrees(Table(d), i)
  {
    FitsIffSound(d);
    forall i | 0 <= i < |Table(d)| && i != |d.above|
      ensures ParentAgrees(Table(d), i)
    {
      ParentElsewhere(d, i);
      ValueElsewhere(d, i);
      if InGroup(d, i) {
        assert ParentAgrees(d.group, i - |d.above|);
      } else {
        var j := Lower(d, i);
        assert ParentAgrees(Rest(d), j);
      }
    }
  }

  /** The depth inputs outside the group agree already, and those inside are written. */
  lemma DropDepths(d: State, w: WeightInput)
    requires d.group != [] && d.group[0].draggable && d.changed && ValidInput(w)
    requires DepthsAgree(Rest(d))
    ensures DepthsAgree(Drop(d, w))
  {
    hide DroppedParent, NewWeight;
    var t, u := Table(d), Drop(d, w);
    forall i | 0 <= i < |u| && u[i].draggable
      ensures u[i].depthField == u[i].depth
    {
      assert i < |d.above| || i >= |d.above| + |d.group| ==> t[i] == Rest(d)[Lower(d, i)];
    }
  }

  lemma {:induction false} RankGrows(rows: seq<Row>, lo: nat, i: nat, j: nat, depth: int)
    requires lo <= i < j <= |rows| && Ranked(rows[i], depth)
    ensures Rank(rows, lo, i, depth) < Rank(rows, lo, j, depth)
    decreases j
  {
    if i + 1 < j {
      RankGrows(rows, lo, i, j - 1, depth);
    }
  }

  /** Every rank below the total is taken by some row. */
  lemma {:induction false} RankTaken(rows: seq<Row>, lo: nat, hi: nat, depth: int, rank: nat) returns (i: nat)
    requires lo <= hi <= |rows| && rank < Rank(rows, lo, hi, depth)
    ensures lo <= i < hi && Ranked(rows[i], depth) && Rank(rows, lo, i, depth) == rank
    decreases hi
  {
    if rank == Rank(rows, lo, hi - 1, depth) {
      i := hi - 1;
    } else {
      i := RankTaken(rows, lo, hi - 1, depth, rank);
    }
  }

  predicate EnoughOptions(rows: seq<Row>, at: nat, depth: int, w: WeightInput)
    requires at < |rows|
  {
    w.Select? ==>
      Rank(rows, SiblingsFrom(rows, at, depth), SiblingsTo(rows, at, depth), depth) <= |w.options|
  }

  lemma {:induction false} RankBound(rows: seq<Row>, lo: nat, hi: nat, depth: int)
    requires lo <= hi <= |rows|
    ensures Rank(rows, lo, hi, depth) <= hi - lo
    decreases hi
  {
    if lo < hi {
      RankBound(rows, lo, hi - 1, depth);
    }
  }

  /** An option for every row is always enough. */
  lemma RoomForAll(d: State, w: WeightInput)
    requires d.group != [] && (w.Select? ==> |Table(d)| <= |w.options|)
    ensures Room(d, w)
  {
    var at, t := |d.above|, Table(d);
    RankBound(t, SiblingsFrom(t, at, d.indents), SiblingsTo(t, at, d.indents), d.indents);
  }

  /** Siblings of the dropped row never get falling weights, and rising ones while there
      is room. */
  lemma RenumberedWeights(rows: seq<Row>, at: nat, depth: int, w: WeightInput, i: nat, j: nat)
    requires at < |rows| && ValidInput(w)
    requires i < j < |rows| && InSiblings(rows, at, depth, i) && InSiblings(rows, at, depth, j)
    ensures NewWeight(rows, at, depth, w, i) <= NewWeight(rows, at, depth, w, j)
    ensures EnoughOptions(rows, at, depth, w) ==> NewWeight(rows, at, depth, w, i) < NewWeight(rows, at, depth, w, j)
  {
    var lo := SiblingsFrom(rows, at, depth);
    RankGrows(rows, lo, i, j, depth);
    RankGrows(rows, lo, j, SiblingsTo(rows, at, depth), depth);
  }

  lemma DropWeights(d: State, w: WeightInput, o: Order)
    requires Inv(d) && Fits(d) && WeightsCarried(d, o) && d.changed && ValidInput(w) && (o.Strict? ==> Room(d, w))
    ensures WeightsOrdered(Drop(d, w), o)
  {
    hide NewWeight, Room, Fits;
    var t, u := Table(d), Drop(d, w);
    DropRows(d, w);
    forall i, j | 0 <= i < j < |u| && Siblings(u, i, j)
      ensures InOrder(o, u[i].weight, u[j].weight)
    {
      SameTreeValue(t, u, i);
      SameTreeValue(t, u, j);
      NewWeightsOrdered(d, w, o, i, j);
    }
  }

  lemma NewWeightsOrdered(d: State, w: WeightInput, o: Order, i: nat, j: nat)
    requires Inv(d) && Fits(d) && WeightsCarried(d, o) && ValidInput(w) && (o.Strict? ==> Room(d, w))
    requires Siblings(Table(d), i, j)
    ensures InOrder(o, NewWeight(Table(d), |d.above|, d.indents, w, i), NewWeight(Table(d), |d.above|, d.indents, w, j))
  {
    SiblingsExact(d, i);
    SiblingsExact(d, j);
    if InSiblings(Table(d), |d.above|, d.indents, i) {
      RenumberedWeights(Table(d), |d.above|, d.indents, w, i, j);
    } else {
      OtherWeights(d, o, i, j);
    }
  }

  /** The dropped row's list rises if and only if there is an option for each. */
  lemma ListExact(d: State, w: WeightInput)
    requires Inv(d) && Fits(d) && d.changed && ValidInput(w)
    ensures |Drop(d, w)| == |Table(d)| && (ListRises(Drop(d, w), |d.above|) <==> Room(d, w))
  {
    hide NewWeight, Fits, InSiblings;
    var t, u, a := Table(d), Drop(d, w), |d.above|;
    DropRows(d, w);
    SameTreeValue(t, u, a);
    if Room(d, w) {
      forall i, j | 0 <= i < j < |u| && Siblings(u, i, j) && Parent(u, i) == Parent(u, a)
        ensures u[i].weight < u[j].weight
      {
        SameTreeValue(t, u, i);
        SameTreeValue(t, u, j);
        SiblingsExact(d, i);
        SiblingsExact(d, j);
        RenumberedWeights(t, a, d.indents, w, i, j);
      }
    } else {
      var i, j := TwoAlike(d, w);
    }
  }

  /** When the options run out, the last two siblings end up with equal weights. */
  lemma TwoAlike(d: State, w: WeightInput) returns (i: nat, j: nat)
    requires Inv(d) && Fits(d) && d.changed && ValidInput(w) && !Room(d, w)
    ensures var u := Drop(d, w);
      |u| == |Table(d)| && Siblings(u, i, j) && Parent(u, i) == Parent(u, |d.above|) && u[i].weight == u[j].weight
  {
    hide NewWeight;
    var t, u := Table(d), Drop(d, w);
    i, j := EqualWeights(t, |d.above|, d.indents, w);
    DropRows(d, w);
    SiblingsExact(d, i);
    SiblingsExact(d, j);
    SameTreeValue(t, u, i);
    SameTreeValue(t, u, j);
    SameTreeValue(t, u, |d.above|);
  }

  lemma NoRoom(d: State, w: WeightInput)
    requires Inv(d) && Fits(d) && d.changed && ValidInput(w) && !Room(d, w)
    ensures !WeightsAgree(Drop(d, w))
  {
    var i, j := TwoAlike(d, w);
  }

  lemma EqualWeights(t: seq<Row>, at: nat, depth: int, w: WeightInput) returns (i: nat, j: nat)
    requires at < |t| && ValidInput(w) && !EnoughOptions(t, at, depth, w)
    ensures i < j < |t| && InSiblings(t, at, depth, i) && InSiblings(t, at, depth, j)
    ensures NewWeight(t, at, depth, w, i) == NewWeight(t, at, depth, w, j)
  {
    var lo, hi := SiblingsFrom(t, at, depth), SiblingsTo(t, at, depth);
    j := RankTaken(t, lo, hi, depth, |w.options|);
    i := RankTaken(t, lo, j, depth, |w.options| - 1);
  }

  lemma GroupWeights(d: State, o: Order, i: nat, j: nat)
    requires Inv(d) && Sound(d) && GroupOrdered(d.group, o)
    requires Siblings(Table(d), i, j) && j != |d.above| && InGroup(d, i)
    ensures InOrder(o, Table(d)[i].weight, Table(d)[j].weight)
  {
    hide Inv, Sound, Rest, InOrder;
    ParentElsewhere(d, i);
    ParentElsewhere(d, j);
    assert InGroup(d, j);
    assert Siblings(d.group, i - |d.above|, j - |d.above|);
  }

  lemma RestWeights(d: State, o: Order, i: nat, j: nat)
    requires Inv(d) && Sound(d) && WeightsOrdered(Rest(d), o)
    requires Siblings(Table(d), i, j) && i != |d.above| && j != |d.above| && !InGroup(d, i)
    ensures InOrder(o, Table(d)[i].weight, Table(d)[j].weight)
  {
    hide Inv, Sound, InOrder;
    ParentElsewhere(d, i);
    ParentElsewhere(d, j);
    assert !InGroup(d, j);
    assert Siblings(Rest(d), Lower(d, i), Lower(d, j));
  }

  /** Rows that are siblings elsewhere keep the order of their weights. */
  lemma OtherWeights(d: State, o: Order, i: nat, j: nat)
    requires Inv(d) && Fits(d) && WeightsCarried(d, o)
    requires Siblings(Table(d), i, j) && i != |d.above| && j != |d.above|
    ensures InOrder(o, Table(d)[i].weight, Table(d)[j].weight)
  {
    hide Siblings, Parent, Sound, Inv, Fits;
    FitsIffSound(d);
    if InGroup(d, i) {
      GroupWeights(d, o, i, j);
    } else {
      RestWeights(d, o, i, j);
    }
  }
}
