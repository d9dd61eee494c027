/**
 Whole editing sessions: rows are grabbed, dragged and dropped again and again.
 The form inputs keep agreeing with the displayed tree, and they determine it.
 */
module DragHistory {
  import opened TreeTable
  import opened Drag
  import opened DragSound
  import opened DragSteps
  import opened DropInputs
  import opened DropFields

  /** Grab one row, make some moves, drop it. */
  datatype Gesture = Gesture(row: nat, events: seq<Event>)

  predicate Grabbable(rows: seq<Row>, g: Gesture) {
    g.row < |rows| && rows[g.row].draggable
  }

  /** Table settings: the depth limit, the kind of weight input, and how the arrow keys
      find a neighbour. */
  datatype Settings = Settings(limit: nat, weights: WeightInput, selector: Selector)

  ghost predicate ValidSettings(c: Settings) {
    ValidInput(c.weights)
  }

  function Start(rows: seq<Row>, c: Settings, g: Gesture): State
    requires Grabbable(rows, g)
  {
    Grab(rows, g.row, c.limit, c.selector)
  }

  /** The drag at the moment of the drop. */
  function Dragged(rows: seq<Row>, c: Settings, g: Gesture): (d: State)
    requires Grabbable(rows, g)
    ensures d.group != [] && d.group[0].draggable
  {
    Run(Start(rows, c, g), g.events)
  }

  lemma DraggedKeeps(rows: seq<Row>, c: Settings, g: Gesture)
    requires Forest(rows, c.limit) && Grabbable(rows, g)
    ensures var d, d0 := Dragged(rows, c, g), Start(rows, c, g);
      Inv(d) && Rest(d) == Rest(d0) && Rigid(d0.group, d.group) && d.limit == c.limit && Inv(d0) && Fits(d0) && Table(d0) == rows
  {
    GrabFits(rows, g.row, c.limit, c.selector);
    RunKeeps(Start(rows, c, g), g.events);
  }

  /** The table after a gesture; a row without a handle cannot be grabbed. */
  function Play(rows: seq<Row>, c: Settings, g: Gesture): seq<Row>
    requires c.weights.Select? ==> c.weights.options != []
  {
    if Grabbable(rows, g) then Drop(Dragged(rows, c, g), c.weights) else rows
  }

  lemma ShiftByNothing(g: seq<Row>)
    ensures Shift(g, 0) == g
  {
  }

  lemma StepUnchanged(d: State, e: Event)
    requires d.group != [] && !Step(d, e).changed
    ensures Table(Step(d, e)) == Table(d) && !d.changed
  {
    ShiftByNothing(d.group);
  }

  /** A row object that was not marked changed left the table alone. */
  lemma {:induction false} RunUnchanged(d: State, es: seq<Event>)
    requires d.group != [] && !Run(d, es).changed
    ensures Table(Run(d, es)) == Table(d) && !d.changed
    decreases |es|
  {
    if es != [] {
      RunUnchanged(Step(d, es[0]), es[1..]);
      StepUnchanged(d, es[0]);
    }
  }

  /** The gesture leaves the row at an allowed depth; its drop, if there is one to
      write, is not stale and, where rising weights are asked for, finds options
      enough. */
  predicate Clean(rows: seq<Row>, c: Settings, g: Gesture, o: Order) {
    Grabbable(rows, g) ==>
      var d := Dragged(rows, c, g);
      Fits(d) && (d.changed ==> !Stale(d) && (o.Strict? ==> Room(d, c.weights)))
  }

  lemma DraggedCarried(rows: seq<Row>, c: Settings, g: Gesture, o: Order)
    requires Forest(rows, c.limit) && FieldsAgree(rows, o) && Grabbable(rows, g)
    ensures Carried(Dragged(rows, c, g), o)
  {
    DraggedKeeps(rows, c, g);
    AgreesCarried(Start(rows, c, g), o);
    RigidAgrees(Start(rows, c, g).group, Dragged(rows, c, g).group, o);
  }

  lemma DropForest(d: State, w: WeightInput)
    requires Inv(d) && Fits(d) && ValidInput(w)
    ensures Forest(Drop(d, w), d.limit)
  {
    FitsForest(d);
    var t, u := Table(d), Drop(d, w);
    forall i | 0 <= i < |u|
      ensures Placed(u, i, d.limit)
    {
      assert Placed(t, i, d.limit);
      assert u[i].depth == t[i].depth;
      assert i > 0 ==> u[i - 1].depth == t[i - 1].depth;
    }
  }

  /** A gesture, whatever its moves, ends with a sound tree and agreeing inputs, its
      weights in the order they were, if and only if it is clean. */
  lemma PlayExact(rows: seq<Row>, c: Settings, g: Gesture, o: Order)
    requires Forest(rows, c.limit) && FieldsAgree(rows, o) && Grabbable(rows, g) && ValidSettings(c)
    ensures Sound(Dragged(rows, c, g)) && FieldsAgree(Play(rows, c, g), o) <==> Clean(rows, c, g, o)
    ensures Clean(rows, c, g, o) ==> Forest(Play(rows, c, g), c.limit)
  {
    hide WeightsOrdered, ParentsAgree, DepthsAgree, Stale, Room;
    var d := Dragged(rows, c, g);
    DraggedKeeps(rows, c, g);
    DraggedCarried(rows, c, g, o);
    FitsIffSound(d);
    if Fits(d) {
      DropForest(d, c.weights);
      if d.changed {
        DropExact(d, c.weights, o);
      } else {
        RunUnchanged(Start(rows, c, g), g.events);
      }
    }
  }

  lemma PlayLength(rows: seq<Row>, c: Settings, g: Gesture)
    requires Forest(rows, c.limit) && ValidSettings(c)
    ensures |Play(rows, c, g)| == |rows|
  {
    if Grabbable(rows, g) {
      DraggedKeeps(rows, c, g);
    }
  }

  function PlayAll(rows: seq<Row>, c: Settings, gs: seq<Gesture>): seq<Row>
    requires c.weights.Select? ==> c.weights.options != []
    decreases |gs|
  {
    if gs == [] then rows else PlayAll(Play(rows, c, gs[0]), c, gs[1..])
  }

  predicate AllClean(rows: seq<Row>, c: Settings, gs: seq<Gesture>, o: Order)
    requires c.weights.Select? ==> c.weights.options != []
    decreases |gs|
  {
    gs != [] ==> Clean(rows, c, gs[0], o) && AllClean(Play(rows, c, gs[0]), c, gs[1..], o)
  }

  /** After every history of clean gestures the table is a forest within the limit and
      all its inputs agree with it, its weights in the order they were. */
  lemma {:induction false} HistoryAgrees(rows: seq<Row>, c: Settings, gs: seq<Gesture>, o: Order)
    requires ValidSettings(c)
    requires Forest(rows, c.limit) && FieldsAgree(rows, o) && AllClean(rows, c, gs, o)
    ensures var t := PlayAll(rows, c, gs); Forest(t, c.limit) && FieldsAgree(t, o)
    decreases |gs|
  {
    if gs != [] {
      if Grabbable(rows, gs[0]) {
        PlayExact(rows, c, gs[0], o);
      }
      HistoryAgrees(Play(rows, c, gs[0]), c, gs[1..], o);
    }
  }

  /* ---- when a drop is never stale ---- */

  predicate AllDraggable(rows: seq<Row>) {
    forall i | 0 <= i < |rows| :: rows[i].draggable
  }

  /** In a table whose first row can be dragged a drop is never stale. */
  lemma NeverStale(rows: seq<Row>, c: Settings, g: Gesture)
    requires Forest(rows, c.limit) && ParentsAgree(rows) && Grabbable(rows, g) && rows[0].draggable
    ensures !Stale(Dragged(rows, c, g))
  {
    DraggedKeeps(rows, c, g);
    var d, d0 := Dragged(rows, c, g), Start(rows, c, g);
    if g.row == 0 {
      assert ParentAgrees(rows, 0);
      assert d.group[0].parent == d0.group[0].parent == rows[0].parent;
    } else {
      assert Rest(d)[0] == Rest(d0)[0] == rows[0];
      assert d.above != [] ==> d.above[0] == Rest(d)[0] && d.above[0] in d.above;
    }
  }

  /** A key as it is written does not take the last row to copy from away. */
  lemma KeyShelters(d: State, e: Event)
    requires Inv(d) && d.selector.Written? && ByKeyboard(e) && Sheltered(d)
    ensures Sheltered(Step(d, e))
  {
    KeysMoveExact(d);
    if e.ArrowUp? && CanRise(d) {
      StepKeeps(d, e);
      assert |KeyUp(d).above| == 0;
      assert Rest(d)[0] == d.above[0] == KeyUp(d).below[0];
    }
  }

  lemma {:induction false} KeysShelter(d: State, es: seq<Event>)
    requires Inv(d) && d.selector.Written? && Sheltered(d) && forall e | e in es :: ByKeyboard(e)
    ensures Sheltered(Run(d, es))
    decreases |es|
  {
    if es != [] {
      assert es[0] in es;
      StepKeeps(d, es[0]);
      KeyShelters(d, es[0]);
      KeysShelter(Step(d, es[0]), es[1..]);
    }
  }

  /** Drags by the keys as they are written are never stale, whatever rows there are. */
  lemma NeverStaleByKeys(rows: seq<Row>, c: Settings, g: Gesture)
    requires Forest(rows, c.limit) && ParentsAgree(rows) && Grabbable(rows, g)
    requires c.selector.Written? && forall e | e in g.events :: ByKeyboard(e)
    ensures !Stale(Dragged(rows, c, g))
  {
    DraggedKeeps(rows, c, g);
    var d, d0 := Dragged(rows, c, g), Start(rows, c, g);
    assert d.group[0].parent == d0.group[0].parent == rows[g.row].parent;
    if rows[g.row].parent != ROOT_VALUE {
      assert ParentAgrees(rows, g.row);
      var p := Parent(rows, g.row);
      ParentOneUp(rows, c.limit, g.row);
      assert rows[p] == d0.above[p] && d0.above[p] in d0.above;
      KeysShelter(d0, g.events);
    }
  }

  lemma RowsDraggable(d0: State, d: State)
    requires AllDraggable(Table(d0)) && Rest(d) == Rest(d0) && Rigid(d0.group, d.group)
    ensures AllDraggable(Table(d))
  {
    TableRows(d0);
    forall i | 0 <= i < |Table(d)|
      ensures Table(d)[i].draggable
    {
      if |d.above| <= i < |d.above| + |d.group| {
        assert Table(d)[i] == d.group[i - |d.above|];
        assert Table(d0)[|d0.above| + (i - |d.above|)] == d0.group[i - |d.above|];
      } else {
        assert Table(d)[i] == Rest(d)[Lower(d, i)];
        assert Table(d0)[Lift(d0, Lower(d, i))] == Rest(d0)[Lower(d, i)];
      }
    }
  }

  lemma DropDraggable(d: State, w: WeightInput)
    requires Inv(d) && ValidInput(w) && AllDraggable(Table(d))
    ensures AllDraggable(Drop(d, w))
  {
  }

  /** Whether the weight inputs can rise in every list of a table of n rows; they need
      not where no rising weights are asked for. */
  predicate EnoughFor(w: WeightInput, n: nat, o: Order) {
    o.Strict? && w.Select? ==> n <= |w.options|
  }

  lemma ReadyClean(rows: seq<Row>, c: Settings, g: Gesture, o: Order)
    requires Forest(rows, c.limit) && Grabbable(rows, g)
    requires AllCareful(Start(rows, c, g), g.events) && !Stale(Dragged(rows, c, g))
    requires EnoughFor(c.weights, |rows|, o)
    ensures Clean(rows, c, g, o)
  {
    GrabFits(rows, g.row, c.limit, c.selector);
    RunReady(Start(rows, c, g), g.events);
    DraggedKeeps(rows, c, g);
    if o.Strict? {
      RoomForAll(Dragged(rows, c, g), c.weights);
    }
  }

  /** Gestures made with careful moves in a table whose first row can be dragged. */
  ghost predicate AllMovesCareful(rows: seq<Row>, c: Settings, gs: seq<Gesture>)
    requires c.weights.Select? ==> c.weights.options != []
    decreases |gs|
  {
    gs != [] ==>
      && (Grabbable(rows, gs[0]) ==> rows[0].draggable && AllCareful(Start(rows, c, gs[0]), gs[0].events))
      && AllMovesCareful(Play(rows, c, gs[0]), c, gs[1..])
  }

  /** Accepted pointer targets, non-empty key intervals and a first row that can be
      dragged are all it takes, over any number of drags; for rising weights, also an
      option for every row. */
  lemma {:induction false} CarefulHistoryAgrees(rows: seq<Row>, c: Settings, gs: seq<Gesture>, o: Order)
    requires ValidSettings(c) && EnoughFor(c.weights, |rows|, o)
    requires Forest(rows, c.limit) && FieldsAgree(rows, o) && AllMovesCareful(rows, c, gs)
    ensures var t := PlayAll(rows, c, gs); Forest(t, c.limit) && FieldsAgree(t, o)
    decreases |gs|
  {
    if gs != [] {
      PlayLength(rows, c, gs[0]);
      if Grabbable(rows, gs[0]) {
        NeverStale(rows, c, gs[0]);
        ReadyClean(rows, c, gs[0], o);
        PlayExact(rows, c, gs[0], o);
      }
      CarefulHistoryAgrees(Play(rows, c, gs[0]), c, gs[1..], o);
    }
  }

  predicate AllByKeyboard(gs: seq<Gesture>) {
    forall g, e | g in gs && e in g.events :: ByKeyboard(e)
  }

  lemma KeyboardClean(rows: seq<Row>, c: Settings, g: Gesture, o: Order)
    requires Forest(rows, c.limit) && ParentsAgree(rows) && Grabbable(rows, g)
    requires EnoughFor(c.weights, |rows|, o)
    requires c.selector.Written? || (c.limit == 0 && rows[0].draggable)
    requires forall e | e in g.events :: ByKeyboard(e)
    ensures Clean(rows, c, g, o)
  {
    GrabFits(rows, g.row, c.limit, c.selector);
    KeyboardCareful(Start(rows, c, g), g.events);
    if c.selector.Written? {
      NeverStaleByKeys(rows, c, g);
    } else {
      NeverStale(rows, c, g);
    }
    ReadyClean(rows, c, g, o);
  }

  /** Any history of drags by the keys as they are written keeps tree and inputs in
      agreement, whatever the table and its depth limit; for rising weights, with an
      option for every row. */
  lemma {:induction false} WrittenHistoryAgrees(rows: seq<Row>, c: Settings, gs: seq<Gesture>, o: Order)
    requires ValidSettings(c) && EnoughFor(c.weights, |rows|, o) && c.selector.Written?
    requires Forest(rows, c.limit) && FieldsAgree(rows, o) && AllByKeyboard(gs)
    ensures var t := PlayAll(rows, c, gs); Forest(t, c.limit) && FieldsAgree(t, o)
    decreases |gs|
  {
    if gs != [] {
      PlayLength(rows, c, gs[0]);
      assert gs[0] in gs;
      if Grabbable(rows, gs[0]) {
        KeyboardClean(rows, c, gs[0], o);
        PlayExact(rows, c, gs[0], o);
      }
      WrittenHistoryAgrees(Play(rows, c, gs[0]), c, gs[1..], o);
    }
  }

  lemma PlayDraggable(rows: seq<Row>, c: Settings, g: Gesture)
    requires Forest(rows, c.limit) && ValidSettings(c) && AllDraggable(rows) && Grabbable(rows, g)
    ensures AllDraggable(Play(rows, c, g))
  {
    DraggedKeeps(rows, c, g);
    RowsDraggable(Start(rows, c, g), Dragged(rows, c, g));
    DropDraggable(Dragged(rows, c, g), c.weights);
  }

  /** With the keys as they are intended, without a depth limit, that is so of tables
      whose rows can all be dragged. */
  lemma {:induction false} IntendedHistoryAgrees(rows: seq<Row>, c: Settings, gs: seq<Gesture>, o: Order)
    requires ValidSettings(c) && EnoughFor(c.weights, |rows|, o) && c.limit == 0
    requires Forest(rows, 0) && FieldsAgree(rows, o) && AllDraggable(rows) && AllByKeyboard(gs)
    ensures var t := PlayAll(rows, c, gs); Forest(t, 0) && FieldsAgree(t, o) && AllDraggable(t)
    decreases |gs|
  {
    if gs != [] {
      PlayLength(rows, c, gs[0]);
      assert gs[0] in gs;
      if Grabbable(rows, gs[0]) {
        KeyboardClean(rows, c, gs[0], o);
        PlayExact(rows, c, gs[0], o);
        PlayDraggable(rows, c, gs[0]);
      }
      IntendedHistoryAgrees(Play(rows, c, gs[0]), c, gs[1..], o);
    }
  }
}
