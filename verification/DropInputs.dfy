/**
 What dropping a row writes into the inputs of the table: the dropped row's own
 inputs, the depths of its descendants and the weights of its siblings. The
 dropped row stands at index `at`, heads a group of `size` rows and has `depth`
 indentations.
 */
module DropInputs {
  import opened Maybe
  import opened TreeTable

  /* ---- the parent input ---- */

  function FirstDraggable(rows: seq<Row>, i: nat): (f: nat)
    requires i <= |rows|
    ensures i <= f <= |rows|
    ensures f < |rows| ==> rows[f].draggable
    ensures forall j | i <= j < f :: !rows[j].draggable
    decreases |rows| - i
  {
    if i == |rows| || rows[i].draggable then i else FirstDraggable(rows, i + 1)
  }

  /** The row whose parent input is copied when no parent is found: the first row,
      or, if that is the dropped row, the row after its group. When there is no
      such draggable row the lookup runs over the whole page and finds the first
      parent input there. */
  function RootSource(rows: seq<Row>, at: nat, size: nat): (s: nat)
    requires at < |rows| && rows[at].draggable
    ensures s < |rows|
  {
    var next := at + size;
    if rows[0].draggable && at != 0 then 0
    else if rows[0].draggable && next < |rows| && rows[next].draggable then next
    else FirstDraggable(rows, 0)
  }

  function DroppedParent(rows: seq<Row>, at: nat, size: nat, depth: int): int
    requires at < |rows| && rows[at].draggable
  {
    var p := Shallower(rows, at, depth);
    if p >= 0 then rows[p].id else rows[RootSource(rows, at, size)].parent
  }

  /* ---- the weights ---- */

  /** First row from i on that is shallower than depth, or the end. */
  function NextShallower(rows: seq<Row>, i: nat, depth: int): (h: nat)
    requires i <= |rows|
    ensures i <= h <= |rows|
    ensures h < |rows| ==> rows[h].depth < depth
    ensures forall j | i <= j < h :: rows[j].depth >= depth
    decreases |rows| - i
  {
    if i == |rows| || rows[i].depth < depth then i else NextShallower(rows, i + 1, depth)
  }

  predicate Ranked(r: Row, depth: int) {
    r.draggable && r.depth == depth
  }

  /** How many rows with a weight input stand at `depth` in rows[lo..hi]. */
  function Rank(rows: seq<Row>, lo: nat, hi: nat, depth: int): nat
    requires lo <= hi <= |rows|
    decreases hi - lo
  {
    if lo == hi then 0
    else Rank(rows, lo, hi - 1, depth) + if Ranked(rows[hi - 1], depth) then 1 else 0
  }

  function FirstAtDepth(rows: seq<Row>, i: nat, depth: int): (f: nat)
    requires i <= |rows|
    ensures i <= f <= |rows|
    ensures f < |rows| ==> rows[f].depth == depth
    decreases |rows| - i
  {
    if i == |rows| || rows[i].depth == depth then i else FirstAtDepth(rows, i + 1, depth)
  }

  lemma {:induction false} FirstAtDepthFound(rows: seq<Row>, lo: nat, f: nat, depth: int)
    requires lo <= f < |rows| && rows[f].depth == depth
    requires forall i | lo <= i < f :: rows[i].depth != depth
    ensures FirstAtDepth(rows, lo, depth) == f
    decreases f - lo
  {
    if lo < f {
      FirstAtDepthFound(rows, lo + 1, f, depth);
    }
  }

  /** The stretch of the table that `findSiblings` walks over. */
  function SiblingsFrom(rows: seq<Row>, at: nat, depth: int): nat
    requires at <= |rows|
  {
    Shallower(rows, at, depth) + 1
  }

  function SiblingsTo(rows: seq<Row>, at: nat, depth: int): nat
    requires at < |rows|
  {
    NextShallower(rows, at + 1, depth)
  }

  predicate InSiblings(rows: seq<Row>, at: nat, depth: int, i: nat)
    requires at < |rows| && i < |rows|
  {
    SiblingsFrom(rows, at, depth) <= i < SiblingsTo(rows, at, depth) && Ranked(rows[i], depth)
  }

  /** The first sibling's weight, or 0 if it has no weight input. */
  function FirstWeight(rows: seq<Row>, at: nat, depth: int): int
    requires at <= |rows|
  {
    var f := FirstAtDepth(rows, SiblingsFrom(rows, at, depth), depth);
    if f < |rows| && rows[f].draggable then rows[f].weight else 0
  }

  /** A weight input: a number field, or a select list with these options. */
  datatype WeightInput = Number | Select(options: seq<int>)

  /** A select list offers something, in increasing order. */
  ghost predicate ValidInput(w: WeightInput) {
    w.Select? ==>
      && w.options != []
      && forall i, j | 0 <= i < j < |w.options| :: w.options[i] < w.options[j]
  }

  /** The weight of the sibling after `rank` others; a select list that runs out of
      options repeats its last one. */
  function WeightAt(w: WeightInput, first: int, rank: nat): int
    requires w.Select? ==> w.options != []
  {
    match w
    case Number => first + rank
    case Select(options) => options[Min(rank, |options| - 1)]
  }

  function NewWeight(rows: seq<Row>, at: nat, depth: int, w: WeightInput, i: nat): int
    requires at < |rows| && i < |rows|
    requires w.Select? ==> w.options != []
  {
    if InSiblings(rows, at, depth, i)
    then WeightAt(w, FirstWeight(rows, at, depth), Rank(rows, SiblingsFrom(rows, at, depth), i, depth))
    else rows[i].weight
  }

  /* ---- all inputs ---- */

  function DropRowAt(rows: seq<Row>, at: nat, size: nat, depth: int, w: WeightInput, i: nat): Row
    requires at < |rows| && rows[at].draggable && i < |rows|
    requires w.Select? ==> w.options != []
  {
    var r := rows[i];
    r.(parent := if i == at then DroppedParent(rows, at, size, depth) else r.parent,
       depthField := if at <= i < at + size then r.depth else r.depthField,
       weight := NewWeight(rows, at, depth, w, i))
  }

  function DropTable(rows: seq<Row>, at: nat, size: nat, depth: int, w: WeightInput): (r: seq<Row>)
    requires at < |rows| && rows[at].draggable
    requires w.Select? ==> w.options != []
    ensures |r| == |rows|
  {
    seq(|rows|, i requires 0 <= i < |rows| => DropRowAt(rows, at, size, depth, w, i))
  }
}
