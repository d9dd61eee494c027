/** Whole runs of the tabbing manager: contexts are made and released in any order. */
module TabbingHistory {
  import opened Maybe
  import opened TabbingSpec
  import opened TabbingManager

  /** Every context ever made, by number; the ones in the stack are among them. */
  ghost predicate Book(m: TabbingManager, made: seq<TabbingContext>, r: Run)
    reads m, m.stack, made
  {
    && |made| == m.created == r.created
    && (forall s | 0 <= s < |made| :: made[s].serial == s && (made[s].released <==> s in r.ended))
    && (forall i | 0 <= i < |m.stack| :: m.stack[i].serial < |made| && made[m.stack[i].serial] == m.stack[i])
    && m.View() == r.stack && m.base == r.base
  }

  /** Where an unreleased context stands in the stack. */
  lemma UnreleasedStands(m: TabbingManager, made: seq<TabbingContext>, r: Run, s: nat) returns (i: nat)
    requires Book(m, made, r) && Tidy(r) && s < |made| && !made[s].released
    ensures i < |m.stack| && m.stack[i] == made[s] && Position(r.stack, s) == Some(i)
  {
    PositionFound(r.stack, s);
    assert InStack(r.stack, s);
    i := Position(r.stack, s).value;
    assert m.View()[i].serial == s;
  }

  /** Ending a released or unknown context is no step. */
  lemma EndedStays(m: TabbingManager, made: seq<TabbingContext>, r: Run, s: nat)
    requires Book(m, made, r) && (s < |made| ==> made[s].released)
    ensures Step(r, End(s)) == r
  {
    PositionFound(r.stack, s);
    var p := Position(r.stack, s);
    if p.Some? {
      assert m.View()[p.value].serial == s;
    }
  }

  /** Makes one more context. */
  method BeginOne(m: TabbingManager, made: seq<TabbingContext>, ghost r: Run, wanted: set<nat>)
    returns (c: TabbingContext)
    requires m.Valid() && Book(m, made, r) && Tidy(r)
    modifies m, m.stack`active
    ensures m.Valid() && fresh(c) && Book(m, made + [c], Step(r, Begin(wanted)))
    ensures |m.dom| == |m.base|
    ensures forall i | 0 <= i < |m.dom| :: Tabbable(m.dom[i]) <==> Tabbable(m.base[i]) && i in wanted
  {
    hide Overlay, Records, NoRecords, DisabledBelow, Forget;
    ghost var was := m.stack;
    c := m.Constrain(wanted);
    assert m.View()[|was|].serial == c.serial;
  }

  /** Releases one context, if it is not released yet. */
  method EndOne(m: TabbingManager, made: seq<TabbingContext>, ghost r: Run, serial: nat)
    requires m.Valid() && Book(m, made, r) && Tidy(r)
    modifies m, made
    ensures m.Valid() && Book(m, made, Step(r, End(serial)))
  {
    hide Overlay, Records, NoRecords, DisabledBelow, Forget, Tidy, TabbingSpec.Release, TabbingSpec.Unwind;
    if serial < |made| && !made[serial].released {
      ghost var i := UnreleasedStands(m, made, r, serial);
      m.Release(made[serial], i);
    } else {
      EndedStays(m, made, r, serial);
    }
  }

  /** Plays a run on a fresh manager: stack, page and records are at every moment those
      of the pure stack. When all contexts are released, the page is what the run left
      below them. */
  method Play(page: seq<Element>, ops: seq<Op>) returns (m: TabbingManager)
    ensures fresh(m) && m.Valid() && m.View() == After(page, ops).stack
    ensures var r := After(page, ops); m.dom == Shown(r.base, r.stack) && m.data == Kept(r.base, r.stack)
    ensures forall i | 0 <= i < |m.dom| :: Tabbable(m.dom[i]) <==> Reachable(page, ops, i)
  {
    hide Overlay, Records, NoRecords, DisabledBelow, Forget, Tidy, TabbingSpec.Step;
    m := new TabbingManager(page);
    var made: seq<TabbingContext> := [];
    for n := 0 to |ops|
      invariant fresh(m) && m.Valid()
      invariant forall s | 0 <= s < |made| :: fresh(made[s])
      invariant Book(m, made, After(page, ops[..n]))
    {
      ghost var r := After(page, ops[..n]);
      assert ops[..n + 1][..n] == ops[..n];
      RunTidy(page, ops[..n]);
      match ops[n]
      case Begin(wanted) =>
        var c := BeginOne(m, made, r, wanted);
        made := made + [c];
      case End(serial) =>
        EndOne(m, made, r, serial);
    }
    assert ops[..|ops|] == ops;
    m.PageIsShown();
    forall i | 0 <= i < |m.dom|
      ensures Tabbable(m.dom[i]) <==> Reachable(page, ops, i)
    {
      ReachableExact(page, ops, i);
    }
  }
}
