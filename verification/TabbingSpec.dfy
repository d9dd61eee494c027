/**
 What constraining the tab key means: a stack of constraints, of which the topmost
 is in force, laid over the page as it was.
 */
module TabbingSpec {
  import opened Maybe

  /** A tabindex attribute: absent, present but empty, or a number. */
  datatype TabIndex = Absent | Empty | Index(n: int)

  /** An element of the page, named by its place in document order. `native` says
      that it takes focus without a tabindex, `usable` that it is visible and not
      disabled. */
  datatype Element = Element(native: bool, usable: bool, tabindex: TabIndex, autofocus: bool)

  predicate Tabbable(e: Element) {
    && e.usable
    && match e.tabindex
       case Absent => e.native
       case Empty => true
       case Index(n) => n >= 0
  }

  /** What is remembered of an element while it cannot be reached. */
  datatype Saved = Saved(tabindex: TabIndex, autofocus: bool)

  function Disable(e: Element): Element {
    e.(tabindex := Index(-1), autofocus := false)
  }

  /** Element i is taken out of reach by a constraint to `allowed`. */
  predicate Disabled(page: seq<Element>, allowed: set<nat>, i: nat)
    requires i < |page|
  {
    Tabbable(page[i]) && i !in allowed
  }

  /** The page under a constraint. */
  function Overlay(page: seq<Element>, allowed: set<nat>): (r: seq<Element>)
    ensures |r| == |page|
  {
    seq(|page|, i requires 0 <= i < |page| =>
      if Disabled(page, allowed, i) then Disable(page[i]) else page[i])
  }

  /** An element whose saved values were put back: an empty tabindex is lost. */
  function Forgotten(e: Element): Element {
    if e.tabindex.Empty? then e.(tabindex := Absent) else e
  }

  /** The page after a constraint was lifted. */
  function Forget(page: seq<Element>, allowed: set<nat>): (r: seq<Element>)
    ensures |r| == |page|
  {
    seq(|page|, i requires 0 <= i < |page| =>
      if Disabled(page, allowed, i) then Forgotten(page[i]) else page[i])
  }

  /** The records kept while the constraint of this level is in force. */
  function Records(page: seq<Element>, allowed: set<nat>, level: nat): (r: seq<map<nat, Saved>>)
    ensures |r| == |page|
  {
    seq(|page|, i requires 0 <= i < |page| =>
      if Disabled(page, allowed, i)
      then map[level := Saved(page[i].tabindex, page[i].autofocus)] else map[])
  }

  function NoRecords(n: nat): (r: seq<map<nat, Saved>>)
    ensures |r| == n
  {
    seq(n, i => map[])
  }

  /** The elements below n that the constraint disables, in document order. */
  function DisabledBelow(page: seq<Element>, allowed: set<nat>, n: nat): (r: seq<nat>)
    requires n <= |page|
    ensures forall j | 0 <= j < |r| :: r[j] < n && Disabled(page, allowed, r[j])
    ensures forall i: nat | i < n && Disabled(page, allowed, i) :: i in r
    ensures forall j, k | 0 <= j < k < |r| :: r[j] < r[k]
  {
    if n == 0 then []
    else if Disabled(page, allowed, n - 1) then DisabledBelow(page, allowed, n - 1) + [n - 1]
    else DisabledBelow(page, allowed, n - 1)
  }

  /** Under a constraint an element can be reached if and only if it could before
      and is allowed; one that no longer can has no place in the order and no autofocus,
      and every other is as it was. */
  lemma OverlayTabbable(page: seq<Element>, allowed: set<nat>, i: nat)
    requires i < |page|
    ensures Tabbable(Overlay(page, allowed)[i]) <==> Tabbable(page[i]) && i in allowed
    ensures Overlay(page, allowed)[i] ==
      if Tabbable(page[i]) && i !in allowed then page[i].(tabindex := Index(-1), autofocus := false) else page[i]
  {
  }

  /* ---- the stack of constraints ---- */

  /** A constraint, numbered in the order of creation. */
  datatype Context = Context(serial: nat, allowed: set<nat>, released: bool)

  /** Drops released contexts off the top. */
  function Unwind(stack: seq<Context>): (r: seq<Context>)
    ensures |r| <= |stack| && r == stack[..|r|]
    ensures r != [] ==> !r[|r| - 1].released
    ensures forall i | |r| <= i < |stack| :: stack[i].released
  {
    if stack != [] && stack[|stack| - 1].released then Unwind(stack[..|stack| - 1]) else stack
  }

  function Allowed(page: seq<Element>, wanted: set<nat>): set<nat> {
    set i | i in wanted && i < |page| && Tabbable(page[i])
  }

  function Constrain(stack: seq<Context>, serial: nat, allowed: set<nat>): seq<Context> {
    stack + [Context(serial, allowed, false)]
  }

  function Release(stack: seq<Context>, i: nat): seq<Context>
    requires i < |stack|
  {
    Unwind(stack[i := stack[i].(released := true)])
  }

  /** The page a user sees under a stack of constraints. */
  function Shown(page: seq<Element>, stack: seq<Context>): seq<Element> {
    if stack == [] then page else Overlay(page, stack[|stack| - 1].allowed)
  }

  /** The page below the topmost constraint, once that is lifted. */
  function Lifted(page: seq<Element>, stack: seq<Context>): (r: seq<Element>)
    ensures |r| == |page|
  {
    if stack == [] then page else Forget(page, stack[|stack| - 1].allowed)
  }

  function Kept(page: seq<Element>, stack: seq<Context>): seq<map<nat, Saved>> {
    if stack == [] then NoRecords(|page|)
    else Records(page, stack[|stack| - 1].allowed, |stack| - 1)
  }

  /* ---- whole runs ---- */

  /** Constrain to some elements, or release the context with this number. */
  datatype Op = Begin(wanted: set<nat>) | End(serial: nat)

  /** `base` is the page without any constraint. */
  datatype Run = Run(base: seq<Element>, stack: seq<Context>, created: nat, ended: set<nat>)

  function Position(stack: seq<Context>, serial: nat): Option<nat> {
    if stack == [] then None
    else if stack[|stack| - 1].serial == serial then Some(|stack| - 1)
    else Position(stack[..|stack| - 1], serial)
  }

  lemma {:induction false} PositionFound(stack: seq<Context>, serial: nat)
    ensures match Position(stack, serial)
      case Some(i) => i < |stack| && stack[i].serial == serial
      case None => forall j | 0 <= j < |stack| :: stack[j].serial != serial
  {
    if stack != [] {
      PositionFound(stack[..|stack| - 1], serial);
    }
  }

  /** Releasing a context twice, or one that never existed, does nothing. A new context
      lifts the one in force; so does releasing that one. */
  function Step(r: Run, op: Op): Run {
    match op
    case Begin(wanted) =>
      var base := Lifted(r.base, r.stack);
      Run(base, Constrain(r.stack, r.created, Allowed(base, wanted)), r.created + 1, r.ended)
    case End(serial) =>
      PositionFound(r.stack, serial);
      match Position(r.stack, serial)
      case None => r
      case Some(i) =>
        if r.stack[i].released then r
        else Run(if i + 1 == |r.stack| then Lifted(r.base, r.stack) else r.base,
                 Release(r.stack, i), r.created, r.ended + {serial})
  }

  function After(page: seq<Element>, ops: seq<Op>): Run {
    if ops == [] then Run(page, [], 0, {})
    else Step(After(page, ops[..|ops| - 1]), ops[|ops| - 1])
  }

  /** The stack holds every context not yet ended, oldest first, marked as such, and
      its top is one of them. */
  ghost predicate Tidy(r: Run) {
    && (forall i, j | 0 <= i < j < |r.stack| :: r.stack[i].serial < r.stack[j].serial)
    && (forall i | 0 <= i < |r.stack| ::
         r.stack[i].serial < r.created && (r.stack[i].released <==> r.stack[i].serial in r.ended))
    && (forall s | s in r.ended :: s < r.created)
    && (forall s: nat | s < r.created && s !in r.ended :: InStack(r.stack, s))
    && (r.stack != [] ==> !r.stack[|r.stack| - 1].released)
  }

  ghost predicate InStack(stack: seq<Context>, serial: nat) {
    exists i :: 0 <= i < |stack| && stack[i].serial == serial
  }

  lemma BeginTidy(r: Run, base: seq<Element>, allowed: set<nat>)
    requires Tidy(r)
    ensures Tidy(Run(base, Constrain(r.stack, r.created, allowed), r.created + 1, r.ended))
  {
    var stack := Constrain(r.stack, r.created, allowed);
    assert stack[|r.stack|].serial == r.created;
    forall s: nat | s < r.created + 1 && s !in r.ended
      ensures InStack(stack, s)
    {
      if s < r.created {
        assert InStack(r.stack, s);
        var j :| 0 <= j < |r.stack| && r.stack[j].serial == s;
        assert stack[j].serial == s;
      }
    }
  }

  lemma StillInStack(stack: seq<Context>, i: nat, s: nat)
    requires i < |stack| && InStack(stack, s) && stack[i].serial != s
    requires forall j | 0 <= j < |stack| && stack[j].serial == s :: !stack[j].released
    ensures InStack(Release(stack, i), s)
  {
    var marked := stack[i := stack[i].(released := true)];
    var left := Unwind(marked);
    var j :| 0 <= j < |stack| && stack[j].serial == s;
    assert marked[j] == stack[j] && !marked[j].released;
    assert j < |left| && left[j] == marked[j];
  }

  lemma EndTidy(r: Run, base: seq<Element>, i: nat)
    requires Tidy(r) && i < |r.stack| && !r.stack[i].released
    ensures Tidy(Run(base, Release(r.stack, i), r.created, r.ended + {r.stack[i].serial}))
  {
    var ended := r.ended + {r.stack[i].serial};
    forall s: nat | s < r.created && s !in ended
      ensures InStack(Release(r.stack, i), s)
    {
      StillInStack(r.stack, i, s);
    }
    EndMarks(r, i);
  }

  lemma EndMarks(r: Run, i: nat)
    requires Tidy(r) && i < |r.stack| && !r.stack[i].released
    ensures var left, ended := Release(r.stack, i), r.ended + {r.stack[i].serial};
      && (forall j, k | 0 <= j < k < |left| :: left[j].serial < left[k].serial)
      && (forall j | 0 <= j < |left| ::
           left[j].serial < r.created && (left[j].released <==> left[j].serial in ended))
  {
    var marked := r.stack[i := r.stack[i].(released := true)];
    var left := Unwind(marked);
    hide Unwind;
    forall j | 0 <= j < |left|
      ensures left[j] == marked[j] && left[j].serial == r.stack[j].serial
      ensures left[j].serial < r.created
      ensures left[j].released <==> left[j].serial in r.ended + {r.stack[i].serial}
    {
      assert j < i ==> r.stack[j].serial < r.stack[i].serial;
      assert j > i ==> r.stack[j].serial > r.stack[i].serial;
    }
  }

  lemma {:induction false} RunTidy(page: seq<Element>, ops: seq<Op>)
    ensures Tidy(After(page, ops))
  {
    if ops != [] {
      RunTidy(page, ops[..|ops| - 1]);
      var r, op := After(page, ops[..|ops| - 1]), ops[|ops| - 1];
      match op
      case Begin(wanted) =>
        var base := Lifted(r.base, r.stack);
        BeginTidy(r, base, Allowed(base, wanted));
      case End(serial) =>
        PositionFound(r.stack, serial);
        var p := Position(r.stack, serial);
        if p.Some? && !r.stack[p.value].released {
          EndTidy(r, Step(r, op).base, p.value);
        }
    }
  }

  /** After any run, in whatever order contexts are released, the context in force
      is the youngest one not yet released; when all are released the stack is
      empty. */
  lemma YoungestInForce(page: seq<Element>, ops: seq<Op>)
    ensures var r := After(page, ops);
      && (r.stack == [] <==> forall s: nat | s < r.created :: s in r.ended)
      && (r.stack != [] ==>
           var top := r.stack[|r.stack| - 1].serial;
           top < r.created && top !in r.ended && forall s: nat | top < s < r.created :: s in r.ended)
  {
    RunTidy(page, ops);
    hide After;
    var r := After(page, ops);
    forall s: nat | s < r.created && s !in r.ended
      ensures r.stack != [] && s <= r.stack[|r.stack| - 1].serial
    {
      assert InStack(r.stack, s);
      var j :| 0 <= j < |r.stack| && r.stack[j].serial == s;
    }
    if r.stack != [] {
      var top := r.stack[|r.stack| - 1];
      assert !top.released && top.serial !in r.ended;
    }
  }

  /* ---- what a run loses ---- */

  /** The operation lifts the constraint in force. */
  predicate Lifts(r: Run, op: Op) {
    r.stack != [] &&
    match op
    case Begin(_) => true
    case End(serial) => Position(r.stack, serial) == Some(|r.stack| - 1) && !r.stack[|r.stack| - 1].released
  }

  /** The n-th operation lifts a constraint that kept element i out of reach. */
  ghost predicate LiftedFrom(page: seq<Element>, ops: seq<Op>, n: nat, i: nat)
    requires n < |ops|
  {
    var r := After(page, ops[..n]);
    Lifts(r, ops[n]) && i !in r.stack[|r.stack| - 1].allowed
  }

  ghost predicate SomeLifted(page: seq<Element>, ops: seq<Op>, i: nat) {
    exists n :: 0 <= n < |ops| && LiftedFrom(page, ops, n, i)
  }

  lemma LiftedBefore(page: seq<Element>, ops: seq<Op>, n: nat, i: nat)
    requires n + 1 < |ops|
    ensures LiftedFrom(page, ops[..|ops| - 1], n, i) == LiftedFrom(page, ops, n, i)
  {
    assert ops[..|ops| - 1][..n] == ops[..n];
  }

  lemma SomeLiftedPush(page: seq<Element>, ops: seq<Op>, i: nat)
    requires ops != []
    ensures SomeLifted(page, ops, i) <==>
      SomeLifted(page, ops[..|ops| - 1], i) || LiftedFrom(page, ops, |ops| - 1, i)
  {
    hide LiftedFrom;
    var before := ops[..|ops| - 1];
    forall n: nat | n < |before|
      ensures LiftedFrom(page, before, n, i) == LiftedFrom(page, ops, n, i)
    {
      LiftedBefore(page, ops, n, i);
    }
  }

  lemma StepBase(r: Run, op: Op)
    ensures Step(r, op).base == if Lifts(r, op) then Lifted(r.base, r.stack) else r.base
  {
    if op.End? {
      PositionFound(r.stack, op.serial);
    }
  }

  /** What is left of the page below all constraints after any run: every element is as
      it was, but for those that were reachable by an empty tabindex and that some
      constraint, since lifted, kept out of reach. */
  lemma {:induction false} BaseExact(page: seq<Element>, ops: seq<Op>, i: nat)
    requires i < |page|
    ensures var base := After(page, ops).base;
      |base| == |page|
      && base[i] ==
           if page[i].tabindex.Empty? && page[i].usable && SomeLifted(page, ops, i)
           then page[i].(tabindex := Absent) else page[i]
  {
    if ops != [] {
      var r, op := After(page, ops[..|ops| - 1]), ops[|ops| - 1];
      BaseExact(page, ops[..|ops| - 1], i);
      SomeLiftedPush(page, ops, i);
      StepBase(r, op);
    }
  }

  /** A page without empty tabindex attributes is the same below all constraints after
      any run. */
  lemma NothingLost(page: seq<Element>, ops: seq<Op>)
    requires forall i | 0 <= i < |page| :: !page[i].tabindex.Empty?
    ensures After(page, ops).base == page
  {
    assert |After(page, ops).base| == |page| by {
      BaseLength(page, ops);
    }
    forall i | 0 <= i < |page|
      ensures After(page, ops).base[i] == page[i]
    {
      BaseExact(page, ops, i);
    }
  }

  lemma {:induction false} BaseLength(page: seq<Element>, ops: seq<Op>)
    ensures |After(page, ops).base| == |page|
  {
    if ops != [] {
      BaseLength(page, ops[..|ops| - 1]);
      StepBase(After(page, ops[..|ops| - 1]), ops[|ops| - 1]);
    }
  }

  /* ---- what was asked for ---- */

  /** The elements asked for when the context of this number was made. */
  function Wanted(ops: seq<Op>, serial: nat): set<nat>
    decreases |ops|
  {
    if ops == [] then {}
    else
      var before, last := ops[..|ops| - 1], ops[|ops| - 1];
      if last.Begin? && Begun(before) == serial then last.wanted else Wanted(before, serial)
  }

  /** How many contexts were made. */
  function Begun(ops: seq<Op>): nat {
    if ops == [] then 0
    else Begun(ops[..|ops| - 1]) + if ops[|ops| - 1].Begin? then 1 else 0
  }

  lemma {:induction false} CreatedIsBegun(page: seq<Element>, ops: seq<Op>)
    ensures After(page, ops).created == Begun(ops)
  {
    if ops != [] {
      CreatedIsBegun(page, ops[..|ops| - 1]);
      StepCounts(After(page, ops[..|ops| - 1]), ops[|ops| - 1]);
    }
  }

  lemma StepCounts(r: Run, op: Op)
    ensures Step(r, op).created == r.created + if op.Begin? then 1 else 0
    ensures |Step(r, op).base| == |r.base|
  {
    if op.End? {
      PositionFound(r.stack, op.serial);
    }
  }

  /** An element that was lifted can be reached only if it could before. */
  lemma LiftedReach(page: seq<Element>, stack: seq<Context>, i: nat)
    requires i < |page|
    ensures Tabbable(Lifted(page, stack)[i]) ==> Tabbable(page[i])
  {
  }

  /** The context allows what was asked for, among what can be reached at all. */
  ghost predicate AllowsWanted(base: seq<Element>, c: Context, wanted: set<nat>) {
    forall i | 0 <= i < |base| && Tabbable(base[i]) :: i in c.allowed <==> i in wanted
  }

  /** A new constraint makes exactly the elements asked for reachable, of those that can
      be reached without it. */
  lemma ConstrainReaches(r: Run, wanted: set<nat>, i: nat)
    ensures var t := Step(r, Begin(wanted));
      |Shown(t.base, t.stack)| == |t.base| == |r.base|
      && (i < |t.base| ==>
           (Tabbable(Shown(t.base, t.stack)[i]) <==> Tabbable(t.base[i]) && i in wanted))
  {
  }

  lemma StillAllows(r: Run, c: Context, wanted: set<nat>, op: Op)
    requires AllowsWanted(r.base, c, wanted)
    ensures AllowsWanted(Step(r, op).base, c, wanted)
  {
    StepBase(r, op);
    var base := Step(r, op).base;
    forall i | 0 <= i < |base| && Tabbable(base[i])
      ensures i in c.allowed <==> i in wanted
    {
      LiftedReach(r.base, r.stack, i);
    }
  }

  /** Every context of the stack after an operation was there before, released or not, or
      is the new one. */
  lemma StackFrom(r: Run, op: Op, k: nat)
    requires k < |Step(r, op).stack|
    ensures var c := Step(r, op).stack[k];
      if op.Begin? && k == |r.stack| then
        c.serial == r.created && AllowsWanted(Step(r, op).base, c, op.wanted)
      else k < |r.stack| && c.serial == r.stack[k].serial && c.allowed == r.stack[k].allowed
  {
    if op.End? {
      PositionFound(r.stack, op.serial);
    }
  }

  lemma {:induction false} AllAllowWanted(page: seq<Element>, ops: seq<Op>, k: nat)
    requires k < |After(page, ops).stack|
    ensures var r := After(page, ops); AllowsWanted(r.base, r.stack[k], Wanted(ops, r.stack[k].serial))
  {
    if ops != [] {
      hide Step, AllowsWanted, Tidy;
      var before, op := ops[..|ops| - 1], ops[|ops| - 1];
      var r := After(page, before);
      var t := Step(r, op);
      CreatedIsBegun(page, before);
      RunTidy(page, before);
      StackFrom(r, op, k);
      if !(op.Begin? && k == |r.stack|) {
        AllAllowWanted(page, before, k);
        StillAllows(r, r.stack[k], Wanted(before, r.stack[k].serial), op);
        OlderSerial(r, k);
        SameAllowed(t.base, r.stack[k], t.stack[k], Wanted(ops, t.stack[k].serial));
      }
    }
  }

  lemma OlderSerial(r: Run, k: nat)
    requires Tidy(r) && k < |r.stack|
    ensures r.stack[k].serial < r.created
  {
  }

  lemma SameAllowed(base: seq<Element>, c: Context, d: Context, wanted: set<nat>)
    requires AllowsWanted(base, c, wanted) && c.allowed == d.allowed
    ensures AllowsWanted(base, d, wanted)
  {
  }

  /** An element can be reached: it could on the page below all constraints, and it was
      asked for by the youngest constraint not yet released, if there is one. */
  predicate Reachable(page: seq<Element>, ops: seq<Op>, i: nat) {
    var r := After(page, ops);
    i < |r.base| && Tabbable(r.base[i])
    && (r.stack != [] ==> i in Wanted(ops, r.stack[|r.stack| - 1].serial))
  }

  /** What a user can reach after any run. */
  lemma ReachableExact(page: seq<Element>, ops: seq<Op>, i: nat)
    ensures var r := After(page, ops);
      |Shown(r.base, r.stack)| == |r.base|
      && (i < |r.base| ==> (Tabbable(Shown(r.base, r.stack)[i]) <==> Reachable(page, ops, i)))
  {
    var r := After(page, ops);
    if r.stack != [] {
      AllAllowWanted(page, ops, |r.stack| - 1);
    }
  }

  /** A context counts as released exactly if it was released after it was made. */
  ghost predicate EndedBy(ops: seq<Op>, serial: nat) {
    exists n :: 0 <= n < |ops| && Ends(ops, n, serial)
  }

  predicate Ends(ops: seq<Op>, n: nat, serial: nat)
    requires n < |ops|
  {
    ops[n] == End(serial) && serial < Begun(ops[..n])
  }

  lemma {:induction false} EndedExact(page: seq<Element>, ops: seq<Op>, serial: nat)
    ensures serial in After(page, ops).ended <==> EndedBy(ops, serial)
  {
    if ops != [] {
      hide Ends;
      var before, op := ops[..|ops| - 1], ops[|ops| - 1];
      var r := After(page, before);
      EndedExact(page, before, serial);
      EndedPush(ops, serial);
      EndedStep(page, before, op, serial);
    }
  }

  lemma EndedPush(ops: seq<Op>, serial: nat)
    requires ops != []
    ensures EndedBy(ops, serial) <==> EndedBy(ops[..|ops| - 1], serial) || Ends(ops, |ops| - 1, serial)
  {
    var before := ops[..|ops| - 1];
    forall n | 0 <= n < |before|
      ensures Ends(before, n, serial) == Ends(ops, n, serial)
    {
      assert before[..n] == ops[..n];
    }
    hide Ends;
  }

  lemma EndedStep(page: seq<Element>, ops: seq<Op>, op: Op, serial: nat)
    ensures var r := After(page, ops);
      serial in Step(r, op).ended <==> serial in r.ended || (op == End(serial) && serial < Begun(ops))
  {
    hide After, Release, Unwind;
    var r := After(page, ops);
    RunTidy(page, ops);
    CreatedIsBegun(page, ops);
    if op.End? {
      PositionFound(r.stack, op.serial);
      if op.serial < r.created && op.serial !in r.ended {
        assert InStack(r.stack, op.serial);
      }
    }
  }
}
