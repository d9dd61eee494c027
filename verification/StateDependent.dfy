/**
 An element that depends on the states of others: it finds out which by a dry run,
 remembers their values, and announces a change of its own state when one of them
 makes the constraints come out differently.
 */
module StateDependent {
  import opened Maybe
  import opened StateConstraints

  /** The value of a watched state: nothing yet, or what was last announced. */
  datatype Value = Undef | Null | Of(scalar: Scalar)

  type Values = map<(string, string), Value>

  function Digits(n: nat): string {
    if n < 10 then ["0123456789"[n]] else Digits(n / 10) + ["0123456789"[n % 10]]
  }

  function Decimal(n: int): string {
    if n < 0 then "-" + Digits(-n) else Digits(n)
  }

  /** A number equals its decimal text; everything matches an undefined value. */
  function Matches(reference: Json, value: Value): bool {
    match (reference, value)
    case (_, Undef) => true
    case (Lit(Num(n)), Of(Str(s))) => Decimal(n) == s
    case (Lit(scalar), Of(v)) => scalar == v
    case _ => false
  }

  function Against(values: Values): Comparison {
    (reference, selector, name) =>
      if (selector, name) in values then Is(Matches(reference, values[(selector, name)])) else Undefined
  }

  function Evaluate(c: Json, values: Values): Truth {
    Meaning(c, None, Against(values))
  }

  function Pairs(c: Json): set<(string, string)> {
    set l | l in Leaves(c, None)
  }

  /* ---- updates, as a state machine ---- */

  datatype Memory = Memory(values: Values, oldValue: Option<Truth>, events: seq<Truth>)

  datatype Change = Change(selector: string, name: string, value: Value)

  /** An update that changes a stored value. */
  predicate Effective(values: Values, u: Change) {
    (u.selector, u.name) in values && values[(u.selector, u.name)] != u.value
  }

  function Store(values: Values, u: Change): Values {
    if Effective(values, u) then values[(u.selector, u.name) := u.value] else values
  }

  function Apply(m: Memory, c: Json, negated: bool, u: Change): Memory {
    if !Effective(m.values, u) then m
    else
      var values := Store(m.values, u);
      var value := Evaluate(c, values);
      if m.oldValue == Some(value) then m.(values := values)
      else Memory(values, Some(value), m.events + [Invert(value, negated)])
  }

  function ApplyAll(m: Memory, c: Json, negated: bool, us: seq<Change>): Memory {
    if us == [] then m
    else Apply(ApplyAll(m, c, negated, us[..|us| - 1]), c, negated, us[|us| - 1])
  }

  /** The stored values after the updates, without looking at constraints. */
  function StoreAll(values: Values, us: seq<Change>): Values {
    if us == [] then values else Store(StoreAll(values, us[..|us| - 1]), us[|us| - 1])
  }

  /** What the constraints evaluate to after each effective update. */
  function Evaluations(c: Json, values: Values, us: seq<Change>): seq<Truth> {
    if us == [] then []
    else
      var before, last := us[..|us| - 1], us[|us| - 1];
      Evaluations(c, values, before) +
      (if Effective(StoreAll(values, before), last) then [Evaluate(c, StoreAll(values, us))] else [])
  }

  /** The entries that differ from the one before, negated if asked. */
  function Changes(es: seq<Truth>, negated: bool): seq<Truth> {
    if es == [] then []
    else
      var n := |es| - 1;
      Changes(es[..n], negated) +
      if n == 0 || es[n] != es[n - 1] then [Invert(es[n], negated)] else []
  }

  /** Some update changed a stored value. */
  predicate SomeEffective(values: Values, us: seq<Change>) {
    us != [] &&
    (SomeEffective(values, us[..|us| - 1]) || Effective(StoreAll(values, us[..|us| - 1]), us[|us| - 1]))
  }

  lemma ChangesPush(es: seq<Truth>, e: Truth, negated: bool)
    ensures Changes(es + [e], negated) ==
      Changes(es, negated) + if es == [] || e != es[|es| - 1] then [Invert(e, negated)] else []
  {
    assert (es + [e])[..|es|] == es;
  }

  /** The memory after these evaluations: the latest one, and an event at each change. */
  ghost predicate Tracks(m: Memory, es: seq<Truth>, negated: bool) {
    m.events == Changes(es, negated) && m.oldValue == (if es == [] then None else Some(es[|es| - 1]))
  }

  lemma ApplyTracks(m: Memory, c: Json, negated: bool, u: Change, es: seq<Truth>)
    requires Tracks(m, es, negated)
    ensures var n := Apply(m, c, negated, u);
      n.values == Store(m.values, u)
      && Tracks(n, if Effective(m.values, u) then es + [Evaluate(c, n.values)] else es, negated)
  {
    hide Evaluate, Changes;
    ChangesPush(es, Evaluate(c, Store(m.values, u)), negated);
    assert Changes(es, negated) + [] == Changes(es, negated);
  }

  /** After any updates the stored result is the latest evaluation, if there was any,
      and the events are the points where the evaluation changed, no more and no
      fewer. */
  lemma {:induction false} EventsAreChanges(c: Json, negated: bool, values: Values, us: seq<Change>)
    ensures var m := ApplyAll(Memory(values, None, []), c, negated, us);
      m.values == StoreAll(values, us) && Tracks(m, Evaluations(c, values, us), negated)
  {
    hide Evaluate, Changes, Effective, Apply, Store;
    if us == [] {
      NoChanges(negated);
    } else {
      var before, last := us[..|us| - 1], us[|us| - 1];
      var es := Evaluations(c, values, before);
      EventsAreChanges(c, negated, values, before);
      ApplyTracks(ApplyAll(Memory(values, None, []), c, negated, before), c, negated, last, es);
      assert es + [] == es;
    }
  }

  lemma NoChanges(negated: bool)
    ensures Changes([], negated) == []
  {
  }

  lemma {:induction false} LatestEvaluation(c: Json, values: Values, us: seq<Change>)
    ensures var es := Evaluations(c, values, us);
      && (es != [] <==> SomeEffective(values, us))
      && (es != [] ==> es[|es| - 1] == Evaluate(c, StoreAll(values, us)))
  {
    hide Evaluate, Effective;
    if us != [] {
      LatestEvaluation(c, values, us[..|us| - 1]);
    }
  }

  /** The cached result is a fresh evaluation as soon as one update changed a value;
      until then nothing is cached and nothing was announced. */
  lemma CacheIsFresh(c: Json, negated: bool, values: Values, us: seq<Change>)
    ensures var m := ApplyAll(Memory(values, None, []), c, negated, us);
      if SomeEffective(values, us)
      then m.oldValue == Some(Evaluate(c, m.values))
      else m.oldValue == None && m.events == []
  {
    EventsAreChanges(c, negated, values, us);
    LatestEvaluation(c, values, us);
  }

  /* ---- the object ---- */

  class Dependent {
    const constraints: Json
    const negated: bool
    var values: Values
    var oldValue: Option<Truth>
    /** The state events triggered so far. */
    var events: seq<Truth>

    ghost predicate Valid()
      reads this
    {
      values.Keys == Pairs(constraints)
    }

    function View(): Memory
      reads this
    {
      Memory(values, oldValue, events)
    }

    /** Finds the dependees by a dry run and starts with no value for any. */
    constructor (constraints: Json, negated: bool)
      ensures Valid() && this.constraints == constraints && this.negated == negated
      ensures oldValue == None && events == [] && forall p | p in values :: values[p] == Null
    {
      this.constraints, this.negated := constraints, negated;
      oldValue, events, values := None, [], map[];
      new;
      var result, log := VerifyConstraints(constraints, None, (reference, selector, name) => Undefined);
      for i := 0 to |log|
        invariant values.Keys == set l | l in log[..i]
        invariant forall p | p in values :: values[p] == Null
        invariant oldValue == None && events == []
      {
        values := values[log[i] := Null];
        assert log[..i + 1] == log[..i] + [log[i]];
      }
      assert log[..|log|] == log == Leaves(constraints, None);
    }

    /** Stores a value and evaluates again if it is new. */
    method Update(selector: string, name: string, value: Value)
      requires Valid() && (selector, name) in values
      modifies this
      ensures Valid()
      ensures View() == Apply(old(View()), constraints, negated, Change(selector, name, value))
    {
      if value != values[(selector, name)] {
        values := values[(selector, name) := value];
        var looked := Reevaluate();
      }
    }

    /** Announces the constraints' value if it changed. Every lookup made on the way
        finds a value. */
    method Reevaluate() returns (looked: seq<(string, string)>)
      requires Valid()
      modifies `oldValue, `events
      ensures Valid() && forall l | l in looked :: l in values
      ensures var value := Evaluate(constraints, values);
        && oldValue == Some(value)
        && events == old(events) + if old(oldValue) == Some(value) then [] else [Invert(value, negated)]
    {
      var value;
      value, looked := VerifyConstraints(constraints, None, Against(values));
      if oldValue != Some(value) {
        oldValue := Some(value);
        events := events + [Invert(value, negated)];
      }
    }
  }

  /* ---- well-formed constraints ---- */

  /** No empty arrays or objects, and nothing but arrays and objects where a
      constraint is expected. */
  predicate WellFormed(c: Json, selector: Option<string>)
    decreases c
  {
    match c
    case Arr(items) =>
      && (exists i :: 0 <= i < |items| && items[i] != XOR)
      && (forall i | 0 <= i < |items| && items[i] != XOR :: WellFormed(items[i], selector))
    case Obj(fields) =>
      && fields != []
      && forall i | 0 <= i < |fields| ::
           var role := RoleOf(fields[i].key, selector);
           role.Nested? ==> WellFormed(fields[i].value, role.inner)
    case Lit(_) => false
  }

  type Oracle = (Json, string, string) -> bool

  /** Objects hold when all members do, arrays when one does, and arrays with 'xor'
      when exactly one does; a negated state holds when its comparison fails. */
  ghost predicate Holds(c: Json, selector: Option<string>, oracle: Oracle)
    decreases c, 1
  {
    match c
    case Arr(items) =>
      && (exists i :: 0 <= i < |items| && Member(items, i, selector, oracle))
      && (XOR in items ==>
           forall i, j | 0 <= i < |items| && 0 <= j < |items| &&
             Member(items, i, selector, oracle) && Member(items, j, selector, oracle) :: i == j)
    case Obj(fields) => forall i | 0 <= i < |fields| :: FieldHolds(fields[i], selector, oracle)
    case Lit(_) => false
  }

  ghost predicate Member(items: seq<Json>, i: nat, selector: Option<string>, oracle: Oracle)
    requires i < |items|
    decreases items, 0
  {
    items[i] != XOR && Holds(items[i], selector, oracle)
  }

  ghost predicate FieldHolds(field: Field, selector: Option<string>, oracle: Oracle)
    decreases field, 0
  {
    match RoleOf(field.key, selector)
    case Nested(s) => Holds(field.value, s, oracle)
    case Leaf(s, state) => oracle(field.value, s, state.name) != state.invert
  }

  ghost predicate Answers(compare: Comparison, oracle: Oracle) {
    forall reference, selector, name ::
      compare(reference, selector, name) == Is(oracle(reference, selector, name))
  }

  /** A well-formed constraint with known comparisons is evaluated to true if it
      holds and to false if it does not; it is never undefined. */
  lemma {:induction false} WellFormedMeaning(c: Json, selector: Option<string>, compare: Comparison, oracle: Oracle)
    requires WellFormed(c, selector) && Answers(compare, oracle)
    ensures Meaning(c, selector, compare) == Is(Holds(c, selector, oracle))
    decreases c, 1
  {
    match c
    case Arr(items) =>
      forall i | 0 <= i < |items| && items[i] != XOR
        ensures Meaning(items[i], selector, compare) == Is(Holds(items[i], selector, oracle))
      {
        WellFormedMeaning(items[i], selector, compare, oracle);
      }
      ArrayMeaning(items, selector, compare, oracle);
    case Obj(fields) =>
      forall i | 0 <= i < |fields|
        ensures FieldMeaning(fields[i], selector, compare) == Is(FieldHolds(fields[i], selector, oracle))
      {
        var role := RoleOf(fields[i].key, selector);
        if role.Nested? {
          WellFormedMeaning(fields[i].value, role.inner, compare, oracle);
        }
      }
      FieldsKnown(fields, selector, compare, oracle);
    case Lit(_) =>
  }

  ghost predicate ItemsKnown(items: seq<Json>, selector: Option<string>, compare: Comparison, oracle: Oracle) {
    forall i | 0 <= i < |items| && items[i] != XOR ::
      Meaning(items[i], selector, compare) == Is(Holds(items[i], selector, oracle))
  }

  ghost predicate NoneFrom(items: seq<Json>, k: nat, selector: Option<string>, oracle: Oracle) {
    forall i | k <= i < |items| :: !Member(items, i, selector, oracle)
  }

  ghost predicate AtMostOneFrom(items: seq<Json>, k: nat, selector: Option<string>, oracle: Oracle) {
    forall i, j | k <= i < |items| && k <= j < |items| &&
      Member(items, i, selector, oracle) && Member(items, j, selector, oracle) :: i == j
  }

  /** The number of true values is the number of members that hold, as far as it
      matters. */
  lemma {:induction false} ItemsCount(items: seq<Json>, k: nat, selector: Option<string>, compare: Comparison, oracle: Oracle)
    requires k <= |items| && ItemsKnown(items, selector, compare, oracle)
    ensures var values := Items(items[k..], selector, compare);
      && (forall i | 0 <= i < |values| :: values[i].Is?)
      && (Count(values) == 0 <==> NoneFrom(items, k, selector, oracle))
      && (Count(values) <= 1 <==> AtMostOneFrom(items, k, selector, oracle))
      && (values == [] <==> forall i | k <= i < |items| :: items[i] == XOR)
    decreases |items| - k
  {
    hide Meaning, Holds;
    if k < |items| {
      ItemsCount(items, k + 1, selector, compare, oracle);
      ItemsStep(items, k, selector, compare);
      StepMembers(items, k, selector, oracle);
    }
  }

  lemma StepMembers(items: seq<Json>, k: nat, selector: Option<string>, oracle: Oracle)
    requires k < |items|
    ensures NoneFrom(items, k, selector, oracle) <==>
      !Member(items, k, selector, oracle) && NoneFrom(items, k + 1, selector, oracle)
    ensures AtMostOneFrom(items, k, selector, oracle) <==>
      if Member(items, k, selector, oracle) then NoneFrom(items, k + 1, selector, oracle)
      else AtMostOneFrom(items, k + 1, selector, oracle)
  {
    hide Member;
    if Member(items, k, selector, oracle) && AtMostOneFrom(items, k, selector, oracle) {
      forall i | k + 1 <= i < |items|
        ensures !Member(items, i, selector, oracle)
      {
      }
    }
  }

  lemma ArrayHolds(items: seq<Json>, selector: Option<string>, oracle: Oracle)
    ensures Holds(Arr(items), selector, oracle) <==>
      !NoneFrom(items, 0, selector, oracle) && (XOR in items ==> AtMostOneFrom(items, 0, selector, oracle))
  {
    hide Member;
  }

  lemma ArrayMeaning(items: seq<Json>, selector: Option<string>, compare: Comparison, oracle: Oracle)
    requires ItemsKnown(items, selector, compare, oracle)
    requires exists i :: 0 <= i < |items| && items[i] != XOR
    ensures Meaning(Arr(items), selector, compare) == Is(Holds(Arr(items), selector, oracle))
  {
    hide Member, Items, Count, Holds;
    ArrayHolds(items, selector, oracle);
    ItemsCount(items, 0, selector, compare, oracle);
    assert items[0..] == items;
    var values := Items(items, selector, compare);
    LastCounts(values);
    assert Last(values).Is?;
  }

  lemma {:induction false} FieldsKnown(fields: seq<Field>, selector: Option<string>, compare: Comparison, oracle: Oracle)
    requires forall i | 0 <= i < |fields| ::
      FieldMeaning(fields[i], selector, compare) == Is(FieldHolds(fields[i], selector, oracle))
    ensures var values := Fields(fields, selector, compare);
      && |values| == |fields|
      && forall i | 0 <= i < |fields| :: values[i] == Is(FieldHolds(fields[i], selector, oracle))
  {
    if fields != [] {
      var rest := fields[1..];
      assert forall i | 0 <= i < |rest| :: rest[i] == fields[i + 1];
      FieldsKnown(rest, selector, compare, oracle);
    }
  }
}
