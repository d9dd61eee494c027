/**
 Constraints on form states: nested objects are conjunctions, arrays are
 disjunctions, or exclusive ones when they hold the word 'xor'. The evaluator loops
 with early exits over undefined results; the same evaluator, run with a comparison
 that knows nothing, discovers what a real run may look up.
 */
module StateConstraints {
  import opened Maybe
  import opened StateNames

  /** Plain values that a reference or a state can have. */
  datatype Scalar = Bool(b: bool) | Num(n: int) | Str(s: string)

  datatype Json = Arr(items: seq<Json>) | Obj(fields: seq<Field>) | Lit(scalar: Scalar)

  datatype Field = Field(key: string, value: Json)

  /** A truth value that may be undefined. */
  datatype Truth = Undefined | Is(b: bool)

  /** Compares a reference with the value of a selector's state. */
  type Comparison = (Json, string, string) -> Truth

  function Invert(t: Truth, invert: bool): Truth {
    if invert && t.Is? then Is(!t.b) else t
  }

  function Ternary(a: Truth, b: Truth): Truth {
    if a.Undefined? then b else if b.Undefined? then a else Is(a.b && b.b)
  }

  /** The JavaScript || of two such values. */
  function Or(a: Truth, b: Truth): Truth {
    if a == Is(true) then a else b
  }

  const XOR: Json := Lit(Str("xor"))

  predicate Digit(key: string) {
    key != "" && '0' <= key[0] <= '9'
  }

  /** What a key of an object stands for. */
  datatype Role = Nested(inner: Option<string>) | Leaf(selector: string, state: State)

  function RoleOf(key: string, selector: Option<string>): Role {
    if Digit(key) then Nested(selector)
    else
      match selector
      case None => Nested(Some(key))
      case Some(s) => Leaf(s, Normal(key))
  }

  /* ---- the meaning, without exits ---- */

  function Meaning(c: Json, selector: Option<string>, compare: Comparison): Truth
    decreases c, 1
  {
    match c
    case Arr(items) =>
      var values := Items(items, selector, compare);
      if XOR in items then OneOf(values) else AnyOf(values)
    case Obj(fields) => AllOf(Fields(fields, selector, compare))
    case Lit(_) => Undefined
  }

  /** The meanings of the members of an array, but for the word 'xor'. */
  function Items(items: seq<Json>, selector: Option<string>, compare: Comparison): seq<Truth>
    decreases items, 0
  {
    if items == [] then []
    else if items[0] == XOR then Items(items[1..], selector, compare)
    else [Meaning(items[0], selector, compare)] + Items(items[1..], selector, compare)
  }

  function Fields(fields: seq<Field>, selector: Option<string>, compare: Comparison): seq<Truth>
    decreases fields, 0
  {
    if fields == [] then []
    else
      [FieldMeaning(fields[0], selector, compare)] + Fields(fields[1..], selector, compare)
  }

  function FieldMeaning(field: Field, selector: Option<string>, compare: Comparison): Truth
    decreases field, 0
  {
    match RoleOf(field.key, selector)
    case Nested(s) => Meaning(field.value, s, compare)
    case Leaf(s, state) => Invert(compare(field.value, s, state.name), state.invert)
  }

  function Count(values: seq<Truth>): nat {
    if values == [] then 0 else (if values[0] == Is(true) then 1 else 0) + Count(values[1..])
  }

  function Last(values: seq<Truth>): Truth {
    if values == [] then Undefined else values[|values| - 1]
  }

  /** True if some value is; otherwise the last one. */
  function AnyOf(values: seq<Truth>): Truth {
    if Count(values) > 0 then Is(true) else Last(values)
  }

  /** True for one true value, false for more; otherwise the last one. */
  function OneOf(values: seq<Truth>): Truth {
    if Count(values) > 1 then Is(false)
    else if Count(values) == 1 then Is(true)
    else Last(values)
  }

  /** The conjunction of the values that are defined. */
  function AllOf(values: seq<Truth>): Truth {
    if Is(false) in values then Is(false)
    else if Is(true) in values then Is(true)
    else Undefined
  }

  /** Everything a comparison can be asked about, in order. */
  function Leaves(c: Json, selector: Option<string>): seq<(string, string)>
    decreases c, 1
  {
    match c
    case Arr(items) => ItemLeaves(items, selector)
    case Obj(fields) => FieldLeaves(fields, selector)
    case Lit(_) => []
  }

  function ItemLeaves(items: seq<Json>, selector: Option<string>): seq<(string, string)>
    decreases items, 0
  {
    if items == [] then []
    else (if items[0] == XOR then [] else Leaves(items[0], selector)) + ItemLeaves(items[1..], selector)
  }

  function FieldLeaves(fields: seq<Field>, selector: Option<string>): seq<(string, string)>
    decreases fields, 0
  {
    if fields == [] then []
    else
      LeavesOf(fields[0], selector) + FieldLeaves(fields[1..], selector)
  }

  function LeavesOf(field: Field, selector: Option<string>): seq<(string, string)>
    decreases field, 0
  {
    match RoleOf(field.key, selector)
    case Nested(s) => Leaves(field.value, s)
    case Leaf(s, state) => [(s, state.name)]
  }

  /** A comparison that records but never answers. */
  ghost predicate Silent(compare: Comparison) {
    forall reference, selector, name :: compare(reference, selector, name) == Undefined
  }

  /* ---- the evaluator ---- */

  /** Looked-up pairs: all of them leaves, and every leaf in a silent run. */
  ghost predicate Looked(log: seq<(string, string)>, leaves: seq<(string, string)>, silent: bool) {
    (forall l | l in log :: l in leaves) && (silent ==> log == leaves)
  }

  /** Evaluates a constraint with early exits. `log` lists the lookups made. */
  method VerifyConstraints(c: Json, selector: Option<string>, compare: Comparison)
    returns (result: Truth, log: seq<(string, string)>)
    ensures result == Meaning(c, selector, compare)
    ensures Looked(log, Leaves(c, selector), Silent(compare))
    ensures Silent(compare) ==> result == Undefined
    decreases c, 1
  {
    result, log := Undefined, [];
    match c
    case Arr(items) =>
      result, log := VerifyItems(items, selector, compare);
    case Obj(fields) =>
      result, log := VerifyFields(fields, selector, compare);
    case Lit(_) =>
  }

  method VerifyItems(items: seq<Json>, selector: Option<string>, compare: Comparison)
    returns (result: Truth, log: seq<(string, string)>)
    ensures result == Meaning(Arr(items), selector, compare)
    ensures Looked(log, ItemLeaves(items, selector), Silent(compare))
    ensures Silent(compare) ==> result == Undefined
    decreases items, 0
  {
    hide Meaning, Items, Leaves, ItemLeaves, Count, Silent;
    ItemsEnds(items, selector, compare);
    result, log := Undefined, [];
    var plain := XOR !in items;
    ghost var seen: seq<Truth>, asked: seq<(string, string)> := [], [];
    LookedAtNothing(Silent(compare));
    for i := 0 to |items|
      invariant Items(items, selector, compare) == seen + Items(items[i..], selector, compare)
      invariant ItemLeaves(items, selector) == asked + ItemLeaves(items[i..], selector)
      invariant Count(seen) <= (if plain then 0 else 1)
      invariant result == if Count(seen) > 0 then Is(true) else Last(seen)
      invariant Looked(log, asked, Silent(compare))
      invariant Silent(compare) ==> result == Undefined
    {
      ItemsStep(items, i, selector, compare);
      if items[i] != XOR {
        var constraint, more := VerifyConstraints(items[i], selector, compare);
        CountPush(seen, constraint);
        CountConcat(seen + [constraint], Items(items[i + 1..], selector, compare));
        LastCounts(seen);
        LookedMore(log, asked, more, Leaves(items[i], selector), Silent(compare));
        assert asked + (Leaves(items[i], selector) + ItemLeaves(items[i + 1..], selector)) ==
          (asked + Leaves(items[i], selector)) + ItemLeaves(items[i + 1..], selector);
        log, asked := log + more, asked + Leaves(items[i], selector);
        assert seen + ([constraint] + Items(items[i + 1..], selector, compare)) ==
          (seen + [constraint]) + Items(items[i + 1..], selector, compare);
        seen := seen + [constraint];
        if constraint == Is(true) && (plain || result == Is(true)) {
          LookedPart(log, asked, ItemLeaves(items[i + 1..], selector), Silent(compare));
          return Is(plain), log;
        }
        result := Or(result, constraint);
      }
    }
    assert seen + [] == seen && asked + [] == asked;
  }

  /** The two ends of the loop over an array. */
  lemma ItemsEnds(items: seq<Json>, selector: Option<string>, compare: Comparison)
    ensures items[0..] == items && Count([]) == 0
    ensures Items(items[|items|..], selector, compare) == [] && ItemLeaves(items[|items|..], selector) == []
    ensures Meaning(Arr(items), selector, compare) ==
      var values := Items(items, selector, compare); if XOR in items then OneOf(values) else AnyOf(values)
  {
  }

  lemma LookedAtNothing(silent: bool)
    ensures Looked([], [], silent)
  {
  }

  lemma LookedMore(log: seq<(string, string)>, asked: seq<(string, string)>,
                   more: seq<(string, string)>, leaves: seq<(string, string)>, silent: bool)
    requires Looked(log, asked, silent) && Looked(more, leaves, silent)
    ensures Looked(log + more, asked + leaves, silent)
  {
  }

  /** A run that stopped early has only looked at leaves. */
  lemma LookedPart(log: seq<(string, string)>, asked: seq<(string, string)>, rest: seq<(string, string)>, silent: bool)
    requires Looked(log, asked, silent) && !silent
    ensures Looked(log, asked + rest, silent)
  {
  }

  lemma ItemsStep(items: seq<Json>, i: nat, selector: Option<string>, compare: Comparison)
    requires i < |items|
    ensures Items(items[i..], selector, compare) ==
      (if items[i] == XOR then [] else [Meaning(items[i], selector, compare)]) + Items(items[i + 1..], selector, compare)
    ensures ItemLeaves(items[i..], selector) ==
      (if items[i] == XOR then [] else Leaves(items[i], selector)) + ItemLeaves(items[i + 1..], selector)
  {
    assert items[i..][1..] == items[i + 1..];
  }

  method VerifyFields(fields: seq<Field>, selector: Option<string>, compare: Comparison)
    returns (result: Truth, log: seq<(string, string)>)
    ensures result == Meaning(Obj(fields), selector, compare)
    ensures Looked(log, FieldLeaves(fields, selector), Silent(compare))
    ensures Silent(compare) ==> result == Undefined
    decreases fields, 0
  {
    hide Meaning, Fields, Leaves, FieldLeaves, FieldMeaning, LeavesOf, AllOf;
    FieldsEnds(fields, selector, compare);
    result, log := Undefined, [];
    ghost var seen: seq<Truth>, asked: seq<(string, string)> := [], [];
    LookedAtNothing(Silent(compare));
    for i := 0 to |fields|
      invariant Fields(fields, selector, compare) == seen + Fields(fields[i..], selector, compare)
      invariant FieldLeaves(fields, selector) == asked + FieldLeaves(fields[i..], selector)
      invariant result == AllOf(seen) != Is(false)
      invariant Looked(log, asked, Silent(compare))
      invariant Silent(compare) ==> result == Undefined
    {
      FieldsStep(fields, i, selector, compare);
      var checked, more := CheckConstraint(fields[i], selector, compare);
      AllPush(seen, checked);
      LookedMore(log, asked, more, LeavesOf(fields[i], selector), Silent(compare));
      assert asked + (LeavesOf(fields[i], selector) + FieldLeaves(fields[i + 1..], selector)) ==
        (asked + LeavesOf(fields[i], selector)) + FieldLeaves(fields[i + 1..], selector);
      log, asked := log + more, asked + LeavesOf(fields[i], selector);
      assert seen + ([checked] + Fields(fields[i + 1..], selector, compare)) ==
        (seen + [checked]) + Fields(fields[i + 1..], selector, compare);
      seen := seen + [checked];
      result := Ternary(result, checked);
      if result == Is(false) {
        AllFalse(seen, Fields(fields[i + 1..], selector, compare));
        LookedPart(log, asked, FieldLeaves(fields[i + 1..], selector), Silent(compare));
        return;
      }
    }
    assert seen + [] == seen && asked + [] == asked;
  }

  lemma FieldsEnds(fields: seq<Field>, selector: Option<string>, compare: Comparison)
    ensures fields[0..] == fields && AllOf([]) == Undefined
    ensures Fields(fields[|fields|..], selector, compare) == [] && FieldLeaves(fields[|fields|..], selector) == []
    ensures Meaning(Obj(fields), selector, compare) == AllOf(Fields(fields, selector, compare))
  {
  }

  /** One member of an object: a nested constraint, or a state to compare. */
  method CheckConstraint(field: Field, selector: Option<string>, compare: Comparison)
    returns (result: Truth, log: seq<(string, string)>)
    ensures result == FieldMeaning(field, selector, compare)
    ensures Looked(log, LeavesOf(field, selector), Silent(compare))
    ensures Silent(compare) ==> result == Undefined
    decreases field, 0
  {
    match RoleOf(field.key, selector)
    case Nested(s) =>
      result, log := VerifyConstraints(field.value, s, compare);
    case Leaf(s, state) =>
      result := Invert(compare(field.value, s, state.name), state.invert);
      log := [(s, state.name)];
  }

  lemma FieldsStep(fields: seq<Field>, i: nat, selector: Option<string>, compare: Comparison)
    requires i < |fields|
    ensures Fields(fields[i..], selector, compare) ==
      [FieldMeaning(fields[i], selector, compare)] + Fields(fields[i + 1..], selector, compare)
    ensures FieldLeaves(fields[i..], selector) ==
      LeavesOf(fields[i], selector) + FieldLeaves(fields[i + 1..], selector)
  {
    assert fields[i..][1..] == fields[i + 1..];
  }

  lemma AllPush(a: seq<Truth>, t: Truth)
    ensures AllOf(a) != Is(false) ==> AllOf(a + [t]) == Ternary(AllOf(a), t)
  {
    assert forall x :: x in a + [t] <==> x in a || x == t;
  }

  lemma AllFalse(a: seq<Truth>, b: seq<Truth>)
    ensures AllOf(a) == Is(false) ==> AllOf(a + b) == Is(false)
  {
  }

  lemma {:induction false} LastCounts(a: seq<Truth>)
    ensures Last(a) == Is(true) ==> Count(a) > 0
  {
    if |a| > 0 {
      assert a == a[..|a| - 1] + [a[|a| - 1]];
      CountPush(a[..|a| - 1], a[|a| - 1]);
    }
  }

  lemma {:induction false} CountConcat(a: seq<Truth>, b: seq<Truth>)
    ensures Count(a + b) == Count(a) + Count(b)
  {
    if a == [] {
      assert a + b == b;
    } else {
      assert (a + b)[1..] == a[1..] + b;
      CountConcat(a[1..], b);
    }
  }

  lemma CountPush(a: seq<Truth>, t: Truth)
    ensures Count(a + [t]) == Count(a) + if t == Is(true) then 1 else 0
  {
    CountConcat(a, [t]);
  }
}
