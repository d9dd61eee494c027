/**
 What a single condition means: when a reference counts as equal to a watched value,
 and what a dependent element is told because of it.
 */
module StateLeaves {
  import opened Maybe
  import opened StateNames
  import opened StateConstraints
  import opened StateDependent

  /* ---- reading decimal text ---- */

  predicate IsDigit(c: char) {
    '0' <= c <= '9'
  }

  /** A natural number as it is usually written: digits, without leading zeros. */
  predicate Natural(t: string) {
    && t != "" && (forall i | 0 <= i < |t| :: IsDigit(t[i]))
    && (t[0] == '0' ==> |t| == 1)
  }

  function Value10(t: string): nat
    requires forall i | 0 <= i < |t| :: IsDigit(t[i])
  {
    if t == "" then 0
    else
      var last := t[|t| - 1];
      assert IsDigit(last);
      10 * Value10(t[..|t| - 1]) + (last as int - '0' as int)
  }

  /** The number a text stands for, if it is written in the usual way. */
  function Read(t: string): Option<int> {
    if Natural(t) then Some(Value10(t))
    else if t != "" && t[0] == '-' && Natural(t[1..]) && t[1..] != "0" then Some(0 - Value10(t[1..]))
    else None
  }

  lemma DigitText(k: nat)
    requires k < 10
    ensures var c := "0123456789"[k]; IsDigit(c) && c as int - '0' as int == k
  {
  }

  /** One more digit behind a natural number that is not zero. */
  lemma DigitBehind(front: string, k: nat)
    requires Natural(front) && front != "0" && k < 10
    ensures var t := front + ["0123456789"[k]];
      Natural(t) && Value10(t) == 10 * Value10(front) + k && t[0] == front[0] && t != "0"
  {
    DigitText(k);
    var t := front + ["0123456789"[k]];
    assert t[..|t| - 1] == front && t[0] == front[0];
    assert front[0] != '0' by {
      assert front == "0" <==> |front| == 1 && front[0] == '0';
    }
  }

  lemma {:induction false} DigitsRead(n: nat)
    ensures Natural(Digits(n)) && Value10(Digits(n)) == n
    ensures n > 0 ==> Digits(n) != "0"
  {
    if n < 10 {
      DigitText(n);
      assert Digits(n)[..0] == "";
    } else {
      DigitsRead(n / 10);
      DigitBehind(Digits(n / 10), n % 10);
    }
  }

  lemma DigitsStep(v: nat, k: nat)
    requires v > 0 && k < 10
    ensures Digits(10 * v + k) == Digits(v) + ["0123456789"[k]]
  {
  }

  /** A natural number of several digits without its last one. */
  lemma FrontNatural(t: string)
    requires Natural(t) && |t| > 1
    ensures Natural(t[..|t| - 1]) && t[..|t| - 1] != "0"
  {
    var front := t[..|t| - 1];
    assert forall i | 0 <= i < |front| :: front[i] == t[i] && IsDigit(t[i]);
    assert front[0] == t[0] != '0';
  }

  lemma {:induction false} ReadDigits(t: string)
    requires Natural(t)
    ensures Digits(Value10(t)) == t && (t != "0" ==> Value10(t) > 0)
  {
    hide IsDigit, Digits;
    LastDigit(t);
    var front, k := t[..|t| - 1], t[|t| - 1] as int - '0' as int;
    assert t == front + [t[|t| - 1]];
    if |t| == 1 {
      assert front == "" && Value10(t) == k;
      OneDigit(k);
    } else {
      FrontNatural(t);
      ReadDigits(front);
      DigitsStep(Value10(front), k);
    }
  }

  lemma OneDigit(k: nat)
    requires k < 10
    ensures Digits(k) == ["0123456789"[k]] && (k == 0 <==> ["0123456789"[k]] == "0")
  {
  }

  lemma LastDigit(t: string)
    requires Natural(t)
    ensures var last := t[|t| - 1];
      var k := last as int - '0' as int; 0 <= k < 10 && last == "0123456789"[k]
  {
    assert IsDigit(t[|t| - 1]);
  }

  lemma NaturalExact(t: string, n: nat)
    ensures Natural(t) && Value10(t) == n <==> t == Digits(n)
    ensures t == Digits(n) ==> (n > 0 <==> t != "0") && t[0] != '-'
  {
    hide Digits;
    DigitsRead(n);
    if Natural(t) {
      ReadDigits(t);
      assert IsDigit(t[0]);
    }
    assert Digits(0) == "0" by { ZeroText(); }
  }

  lemma ZeroText()
    ensures Digits(0) == "0"
  {
  }

  lemma Signed(t: string)
    ensures t != "" && t[0] == '-' ==> !Natural(t)
    ensures Natural(t) && t != "0" ==> Value10(t) > 0
  {
    if Natural(t) {
      ReadDigits(t);
      assert IsDigit(t[0]);
    }
  }

  /** The reader undoes the writer, and what it reads as n is what is written for n. */
  lemma ReadExact(t: string, n: int)
    ensures Read(t) == Some(n) <==> t == Decimal(n)
  {
    hide Digits, Natural, Value10;
    var rest := if t == "" then "" else t[1..];
    Signed(t);
    Signed(rest);
    if n >= 0 {
      NaturalExact(t, n);
    } else {
      NaturalExact(rest, -n);
      assert Decimal(n)[0] == '-' && Decimal(n)[1..] == Digits(-n);
      assert t != "" && t[0] == '-' ==> t == "-" + rest;
    }
  }

  /* ---- one condition ---- */

  /** The value satisfies the reference: it is not known, or is the same plain value, or
      the text of the same number. */
  predicate Satisfies(reference: Json, value: Value) {
    match value
    case Undef => true
    case Null => false
    case Of(v) => reference.Lit? && (reference.scalar == v || (reference.scalar.Num? && v.Str? && Read(v.s) == Some(reference.scalar.n)))
  }

  lemma MatchesExact(reference: Json, value: Value)
    ensures Matches(reference, value) <==> Satisfies(reference, value)
  {
    if reference.Lit? && reference.scalar.Num? && value.Of? && value.scalar.Str? {
      ReadExact(value.scalar.s, reference.scalar.n);
    }
  }

  /** One condition: this state of this selector has this value. */
  function Condition(selector: string, name: string, reference: Json): Json {
    Obj([Field(selector, Obj([Field(name, reference)]))])
  }

  /** The names a condition is written with: a selector, and a state without alias that
      may be negated. */
  predicate Named(selector: string, name: string) {
    !Digit(selector) && !Digit(name) && Bare(name) !in ALIASES
  }

  lemma SingleField(field: Field, selector: Option<string>, compare: Comparison)
    ensures Meaning(Obj([field]), selector, compare) == FieldMeaning(field, selector, compare)
  {
    var t := FieldMeaning(field, selector, compare);
    assert [field][1..] == [] && [t] + [] == [t];
    assert Fields([field], selector, compare) == [t];
    assert t in [t];
    assert t == Undefined || t == Is(true) || t == Is(false);
  }

  lemma ConditionMeaning(selector: string, name: string, reference: Json, compare: Comparison)
    requires Named(selector, name)
    ensures Meaning(Condition(selector, name, reference), None, compare) ==
      Invert(compare(reference, selector, Bare(name)), Odd(name))
  {
    SingleField(Field(selector, Obj([Field(name, reference)])), None, compare);
    SingleField(Field(name, reference), Some(selector), compare);
  }

  /** After any updates of which one changed a value, what is stored for one condition is
      whether the value now stored satisfies it, or does not where the state's name is
      negated. */
  lemma ConditionStored(selector: string, name: string, reference: Json, negated: bool, values: Values, us: seq<Change>)
    requires Named(selector, name) && (selector, Bare(name)) in values && SomeEffective(values, us)
    ensures var m := ApplyAll(Memory(values, None, []), Condition(selector, name, reference), negated, us);
      && (selector, Bare(name)) in m.values
      && m.oldValue == Some(Is(Satisfies(reference, m.values[(selector, Bare(name))]) != Odd(name)))
  {
    hide Satisfies, Matches, Condition;
    var c := Condition(selector, name, reference);
    CacheIsFresh(c, negated, values, us);
    EventsAreChanges(c, negated, values, us);
    StoredKeys(values, us);
    var m := ApplyAll(Memory(values, None, []), c, negated, us);
    ConditionMeaning(selector, name, reference, Against(m.values));
    MatchesExact(reference, m.values[(selector, Bare(name))]);
  }

  lemma {:induction false} StoredKeys(values: Values, us: seq<Change>)
    ensures StoreAll(values, us).Keys == values.Keys
  {
    if us != [] {
      StoredKeys(values, us[..|us| - 1]);
    }
  }

  /** What the dependent element is told, at a change: whether the condition holds, or
      does not where its own state is negated. */
  lemma ConditionTold(selector: string, name: string, reference: Json, negated: bool, values: Values, us: seq<Change>, u: Change)
    requires Named(selector, name) && (selector, Bare(name)) in values
    ensures var c := Condition(selector, name, reference);
      var m := ApplyAll(Memory(values, None, []), c, negated, us);
      var n := Apply(m, c, negated, u);
      n.events != m.events ==>
        && (selector, Bare(name)) in n.values
        && n.events == m.events +
             [Is((Satisfies(reference, n.values[(selector, Bare(name))]) != Odd(name)) != negated)]
  {
    hide Satisfies, Matches, Condition;
    var c := Condition(selector, name, reference);
    EventsAreChanges(c, negated, values, us);
    StoredKeys(values, us);
    var m := ApplyAll(Memory(values, None, []), c, negated, us);
    var n := Apply(m, c, negated, u);
    ConditionMeaning(selector, name, reference, Against(n.values));
    if (selector, Bare(name)) in n.values {
      MatchesExact(reference, n.values[(selector, Bare(name))]);
    }
  }

  /** A key that begins with a digit groups a constraint without changing it. */
  lemma DigitKeyGroups(key: string, c: Json, selector: Option<string>, compare: Comparison)
    requires Digit(key)
    ensures Meaning(Obj([Field(key, c)]), selector, compare) == Meaning(c, selector, compare)
  {
    SingleField(Field(key, c), selector, compare);
  }
}
