/** Names of states: exclamation marks negate, and some names stand for others. */
module StateNames {

  const ALIASES: map<string, string> := map[
    "enabled" := "!disabled",
    "invisible" := "!visible",
    "invalid" := "!valid",
    "untouched" := "!touched",
    "optional" := "!required",
    "filled" := "!empty",
    "unchecked" := "!checked",
    "irrelevant" := "!relevant",
    "expanded" := "!collapsed",
    "open" := "!collapsed",
    "closed" := "collapsed",
    "readwrite" := "!readonly"
  ]

  /** A name as the library uses it, and whether it is negated. */
  datatype State = State(name: string, invert: bool)

  predicate Bang(s: string) {
    s != "" && s[0] == '!'
  }

  /** The name without its leading exclamation marks. */
  function Bare(s: string): (r: string)
    ensures |r| <= |s| && !Bang(r)
  {
    if Bang(s) then Bare(s[1..]) else s
  }

  /** An odd number of leading exclamation marks. */
  function Odd(s: string): bool {
    if Bang(s) then !Odd(s[1..]) else false
  }

  predicate Settled(s: string) {
    !Bang(s) && s !in ALIASES
  }

  /** Told by its first letter and its length, this is no alias. */
  predicate NoAliasShape(s: string) {
    s != "" &&
    (s[0] == 'd' || s[0] == 'v' || s[0] == 't' || (s[0] == 'e' && |s| == 5) ||
     (s[0] == 'r' && |s| == 8) || (s[0] == 'c' && |s| != 6))
  }

  lemma ShapeIsNoAlias(s: string)
    requires NoAliasShape(s)
    ensures Settled(s)
  {
  }

  lemma AliasShape(k: string)
    requires k in ALIASES
    ensures var v := ALIASES[k]; NoAliasShape(if Bang(v) then v[1..] else v)
  {
  }

  /** No alias stands for another alias. */
  lemma AliasSettled(k: string)
    requires k in ALIASES
    ensures Settled(Bare(ALIASES[k]))
  {
    var v := ALIASES[k];
    AliasShape(k);
    ShapeIsNoAlias(if Bang(v) then v[1..] else v);
  }

  /** A name without marks or aliases; one replacement is always enough. */
  function Normal(s: string): State {
    var bare := Bare(s);
    if bare in ALIASES
    then State(Bare(ALIASES[bare]), Odd(s) != Odd(ALIASES[bare]))
    else State(bare, Odd(s))
  }

  /** The loop that strips marks and follows aliases until neither applies. */
  method Sanitize(state: string) returns (r: State)
    ensures r == Normal(state)
  {
    var name, invert := state, false;
    var process := true;
    ghost var followed := false;
    while process
      invariant if followed then
          Bare(state) in ALIASES && Bare(name) == Bare(ALIASES[Bare(state)]) &&
          (invert != Odd(name)) == (Odd(state) != Odd(ALIASES[Bare(state)]))
        else Bare(name) == Bare(state) && (invert != Odd(name)) == Odd(state)
      invariant !process ==> Settled(name)
      decreases process, !followed
    {
      while Bang(name)
        invariant if followed then
            Bare(state) in ALIASES && Bare(name) == Bare(ALIASES[Bare(state)]) &&
            (invert != Odd(name)) == (Odd(state) != Odd(ALIASES[Bare(state)]))
          else Bare(name) == Bare(state) && (invert != Odd(name)) == Odd(state)
        decreases |name|
      {
        name := name[1..];
        invert := !invert;
      }
      if name in ALIASES {
        if followed { AliasSettled(Bare(state)); }
        name := ALIASES[name];
        followed := true;
      } else {
        process := false;
      }
    }
    r := State(name, invert);
    if followed { AliasSettled(Bare(state)); }
  }

  /** A reading of all names that respects marks and aliases. */
  ghost predicate Consistent(reading: string -> bool) {
    && (forall s | Bang(s) :: reading(s) == !reading(s[1..]))
    && (forall k | k in ALIASES :: reading(k) == reading(ALIASES[k]))
  }

  lemma {:induction false} BareReading(reading: string -> bool, s: string)
    requires Consistent(reading)
    ensures reading(s) == (reading(Bare(s)) != Odd(s))
  {
    if Bang(s) {
      BareReading(reading, s[1..]);
    }
  }

  /** The normal form means the same as the name under every consistent reading,
      and is itself free of marks and aliases. */
  lemma NormalKeepsMeaning(reading: string -> bool, s: string)
    requires Consistent(reading)
    ensures Settled(Normal(s).name)
    ensures reading(s) == (reading(Normal(s).name) != Normal(s).invert)
  {
    BareReading(reading, s);
    if Bare(s) in ALIASES {
      AliasSettled(Bare(s));
      BareReading(reading, ALIASES[Bare(s)]);
    }
  }

  /** What each alias stands for. */
  lemma AliasReadings(reading: string -> bool)
    requires Consistent(reading)
    ensures reading("enabled") != reading("disabled") && reading("invisible") != reading("visible")
    ensures reading("invalid") != reading("valid") && reading("untouched") != reading("touched")
    ensures reading("optional") != reading("required") && reading("filled") != reading("empty")
    ensures reading("unchecked") != reading("checked") && reading("irrelevant") != reading("relevant")
    ensures reading("expanded") != reading("collapsed") && reading("open") != reading("collapsed")
    ensures reading("closed") == reading("collapsed") && reading("readwrite") != reading("readonly")
  {
    hide Consistent;
    Opposite(reading, "enabled", "disabled");
    Opposite(reading, "invisible", "visible");
    Opposite(reading, "invalid", "valid");
    Opposite(reading, "untouched", "touched");
    Opposite(reading, "optional", "required");
    Opposite(reading, "filled", "empty");
    Opposite(reading, "unchecked", "checked");
    Opposite(reading, "irrelevant", "relevant");
    Opposite(reading, "expanded", "collapsed");
    Opposite(reading, "open", "collapsed");
    Opposite(reading, "readwrite", "readonly");
    Same(reading, "closed", "collapsed");
  }

  lemma Same(reading: string -> bool, alias: string, name: string)
    requires Consistent(reading) && alias in ALIASES && ALIASES[alias] == name
    ensures reading(alias) == reading(name)
  {
  }

  lemma Opposite(reading: string -> bool, alias: string, name: string)
    requires Consistent(reading) && alias in ALIASES && ALIASES[alias] == "!" + name
    ensures reading(alias) != reading(name)
  {
    var s := "!" + name;
    assert s[1..] == name && Bang(s);
  }
}
