/** REST resource configuration, per method or for the whole resource. */
module RestConfig {
  import opened Maybe
  import opened Lists
  import S = StringReplace

  /** What is configured for one method. */
  datatype Entry = Entry(method_: string, formats: seq<string>, auth: seq<string>)

  datatype Config =
    | PerMethod(entries: seq<Entry>)
    | PerResource(methods: seq<string>, formats: seq<string>, auth: seq<string>)
  {
    /** A configuration by method is keyed by it. */
    ghost predicate Keyed() {
      PerMethod? ==> forall i, j | 0 <= i < j < |entries| :: entries[i].method_ != entries[j].method_
    }
  }

  function Implode(names: seq<string>): string {
    S.Join(names, ",")
  }

  function Formats(entries: seq<Entry>): (r: seq<string>)
    ensures |r| == |entries| && forall i | 0 <= i < |r| :: r[i] == Implode(entries[i].formats)
  {
    seq(|entries|, i requires 0 <= i < |entries| => Implode(entries[i].formats))
  }

  function Auths(entries: seq<Entry>): (r: seq<string>)
    ensures |r| == |entries| && forall i | 0 <= i < |r| :: r[i] == Implode(entries[i].auth)
  {
    seq(|entries|, i requires 0 <= i < |entries| => Implode(entries[i].auth))
  }

  function Methods(entries: seq<Entry>): (r: seq<string>)
    ensures |r| == |entries| && forall i | 0 <= i < |r| :: r[i] == entries[i].method_
  {
    seq(|entries|, i requires 0 <= i < |entries| => entries[i].method_)
  }

  function Convert(c: Config): Config {
    if c.PerMethod? && |Unique(Formats(c.entries))| == 1 && |Unique(Auths(c.entries))| == 1 then
      UniqueIsOne(Formats(c.entries));
      PerResource(Methods(c.entries), c.entries[0].formats, c.entries[0].auth)
    else c
  }

  class Entity {
    var config: Config
    var saves: nat

    constructor (config: Config)
      ensures this.config == config && saves == 0
    {
      this.config, saves := config, 0;
    }

    /** Converts the configuration if its methods agree, and saves it only then. */
    method Simplify()
      modifies this
      ensures config == Convert(old(config))
      ensures saves == old(saves) + if old(config).PerMethod? && config.PerResource? then 1 else 0
    {
      if config.PerMethod? {
        var entries := config.entries;
        var formats, auths, methods := [], [], [];
        for i := 0 to |entries|
          invariant formats == Formats(entries[..i]) && auths == Auths(entries[..i]) && methods == Methods(entries[..i])
          invariant config == old(config) && saves == old(saves)
        {
          formats := formats + [Implode(entries[i].formats)];
          auths := auths + [Implode(entries[i].auth)];
          methods := methods + [entries[i].method_];
        }
        assert entries[..|entries|] == entries;
        if |Unique(formats)| == 1 && |Unique(auths)| == 1 {
          UniqueIsOne(formats);
          config := PerResource(methods, entries[0].formats, entries[0].auth);
          saves := saves + 1;
        }
      }
    }
  }

  method SimplifyAll(entities: seq<Entity>)
    requires forall i, j | 0 <= i < j < |entities| :: entities[i] != entities[j]
    modifies set e <- entities
    ensures forall e <- entities :: e.config == Convert(old(e.config))
  {
    for i := 0 to |entities|
      invariant forall j | 0 <= j < i :: entities[j].config == Convert(old(entities[j].config))
      invariant forall j | i <= j < |entities| :: entities[j].config == old(entities[j].config)
    {
      entities[i].Simplify();
    }
  }

  /* ---- what a configuration means ---- */

  datatype Settings = Settings(formats: seq<string>, auth: seq<string>)

  function LookupEntry(entries: seq<Entry>, m: string): Option<Settings> {
    if entries == [] then None
    else if entries[0].method_ == m then Some(Settings(entries[0].formats, entries[0].auth))
    else LookupEntry(entries[1..], m)
  }

  /** What is configured for a method, if it is enabled. */
  function Lookup(c: Config, m: string): Option<Settings> {
    match c
    case PerMethod(entries) => LookupEntry(entries, m)
    case PerResource(methods, formats, auth) => if m in methods then Some(Settings(formats, auth)) else None
  }

  predicate Agree(entries: seq<Entry>) {
    forall i | 0 <= i < |entries| :: entries[i].formats == entries[0].formats && entries[i].auth == entries[0].auth
  }

  lemma {:induction false} LookupMember(entries: seq<Entry>, m: string, k: nat)
    requires PerMethod(entries).Keyed() && k < |entries| && entries[k].method_ == m
    ensures LookupEntry(entries, m) == Some(Settings(entries[k].formats, entries[k].auth))
  {
    if k > 0 {
      LookupMember(entries[1..], m, k - 1);
    }
  }

  lemma {:induction false} LookupAbsent(entries: seq<Entry>, m: string)
    requires m !in Methods(entries)
    ensures LookupEntry(entries, m) == None
  {
    if entries != [] {
      assert Methods(entries)[0] != m;
      assert Methods(entries[1..]) == Methods(entries)[1..];
      LookupAbsent(entries[1..], m);
    }
  }

  /** There is a method, and joined with commas all methods' names look the same. */
  predicate LookAlike(entries: seq<Entry>) {
    entries != [] &&
    forall i | 0 <= i < |entries| ::
      && Implode(entries[i].formats) == Implode(entries[0].formats)
      && Implode(entries[i].auth) == Implode(entries[0].auth)
  }

  lemma ConvertsIffAlike(c: Config)
    requires c.PerMethod?
    ensures Convert(c).PerResource? <==> LookAlike(c.entries)
  {
    hide Unique, Implode;
    var formats, auths := Formats(c.entries), Auths(c.entries);
    UniqueIsOne(formats);
    UniqueIsOne(auths);
    assert forall i | 0 <= i < |formats| :: formats[i] in formats && auths[i] in auths;
  }

  /** Whatever the names are, the conversion keeps the settings of every method if and
      only if methods that look alike when joined also agree. */
  lemma ConvertKeepsExact(c: Config)
    requires c.Keyed()
    ensures (forall m :: Lookup(Convert(c), m) == Lookup(c, m)) <==>
      (c.PerMethod? && LookAlike(c.entries) ==> Agree(c.entries))
  {
    if c.PerMethod? {
      ConvertsIffAlike(c);
      if LookAlike(c.entries) {
        ConvertedLookup(c);
      }
    }
  }

  /** A converted configuration gives every method the first one's settings. */
  lemma ConvertedLookup(c: Config)
    requires c.PerMethod? && c.Keyed() && Convert(c).PerResource?
    ensures (forall m :: Lookup(Convert(c), m) == Lookup(c, m)) <==> Agree(c.entries)
  {
    var entries, d := c.entries, Convert(c);
    forall k | 0 <= k < |entries|
      ensures Lookup(c, entries[k].method_) == Some(Settings(entries[k].formats, entries[k].auth))
      ensures Lookup(d, entries[k].method_) == Some(Settings(entries[0].formats, entries[0].auth))
    {
      LookupMember(entries, entries[k].method_, k);
      assert Methods(entries)[k] in Methods(entries);
    }
    forall m | m !in Methods(entries)
      ensures Lookup(d, m) == Lookup(c, m)
    {
      LookupAbsent(entries, m);
    }
  }

  /* ---- when the joined names say what the names are ---- */

  predicate Plain(names: seq<string>) {
    forall n <- names :: n != "" && ',' !in n
  }

  /** The text before the first comma is the same. */
  lemma SameHead(a: string, r: string, b: string, t: string)
    requires ',' !in a && ',' !in b && a + "," + r == b + "," + t
    ensures a == b && r == t
  {
    var s := a + "," + r;
    assert s[|a|] == ',' && s[|b|] == ',';
    assert forall k | 0 <= k < |a| :: s[k] == a[k] && s[k] in a;
    assert forall k | 0 <= k < |b| :: s[k] == b[k] && s[k] in b;
    assert |a| == |b|;
    assert s[|a| + 1..] == r && s[|b| + 1..] == t;
    assert s[..|a|] == a && s[..|b|] == b;
  }

  lemma ImplodeHasComma(a: seq<string>)
    requires |a| > 1
    ensures ',' in Implode(a)
  {
    assert Implode(a)[|a[0]|] == ',';
  }

  lemma ImplodeOne(a: seq<string>, name: string)
    requires ',' !in name && name != "" && Implode(a) == name
    ensures a == [name]
  {
    if |a| > 1 {
      ImplodeHasComma(a);
    }
  }

  lemma {:induction false} ImplodeInjective(a: seq<string>, b: seq<string>)
    requires Plain(a) && Plain(b) && Implode(a) == Implode(b)
    ensures a == b
  {
    if |a| > 1 && |b| > 1 {
      SameHead(a[0], Implode(a[1..]), b[0], Implode(b[1..]));
      assert forall n <- a[1..] :: n in a;
      assert forall n <- b[1..] :: n in b;
      ImplodeInjective(a[1..], b[1..]);
    } else if |a| == 1 {
      ImplodeOne(b, a[0]);
    } else if |b| == 1 {
      ImplodeOne(a, b[0]);
    }
  }

  ghost predicate PlainConfig(c: Config) {
    c.PerMethod? ==> forall i | 0 <= i < |c.entries| :: Plain(c.entries[i].formats) && Plain(c.entries[i].auth)
  }

  /** With names that are not empty and have no comma, a configuration by method is
      converted exactly when it has a method and all its methods agree. */
  lemma ConvertsIffAgree(c: Config)
    requires PlainConfig(c) && c.PerMethod?
    ensures Convert(c).PerResource? <==> c.entries != [] && Agree(c.entries)
  {
    hide Implode, Convert, Plain;
    ConvertsIffAlike(c);
    var entries := c.entries;
    if LookAlike(entries) {
      forall i | 0 <= i < |entries|
        ensures entries[i].formats == entries[0].formats && entries[i].auth == entries[0].auth
      {
        ImplodeInjective(entries[i].formats, entries[0].formats);
        ImplodeInjective(entries[i].auth, entries[0].auth);
      }
    }
  }

  /** With such names the conversion keeps every method's settings, and a second one
      changes nothing. */
  lemma ConvertKeeps(c: Config)
    requires c.Keyed() && PlainConfig(c)
    ensures forall m :: Lookup(Convert(c), m) == Lookup(c, m)
    ensures Convert(Convert(c)) == Convert(c)
  {
    if c.PerMethod? {
      ConvertsIffAgree(c);
    }
    ConvertKeepsExact(c);
  }

  /** A configuration whose methods look alike but do not agree loses some method's
      settings. */
  lemma Misled(c: Config, m: string)
    requires c.PerMethod? && c.Keyed() && LookAlike(c.entries) && |c.entries| == 2
    requires c.entries[1].method_ == m && c.entries[0].formats != c.entries[1].formats
    ensures Lookup(c, m) == Some(Settings(c.entries[1].formats, c.entries[1].auth))
    ensures Lookup(Convert(c), m) == Some(Settings(c.entries[0].formats, c.entries[0].auth))
  {
    hide Unique, Implode;
    ConvertsIffAlike(c);
    LookupMember(c.entries, m, 1);
    assert Methods(c.entries)[1] == m;
  }

  /** A name with a comma: GET accepts one format, POST two, and the converted
      configuration gives both the one. An empty name: GET accepts no format, POST one
      without a name. */
  lemma NamesMislead(comma: bool)
    ensures var formats := if comma then (["a,b"], ["a", "b"]) else ([], [""]);
      var c := PerMethod([Entry("GET", formats.0, []), Entry("POST", formats.1, [])]);
      && Lookup(c, "POST") == Some(Settings(formats.1, []))
      && Lookup(Convert(c), "POST") == Some(Settings(formats.0, []))
  {
    var formats := if comma then (["a,b"], ["a", "b"]) else ([], [""]);
    var entries := [Entry("GET", formats.0, []), Entry("POST", formats.1, [])];
    assert ["a", "b"][1..] == ["b"];
    assert Implode(["a", "b"]) == "a" + "," + "b" == "a,b";
    assert |"GET"| != |"POST"|;
    assert |["a", "b"]| != |["a,b"]| && |[""]| != 0;
    Misled(PerMethod(entries), "POST");
  }
}
