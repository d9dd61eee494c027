/** Allowed tags of a text filter: what the editor's features need on top of what the
    user allows. */
module FilterTags {
  import opened Lists

  /** What a tag may carry. */
  datatype Rule = Rule(attributes: seq<string>, classes: seq<string>)

  /** One requirement of a feature: these tags, each with these attributes and classes. */
  datatype Required = Required(tags: seq<string>, attributes: seq<string>, classes: seq<string>)

  datatype Feature = Feature(name: string, rules: seq<Required>)

  type Rules = map<string, Rule>

  /* ---- the list operations ---- */

  function Union(a: seq<string>, b: seq<string>): (r: seq<string>)
    ensures Set(r) == Set(a) + Set(b)
  {
    SetConcat(a, b);
    Unique(a + b)
  }

  function Difference(a: seq<string>, b: seq<string>): (r: seq<string>)
    ensures Set(r) == Set(a) - Set(b)
  {
    if a == [] then []
    else
      assert a == [a[0]] + a[1..];
      SetConcat([a[0]], a[1..]);
      var rest := Difference(a[1..], b);
      SetConcat([a[0]], rest);
      if a[0] in b then rest else [a[0]] + rest
  }

  predicate Lacks(required: seq<string>, allowed: seq<string>) {
    |required| > 0 && |Difference(required, allowed)| > 0
  }

  lemma LacksExact(required: seq<string>, allowed: seq<string>)
    ensures Lacks(required, allowed) <==> !(Set(required) <= Set(allowed))
  {
    var rest := Difference(required, allowed);
    if rest == [] {
      assert forall x <- Set(required) :: x in Set(allowed) || x in Set(rest);
    } else {
      assert rest[0] in Set(rest) && rest[0] in Set(required) - Set(allowed);
    }
  }

  /* ---- what the features require ---- */

  /** One tag of one requirement. */
  datatype Need = Need(tag: string, attributes: seq<string>, classes: seq<string>)

  function TagNeeds(rule: Required, tags: seq<string>): seq<Need> {
    if tags == [] then []
    else [Need(tags[0], rule.attributes, rule.classes)] + TagNeeds(rule, tags[1..])
  }

  function RuleNeeds(rules: seq<Required>): seq<Need> {
    if rules == [] then [] else TagNeeds(rules[0], rules[0].tags) + RuleNeeds(rules[1..])
  }

  function Needs(features: seq<Feature>): seq<Need> {
    if features == [] then [] else RuleNeeds(features[0].rules) + Needs(features[1..])
  }

  function Add(required: Rules, n: Need): Rules {
    if n.tag !in required then required[n.tag := Rule(n.attributes, n.classes)]
    else
      var rule := required[n.tag];
      required[n.tag := Rule(Union(rule.attributes, n.attributes), Union(rule.classes, n.classes))]
  }

  function Collect(required: Rules, needs: seq<Need>): Rules
    decreases |needs|
  {
    if needs == [] then required else Collect(Add(required, needs[0]), needs[1..])
  }

  lemma {:induction false} CollectConcat(required: Rules, a: seq<Need>, b: seq<Need>)
    ensures Collect(required, a + b) == Collect(Collect(required, a), b)
    decreases |a|
  {
    if a == [] {
      assert a + b == b;
    } else {
      assert (a + b)[1..] == a[1..] + b;
      CollectConcat(Add(required, a[0]), a[1..], b);
    }
  }

  method AddTags(before: Rules, rule: Required) returns (required: Rules)
    ensures required == Collect(before, TagNeeds(rule, rule.tags))
  {
    required := before;
    for t := 0 to |rule.tags|
      invariant Collect(required, TagNeeds(rule, rule.tags[t..])) == Collect(before, TagNeeds(rule, rule.tags))
    {
      var tag := rule.tags[t];
      assert rule.tags[t..][1..] == rule.tags[t + 1..];
      assert TagNeeds(rule, rule.tags[t..])[1..] == TagNeeds(rule, rule.tags[t + 1..]);
      if tag !in required {
        required := required[tag := Rule(rule.attributes, rule.classes)];
      } else {
        var filterRule := required[tag];
        required := required[tag := Rule(
          Union(filterRule.attributes, rule.attributes), Union(filterRule.classes, rule.classes))];
      }
    }
  }

  method AddRules(before: Rules, rules: seq<Required>) returns (required: Rules)
    ensures required == Collect(before, RuleNeeds(rules))
  {
    required := before;
    for f := 0 to |rules|
      invariant Collect(required, RuleNeeds(rules[f..])) == Collect(before, RuleNeeds(rules))
    {
      assert rules[f..][1..] == rules[f + 1..];
      CollectConcat(required, TagNeeds(rules[f], rules[f].tags), RuleNeeds(rules[f + 1..]));
      required := AddTags(required, rules[f]);
    }
  }

  method RequiredTags(features: seq<Feature>) returns (required: Rules)
    ensures required == Collect(map[], Needs(features))
  {
    required := map[];
    for i := 0 to |features|
      invariant Collect(required, Needs(features[i..])) == Collect(map[], Needs(features))
    {
      assert features[i..][1..] == features[i + 1..];
      CollectConcat(required, RuleNeeds(features[i].rules), Needs(features[i + 1..]));
      required := AddRules(required, features[i].rules);
    }
  }

  /** The rule added for a tag the user's rule does not cover. */
  function AutoRule(user: Rules, tag: string, required: Rule): Rule {
    if tag !in user then required
    else
      var allowed := user[tag];
      Rule(Joined(allowed.attributes, required.attributes), Joined(allowed.classes, required.classes))
  }

  function Joined(allowed: seq<string>, required: seq<string>): (r: seq<string>)
    ensures Set(r) == Set(allowed) + Set(required)
  {
    LacksExact(required, allowed);
    if Lacks(required, allowed) then Union(allowed, required) else allowed
  }

  predicate IsAuto(user: Rules, tag: string, required: Rule) {
    tag !in user
    || Lacks(required.attributes, user[tag].attributes)
    || Lacks(required.classes, user[tag].classes)
  }

  function AutoAmong(user: Rules, required: Rules, tags: set<string>): Rules {
    map tag | tag in tags && tag in required && IsAuto(user, tag, required[tag]) ::
      AutoRule(user, tag, required[tag])
  }

  function Auto(user: Rules, features: seq<Feature>): Rules {
    var required := Collect(map[], Needs(features));
    AutoAmong(user, required, required.Keys)
  }

  method CalculateAutoAllowedTags(user: Rules, features: seq<Feature>) returns (auto: Rules)
    ensures auto == Auto(user, features)
  {
    var required := RequiredTags(features);
    auto := map[];
    var left := required.Keys;
    while left != {}
      invariant left <= required.Keys
      invariant auto == AutoAmong(user, required, required.Keys - left)
    {
      var tag :| tag in left;
      left := left - {tag};
      if tag !in user {
        auto := auto[tag := required[tag]];
      } else {
        var lacksAttributes := Lacks(required[tag].attributes, user[tag].attributes);
        var lacksClasses := Lacks(required[tag].classes, user[tag].classes);
        var rule := user[tag];
        if lacksAttributes {
          rule := rule.(attributes := Union(user[tag].attributes, required[tag].attributes));
        }
        if lacksClasses {
          rule := rule.(classes := Union(user[tag].classes, required[tag].classes));
        }
        if lacksAttributes || lacksClasses {
          auto := auto[tag := rule];
        }
      }
    }
    assert required.Keys - left == required.Keys;
  }

  /** The rules of the setting: the user's, with the added ones in place of theirs. */
  function Setting(user: Rules, auto: Rules): Rules {
    if auto == map[] then user else (user - auto.Keys) + auto
  }

  function WithFeature(features: seq<Feature>, f: Feature): seq<Feature> {
    if features == [] then [f]
    else if features[0].name == f.name then [f] + features[1..]
    else [features[0]] + WithFeature(features[1..], f)
  }

  function WithoutFeature(features: seq<Feature>, name: string): seq<Feature> {
    if features == [] then []
    else if features[0].name == name then features[1..]
    else [features[0]] + WithoutFeature(features[1..], name)
  }

  predicate HasFeature(features: seq<Feature>, name: string) {
    exists f <- features :: f.name == name
  }

  /** Features are kept by name. */
  ghost predicate UniqueNames(features: seq<Feature>) {
    forall i, j | 0 <= i < j < |features| :: features[i].name != features[j].name
  }

  lemma UniqueCons(f: Feature, rest: seq<Feature>)
    ensures UniqueNames([f] + rest) <==> UniqueNames(rest) && !HasFeature(rest, f.name)
  {
    var all := [f] + rest;
    assert forall i | 0 <= i < |rest| :: all[i + 1] == rest[i] && rest[i] in rest;
    if UniqueNames(all) {
      assert forall i | 0 <= i < |rest| :: rest[i].name != all[0].name by {
        assert forall i | 0 < i < |all| :: all[0].name != all[i].name;
      }
    }
  }

  /** Afterwards the feature is there, and of the others those with another name. */
  lemma {:induction false} WithExact(features: seq<Feature>, f: Feature)
    requires UniqueNames(features)
    ensures UniqueNames(WithFeature(features, f))
    ensures forall g :: g in WithFeature(features, f) <==> g == f || (g in features && g.name != f.name)
  {
    hide UniqueNames;
    UniqueCons(f, []);
    UniqueNone();
    assert [f] + [] == [f];
    if features != [] {
      var first, rest := features[0], features[1..];
      assert features == [first] + rest;
      UniqueCons(first, rest);
      if first.name == f.name {
        UniqueCons(f, rest);
      } else {
        WithExact(rest, f);
        UniqueCons(first, WithFeature(rest, f));
      }
    }
  }

  lemma UniqueNone()
    ensures UniqueNames([])
  {
  }

  /** Afterwards the features with another name are there. */
  lemma {:induction false} WithoutExact(features: seq<Feature>, name: string)
    requires UniqueNames(features)
    ensures UniqueNames(WithoutFeature(features, name))
    ensures forall g :: g in WithoutFeature(features, name) <==> g in features && g.name != name
  {
    hide UniqueNames;
    if features != [] {
      var first, rest := features[0], features[1..];
      assert features == [first] + rest;
      UniqueCons(first, rest);
      if first.name != name {
        WithoutExact(rest, name);
        UniqueCons(first, WithoutFeature(rest, name));
      }
    }
  }

  class Updater {
    var userTags: Rules
    var autoTags: Rules
    var newFeatures: seq<Feature>
    var setting: Rules

    /** The setting shows what the user's tags and the current features make it. */
    ghost predicate Valid()
      reads this
    {
      setting == Setting(userTags, Auto(userTags, newFeatures)) && UniqueNames(newFeatures)
    }

    constructor (setting: Rules)
      ensures Valid() && this.setting == userTags == setting && newFeatures == []
    {
      userTags, this.setting, autoTags, newFeatures := setting, setting, map[], [];
    }

    method UpdateAllowedTags()
      requires UniqueNames(newFeatures)
      modifies this`autoTags, this`setting
      ensures Valid() && autoTags == Auto(userTags, newFeatures)
    {
      autoTags := CalculateAutoAllowedTags(userTags, newFeatures);
      if autoTags != map[] {
        setting := (userTags - autoTags.Keys) + autoTags;
      } else {
        setting := userTags;
      }
    }

    method FeatureAdded(feature: Feature)
      requires Valid()
      modifies this`newFeatures, this`autoTags, this`setting
      ensures Valid() && newFeatures == WithFeature(old(newFeatures), feature)
      ensures forall g :: g in newFeatures <==> g == feature || (g in old(newFeatures) && g.name != feature.name)
    {
      WithExact(newFeatures, feature);
      newFeatures := WithFeature(newFeatures, feature);
      UpdateAllowedTags();
    }

    method FeatureModified(feature: Feature)
      requires Valid()
      modifies this`newFeatures, this`autoTags, this`setting
      ensures Valid()
      ensures newFeatures == if HasFeature(old(newFeatures), feature.name)
        then WithFeature(old(newFeatures), feature) else old(newFeatures)
    {
      if HasFeature(newFeatures, feature.name) {
        WithExact(newFeatures, feature);
        newFeatures := WithFeature(newFeatures, feature);
        UpdateAllowedTags();
      }
    }

    method FeatureRemoved(feature: Feature)
      requires Valid()
      modifies this`newFeatures, this`autoTags, this`setting
      ensures Valid() && newFeatures == WithoutFeature(old(newFeatures), feature.name)
      ensures forall g :: g in newFeatures <==> g in old(newFeatures) && g.name != feature.name
    {
      WithoutExact(newFeatures, feature.name);
      if HasFeature(newFeatures, feature.name) {
        newFeatures := WithoutFeature(newFeatures, feature.name);
        UpdateAllowedTags();
      } else {
        WithoutAbsent(newFeatures, feature.name);
      }
    }
  }

  lemma {:induction false} WithoutAbsent(features: seq<Feature>, name: string)
    ensures WithoutFeature(features, name) == features <==> !HasFeature(features, name)
  {
    if features != [] {
      assert features == [features[0]] + features[1..];
      WithoutAbsent(features[1..], name);
      if features[0].name == name {
        assert |WithoutFeature(features, name)| < |features|;
      } else {
        assert WithoutFeature(features, name)[1..] == WithoutFeature(features[1..], name);
      }
    }
  }

  lemma {:induction false} WithWithout(features: seq<Feature>, f: Feature)
    ensures WithoutFeature(WithFeature(features, f), f.name) == WithoutFeature(features, f.name)
  {
    if features != [] && features[0].name != f.name {
      WithWithout(features[1..], f);
      assert WithFeature(features, f)[1..] == WithFeature(features[1..], f);
    }
  }

  /** Adding a feature and removing it again gives back the features exactly when the
      feature was not there before. */
  lemma AddRemoveRestores(features: seq<Feature>, f: Feature)
    ensures WithoutFeature(WithFeature(features, f), f.name) == features <==> !HasFeature(features, f.name)
  {
    WithWithout(features, f);
    WithoutAbsent(features, f.name);
  }

  /* ---- the setting as a join ---- */

  /** Some current feature has a requirement for the tag with this attribute, or this
      class, or just for the tag. */
  ghost predicate NeedsTag(features: seq<Feature>, tag: string) {
    exists f <- features, r <- f.rules :: tag in r.tags
  }

  function NeededAttributes(features: seq<Feature>, tag: string): set<string> {
    set f <- features, r <- f.rules, a <- r.attributes | tag in r.tags :: a
  }

  function NeededClasses(features: seq<Feature>, tag: string): set<string> {
    set f <- features, r <- f.rules, c <- r.classes | tag in r.tags :: c
  }

  function Attributes(rules: Rules, tag: string): set<string> {
    if tag in rules then Set(rules[tag].attributes) else {}
  }

  function Classes(rules: Rules, tag: string): set<string> {
    if tag in rules then Set(rules[tag].classes) else {}
  }

  lemma {:induction false} TagNeedsExact(rule: Required, tags: seq<string>, n: Need)
    ensures n in TagNeeds(rule, tags) <==>
      n.tag in tags && n.attributes == rule.attributes && n.classes == rule.classes
  {
    if tags != [] {
      TagNeedsExact(rule, tags[1..], n);
    }
  }

  /** The requirement that a need comes from. */
  predicate From(n: Need, r: Required) {
    n.tag in r.tags && n.attributes == r.attributes && n.classes == r.classes
  }

  lemma {:induction false} RuleNeedsExact(rules: seq<Required>, n: Need)
    ensures n in RuleNeeds(rules) <==> exists r <- rules :: From(n, r)
  {
    if rules != [] {
      TagNeedsExact(rules[0], rules[0].tags, n);
      assert n in TagNeeds(rules[0], rules[0].tags) <==> From(n, rules[0]);
      RuleNeedsExact(rules[1..], n);
      assert rules == [rules[0]] + rules[1..];
    }
  }

  lemma {:induction false} NeedsExact(features: seq<Feature>, n: Need)
    ensures n in Needs(features) <==> exists f <- features, r <- f.rules :: From(n, r)
  {
    if features != [] {
      RuleNeedsExact(features[0].rules, n);
      NeedsExact(features[1..], n);
      assert features == [features[0]] + features[1..];
    }
  }

  predicate Names(needs: seq<Need>, tag: string) {
    exists n <- needs :: n.tag == tag
  }

  function AttributesOf(needs: seq<Need>, tag: string): set<string> {
    set n <- needs, a <- n.attributes | n.tag == tag :: a
  }

  function ClassesOf(needs: seq<Need>, tag: string): set<string> {
    set n <- needs, c <- n.classes | n.tag == tag :: c
  }

  lemma NeedsCons(n: Need, needs: seq<Need>, tag: string)
    ensures Names([n] + needs, tag) <==> n.tag == tag || Names(needs, tag)
    ensures AttributesOf([n] + needs, tag) == (if n.tag == tag then Set(n.attributes) else {}) + AttributesOf(needs, tag)
    ensures ClassesOf([n] + needs, tag) == (if n.tag == tag then Set(n.classes) else {}) + ClassesOf(needs, tag)
  {
    assert n in [n] + needs;
    assert forall m <- needs :: m in [n] + needs;
  }

  lemma AddExact(before: Rules, n: Need, tag: string)
    ensures var after := Add(before, n);
      && (tag in after <==> tag in before || n.tag == tag)
      && Attributes(after, tag) == Attributes(before, tag) + (if n.tag == tag then Set(n.attributes) else {})
      && Classes(after, tag) == Classes(before, tag) + (if n.tag == tag then Set(n.classes) else {})
  {
  }

  /** Collecting needs adds their attributes and classes, tag by tag. */
  lemma {:induction false} CollectExact(before: Rules, needs: seq<Need>, tag: string)
    ensures var after := Collect(before, needs);
      && (tag in after <==> tag in before || Names(needs, tag))
      && Attributes(after, tag) == Attributes(before, tag) + AttributesOf(needs, tag)
      && Classes(after, tag) == Classes(before, tag) + ClassesOf(needs, tag)
    decreases |needs|
  {
    hide Add, Attributes, Classes;
    if needs != [] {
      assert needs == [needs[0]] + needs[1..];
      NeedsCons(needs[0], needs[1..], tag);
      AddExact(before, needs[0], tag);
      CollectExact(Add(before, needs[0]), needs[1..], tag);
    }
  }

  lemma RequiredExact(features: seq<Feature>, tag: string)
    ensures var required := Collect(map[], Needs(features));
      && (tag in required <==> NeedsTag(features, tag))
      && Attributes(required, tag) == NeededAttributes(features, tag)
      && Classes(required, tag) == NeededClasses(features, tag)
  {
    CollectExact(map[], Needs(features), tag);
    NeedsFrom(features, tag);
  }

  lemma NeedsFrom(features: seq<Feature>, tag: string)
    ensures Names(Needs(features), tag) <==> NeedsTag(features, tag)
    ensures AttributesOf(Needs(features), tag) == NeededAttributes(features, tag)
    ensures ClassesOf(Needs(features), tag) == NeededClasses(features, tag)
  {
    forall n: Need
      ensures n in Needs(features) <==> exists f <- features, r <- f.rules :: From(n, r)
    {
      NeedsExact(features, n);
    }
    forall f, r | f in features && r in f.rules && tag in r.tags
      ensures Need(tag, r.attributes, r.classes) in Needs(features)
    {
      assert From(Need(tag, r.attributes, r.classes), r);
    }
    if f, r :| f in features && r in f.rules && tag in r.tags {
      assert Need(tag, r.attributes, r.classes) in Needs(features);
    }
  }

  /** The setting allows, tag by tag, exactly what the user allows together with what the
      current features require. */
  lemma SettingIsJoin(user: Rules, features: seq<Feature>, tag: string)
    ensures var setting := Setting(user, Auto(user, features));
      && (tag in setting <==> tag in user || NeedsTag(features, tag))
      && Attributes(setting, tag) == Attributes(user, tag) + NeededAttributes(features, tag)
      && Classes(setting, tag) == Classes(user, tag) + NeededClasses(features, tag)
  {
    hide NeedsTag, NeededAttributes, NeededClasses, Collect, Needs, Setting;
    RequiredExact(features, tag);
    var required := Collect(map[], Needs(features));
    var auto := Auto(user, features);
    SettingAt(user, auto, tag);
    if tag in auto {
      AutoJoins(user, required, tag);
    } else if tag in required {
      NothingLacks(user, required, tag);
    }
  }

  /** The setting takes the added rule where there is one and the user's elsewhere. */
  lemma SettingAt(user: Rules, auto: Rules, tag: string)
    ensures var setting := Setting(user, auto);
      && (tag in setting <==> tag in user || tag in auto)
      && (tag in setting ==> setting[tag] == if tag in auto then auto[tag] else user[tag])
  {
  }

  lemma AutoJoins(user: Rules, required: Rules, tag: string)
    requires tag in required
    ensures var rule := AutoRule(user, tag, required[tag]);
      && Set(rule.attributes) == Attributes(user, tag) + Attributes(required, tag)
      && Set(rule.classes) == Classes(user, tag) + Classes(required, tag)
  {
  }

  /** A required tag that is not added lacks nothing. */
  lemma NothingLacks(user: Rules, required: Rules, tag: string)
    requires tag in required && !IsAuto(user, tag, required[tag])
    ensures tag in user
    ensures Attributes(required, tag) <= Attributes(user, tag) && Classes(required, tag) <= Classes(user, tag)
  {
    LacksExact(required[tag].attributes, user[tag].attributes);
    LacksExact(required[tag].classes, user[tag].classes);
  }

  /** A tag is added exactly when something it needs was missing, and the user's own
      rule stands as it was for every other tag. */
  lemma AutoIffMissing(user: Rules, features: seq<Feature>, tag: string)
    ensures tag in Auto(user, features) <==>
      NeedsTag(features, tag)
      && (tag !in user
          || !(NeededAttributes(features, tag) <= Attributes(user, tag))
          || !(NeededClasses(features, tag) <= Classes(user, tag)))
    ensures tag in user && tag !in Auto(user, features) ==>
      var setting := Setting(user, Auto(user, features)); tag in setting && setting[tag] == user[tag]
  {
    hide NeedsTag, NeededAttributes, NeededClasses, Collect, Needs, Setting;
    RequiredExact(features, tag);
    SettingAt(user, Auto(user, features), tag);
    var required := Collect(map[], Needs(features));
    if tag in user && tag in required {
      LacksExact(required[tag].attributes, user[tag].attributes);
      LacksExact(required[tag].classes, user[tag].classes);
    }
  }

  /* ---- adding a feature and removing it again ---- */

  function Back(features: seq<Feature>, f: Feature): seq<Feature> {
    WithoutFeature(WithFeature(features, f), f.name)
  }

  lemma {:induction false} WithoutMember(features: seq<Feature>, name: string)
    ensures forall f <- WithoutFeature(features, name) :: f in features
  {
    if features != [] {
      WithoutMember(features[1..], name);
    }
  }

  lemma WithoutNeeds(features: seq<Feature>, name: string, tag: string)
    ensures var left := WithoutFeature(features, name);
      && (NeedsTag(left, tag) ==> NeedsTag(features, tag))
      && NeededAttributes(left, tag) <= NeededAttributes(features, tag)
      && NeededClasses(left, tag) <= NeededClasses(features, tag)
  {
    WithoutMember(features, name);
  }

  /** The two settings allow the same for the tag. */
  ghost predicate SameFor(a: Rules, b: Rules, tag: string) {
    (tag in a <==> tag in b) && Attributes(a, tag) == Attributes(b, tag) && Classes(a, tag) == Classes(b, tag)
  }

  /** Everything the features need for the tag the user allows or the others need. */
  ghost predicate Spared(user: Rules, features: seq<Feature>, others: seq<Feature>, tag: string) {
    && (NeedsTag(features, tag) ==> tag in user || NeedsTag(others, tag))
    && NeededAttributes(features, tag) <= Attributes(user, tag) + NeededAttributes(others, tag)
    && NeededClasses(features, tag) <= Classes(user, tag) + NeededClasses(others, tag)
  }

  /** Adding a feature and removing it again gives back the setting, to the letter, if
      the feature was not there before. If it was, the addition replaced it and it is
      gone now: a tag then keeps what it allows exactly if the user or the other
      features account for all of it. */
  lemma AddRemoveSetting(user: Rules, features: seq<Feature>, f: Feature, tag: string)
    ensures !HasFeature(features, f.name) ==>
      Setting(user, Auto(user, Back(features, f))) == Setting(user, Auto(user, features))
    ensures SameFor(Setting(user, Auto(user, Back(features, f))), Setting(user, Auto(user, features)), tag) <==>
      Spared(user, features, WithoutFeature(features, f.name), tag)
  {
    hide NeedsTag, NeededAttributes, NeededClasses, Auto, Setting, Attributes, Classes;
    AddRemoveRestores(features, f);
    WithWithout(features, f);
    WithoutNeeds(features, f.name, tag);
    SettingIsJoin(user, features, tag);
    SettingIsJoin(user, Back(features, f), tag);
  }
}
