/** Formatting a string with placeholders, and choosing between plural forms. */
module FormatPlural {
  import opened Maybe
  import opened StringReplace
  import opened PlaceholderScan
  import opened Escape

  /** Text shown as a placeholder. */
  function Placeholder(s: string): string {
    "<em class=\"placeholder\">" + CheckPlain(s) + "</em>"
  }

  /** What is inserted for a key, by its first character. */
  function Processed(key: string, value: string): string {
    if key != "" && key[0] == '@' then CheckPlain(value)
    else if key != "" && key[0] == '!' then value
    else Placeholder(value)
  }

  /** p is the safe form of a text: it can stand in markup, and the text can be read off
      it again. */
  ghost predicate SafeFor(p: string, value: string) {
    Safe(p) && Decode(p) == value
  }

  /** p may be inserted for this key: escaped after an at sign, as it is after an
      exclamation mark, and otherwise escaped inside a placeholder element. */
  ghost predicate Prepared(key: string, value: string, p: string) {
    if key != "" && key[0] == '@' then SafeFor(p, value)
    else if key != "" && key[0] == '!' then p == value
    else exists t: string :: p == "<em class=\"placeholder\">" + t + "</em>" && SafeFor(t, value)
  }

  lemma ProcessedPrepared(key: string, value: string)
    ensures Prepared(key, value, Processed(key, value))
  {
    CheckPlainSafe(value);
    CheckPlainDecodes(value);
    assert SafeFor(CheckPlain(value), value);
  }

  function ProcessedArgs(args: map<string, string>): map<string, string> {
    map k | k in args :: Processed(k, args[k])
  }

  /** Prepares the arguments one by one. */
  method ProcessArgs(args: map<string, string>, keys: seq<string>) returns (processed: map<string, string>)
    requires forall k :: k in args <==> k in keys
    ensures processed == ProcessedArgs(args)
    ensures forall k | k in args :: k in processed && Prepared(k, args[k], processed[k])
  {
    hide Prepared, Placeholder, CheckPlain;
    processed := map[];
    for n := 0 to |keys|
      invariant forall k :: k in processed <==> k in keys[..n]
      invariant forall k | k in processed :: k in args && processed[k] == Processed(k, args[k])
    {
      var key := keys[n];
      assert key in args;
      if key == "" {
        processed := processed[key := Placeholder(args[key])];
      } else {
        match key[0]
        case '@' => processed := processed[key := CheckPlain(args[key])];
        case '!' => processed := processed[key := args[key]];
        case _ => processed := processed[key := Placeholder(args[key])];
      }
      assert keys[..n + 1] == keys[..n] + [key];
    }
    assert keys[..|keys|] == keys;
    AllPrepared(args);
  }

  lemma AllPrepared(args: map<string, string>)
    ensures forall k | k in args :: k in ProcessedArgs(args) && Prepared(k, args[k], ProcessedArgs(args)[k])
  {
    forall k | k in args
      ensures Prepared(k, args[k], ProcessedArgs(args)[k])
    {
      ProcessedPrepared(k, args[k]);
    }
  }

  /** `keys` lists the keys of args by length. */
  function FormatString(s: string, args: map<string, string>, keys: seq<string>): string
    requires Known(args, keys)
  {
    Replace(s, ProcessedArgs(args), keys)
  }

  /* ---- a separator splits the replacement ---- */

  ghost predicate Avoids(keys: seq<string>, c: char) {
    forall i | 0 <= i < |keys| :: keys[i] != "" && c !in keys[i]
  }

  /** The first occurrence of a key in a + [c] + b, when the key has no c. */
  lemma FirstAcross(a: string, c: char, b: string, key: string)
    requires key != "" && c !in key
    ensures var s := a + [c] + b;
      FirstFrom(s, key, 0) ==
        if FirstFrom(a, key, 0) <= |a| then FirstFrom(a, key, 0)
        else |a| + 1 + FirstFrom(b, key, 0)
  {
    var s := a + [c] + b;
    var i, j := FirstFrom(a, key, 0), FirstFrom(b, key, 0);
    forall n: nat
      ensures OccursAt(s, key, n) <==>
        OccursAt(a, key, n) || (n > |a| && OccursAt(b, key, n - |a| - 1))
    {
      OccursAcross(a, c, b, key, n);
    }
    FirstIs(s, key, if i <= |a| then i else |a| + 1 + j);
  }

  lemma OccursAcross(a: string, c: char, b: string, key: string, n: nat)
    requires key != "" && c !in key
    ensures OccursAt(a + [c] + b, key, n) <==>
      OccursAt(a, key, n) || (n > |a| && OccursAt(b, key, n - |a| - 1))
  {
    var s := a + [c] + b;
    if n + |key| <= |s| {
      if n + |key| <= |a| {
        assert s[n..n + |key|] == a[n..n + |key|];
      } else if n <= |a| {
        assert !OccursAt(s, key, n) by {
          assert s[n..n + |key|][|a| - n] == c;
        }
      } else {
        assert s[n..n + |key|] == b[n - |a| - 1..n - |a| - 1 + |key|];
      }
    }
  }

  /** The replacer works on the two sides of a separator separately. */
  lemma {:induction false} ReplaceAcross(a: string, c: char, b: string, args: map<string, string>, keys: seq<string>)
    requires Known(args, keys) && Avoids(keys, c)
    ensures Replace(a + [c] + b, args, keys) == Replace(a, args, keys) + [c] + Replace(b, args, keys)
    decreases |keys|, |a| + |b|
  {
    hide Replace, FirstFrom;
    var s := a + [c] + b;
    if keys == [] {
      ReplaceNothing(a, args, keys);
      ReplaceNothing(b, args, keys);
      ReplaceNothing(s, args, keys);
    } else {
      var key, rest := keys[|keys| - 1], keys[..|keys| - 1];
      ReplaceStep(s, args, keys);
      ReplaceStep(a, args, keys);
      ReplaceStep(b, args, keys);
      FirstAcross(a, c, b, key);
      var i, j := FirstFrom(a, key, 0), FirstFrom(b, key, 0);
      if i <= |a| {
        var a' := a[i + |key|..];
        assert s[..i] == a[..i] && s[i + |key|..] == a' + [c] + b;
        ReplaceAcross(a', c, b, args, keys);
      } else if j <= |b| {
        var n := |a| + 1 + j;
        assert s[..n] == a + [c] + b[..j] && s[n + |key|..] == b[j + |key|..];
        ReplaceAcross(a, c, b[..j], args, rest);
      } else {
        ReplaceAcross(a, c, b, args, rest);
      }
    }
  }

  lemma ReplaceNothing(s: string, args: map<string, string>, keys: seq<string>)
    requires keys == []
    ensures Replace(s, args, keys) == s
  {
  }

  /** A result only contains characters of the text and of the inserted values. */
  lemma ReplaceAvoids(s: string, c: char, args: map<string, string>, keys: seq<string>)
    requires Known(args, keys) && c !in s && forall k | k in args :: c !in args[k]
    ensures c !in Replace(s, args, keys)
  {
    var pieces := ReplaceSplits(s, args, keys);
    RenderAvoids(pieces, c, args);
  }

  lemma {:induction false} RenderAvoids(pieces: seq<Piece>, c: char, args: map<string, string>)
    requires c !in Flatten(pieces) && forall k | k in args :: c !in args[k]
    ensures c !in Render(pieces, args)
  {
    if pieces != [] {
      assert forall x | x in Source(pieces[0]) :: x in Flatten(pieces);
      assert forall x | x in Flatten(pieces[1..]) :: x in Flatten(pieces);
      RenderAvoids(pieces[1..], c, args);
    }
  }

  /* ---- plural forms ---- */

  /** Translations carry a plural formula: an index for some counts and one for all
      others. */
  datatype PluralFormula = PluralFormula(exact: map<int, nat>, otherwise: nat)

  function PluralIndex(count: int, formula: Option<PluralFormula>): nat {
    match formula
    case Some(f) => if count in f.exact then f.exact[count] else f.otherwise
    case None => if count != 1 then 1 else 0
  }

  /** The arguments with the count added; `shown` is the count as text. */
  function WithCount(args: map<string, string>, shown: string): map<string, string> {
    args["@count" := shown]
  }

  /** The text in the page's language; an empty translation counts for none. */
  function Translated(s: string, strings: map<string, string>): string {
    if s in strings && strings[s] != "" then strings[s] else s
  }

  /** Both forms, as one string, are translated, formatted and cut at the delimiter, and
      one part is taken; an index beyond the parts finds nothing. */
  function FormatPlural(count: int, shown: string, singular: string, plural: string, delimiter: char,
                        strings: map<string, string>, formula: Option<PluralFormula>,
                        args: map<string, string>, keys: seq<string>): Option<string>
    requires Known(WithCount(args, shown), keys)
  {
    var all := WithCount(args, shown);
    var text := Translated(singular + [delimiter] + plural, strings);
    var translations := Split(FormatString(text, all, keys), [delimiter]);
    var index := PluralIndex(count, formula);
    if index < |translations| then Some(translations[index]) else None
  }

  lemma FirstDelimiter(a: string, c: char, b: string)
    requires c !in a
    ensures FirstFrom(a + [c] + b, [c], 0) == |a|
  {
    var s := a + [c] + b;
    assert s[|a|..|a| + 1] == [c];
    forall j: nat | j < |a|
      ensures !OccursAt(s, [c], j)
    {
      assert s[j] == a[j];
      assert s[j..j + 1] == [a[j]];
    }
    FirstIs(s, [c], |a|);
  }

  lemma NoDelimiter(a: string, c: char)
    requires c !in a
    ensures FirstFrom(a, [c], 0) == |a| + 1
  {
    forall j: nat | j <= |a|
      ensures !OccursAt(a, [c], j)
    {
      if j < |a| { assert a[j..j + 1] == [a[j]]; }
    }
    FirstIs(a, [c], |a| + 1);
  }

  lemma SplitTwo(a: string, c: char, b: string)
    requires c !in a && c !in b
    ensures Split(a + [c] + b, [c]) == [a, b]
  {
    var s := a + [c] + b;
    FirstDelimiter(a, c, b);
    NoDelimiter(b, c);
    assert s[..|a|] == a && s[|a| + 1..] == b;
  }

  /** Cutting a formatted text at a separator gives the parts of the text, each
      formatted. */
  lemma {:induction false} SplitFormats(s: string, c: char, args: map<string, string>, keys: seq<string>)
    requires Known(args, keys) && Avoids(keys, c) && forall k | k in args :: c !in args[k]
    ensures Split(Replace(s, args, keys), [c]) == ReplaceEach(Split(s, [c]), args, keys)
    decreases |s|
  {
    hide Replace;
    if c in s {
      var i := FirstFrom(s, [c], 0);
      CutAt(s, c);
      var a, b := s[..i], s[i + 1..];
      ReplaceAcross(a, c, b, args, keys);
      ReplaceAvoids(a, c, args, keys);
      SplitCons(a, c, b);
      SplitCons(Replace(a, args, keys), c, Replace(b, args, keys));
      SplitFormats(b, c, args, keys);
      EachCons(a, Split(b, [c]), args, keys);
    } else {
      ReplaceAvoids(s, c, args, keys);
      NoDelimiter(s, c);
      NoDelimiter(Replace(s, args, keys), c);
    }
  }

  /** The part before the first separator has none. */
  lemma CutAt(s: string, c: char)
    requires c in s
    ensures var i := FirstFrom(s, [c], 0); i < |s| && c !in s[..i] && s == s[..i] + [c] + s[i + 1..]
  {
    hide OccursAt, FirstFrom;
    var i := FirstFrom(s, [c], 0);
    var n: nat :| n < |s| && s[n] == c;
    CharAt(s, c, n);
    CharAt(s, c, i);
    Around(s, i);
    forall j: nat | j < i
      ensures s[j] != c
    {
      CharAt(s, c, j);
    }
  }

  lemma Around(s: string, i: nat)
    requires i < |s|
    ensures s == s[..i] + [s[i]] + s[i + 1..]
  {
  }

  lemma CharAt(s: string, c: char, j: nat)
    requires j <= |s|
    ensures OccursAt(s, [c], j) <==> j < |s| && s[j] == c
  {
    if j < |s| {
      assert s[j..j + 1] == [s[j]];
    }
  }

  lemma SplitCons(a: string, c: char, b: string)
    requires c !in a
    ensures Split(a + [c] + b, [c]) == [a] + Split(b, [c])
  {
    var s := a + [c] + b;
    FirstDelimiter(a, c, b);
    assert s[..|a|] == a && s[|a| + 1..] == b;
  }

  /** The forms among which a plural is chosen. */
  function Forms(singular: string, plural: string, c: char, strings: map<string, string>): seq<string> {
    Split(Translated(singular + [c] + plural, strings), [c])
  }

  /** The result is the chosen form, translated if it is, and formatted on its own, when
      the delimiter occurs in no key and no inserted value; an index beyond the forms
      finds nothing. */
  lemma FormatPluralExact(count: int, shown: string, singular: string, plural: string, c: char,
                          strings: map<string, string>, formula: Option<PluralFormula>,
                          args: map<string, string>, keys: seq<string>)
    requires Known(WithCount(args, shown), keys) && Avoids(keys, c)
    requires forall k | k in WithCount(args, shown) :: c !in Processed(k, WithCount(args, shown)[k])
    ensures FormatPlural(count, shown, singular, plural, c, strings, formula, args, keys) ==
      var forms, index := Forms(singular, plural, c, strings), PluralIndex(count, formula);
      if index < |forms| then Some(FormatString(forms[index], WithCount(args, shown), keys)) else None
  {
    SplitFormats(Translated(singular + [c] + plural, strings), c, ProcessedArgs(WithCount(args, shown)), keys);
  }

  /** A text without a translation, or with an empty one. */
  predicate NotTranslated(s: string, strings: map<string, string>) {
    s in strings ==> strings[s] == ""
  }

  /** Without a translation the forms are the two given ones, when the delimiter occurs in
      neither. */
  lemma TwoForms(singular: string, plural: string, c: char, strings: map<string, string>)
    requires NotTranslated(singular + [c] + plural, strings) && c !in singular && c !in plural
    ensures Forms(singular, plural, c, strings) == [singular, plural]
  {
    SplitTwo(singular, c, plural);
  }

  /** Without a formula, and without a translation, a count of one gives the singular and
      every other the plural. */
  lemma CountChoosesForm(count: int, shown: string, singular: string, plural: string, c: char,
                         strings: map<string, string>, args: map<string, string>, keys: seq<string>)
    requires Known(WithCount(args, shown), keys) && Avoids(keys, c)
    requires forall k | k in WithCount(args, shown) :: c !in Processed(k, WithCount(args, shown)[k])
    requires NotTranslated(singular + [c] + plural, strings) && c !in singular && c !in plural
    ensures FormatPlural(count, shown, singular, plural, c, strings, None, args, keys) ==
      Some(FormatString(if count == 1 then singular else plural, WithCount(args, shown), keys))
  {
    FormatPluralExact(count, shown, singular, plural, c, strings, None, args, keys);
    TwoForms(singular, plural, c, strings);
  }

  /** With a formula, its index for the count, or its other one, is looked up among the
      forms of the translation. */
  lemma FormulaChoosesForm(count: int, shown: string, singular: string, plural: string, c: char,
                           strings: map<string, string>, formula: PluralFormula, forms: seq<string>,
                           args: map<string, string>, keys: seq<string>)
    requires Known(WithCount(args, shown), keys) && Avoids(keys, c)
    requires forall k | k in WithCount(args, shown) :: c !in Processed(k, WithCount(args, shown)[k])
    requires forms != [] && forall i | 0 <= i < |forms| :: c !in forms[i]
    requires strings == map[singular + [c] + plural := Join(forms, [c])] && Join(forms, [c]) != ""
    ensures FormatPlural(count, shown, singular, plural, c, strings, Some(formula), args, keys) ==
      var index := if count in formula.exact then formula.exact[count] else formula.otherwise;
      if index < |forms| then Some(FormatString(forms[index], WithCount(args, shown), keys)) else None
  {
    FormatPluralExact(count, shown, singular, plural, c, strings, Some(formula), args, keys);
    SplitJoined(forms, c);
  }

  /** Forms joined with a delimiter that none of them has are found again. */
  lemma {:induction false} SplitJoined(forms: seq<string>, c: char)
    requires forms != [] && forall i | 0 <= i < |forms| :: c !in forms[i]
    ensures Split(Join(forms, [c]), [c]) == forms
  {
    hide Split;
    if |forms| == 1 {
      SplitNone(forms[0], c);
    } else {
      SplitJoined(forms[1..], c);
      SplitCons(forms[0], c, Join(forms[1..], [c]));
    }
  }

  lemma SplitNone(a: string, c: char)
    requires c !in a
    ensures Split(a, [c]) == [a]
  {
    NoDelimiter(a, c);
  }
}
