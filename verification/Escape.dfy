/** Escaping plain text for HTML. */
module Escape {

  /** Every occurrence of one character replaced, as a global regular expression
      does it. */
  function ReplaceChar(s: string, c: char, text: string): string {
    if s == "" then "" else (if s[0] == c then text else [s[0]]) + ReplaceChar(s[1..], c, text)
  }

  /** The four replacements, the ampersand's first. */
  function CheckPlain(s: string): string {
    var amp := ReplaceChar(s, '&', "&amp;");
    var quot := ReplaceChar(amp, '"', "&quot;");
    var lt := ReplaceChar(quot, '<', "&lt;");
    ReplaceChar(lt, '>', "&gt;")
  }

  /** What one character becomes. */
  function Entity(c: char): string {
    if c == '&' then "&amp;"
    else if c == '"' then "&quot;"
    else if c == '<' then "&lt;"
    else if c == '>' then "&gt;"
    else [c]
  }

  function Encode(s: string): string {
    if s == "" then "" else Entity(s[0]) + Encode(s[1..])
  }

  predicate StartsWith(s: string, p: string) {
    |p| <= |s| && s[..|p|] == p
  }

  /** The four entities. */
  const ENTITIES: seq<string> := ["&amp;", "&quot;", "&lt;", "&gt;"]

  function Decode(s: string): string {
    if s == "" then ""
    else if StartsWith(s, "&amp;") then "&" + Decode(s[5..])
    else if StartsWith(s, "&quot;") then "\"" + Decode(s[6..])
    else if StartsWith(s, "&lt;") then "<" + Decode(s[4..])
    else if StartsWith(s, "&gt;") then ">" + Decode(s[4..])
    else [s[0]] + Decode(s[1..])
  }

  lemma {:induction false} ReplaceConcat(a: string, b: string, c: char, text: string)
    ensures ReplaceChar(a + b, c, text) == ReplaceChar(a, c, text) + ReplaceChar(b, c, text)
  {
    if a == "" {
      assert a + b == b;
    } else {
      assert (a + b)[1..] == a[1..] + b;
      ReplaceConcat(a[1..], b, c, text);
    }
  }

  lemma ReplaceAbsent(s: string, c: char, text: string)
    requires c !in s
    ensures ReplaceChar(s, c, text) == s
  {
  }

  lemma CheckPlainConcat(a: string, b: string)
    ensures CheckPlain(a + b) == CheckPlain(a) + CheckPlain(b)
  {
    var a1, b1 := ReplaceChar(a, '&', "&amp;"), ReplaceChar(b, '&', "&amp;");
    var a2, b2 := ReplaceChar(a1, '"', "&quot;"), ReplaceChar(b1, '"', "&quot;");
    var a3, b3 := ReplaceChar(a2, '<', "&lt;"), ReplaceChar(b2, '<', "&lt;");
    ReplaceConcat(a, b, '&', "&amp;");
    ReplaceConcat(a1, b1, '"', "&quot;");
    ReplaceConcat(a2, b2, '<', "&lt;");
    ReplaceConcat(a3, b3, '>', "&gt;");
  }

  lemma ReplaceOne(x: char, c: char, text: string)
    ensures ReplaceChar([x], c, text) == if x == c then text else [x]
  {
    assert [x][1..] == "";
  }

  /** An entity made by one replacement passes through the later ones. */
  lemma EntityStays(x: char, c: char, text: string)
    requires x in "&\"<>" && c in "\"<>"
    ensures ReplaceChar(Entity(x), c, text) == Entity(x)
  {
    ReplaceAbsent(Entity(x), c, text);
  }

  lemma CheckPlainOne(x: char)
    ensures CheckPlain([x]) == Entity(x)
  {
    hide ReplaceChar;
    ReplaceOne(x, '&', "&amp;");
    ReplaceOne(x, '"', "&quot;");
    ReplaceOne(x, '<', "&lt;");
    ReplaceOne(x, '>', "&gt;");
    if x == '&' {
      EntityStays(x, '"', "&quot;");
    }
    if x == '&' || x == '"' {
      EntityStays(x, '<', "&lt;");
    }
    if x == '&' || x == '"' || x == '<' {
      EntityStays(x, '>', "&gt;");
    }
  }

  /** Four replacements over the whole text are one pass over its characters. */
  lemma {:induction false} CheckPlainIsEncode(s: string)
    ensures CheckPlain(s) == Encode(s)
  {
    if s != "" {
      assert s == [s[0]] + s[1..];
      CheckPlainConcat([s[0]], s[1..]);
      CheckPlainOne(s[0]);
      CheckPlainIsEncode(s[1..]);
    }
  }

  lemma Differs(s: string, p: string, i: nat)
    requires i < |p| && i < |s| && s[i] != p[i]
    ensures !StartsWith(s, p)
  {
    if |p| <= |s| {
      assert s[..|p|][i] != p[i];
    }
  }

  lemma DecodeEntity(c: char, t: string)
    ensures Decode(Entity(c) + t) == [c] + Decode(t)
  {
    var s := Entity(c) + t;
    assert s[..|Entity(c)|] == Entity(c) && s[|Entity(c)|..] == t;
    assert s[0] == Entity(c)[0];
    if c == '&' {
    } else if c == '"' {
      Differs(s, "&amp;", 1);
    } else if c == '<' {
      Differs(s, "&amp;", 1);
      Differs(s, "&quot;", 1);
    } else if c == '>' {
      Differs(s, "&amp;", 1);
      Differs(s, "&quot;", 1);
      Differs(s, "&lt;", 1);
    } else {
      Differs(s, "&amp;", 0);
      Differs(s, "&quot;", 0);
      Differs(s, "&lt;", 0);
      Differs(s, "&gt;", 0);
    }
  }

  /** Nothing is lost: the decoder recovers the text, so no two texts escape alike. */
  lemma {:induction false} CheckPlainDecodes(s: string)
    ensures Decode(CheckPlain(s)) == s
  {
    CheckPlainIsEncode(s);
    if s != "" {
      CheckPlainIsEncode(s[1..]);
      CheckPlainDecodes(s[1..]);
      DecodeEntity(s[0], Encode(s[1..]));
    }
  }

  /** An ampersand at i starts one of the four entities. */
  ghost predicate StartsEntity(s: string, i: nat)
    requires i < |s|
  {
    exists e :: 0 <= e < 4 && StartsWith(s[i..], ENTITIES[e])
  }

  /** Safe inside markup and inside a double-quoted attribute. */
  ghost predicate Safe(s: string) {
    && (forall i | 0 <= i < |s| :: s[i] != '"' && s[i] != '<' && s[i] != '>')
    && (forall i | 0 <= i < |s| && s[i] == '&' :: StartsEntity(s, i))
  }

  lemma EntitySafe(c: char, t: string)
    requires Safe(t)
    ensures Safe(Entity(c) + t)
  {
    var e := Entity(c);
    var s := e + t;
    forall i | 0 <= i < |s| && s[i] == '&'
      ensures StartsEntity(s, i)
    {
      if i < |e| {
        assert i == 0;
        assert s[0..] == s && s[..|e|] == e;
        var n := if c == '&' then 0 else if c == '"' then 1 else if c == '<' then 2 else 3;
        assert StartsWith(s[0..], ENTITIES[n]);
      } else {
        assert s[i..] == t[i - |e|..];
        assert StartsEntity(t, i - |e|);
      }
    }
  }

  /** No quote or angle bracket is left, and every ampersand starts an entity. */
  lemma {:induction false} CheckPlainSafe(s: string)
    ensures Safe(CheckPlain(s))
  {
    CheckPlainIsEncode(s);
    if s != "" {
      CheckPlainIsEncode(s[1..]);
      CheckPlainSafe(s[1..]);
      EntitySafe(s[0], Encode(s[1..]));
    }
  }
}
