/** Formatting a safe text with escaped arguments gives a safe text. */
module FormatSafe {
  import opened StringReplace
  import opened Escape
  import opened FormatPlural

  predicate AtKey(key: string) {
    key != "" && key[0] == '@'
  }

  /** The key pieces are led by an at sign and have a safe value. */
  ghost predicate AtPieces(pieces: seq<Piece>, args: map<string, string>) {
    forall i | 0 <= i < |pieces| && pieces[i].Key? ::
      AtKey(pieces[i].key) && pieces[i].key in args && Safe(args[pieces[i].key])
  }

  lemma AtRest(pieces: seq<Piece>, args: map<string, string>)
    requires pieces != [] && AtPieces(pieces, args)
    ensures AtPieces(pieces[1..], args)
  {
    var rest := pieces[1..];
    forall i | 0 <= i < |rest| && rest[i].Key?
      ensures AtKey(rest[i].key) && rest[i].key in args && Safe(args[rest[i].key])
    {
      assert rest[i] == pieces[i + 1];
    }
  }

  /** A text without at signs at the start of the input is at the start of the result. */
  lemma {:induction false} StartStays(pieces: seq<Piece>, args: map<string, string>, p: string)
    requires AtPieces(pieces, args) && '@' !in p && StartsWith(Flatten(pieces), p)
    ensures StartsWith(Render(pieces, args), p)
  {
    if pieces != [] && p != "" {
      var first, rest := pieces[0], pieces[1..];
      var x := Source(first);
      assert Flatten(pieces) == x + Flatten(rest);
      assert x == "" || p[0] == Flatten(pieces)[0] == x[0];
      assert p[0] in p;
      if first.Literal? {
        AtRest(pieces, args);
        if |p| <= |x| {
          StartWithin(x, Flatten(rest), Render(rest, args), p);
        } else {
          StartBeyond(x, Flatten(rest), p);
          StartStays(rest, args, p[|x|..]);
          StartJoined(x, Render(rest, args), p);
        }
      }
    }
  }

  lemma StartWithin(x: string, a: string, b: string, p: string)
    requires |p| <= |x| && StartsWith(x + a, p)
    ensures StartsWith(x + b, p)
  {
    assert (x + a)[..|p|] == x[..|p|] == (x + b)[..|p|];
  }

  lemma StartBeyond(x: string, a: string, p: string)
    requires |x| < |p| && StartsWith(x + a, p)
    ensures p == x + p[|x|..] && StartsWith(a, p[|x|..])
    ensures forall c | c in p[|x|..] :: c in p
  {
    var s := x + a;
    assert s[..|p|][..|x|] == x && p == s[..|p|];
    assert a == s[|x|..];
    assert a[..|p| - |x|] == s[..|p|][|x|..];
  }

  lemma StartJoined(x: string, b: string, p: string)
    requires |x| < |p| && p == x + p[|x|..] && StartsWith(b, p[|x|..])
    ensures StartsWith(x + b, p)
  {
    assert (x + b)[..|p|] == x + b[..|p| - |x|];
  }

  lemma EntityHasNoAt(e: nat)
    requires e < 4
    ensures '@' !in ENTITIES[e]
  {
  }

  lemma SafeRest(x: string, a: string)
    requires Safe(x + a)
    ensures Safe(a)
  {
    var s := x + a;
    forall i | 0 <= i < |a|
      ensures a[i] != '"' && a[i] != '<' && a[i] != '>'
      ensures a[i] == '&' ==> StartsEntity(a, i)
    {
      assert s[|x| + i] == a[i];
      assert s[|x| + i..] == a[i..];
      assert a[i] == '&' ==> StartsEntity(s, |x| + i);
    }
  }

  lemma SafeConcat(a: string, b: string)
    requires Safe(a) && Safe(b)
    ensures Safe(a + b)
  {
    var s := a + b;
    forall i | 0 <= i < |s| && s[i] == '&'
      ensures StartsEntity(s, i)
    {
      if i < |a| {
        assert StartsEntity(a, i);
        var e :| 0 <= e < 4 && StartsWith(a[i..], ENTITIES[e]);
        assert s[i..] == a[i..] + b;
        assert s[i..][..|ENTITIES[e]|] == a[i..][..|ENTITIES[e]|];
      } else {
        assert StartsEntity(b, i - |a|);
        assert s[i..] == b[i - |a|..];
      }
    }
  }

  /** An entity that begins in a literal and is whole in the input is whole in the result:
      no key can begin inside it. */
  lemma LiteralSafe(x: string, rest: seq<Piece>, args: map<string, string>)
    requires AtPieces(rest, args) && Safe(x + Flatten(rest)) && Safe(Render(rest, args))
    ensures Safe(x + Render(rest, args))
  {
    var s, t := x + Flatten(rest), x + Render(rest, args);
    forall i | 0 <= i < |t|
      ensures t[i] != '"' && t[i] != '<' && t[i] != '>'
      ensures t[i] == '&' ==> StartsEntity(t, i)
    {
      if i < |x| {
        assert t[i] == x[i] == s[i];
        if t[i] == '&' {
          assert StartsEntity(s, i);
          EntityStaysWhole(x, i, rest, args);
        }
      } else {
        var b := Render(rest, args);
        assert t[i] == b[i - |x|] && t[i..] == b[i - |x|..];
        assert t[i] == '&' ==> StartsEntity(b, i - |x|);
      }
    }
  }

  lemma EntityStaysWhole(x: string, i: nat, rest: seq<Piece>, args: map<string, string>)
    requires AtPieces(rest, args) && i < |x| && StartsEntity(x + Flatten(rest), i)
    ensures StartsEntity(x + Render(rest, args), i)
  {
    var s, t := x + Flatten(rest), x + Render(rest, args);
    var e :| 0 <= e < 4 && StartsWith(s[i..], ENTITIES[e]);
    var pieces := [Literal(x[i..])] + rest;
    assert pieces[1..] == rest;
    assert s[i..] == x[i..] + Flatten(rest) && t[i..] == x[i..] + Render(rest, args);
    EntityHasNoAt(e);
    StartStays(pieces, args, ENTITIES[e]);
  }

  lemma {:induction false} RenderSafe(pieces: seq<Piece>, args: map<string, string>)
    requires AtPieces(pieces, args) && Safe(Flatten(pieces))
    ensures Safe(Render(pieces, args))
  {
    if pieces != [] {
      var first, rest := pieces[0], pieces[1..];
      AtRest(pieces, args);
      SafeRest(Source(first), Flatten(rest));
      RenderSafe(rest, args);
      if first.Literal? {
        LiteralSafe(first.text, rest, args);
      } else {
        SafeConcat(args[first.key], Render(rest, args));
      }
    }
  }

  /** A safe text formatted with arguments whose keys are all led by an at sign is safe,
      whatever the arguments are. */
  lemma FormatStringSafe(s: string, args: map<string, string>, keys: seq<string>)
    requires Known(args, keys) && Safe(s) && forall i | 0 <= i < |keys| :: AtKey(keys[i])
    ensures Safe(FormatString(s, args, keys))
  {
    hide Safe, CheckPlain, Flatten, Render;
    var processed := ProcessedArgs(args);
    var pieces := ReplaceSplits(s, processed, keys);
    forall i | 0 <= i < |pieces| && pieces[i].Key?
      ensures AtKey(pieces[i].key) && pieces[i].key in processed && Safe(processed[pieces[i].key])
    {
      var k := pieces[i].key;
      CheckPlainSafe(args[k]);
    }
    RenderSafe(pieces, processed);
  }
}
