/**
 Replacing placeholders: split at the longest key, replace the shorter keys in
 every fragment, and join with the value. The theorems say what that amounts to:
 one split of the input into literals and keys, rendered once; and, for keys led
 by marker characters, one scan from left to right.
 */
module StringReplace {

  /* ---- splitting and joining ---- */

  predicate OccursAt(s: string, key: string, i: nat) {
    i + |key| <= |s| && s[i..i + |key|] == key
  }

  ghost predicate Occurs(s: string, key: string) {
    exists i: nat :: OccursAt(s, key, i)
  }

  /** Position of the first occurrence from i on, or the length of s plus one. */
  function FirstFrom(s: string, key: string, i: nat): (r: nat)
    requires i <= |s| + 1
    ensures i <= r <= |s| + 1
    ensures r <= |s| ==> r + |key| <= |s| && OccursAt(s, key, r)
    ensures forall j: nat | i <= j < r :: !OccursAt(s, key, j)
    decreases |s| + 1 - i
  {
    if i > |s| || OccursAt(s, key, i) then i else FirstFrom(s, key, i + 1)
  }

  lemma FirstIs(s: string, key: string, r: nat)
    requires r <= |s| + 1 && (r <= |s| ==> OccursAt(s, key, r))
    requires forall j: nat | j < r :: !OccursAt(s, key, j)
    ensures FirstFrom(s, key, 0) == r
  {
  }

  function Split(s: string, key: string): (r: seq<string>)
    ensures key != "" ==> r != []
    decreases |s|
  {
    if key == "" then seq(|s|, i requires 0 <= i < |s| => [s[i]])
    else
      var i := FirstFrom(s, key, 0);
      if i > |s| then [s] else [s[..i]] + Split(s[i + |key|..], key)
  }

  function Join(fragments: seq<string>, glue: string): string {
    if fragments == [] then ""
    else if |fragments| == 1 then fragments[0]
    else fragments[0] + glue + Join(fragments[1..], glue)
  }

  /* ---- the replacer ---- */

  /** Every key has a value. */
  predicate Known(args: map<string, string>, keys: seq<string>) {
    forall i | 0 <= i < |keys| :: keys[i] in args
  }

  /** `keys` is ordered by length, the longest last. */
  function Replace(s: string, args: map<string, string>, keys: seq<string>): string
    requires Known(args, keys)
    decreases |keys|, 0
  {
    if s == "" || keys == [] then s
    else
      var key, rest := keys[|keys| - 1], keys[..|keys| - 1];
      var fragments := Split(s, key);
      Join(ReplaceEach(fragments, args, rest), args[key])
  }

  function ReplaceEach(fragments: seq<string>, args: map<string, string>, keys: seq<string>): (r: seq<string>)
    requires Known(args, keys)
    ensures |r| == |fragments|
    decreases |keys|, 1
  {
    seq(|fragments|, i requires 0 <= i < |fragments| => Replace(fragments[i], args, keys))
  }

  /** The replacer as it runs: it takes the longest key and overwrites the fragments
      one after the other. */
  method StringReplace(s: string, args: map<string, string>, keys: seq<string>) returns (r: string)
    requires Known(args, keys)
    ensures r == Replace(s, args, keys)
    decreases |keys|
  {
    if |s| == 0 {
      return s;
    }
    if |keys| == 0 {
      return s;
    }
    var key, rest := keys[|keys| - 1], keys[..|keys| - 1];
    var fragments := Split(s, key);
    ghost var was := fragments;
    ghost var done := ReplaceEach(was, args, rest);
    if |rest| > 0 {
      for i := 0 to |fragments|
        invariant |fragments| == |was|
        invariant fragments[..i] == done[..i] && fragments[i..] == was[i..]
      {
        var fragment := StringReplace(fragments[i], args, rest);
        fragments := fragments[i := fragment];
      }
    }
    assert forall i | 0 <= i < |was| :: rest == [] ==> done[i] == Replace(was[i], args, rest) == was[i];
    assert fragments == done;
    r := Join(fragments, args[key]);
  }

  /* ---- one split, rendered once ---- */

  datatype Piece = Literal(text: string) | Key(key: string)

  function Source(p: Piece): string {
    match p
    case Literal(text) => text
    case Key(key) => key
  }

  function Flatten(pieces: seq<Piece>): string {
    if pieces == [] then "" else Source(pieces[0]) + Flatten(pieces[1..])
  }

  predicate KeysIn(pieces: seq<Piece>, keys: seq<string>) {
    forall i | 0 <= i < |pieces| && pieces[i].Key? :: pieces[i].key in keys
  }

  function Rendered(p: Piece, args: map<string, string>): string {
    match p
    case Literal(text) => text
    case Key(key) => if key in args then args[key] else key
  }

  function Render(pieces: seq<Piece>, args: map<string, string>): string {
    if pieces == [] then "" else Rendered(pieces[0], args) + Render(pieces[1..], args)
  }

  /** No literal piece contains the key. */
  ghost predicate Clean(pieces: seq<Piece>, key: string) {
    forall i | 0 <= i < |pieces| && pieces[i].Literal? :: !Occurs(pieces[i].text, key)
  }

  lemma {:induction false} FlattenConcat(a: seq<Piece>, b: seq<Piece>)
    ensures Flatten(a + b) == Flatten(a) + Flatten(b)
  {
    if a == [] {
      assert a + b == b;
    } else {
      assert (a + b)[1..] == a[1..] + b;
      FlattenConcat(a[1..], b);
    }
  }

  lemma {:induction false} RenderConcat(a: seq<Piece>, b: seq<Piece>, args: map<string, string>)
    ensures Render(a + b, args) == Render(a, args) + Render(b, args)
  {
    if a == [] {
      assert a + b == b;
    } else {
      assert (a + b)[1..] == a[1..] + b;
      RenderConcat(a[1..], b, args);
    }
  }

  lemma JoinCons(x: string, fragments: seq<string>, glue: string)
    requires fragments != []
    ensures Join([x] + fragments, glue) == x + glue + Join(fragments, glue)
  {
    assert ([x] + fragments)[1..] == fragments;
  }

  lemma {:induction false} JoinSplit(s: string, key: string)
    ensures Join(Split(s, key), key) == s
    decreases |s|
  {
    if key == "" {
      JoinLetters(s);
    } else {
      var i := FirstFrom(s, key, 0);
      if i <= |s| {
        JoinSplit(s[i + |key|..], key);
        JoinCons(s[..i], Split(s[i + |key|..], key), key);
        TakeOut(s, key, i);
      }
    }
  }

  lemma TakeOut(s: string, key: string, i: nat)
    requires OccursAt(s, key, i)
    ensures s == s[..i] + key + s[i + |key|..]
  {
  }

  lemma {:induction false} JoinLetters(s: string)
    ensures Join(Split(s, ""), "") == s
    decreases |s|
  {
    if |s| > 1 {
      JoinLetters(s[1..]);
      assert Split(s, "")[1..] == Split(s[1..], "");
    }
  }

  lemma BeforeFirst(s: string, key: string)
    ensures var i := FirstFrom(s, key, 0);
      !Occurs(if i <= |s| then s[..i] else s, key) || key == ""
  {
    var i := FirstFrom(s, key, 0);
    var t := if i <= |s| then s[..i] else s;
    if key != "" && Occurs(t, key) {
      var j: nat :| OccursAt(t, key, j);
      assert OccursAt(s, key, j);
    }
  }

  lemma {:induction false} SplitClean(s: string, key: string)
    requires key != ""
    ensures forall i | 0 <= i < |Split(s, key)| :: !Occurs(Split(s, key)[i], key)
    decreases |s|
  {
    BeforeFirst(s, key);
    var i := FirstFrom(s, key, 0);
    if i <= |s| {
      SplitClean(s[i + |key|..], key);
    }
  }

  lemma OccursShift(a: string, b: string, key: string, j: nat)
    requires OccursAt(b, key, j)
    ensures OccursAt(a + b, key, |a| + j)
  {
    forall m | 0 <= m < |key|
      ensures (a + b)[|a| + j + m] == key[m]
    {
      assert b[j + m] == b[j..j + |key|][m];
    }
  }

  lemma OccursInConcat(a: string, b: string, key: string)
    ensures Occurs(a, key) || Occurs(b, key) ==> Occurs(a + b, key)
  {
    if Occurs(a, key) {
      var j: nat :| OccursAt(a, key, j);
      assert OccursAt(a + b, key, j);
    } else if Occurs(b, key) {
      var j: nat :| OccursAt(b, key, j);
      OccursShift(a, b, key, j);
    }
  }

  lemma {:induction false} PieceInside(pieces: seq<Piece>, i: nat, key: string)
    requires i < |pieces| && Occurs(Source(pieces[i]), key)
    ensures Occurs(Flatten(pieces), key)
    decreases i
  {
    OccursInConcat(Source(pieces[0]), Flatten(pieces[1..]), key);
    if i > 0 {
      PieceInside(pieces[1..], i - 1, key);
    }
  }

  /** Rendered once, the pieces turn s into r: they add up to s, every key piece is
      one of the keys, and no literal piece contains any non-empty key. */
  ghost predicate Renders(pieces: seq<Piece>, s: string, r: string, args: map<string, string>, keys: seq<string>)
    requires Known(args, keys)
  {
    && Flatten(pieces) == s
    && KeysIn(pieces, keys)
    && Render(pieces, args) == r
    && forall k | 0 <= k < |keys| && keys[k] != "" :: Clean(pieces, keys[k])
  }

  /** The result is the rendering of a split of the input. What was inserted is
      never looked at again. */
  lemma {:induction false} ReplaceSplits(s: string, args: map<string, string>, keys: seq<string>)
    returns (pieces: seq<Piece>)
    requires Known(args, keys)
    ensures Renders(pieces, s, Replace(s, args, keys), args, keys)
    decreases |keys|, 0
  {
    if s == "" {
      pieces := [];
    } else if keys == [] {
      pieces := [Literal(s)];
    } else {
      var key, rest := keys[|keys| - 1], keys[..|keys| - 1];
      JoinSplit(s, key);
      if key != "" { SplitClean(s, key); }
      assert keys == rest + [key];
      pieces := FragmentSplits(Split(s, key), args, rest, key);
    }
  }

  ghost predicate Without(fragments: seq<string>, key: string) {
    key != "" ==> forall i | 0 <= i < |fragments| :: !Occurs(fragments[i], key)
  }

  lemma {:induction false} FragmentSplits(
    fragments: seq<string>, args: map<string, string>, keys: seq<string>, key: string)
    returns (pieces: seq<Piece>)
    requires key in args && Known(args, keys) && Without(fragments, key)
    ensures Known(args, keys + [key])
    ensures Renders(pieces, Join(fragments, key), Join(ReplaceEach(fragments, args, keys), args[key]), args, keys + [key])
    decreases |keys|, 1 + |fragments|
  {
    if fragments == [] {
      pieces := [];
    } else {
      var head := ReplaceSplits(fragments[0], args, keys);
      StillClean(head, fragments[0], Replace(fragments[0], args, keys), args, keys, key);
      if |fragments| == 1 {
        pieces := head;
      } else {
        var rest := fragments[1..];
        var tail := FragmentSplits(rest, args, keys, key);
        assert ReplaceEach(fragments, args, keys)[1..] == ReplaceEach(rest, args, keys);
        pieces := Glue(head, tail, fragments[0], Join(rest, key), Replace(fragments[0], args, keys),
                       Join(ReplaceEach(rest, args, keys), args[key]), args, keys + [key], key);
      }
    }
  }

  /** The pieces of a fragment are free of the key that made the fragments. */
  lemma StillClean(pieces: seq<Piece>, s: string, r: string, args: map<string, string>, keys: seq<string>, key: string)
    requires Known(args, keys) && Renders(pieces, s, r, args, keys) && key in args
    requires key != "" ==> !Occurs(s, key)
    ensures Known(args, keys + [key]) && Renders(pieces, s, r, args, keys + [key])
  {
    forall i | 0 <= i < |pieces| && pieces[i].Literal? && key != ""
      ensures !Occurs(pieces[i].text, key)
    {
      if Occurs(pieces[i].text, key) { PieceInside(pieces, i, key); }
    }
  }

  lemma Glue(head: seq<Piece>, tail: seq<Piece>, s: string, t: string, r: string, q: string,
             args: map<string, string>, keys: seq<string>, key: string) returns (pieces: seq<Piece>)
    requires Known(args, keys) && key in keys
    requires Renders(head, s, r, args, keys) && Renders(tail, t, q, args, keys)
    ensures Renders(pieces, s + key + t, r + args[key] + q, args, keys)
  {
    pieces := head + ([Key(key)] + tail);
    GlueText(head, tail, args, key);
    hide Flatten, Render;
    forall k | 0 <= k < |keys| && keys[k] != ""
      ensures Clean(pieces, keys[k])
    {
      GlueClean(head, tail, key, keys[k]);
    }
  }

  lemma GlueText(head: seq<Piece>, tail: seq<Piece>, args: map<string, string>, key: string)
    requires key in args
    ensures Flatten(head + ([Key(key)] + tail)) == Flatten(head) + key + Flatten(tail)
    ensures Render(head + ([Key(key)] + tail), args) == Render(head, args) + args[key] + Render(tail, args)
  {
    var rest := [Key(key)] + tail;
    assert rest[1..] == tail;
    FlattenConcat(head, rest);
    RenderConcat(head, rest, args);
  }

  lemma GlueClean(head: seq<Piece>, tail: seq<Piece>, key: string, k: string)
    requires Clean(head, k) && Clean(tail, k)
    ensures Clean(head + ([Key(key)] + tail), k)
  {
  }

  /** Mapping every key to itself changes nothing. */
  lemma ReplaceIdentity(s: string, args: map<string, string>, keys: seq<string>)
    requires Known(args, keys) && forall k | 0 <= k < |keys| :: args[keys[k]] == keys[k]
    ensures Replace(s, args, keys) == s
  {
    var pieces := ReplaceSplits(s, args, keys);
    RenderIdentity(pieces, args);
  }

  lemma {:induction false} RenderIdentity(pieces: seq<Piece>, args: map<string, string>)
    requires forall i | 0 <= i < |pieces| :: Rendered(pieces[i], args) == Source(pieces[i])
    ensures Render(pieces, args) == Flatten(pieces)
  {
    if pieces != [] {
      RenderIdentity(pieces[1..], args);
    }
  }
}
