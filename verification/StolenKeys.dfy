/**
 For which keys the replacer is one scan, on every text: exactly those of which none
 can begin inside another, shorter or equally long one and end beyond it.
 */
module StolenKeys {
  import opened Maybe
  import opened StringReplace
  import opened PlaceholderScan

  /** keys[j], tried before keys[i], can begin p characters into it, in a text where
      keys[i] is the longest key from its first character on. */
  ghost predicate Overlaps(keys: seq<string>, i: nat, j: nat, p: nat) {
    && i < j < |keys| && 0 < p < |keys[i]|
    && |keys[i]| - p < |keys[j]| && Leads(keys[i][p..], keys[j])
    && NoneLonger(keys[i][..p] + keys[j], keys, |keys[i]|)
  }

  ghost predicate Steals(keys: seq<string>) {
    exists i: nat, j: nat, p: nat :: Overlaps(keys, i, j, p)
  }

  /** Whatever the text and the values, the replacer is the scan. */
  ghost predicate AlwaysScan(keys: seq<string>) {
    forall s, args | Ordered(args, keys) :: Replace(s, args, keys) == Scan(s, args, Keys(keys))
  }

  /* ---- a text that steals shows keys that do ---- */

  lemma LeadsFurther(k: string, t: string, u: string)
    requires Leads(k, t) && Leads(t, u)
    ensures Leads(k, u)
  {
    assert u[..|k|] == u[..|t|][..|k|];
  }

  lemma StealsAtOverlaps(s: string, keys: seq<string>, x: nat, i: nat, j: nat, p: nat)
    requires ByLength(keys) && StealsAt(s, keys, x, i, j, p)
    ensures Overlaps(keys, i, j, p)
  {
    var a, b := keys[i], keys[j];
    var t := a[..p] + b;
    assert s[x..][..|t|] == t by {
      assert s[x..x + |a|][..p] == a[..p];
    }
    assert Leads(a[p..], b) by {
      assert a[p..] == s[x..x + |a|][p..] == s[x + p..x + |a|];
      assert b[..|a| - p] == s[x + p..x + p + |b|][..|a| - p] == s[x + p..x + |a|];
    }
    forall k | 0 <= k < |keys| && |keys[k]| > |a|
      ensures !Leads(keys[k], t)
    {
      if Leads(keys[k], t) {
        LeadsFurther(keys[k], t, s[x..]);
      }
    }
  }

  lemma NoStealsScan(s: string, args: map<string, string>, keys: seq<string>)
    requires Ordered(args, keys) && !Steals(keys)
    ensures Replace(s, args, keys) == Scan(s, args, Keys(keys))
  {
    if StealsIn(s, keys) {
      var x: nat, i: nat, j: nat, p: nat :| StealsAt(s, keys, x, i, j, p);
      StealsAtOverlaps(s, keys, x, i, j, p);
    }
    ReplaceIsScanHere(s, args, keys);
  }

  /* ---- keys that steal, on the text that shows it ---- */

  /** Every key stands for itself but one, which stands for a character it does not
      begin with. */
  function Telling(keys: seq<string>, a: string): (args: map<string, string>)
    requires a != ""
    ensures Known(args, keys)
  {
    map k | k in keys :: if k == a then [Other(a[0])] else k
  }

  function Other(c: char): (d: char)
    ensures d != c
  {
    if c == 'x' then 'y' else 'x'
  }

  /** On a text shorter than a the replacer changes nothing. */
  lemma TooShort(t: string, keys: seq<string>, all: seq<string>, a: string)
    requires a != "" && |t| < |a| && Known(Telling(all, a), keys)
    ensures Replace(t, Telling(all, a), keys) == t
  {
    var args := Telling(all, a);
    var pieces := ReplaceSplits(t, args, keys);
    forall i | 0 <= i < |pieces|
      ensures Rendered(pieces[i], args) == Source(pieces[i])
    {
      PieceLength(pieces, i);
    }
    RenderIdentity(pieces, args);
  }

  lemma {:induction false} PieceLength(pieces: seq<Piece>, i: nat)
    requires i < |pieces|
    ensures |Source(pieces[i])| <= |Flatten(pieces)|
    decreases i
  {
    if i > 0 {
      PieceLength(pieces[1..], i - 1);
    }
  }

  /** While no longer key fits at the front and some earlier tried key occurs inside a,
      the first occurrence taken out leaves a piece of a standing in front. */
  lemma {:induction false} FrontKept(t: string, keys: seq<string>, all: seq<string>, a: string, i: nat, j: nat, p: nat)
    requires a != "" && Known(Telling(all, a), keys) && ByLength(keys) && i < j < |keys| && keys[i] == a
    requires 0 < p < |a| && OccursAt(t, keys[j], p) && |t| == p + |keys[j]|
    requires NoneLonger(t, keys, |a|) && Leads(a, t)
    ensures var r := Replace(t, Telling(all, a), keys); r != "" && r[0] == t[0]
    decreases |keys|
  {
    hide Replace, FirstFrom;
    var args := Telling(all, a);
    var key, rest := keys[|keys| - 1], keys[..|keys| - 1];
    ReplaceStep(t, args, keys);
    var q := FirstFrom(t, key, 0);
    if q > |t| {
      assert !OccursAt(t, key, p);
      FrontKept(t, rest, all, a, i, j, p);
    } else {
      NotInFront(t, keys, i);
      assert 0 < q <= p;
      TooShort(t[..q], rest, all, a);
    }
  }

  lemma NotInFront(t: string, keys: seq<string>, i: nat)
    requires ByLength(keys) && i < |keys| - 1 && Leads(keys[i], t) && NoneLonger(t, keys, |keys[i]|)
    ensures !OccursAt(t, keys[|keys| - 1], 0)
  {
    LeadsAlike(keys[|keys| - 1], keys[i], t);
  }

  lemma LeadsAlike(k: string, a: string, t: string)
    ensures OccursAt(t, k, 0) <==> Leads(k, t)
    ensures Leads(k, t) && Leads(a, t) && |k| == |a| ==> k == a
  {
  }

  lemma ScanTakes(t: string, keys: seq<string>, i: nat)
    requires ByLength(keys) && i < |keys| && Leads(keys[i], t) && NoneLonger(t, keys, |keys[i]|)
    ensures Longest(t, Keys(keys)) == Some(keys[i])
  {
    forall k | k in Keys(keys) && Leads(k, t)
      ensures |k| <= |keys[i]|
    {
      var m :| 0 <= m < |keys| && keys[m] == k;
    }
    LongestIs(t, Keys(keys), keys[i]);
  }

  lemma OverlapShows(keys: seq<string>, i: nat, j: nat, p: nat) returns (t: string)
    requires ByLength(keys) && Overlaps(keys, i, j, p)
    ensures var args := Telling(keys, keys[i]);
      Ordered(args, keys) && Replace(t, args, keys) != Scan(t, args, Keys(keys))
  {
    var a, b := keys[i], keys[j];
    t := a[..p] + b;
    var args := Telling(keys, a);
    assert Leads(a, t) by {
      assert a == a[..p] + a[p..];
      assert t[..|a|] == a[..p] + b[..|a| - p];
    }
    assert OccursAt(t, b, p);
    FrontKept(t, keys, keys, a, i, j, p);
    ScanTakes(t, keys, i);
    assert Scan(t, args, Keys(keys)) == args[a] + Scan(t[|a|..], args, Keys(keys));
    assert t[0] == a[0];
  }

  /** The replacer is one left-to-right scan, on all texts and for all values, if and
      only if no key can steal from another. */
  lemma ScanExact(keys: seq<string>)
    requires ByLength(keys)
    ensures AlwaysScan(keys) <==> !Steals(keys)
  {
    if i: nat, j: nat, p: nat :| Overlaps(keys, i, j, p) {
      var t := OverlapShows(keys, i, j, p);
      var args := Telling(keys, keys[i]);
      assert Ordered(args, keys);
    } else {
      forall s, args | Ordered(args, keys)
        ensures Replace(s, args, keys) == Scan(s, args, Keys(keys))
      {
        NoStealsScan(s, args, keys);
      }
    }
  }

  /* ---- marked keys ---- */

  /** Every key starts with a marker and has no other. */
  ghost predicate Marked(keys: seq<string>, markers: set<char>) {
    forall i | 0 <= i < |keys| ::
      keys[i] != "" && keys[i][0] in markers && forall m | 0 < m < |keys[i]| :: keys[i][m] !in markers
  }

  lemma OverlapStarts(keys: seq<string>, i: nat, j: nat, p: nat)
    requires Overlaps(keys, i, j, p)
    ensures keys[j] != "" && keys[i][p] == keys[j][0]
  {
    assert keys[i][p..][0] == keys[j][..|keys[i]| - p][0];
  }

  /** Marked keys never steal, so for them the replacer is the scan, and the order of
      equally long keys has no effect. */
  lemma ReplaceIsScan(s: string, args: map<string, string>, keys: seq<string>, markers: set<char>)
    requires Ordered(args, keys) && Marked(keys, markers)
    ensures !Steals(keys) && Replace(s, args, keys) == Scan(s, args, Keys(keys))
  {
    if i: nat, j: nat, p: nat :| Overlaps(keys, i, j, p) {
      OverlapStarts(keys, i, j, p);
    }
    NoStealsScan(s, args, keys);
  }

  /** Two orders of the same keys of which neither steals give the same result. */
  lemma OrderDoesNotMatter(s: string, args: map<string, string>, keys: seq<string>, other: seq<string>)
    requires Ordered(args, keys) && Ordered(args, other) && Keys(keys) == Keys(other)
    requires !Steals(keys) && !Steals(other)
    ensures Replace(s, args, keys) == Replace(s, args, other)
  {
    NoStealsScan(s, args, keys);
    NoStealsScan(s, args, other);
  }

  /** Without markers the two can differ: here the longer key wins over one that
      begins further left. */
  lemma UnmarkedKeysDiffer()
    ensures ByLength(["ab", "bcd"]) && Steals(["ab", "bcd"]) && !AlwaysScan(["ab", "bcd"])
  {
    var keys := ["ab", "bcd"];
    assert "ab"[1..] == "b" == "bcd"[..1] && "ab"[..1] == "a";
    var t := "a" + "bcd";
    assert t[..3][0] == 'a';
    assert Overlaps(keys, 0, 1, 1);
    ScanExact(keys);
  }
}
