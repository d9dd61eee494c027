/**
 The replacer as one scan: splitting by the longest key first is the same as reading
 the text once from left to right and taking the longest key that fits, exactly as
 long as no key that is tried earlier begins inside the key that the scan takes.
 */
module PlaceholderScan {
  import opened Maybe
  import opened StringReplace

  /* ---- the scan ---- */

  predicate Leads(k: string, s: string) {
    |k| <= |s| && s[..|k|] == k
  }

  /** k is the longest of the keys the text starts with. */
  ghost predicate IsLongest(s: string, keys: set<string>, k: string) {
    k in keys && Leads(k, s) && forall other | other in keys && Leads(other, s) :: |other| <= |k|
  }

  ghost function Longest(s: string, keys: set<string>): (r: Option<string>)
    ensures r.Some? ==> IsLongest(s, keys, r.value)
    ensures r.None? ==> forall k | k in keys :: !Leads(k, s)
  {
    if exists k :: IsLongest(s, keys, k) then
      var k :| IsLongest(s, keys, k);
      Some(k)
    else
      assert forall k | k in keys :: !Leads(k, s) by { SomeLongest(s, keys); }
      None
  }

  lemma SomeLongest(s: string, keys: set<string>)
    requires forall k :: !IsLongest(s, keys, k)
    ensures forall k | k in keys :: !Leads(k, s)
    decreases keys
  {
    if k :| k in keys && Leads(k, s) {
      var rest := keys - {k};
      if j :| IsLongest(s, rest, j) {
        assert IsLongest(s, keys, if |j| < |k| then k else j);
      } else {
        SomeLongest(s, rest);
        assert IsLongest(s, keys, k);
      }
    }
  }

  lemma LongestIs(s: string, keys: set<string>, k: string)
    requires IsLongest(s, keys, k)
    ensures Longest(s, keys) == Some(k)
  {
    var r := Longest(s, keys);
    assert r.Some?;
    assert Leads(r.value, s) && |r.value| == |k|;
  }

  ghost function Scan(s: string, args: map<string, string>, keys: set<string>): string
    requires "" !in keys && forall k | k in keys :: k in args
    decreases |s|
  {
    if s == "" then ""
    else
      match Longest(s, keys)
      case Some(k) => args[k] + Scan(s[|k|..], args, keys)
      case None => [s[0]] + Scan(s[1..], args, keys)
  }

  /* ---- one step of the replacer ---- */

  /** Keys as the replacer gets them: usable, and in order of length. */
  ghost predicate ByLength(keys: seq<string>) {
    && (forall i | 0 <= i < |keys| :: keys[i] != "")
    && (forall i, j | 0 <= i < j < |keys| :: |keys[i]| <= |keys[j]| && keys[i] != keys[j])
  }

  ghost predicate Ordered(args: map<string, string>, keys: seq<string>) {
    Known(args, keys) && ByLength(keys)
  }

  lemma EachCons(x: string, fragments: seq<string>, args: map<string, string>, keys: seq<string>)
    requires Known(args, keys)
    ensures ReplaceEach([x] + fragments, args, keys) == [Replace(x, args, keys)] + ReplaceEach(fragments, args, keys)
  {
  }

  /** The replacer without its shortcut for empty texts. */
  lemma ReplaceJoins(s: string, args: map<string, string>, keys: seq<string>)
    requires Known(args, keys) && keys != [] && keys[|keys| - 1] != ""
    ensures var key, rest := keys[|keys| - 1], keys[..|keys| - 1];
      Replace(s, args, keys) == Join(ReplaceEach(Split(s, key), args, rest), args[key])
  {
  }

  /** One occurrence of the longest key is taken off the front. */
  lemma ReplaceStep(s: string, args: map<string, string>, keys: seq<string>)
    requires Known(args, keys) && keys != [] && keys[|keys| - 1] != ""
    ensures var key, rest := keys[|keys| - 1], keys[..|keys| - 1];
      var i := FirstFrom(s, key, 0);
      Replace(s, args, keys) ==
        if i > |s| then Replace(s, args, rest)
        else Replace(s[..i], args, rest) + args[key] + Replace(s[i + |key|..], args, keys)
  {
    var key, rest := keys[|keys| - 1], keys[..|keys| - 1];
    var i := FirstFrom(s, key, 0);
    ReplaceJoins(s, args, keys);
    if i <= |s| {
      hide Replace;
      var tail := s[i + |key|..];
      ReplaceJoins(tail, args, keys);
      EachCons(s[..i], Split(tail, key), args, rest);
      JoinCons(Replace(s[..i], args, rest), ReplaceEach(Split(tail, key), args, rest), args[key]);
    }
  }

  /* ---- scanning past the key ---- */

  /** Without the key in the text, the scan does not miss it. */
  lemma {:induction false} ScanWithout(s: string, args: map<string, string>, keys: set<string>, key: string)
    requires "" !in keys && key != "" && key in args && forall k | k in keys :: k in args
    requires !Occurs(s, key)
    ensures Scan(s, args, keys + {key}) == Scan(s, args, keys)
    decreases |s|
  {
    if s != "" {
      assert !Leads(key, s) by {
        assert !OccursAt(s, key, 0);
      }
      var r := Longest(s, keys);
      if r.Some? {
        LongestIs(s, keys + {key}, r.value);
        NotInside(s, |r.value|, key);
        ScanWithout(s[|r.value|..], args, keys, key);
      } else {
        assert Longest(s, keys + {key}).None?;
        NotInside(s, 1, key);
        ScanWithout(s[1..], args, keys, key);
      }
    }
  }

  lemma NotInside(s: string, n: nat, key: string)
    requires n <= |s| && !Occurs(s, key)
    ensures !Occurs(s[n..], key)
  {
    assert s == s[..n] + s[n..];
    OccursInConcat(s[..n], s[n..], key);
  }

  /** The longest key at the start of q + key + tail ends before the key does begin. */
  ghost predicate Short(q: string, tail: string, keys: set<string>, key: string) {
    var r := Longest(q + key + tail, keys);
    r.Some? ==> |r.value| <= |q|
  }

  /** Nowhere in p does the longest of the keys reach over the key that follows p. */
  ghost predicate Contained(p: string, tail: string, keys: set<string>, key: string) {
    forall x | 0 <= x < |p| :: Short(p[x..], tail, keys, key)
  }

  lemma StillContained(p: string, n: nat, tail: string, keys: set<string>, key: string)
    requires n <= |p| && Contained(p, tail, keys, key)
    ensures Contained(p[n..], tail, keys, key)
  {
    forall x | 0 <= x < |p[n..]|
      ensures Short(p[n..][x..], tail, keys, key)
    {
      assert p[n..][x..] == p[n + x..];
      assert Short(p[n + x..], tail, keys, key);
    }
  }

  /** The scan of a text up to the first occurrence of the longest key is the scan
      of that part alone, if nothing reaches over that occurrence. */
  lemma {:induction false} ScanThrough(p: string, tail: string, args: map<string, string>,
                                       keys: set<string>, key: string)
    requires "" !in keys && key != "" && key in args && forall k | k in keys :: k in args
    requires key !in keys && forall k | k in keys :: |k| <= |key|
    requires Contained(p, tail, keys, key)
    requires forall j: nat | j < |p| :: !OccursAt(p + key + tail, key, j)
    ensures Scan(p + key + tail, args, keys + {key}) ==
      Scan(p, args, keys) + args[key] + Scan(tail, args, keys + {key})
    decreases |p|
  {
    hide *;
    var s, all := p + key + tail, keys + {key};
    if p == "" {
      assert s == key + tail;
      ScanAtKey(tail, args, all, key);
      ScanEmpty(args, keys);
    } else {
      FirstShort(p, tail, keys, key);
      SameLongest(p, tail, keys, key);
      var n := StepLength(p, keys);
      SameStep(p, s, args, keys, all);
      StillFirst(p, n, tail, key);
      StillContained(p, n, tail, keys, key);
      ScanThrough(p[n..], tail, args, keys, key);
      assert s[n..] == p[n..] + key + tail;
    }
  }

  lemma FirstShort(p: string, tail: string, keys: set<string>, key: string)
    requires p != "" && Contained(p, tail, keys, key)
    ensures Short(p, tail, keys, key)
  {
    assert p[0..] == p;
  }

  lemma ScanEmpty(args: map<string, string>, keys: set<string>)
    requires "" !in keys && forall k | k in keys :: k in args
    ensures Scan("", args, keys) == ""
  {
  }

  /** Two texts that start alike and have the same longest key take the same step. */
  lemma SameStep(p: string, s: string, args: map<string, string>, keys: set<string>, all: set<string>)
    requires p != "" && s != "" && p[0] == s[0] && keys <= all && Longest(p, keys) == Longest(s, all)
    requires "" !in all && forall k | k in all :: k in args
    ensures StepLength(p, keys) == StepLength(s, all)
    ensures Scan(p, args, keys) == StepText(p, args, keys) + Scan(p[StepLength(p, keys)..], args, keys)
    ensures Scan(s, args, all) == StepText(p, args, keys) + Scan(s[StepLength(p, keys)..], args, all)
  {
  }

  /** How much of the text one step of the scan reads. */
  ghost function StepLength(s: string, keys: set<string>): (n: nat)
    requires s != "" && "" !in keys
    ensures 0 < n <= |s|
  {
    match Longest(s, keys)
    case Some(k) => |k|
    case None => 1
  }

  ghost function StepText(s: string, args: map<string, string>, keys: set<string>): string
    requires s != "" && forall k | k in keys :: k in args
  {
    match Longest(s, keys)
    case Some(k) => args[k]
    case None => [s[0]]
  }

  lemma ScanAtKey(tail: string, args: map<string, string>, keys: set<string>, key: string)
    requires "" !in keys && key in keys && forall k | k in keys :: k in args && |k| <= |key|
    ensures Scan(key + tail, args, keys) == args[key] + Scan(tail, args, keys)
  {
    var s := key + tail;
    assert s[..|key|] == key && s[|key|..] == tail;
    assert IsLongest(s, keys, key);
    LongestIs(s, keys, key);
  }

  lemma StillFirst(p: string, n: nat, tail: string, key: string)
    requires n <= |p| && forall j: nat | j < |p| :: !OccursAt(p + key + tail, key, j)
    ensures forall j: nat | j < |p[n..]| :: !OccursAt(p[n..] + key + tail, key, j)
  {
    var s := p + key + tail;
    assert s[n..] == p[n..] + key + tail;
    forall j: nat | j < |p[n..]|
      ensures !OccursAt(s[n..], key, j)
    {
      assert !OccursAt(s, key, n + j);
      if OccursAt(s[n..], key, j) {
        assert s == s[..n] + s[n..];
        OccursShift(s[..n], s[n..], key, j);
      }
    }
  }

  /** A key that fits into p leads p exactly if it leads what p begins. */
  lemma LeadsFront(k: string, p: string, t: string)
    ensures Leads(k, p) ==> Leads(k, p + t)
    ensures |k| <= |p| && Leads(k, p + t) ==> Leads(k, p)
  {
    if |k| <= |p| {
      assert (p + t)[..|k|] == p[..|k|];
    }
  }

  lemma SameLongest(p: string, tail: string, keys: set<string>, key: string)
    requires p != "" && key !in keys && Short(p, tail, keys, key)
    requires !OccursAt(p + key + tail, key, 0)
    ensures Longest(p + key + tail, keys + {key}) == Longest(p, keys)
  {
    var s, all := p + key + tail, keys + {key};
    assert s == p + (key + tail);
    forall k | k in keys
      ensures Leads(k, p) ==> Leads(k, s)
      ensures |k| <= |p| && Leads(k, s) ==> Leads(k, p)
    {
      LeadsFront(k, p, key + tail);
    }
    assert !Leads(key, s);
    var r := Longest(s, keys);
    if r.Some? {
      assert IsLongest(p, keys, r.value) && IsLongest(s, all, r.value);
      LongestIs(p, keys, r.value);
      LongestIs(s, all, r.value);
    }
  }

  /* ---- stealing ---- */

  ghost predicate NoneLonger(t: string, keys: seq<string>, n: nat) {
    forall k | 0 <= k < |keys| && |keys[k]| > n :: !Leads(keys[k], t)
  }

  /** At x the scan takes keys[i], the longest key there, while keys[j], which the
      replacer tries earlier, begins p characters into it. */
  ghost predicate StealsAt(s: string, keys: seq<string>, x: nat, i: nat, j: nat, p: nat) {
    && i < j < |keys| && 0 < p < |keys[i]|
    && OccursAt(s, keys[i], x) && OccursAt(s, keys[j], x + p)
    && NoneLonger(s[x..], keys, |keys[i]|)
  }

  ghost predicate StealsIn(s: string, keys: seq<string>) {
    exists x: nat, i: nat, j: nat, p: nat :: StealsAt(s, keys, x, i, j, p)
  }

  ghost function Keys(keys: seq<string>): set<string> {
    set k | k in keys
  }

  /** A text in which no key steals: longest key first is the left-to-right scan. */
  lemma {:induction false} ReplaceIsScanHere(s: string, args: map<string, string>, keys: seq<string>)
    requires Ordered(args, keys) && !StealsIn(s, keys)
    ensures Replace(s, args, keys) == Scan(s, args, Keys(keys))
    decreases |keys|, |s|
  {
    hide *;
    if keys == [] || s == "" {
      NothingToDo(s, args, keys);
    } else {
      var key, rest := keys[|keys| - 1], keys[..|keys| - 1];
      LastKey(args, keys);
      var i := FirstFrom(s, key, 0);
      if i > |s| {
        StealsAbsent(s, keys);
        ReplaceIsScanHere(s, args, rest);
        KeyAbsent(s, args, keys);
      } else {
        assert LastAt(s, keys, i) by { FoundAt(s, keys, i); }
        NothingCrosses(s, keys, i);
        StealsBefore(s, keys, i);
        StealsAfter(s, keys, i + |key|);
        ReplaceIsScanHere(s[..i], args, rest);
        ReplaceIsScanHere(s[i + |key|..], args, keys);
        KeyPresent(s, args, keys);
      }
    }
  }

  /** What steals among the shorter keys steals among all, unless the last key fits. */
  lemma StealsPush(s: string, keys: seq<string>, x: nat, i: nat, j: nat, p: nat)
    requires keys != [] && StealsAt(s, keys[..|keys| - 1], x, i, j, p) && !Leads(keys[|keys| - 1], s[x..])
    ensures StealsAt(s, keys, x, i, j, p)
  {
    hide OccursAt, Leads;
    var rest := keys[..|keys| - 1];
    assert forall k | 0 <= k < |rest| :: rest[k] == keys[k];
  }

  lemma StealsAbsent(s: string, keys: seq<string>)
    requires keys != [] && FirstFrom(s, keys[|keys| - 1], 0) > |s| && !StealsIn(s, keys)
    ensures !StealsIn(s, keys[..|keys| - 1])
  {
    hide OccursAt, Leads, FirstFrom, NoneLonger;
    var rest := keys[..|keys| - 1];
    if x: nat, i: nat, j: nat, p: nat :| StealsAt(s, rest, x, i, j, p) {
      assert x <= |s| by { AtMost(s, rest[i], x); }
      KeyNotAt(s, keys[|keys| - 1], x);
      StealsPush(s, keys, x, i, j, p);
    }
  }

  lemma AtMost(s: string, key: string, x: nat)
    requires OccursAt(s, key, x)
    ensures x + |key| <= |s|
  {
  }

  /** A key without an occurrence up to x does not lead the text from x on. */
  lemma KeyNotAt(s: string, key: string, x: nat)
    requires x <= |s| && x < FirstFrom(s, key, 0)
    ensures !Leads(key, s[x..])
  {
    assert !OccursAt(s, key, x);
    if |key| <= |s[x..]| {
      assert s[x..][..|key|] == s[x..x + |key|];
    }
  }

  lemma LeadsAt(s: string, key: string, x: nat)
    requires x <= |s| && Leads(key, s[x..])
    ensures OccursAt(s, key, x)
  {
    assert s[x..][..|key|] == s[x..x + |key|];
  }

  /** The longest key before the first occurrence of the last one does not reach into
      it: it would be stolen. */
  lemma FoundAt(s: string, keys: seq<string>, i: nat)
    requires keys != [] && i <= |s| && FirstFrom(s, keys[|keys| - 1], 0) == i
    ensures LastAt(s, keys, i)
  {
  }

  /** The position of the last key in the text is its first one. */
  ghost predicate LastAt(s: string, keys: seq<string>, i: nat) {
    keys != [] && i + |keys[|keys| - 1]| <= |s| && FirstFrom(s, keys[|keys| - 1], 0) == i
  }

  lemma NothingCrosses(s: string, keys: seq<string>, i: nat)
    requires LastAt(s, keys, i) && !StealsIn(s, keys)
    ensures var key, rest := keys[|keys| - 1], keys[..|keys| - 1];
      Contained(s[..i], s[i + |key|..], Keys(rest), key)
  {
    hide FirstFrom, OccursAt, Leads;
    var last := |keys| - 1;
    var key, rest := keys[last], keys[..last];
    forall x | 0 <= x < |s[..i]|
      ensures Short(s[..i][x..], s[i + |key|..], Keys(rest), key)
    {
      AroundKey(s, key, i, x);
      var r := Longest(s[x..], Keys(rest));
      if r.Some? && |r.value| > i - x {
        Crossing(s, keys, i, x, r.value);
      }
    }
  }

  lemma AroundKey(s: string, key: string, i: nat, x: nat)
    requires i + |key| <= |s| && FirstFrom(s, key, 0) == i && x <= i
    ensures s[..i][x..] + key + s[i + |key|..] == s[x..]
    ensures s[..i][x..] + (key + s[i + |key|..]) == s[x..]
  {
    hide FirstFrom, OccursAt;
    TakeOut(s, key, i);
    var front, back := s[..i], s[i + |key|..];
    assert front[x..] + key + back == front[x..] + (key + back);
    assert (front + key + back)[x..] == front[x..] + key + back;
  }

  /** The longest key at x reaches over the last key at i, which therefore steals. */
  lemma Crossing(s: string, keys: seq<string>, i: nat, x: nat, k: string)
    requires LastAt(s, keys, i) && x < i < x + |k|
    requires IsLongest(s[x..], Keys(keys[..|keys| - 1]), k)
    ensures StealsIn(s, keys)
  {
    hide FirstFrom, OccursAt, Leads;
    var last := |keys| - 1;
    var rest := keys[..last];
    KeyNotAt(s, keys[last], x);
    LeadsAt(s, k, x);
    var m :| 0 <= m < |rest| && rest[m] == k;
    assert forall j | 0 <= j < last :: keys[j] == rest[j] && rest[j] in Keys(rest);
    assert StealsAt(s, keys, x, m, last, i - x);
  }

  lemma StealsBefore(s: string, keys: seq<string>, i: nat)
    requires LastAt(s, keys, i) && !StealsIn(s, keys)
    requires Contained(s[..i], s[i + |keys[|keys| - 1]|..], Keys(keys[..|keys| - 1]), keys[|keys| - 1])
    ensures !StealsIn(s[..i], keys[..|keys| - 1])
  {
    hide FirstFrom, OccursAt, Leads, Contained, StealsAt;
    var before, rest := s[..i], keys[..|keys| - 1];
    if x: nat, m: nat, j: nat, p: nat :| StealsAt(before, rest, x, m, j, p) {
      StealsWider(s, keys, i, x, m, j, p);
    }
  }

  lemma StealsWider(s: string, keys: seq<string>, i: nat, x: nat, m: nat, j: nat, p: nat)
    requires LastAt(s, keys, i)
    requires Contained(s[..i], s[i + |keys[|keys| - 1]|..], Keys(keys[..|keys| - 1]), keys[|keys| - 1])
    requires StealsAt(s[..i], keys[..|keys| - 1], x, m, j, p)
    ensures StealsAt(s, keys, x, m, j, p)
  {
    hide FirstFrom;
    var last := |keys| - 1;
    var key, rest := keys[last], keys[..last];
    AtMost(s[..i], rest[m], x);
    AroundKey(s, key, i, x);
    KeyNotAt(s, key, x);
    assert NoneLonger(s[x..], rest, |rest[m]|) by {
      StillNone(s, keys, i, x, |rest[m]|);
    }
    assert OccursAt(s, rest[m], x) && OccursAt(s, rest[j], x + p);
    assert StealsAt(s, rest, x, m, j, p);
    StealsPush(s, keys, x, m, j, p);
  }

  /** No key that is too long for the part before the last key leads the whole. */
  lemma StillNone(s: string, keys: seq<string>, i: nat, x: nat, n: nat)
    requires LastAt(s, keys, i) && x < i
    requires Contained(s[..i], s[i + |keys[|keys| - 1]|..], Keys(keys[..|keys| - 1]), keys[|keys| - 1])
    requires NoneLonger(s[..i][x..], keys[..|keys| - 1], n)
    ensures NoneLonger(s[x..], keys[..|keys| - 1], n)
  {
    hide FirstFrom, OccursAt, Leads;
    var last := |keys| - 1;
    var key, rest := keys[last], keys[..last];
    AroundKey(s, key, i, x);
    assert Short(s[..i][x..], s[i + |key|..], Keys(rest), key);
    var r := Longest(s[x..], Keys(rest));
    assert forall k | 0 <= k < |rest| :: rest[k] in Keys(rest);
    if r.Some? {
      LeadsFront(r.value, s[..i][x..], key + s[i + |key|..]);
      var l :| 0 <= l < |rest| && rest[l] == r.value;
    }
  }

  lemma StealsAfter(s: string, keys: seq<string>, n: nat)
    requires n <= |s| && !StealsIn(s, keys)
    ensures !StealsIn(s[n..], keys)
  {
    if x: nat, i: nat, j: nat, p: nat :| StealsAt(s[n..], keys, x, i, j, p) {
      assert s[n..][x..] == s[n + x..] && s == s[..n] + s[n..];
      OccursShift(s[..n], s[n..], keys[i], x);
      OccursShift(s[..n], s[n..], keys[j], x + p);
      assert StealsAt(s, keys, n + x, i, j, p);
    }
  }

  lemma NothingToDo(s: string, args: map<string, string>, keys: seq<string>)
    requires Ordered(args, keys) && (keys == [] || s == "")
    ensures Replace(s, args, keys) == Scan(s, args, Keys(keys))
  {
    if keys == [] {
      assert Keys(keys) == {};
      ScanNothing(s, args);
    }
  }

  lemma KeyAbsent(s: string, args: map<string, string>, keys: seq<string>)
    requires Ordered(args, keys) && keys != []
    requires var key, rest := keys[|keys| - 1], keys[..|keys| - 1];
      FirstFrom(s, key, 0) > |s| && Keys(keys) == Keys(rest) + {key} && "" !in Keys(rest)
      && Replace(s, args, rest) == Scan(s, args, Keys(rest))
    ensures Replace(s, args, keys) == Scan(s, args, Keys(keys))
  {
    hide Replace, Scan;
    var key, rest := keys[|keys| - 1], keys[..|keys| - 1];
    ReplaceStep(s, args, keys);
    assert !Occurs(s, key);
    ScanWithout(s, args, Keys(rest), key);
  }

  lemma KeyPresent(s: string, args: map<string, string>, keys: seq<string>)
    requires Ordered(args, keys) && keys != []
    requires var key, rest := keys[|keys| - 1], keys[..|keys| - 1];
      var i := FirstFrom(s, key, 0);
      && i <= |s|
      && Ordered(args, rest)
      && Contained(s[..i], s[i + |key|..], Keys(rest), key)
      && Replace(s[..i], args, rest) == Scan(s[..i], args, Keys(rest))
      && Replace(s[i + |key|..], args, keys) == Scan(s[i + |key|..], args, Keys(keys))
    ensures Replace(s, args, keys) == Scan(s, args, Keys(keys))
  {
    hide Replace, Scan;
    var key, rest := keys[|keys| - 1], keys[..|keys| - 1];
    var i := FirstFrom(s, key, 0);
    LastKey(args, keys);
    ReplaceStep(s, args, keys);
    assert s == s[..i] + key + s[i + |key|..];
    ScanThrough(s[..i], s[i + |key|..], args, Keys(rest), key);
  }

  lemma LastKey(args: map<string, string>, keys: seq<string>)
    requires Ordered(args, keys) && keys != []
    ensures var key, rest := keys[|keys| - 1], keys[..|keys| - 1];
      && Ordered(args, rest) && key != ""
      && Keys(keys) == Keys(rest) + {key} && key !in Keys(rest) && "" !in Keys(rest)
      && forall k | k in Keys(rest) :: |k| <= |key|
  {
    KeysPush(keys);
    hide Keys;
    OrderedFront(args, keys);
  }

  lemma KeysPush(keys: seq<string>)
    requires keys != []
    ensures Keys(keys) == Keys(keys[..|keys| - 1]) + {keys[|keys| - 1]}
    ensures forall i | 0 <= i < |keys| :: keys[i] in Keys(keys)
  {
    assert keys == keys[..|keys| - 1] + [keys[|keys| - 1]];
  }

  lemma OrderedFront(args: map<string, string>, keys: seq<string>)
    requires Ordered(args, keys) && keys != []
    ensures var key, rest := keys[|keys| - 1], keys[..|keys| - 1];
      Ordered(args, rest) && key != "" && key !in Keys(rest) && "" !in Keys(rest) && forall k | k in Keys(rest) :: |k| <= |key|
  {
  }

  lemma {:induction false} ScanNothing(s: string, args: map<string, string>)
    ensures Scan(s, args, {}) == s
    decreases |s|
  {
    if s != "" {
      ScanNothing(s[1..], args);
      assert s == [s[0]] + s[1..];
    }
  }
}
