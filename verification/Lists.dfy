/** Lists as sets, and without repetitions. */
module Lists {

  function Set<T>(s: seq<T>): set<T> {
    set x <- s
  }

  lemma SetConcat<T>(a: seq<T>, b: seq<T>)
    ensures Set(a + b) == Set(a) + Set(b)
  {
    assert forall x :: x in a + b <==> x in a || x in b;
  }

  /** Without repetitions, first occurrences kept. */
  function Unique<T(==)>(s: seq<T>): (r: seq<T>)
    ensures Set(r) == Set(s)
    ensures forall i, j | 0 <= i < j < |r| :: r[i] != r[j]
  {
    if s == [] then []
    else
      var t, x := s[..|s| - 1], s[|s| - 1];
      var r := Unique(t);
      assert s == t + [x];
      SetConcat(t, [x]);
      SetConcat(r, [x]);
      assert Set([x]) == {x};
      assert x in r <==> x in Set(r);
      if x in r then r else r + [x]
  }

  lemma UniqueMember<T>(s: seq<T>, x: T)
    ensures x in Unique(s) <==> x in s
  {
    assert x in Set(Unique(s)) <==> x in Unique(s);
    assert x in Set(s) <==> x in s;
  }

  /** One element is left exactly when the list is not empty and all its elements are
      the same. */
  lemma UniqueIsOne<T>(s: seq<T>)
    ensures |Unique(s)| == 1 <==> s != [] && forall x <- s :: x == s[0]
  {
    var r := Unique(s);
    if s != [] {
      UniqueMember(s, s[0]);
      forall i | 0 <= i < |s|
        ensures s[i] in r
      {
        UniqueMember(s, s[i]);
      }
      forall i | 0 <= i < |r|
        ensures r[i] in s
      {
        UniqueMember(s, r[i]);
      }
      if |r| == 1 {
        assert forall i | 0 <= i < |s| :: s[i] == r[0];
      }
    }
  }
}
