/** Facts about finite sets and sequences that several components share. */
module Sets {

  ghost function Least(s: set<int>): (x: int)
    requires s != {}
    ensures x in s && forall y | y in s :: x <= y
  {
    LeastExists(s, |s|);
    var x :| x in s && forall y | y in s :: x <= y;
    x
  }

  lemma {:induction false} LeastExists(s: set<int>, n: nat)
    requires s != {} && |s| == n
    ensures exists x :: x in s && forall y | y in s :: x <= y
  {
    var z := AnyOf(s);
    var t := s - {z};
    if t != {} {
      LeastExists(t, n - 1);
      var x :| x in t && forall y | y in t :: x <= y;
      LeastStep(s, z, x);
    }
  }

  lemma LeastStep(s: set<int>, z: int, x: int)
    requires z in s && x in s && forall y | y in s - {z} :: x <= y
    ensures exists w :: w in s && forall y | y in s :: w <= y
  {
    assert forall y | y in s :: y == z || y in s - {z};
    assert (if x <= z then x else z) in s;
  }

  lemma AnyOf<T>(s: set<T>) returns (x: T)
    requires s != {}
    ensures x in s
  {
    x :| x in s;
  }

  lemma {:induction false} SubsetSize<T>(a: set<T>, b: set<T>)
    requires a <= b
    ensures |a| <= |b|
  {
    if a != {} {
      var x := AnyOf(a);
      SubsetSize(a - {x}, b - {x});
    }
  }

  /** A sequence without repetition has as many elements as it has positions. */
  lemma {:induction false} DistinctSize<T>(s: seq<T>, elements: set<T>)
    requires forall i, j | 0 <= i < j < |s| :: s[i] != s[j]
    requires forall x :: x in elements <==> x in s
    ensures |elements| == |s|
  {
    if s == [] {
      if elements != {} {
        var x := AnyOf(elements);
      }
    } else {
      var n := |s| - 1;
      forall x ensures x in elements - {s[n]} <==> x in s[..n] {
        if x in s && x != s[n] {
          var i :| 0 <= i < |s| && s[i] == x;
          assert s[..n][i] == x;
        }
      }
      DistinctSize(s[..n], elements - {s[n]});
    }
  }
}
