/** Facts about finite sets and maps that several components use. */
module Sets {

  ghost function Pick<T>(s: set<T>): (x: T)
    requires s != {}
    ensures x in s
  {
    assert |s| > 0;
    var x :| x in s;
    x
  }

  method Take<T>(s: set<T>) returns (x: T)
    requires s != {}
    ensures x in s
  {
    assert |s| > 0;
    x :| x in s;
  }

  function Elements<T>(q: seq<T>): set<T>
  {
    set x | x in q
  }

  lemma ElementsSnoc<T>(q: seq<T>, x: T)
    ensures Elements(q + [x]) == Elements(q) + {x}
  {}

  lemma ElementsCons<T>(x: T, q: seq<T>)
    ensures Elements([x] + q) == {x} + Elements(q)
  {}

  lemma {:induction false} SubsetSize<T>(a: set<T>, b: set<T>)
    requires a <= b
    ensures |a| <= |b|
    decreases |a|
  {
    if a != {} {
      var x := Pick(a);
      SubsetSize(a - {x}, b - {x});
    }
  }

  lemma {:induction false} ElementsSize<T>(q: seq<T>)
    ensures |Elements(q)| <= |q|
  {
    if q != [] {
      var front := q[..|q| - 1];
      ElementsSize(front);
      assert q == front + [q[|q| - 1]];
      ElementsSnoc(front, q[|q| - 1]);
    }
  }

  lemma SplitSize<T>(t: set<T>, h: set<T>)
    ensures |t| == |t * h| + |t - h|
  {
    assert t * h + (t - h) == t;
  }

  lemma {:induction false} SubsetOfSize<T>(s: set<T>, n: nat) returns (a: set<T>)
    requires n <= |s|
    ensures a <= s && |a| == n
  {
    if n == 0 {
      a := {};
    } else {
      a := SubsetOfSize(s, n - 1);
      assert a + (s - a) == s;
      a := a + {Pick(s - a)};
    }
  }

  lemma ProperSubsetSize<T>(a: set<T>, b: set<T>)
    requires a <= b && a != b
    ensures |a| < |b|
  {
    var d := b - a;
    assert a + d == b && a + {} == a;
    var x := Pick(d);
    SubsetSize(a, b - {x});
  }

  lemma SubsetOfSameSize<T>(a: set<T>, b: set<T>)
    requires a <= b && |a| == |b|
    ensures a == b
  {
    if a != b { ProperSubsetSize(a, b); }
  }

  lemma MapsEqual<K, V>(a: map<K, V>, b: map<K, V>)
    requires a.Keys == b.Keys && forall k | k in a :: a[k] == b[k]
    ensures a == b
  {}
}
