/** Multiset sums over sequences, and why the order of the summands does not matter. */
module MultisetSums {

  function Sum<X, T>(f: X -> multiset<T>, xs: seq<X>): multiset<T> {
    if xs == [] then multiset{} else f(xs[0]) + Sum(f, xs[1..])
  }

  function Without<X>(xs: seq<X>, k: nat): seq<X>
    requires k < |xs|
  {
    xs[..k] + xs[k + 1..]
  }

  lemma {:induction false} SumConcat<X, T>(f: X -> multiset<T>, a: seq<X>, b: seq<X>)
    ensures Sum(f, a + b) == Sum(f, a) + Sum(f, b)
  {
    if a == [] {
      assert a + b == b;
    } else {
      assert (a + b)[1..] == a[1..] + b;
      SumConcat(f, a[1..], b);
    }
  }

  lemma Cancel<T>(a: multiset<T>, b: multiset<T>, c: multiset<T>)
    ensures a + c == b + c <==> a == b
  {
    assert a == (a + c) - c && b == (b + c) - c;
  }

  lemma MultisetWithout<X>(xs: seq<X>, k: nat)
    requires k < |xs|
    ensures multiset(xs) == multiset(Without(xs, k)) + multiset{xs[k]}
  {
    assert xs == xs[..k] + [xs[k]] + xs[k + 1..];
  }

  lemma SumWithout<X, T>(f: X -> multiset<T>, xs: seq<X>, k: nat)
    requires k < |xs|
    ensures Sum(f, xs) == Sum(f, Without(xs, k)) + f(xs[k])
  {
    SumConcat(f, xs[..k], xs[k + 1..]);
    SumConcat(f, xs[..k], xs[k..]);
    assert xs == xs[..k] + xs[k..];
    assert xs[k..][1..] == xs[k + 1..];
  }

  lemma {:induction false} SumOfPermutation<X, T>(f: X -> multiset<T>, a: seq<X>, b: seq<X>)
    requires multiset(a) == multiset(b)
    ensures Sum(f, a) == Sum(f, b)
  {
    if a == [] {
      assert |multiset(b)| == 0;
    } else {
      assert a[0] in multiset(b);
      var k :| 0 <= k < |b| && b[k] == a[0];
      MultisetWithout(a, 0);
      MultisetWithout(b, k);
      SumWithout(f, a, 0);
      SumWithout(f, b, k);
      Cancel(multiset(Without(a, 0)), multiset(Without(b, k)), multiset{a[0]});
      SumOfPermutation(f, Without(a, 0), Without(b, k));
    }
  }
}
