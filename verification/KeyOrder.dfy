/** The order of `std::string`, in which a `std::map` keeps its keys. */
module KeyOrder {

  predicate Leq(a: string, b: string) {
    a == "" || (b != "" && (a[0] < b[0] || (a[0] == b[0] && Leq(a[1..], b[1..]))))
  }

  /** The laws of a total order, for three keys. */
  predicate Lawful(leq: (string, string) -> bool, a: string, b: string, c: string) {
    && (leq(a, b) || leq(b, a))
    && (leq(a, b) && leq(b, a) ==> a == b)
    && (leq(a, b) && leq(b, c) ==> leq(a, c))
  }

  ghost predicate TotalOrder(leq: (string, string) -> bool) {
    forall a, b, c :: Lawful(leq, a, b, c)
  }

  predicate Least(leq: (string, string) -> bool, keys: set<string>, n: string) {
    n in keys && forall m :: m in keys ==> leq(n, m)
  }

  lemma {:induction false} LeqTotal(a: string, b: string)
    ensures Leq(a, b) || Leq(b, a)
    ensures Leq(a, b) && Leq(b, a) ==> a == b
  {
    if a != "" && b != "" {
      LeqTotal(a[1..], b[1..]);
      assert a == [a[0]] + a[1..] && b == [b[0]] + b[1..];
    }
  }

  /** The strings are alike before `k`, and there the first one is less. */
  predicate LessAt(a: string, b: string, k: nat) {
    k < |a| && k < |b| && a[..k] == b[..k] && a[k] < b[k]
  }

  lemma LessInRest(a: string, b: string, k: nat)
    requires a != "" && b != "" && a[0] == b[0]
    ensures LessAt(a[1..], b[1..], k) <==> LessAt(a, b, k + 1)
  {
    if k < |a| - 1 && k < |b| - 1 {
      assert a[..k + 1] == [a[0]] + a[1..][..k] && b[..k + 1] == [b[0]] + b[1..][..k];
      assert a[1..][..k] == a[..k + 1][1..] && b[1..][..k] == b[..k + 1][1..];
    }
  }

  lemma PrefixOfRest(a: string, b: string)
    requires a != "" && b != ""
    ensures a <= b <==> a[0] == b[0] && a[1..] <= b[1..]
  {
    assert a == [a[0]] + a[1..] && b == [b[0]] + b[1..];
  }

  /** The first place where two strings differ decides; a prefix comes first. */
  lemma {:induction false} LeqIff(a: string, b: string)
    ensures Leq(a, b) <==> a <= b || exists k: nat :: LessAt(a, b, k)
  {
    if a != "" && b != "" {
      LeqIff(a[1..], b[1..]);
      PrefixOfRest(a, b);
      if a[0] == b[0] {
        forall k: nat ensures LessAt(a[1..], b[1..], k) <==> LessAt(a, b, k + 1) { LessInRest(a, b, k); }
        if k: nat :| LessAt(a, b, k) {
          assert k > 0 && LessAt(a[1..], b[1..], k - 1);
        }
      } else {
        assert a[0] < b[0] ==> LessAt(a, b, 0);
        if k: nat :| LessAt(a, b, k) {
          assert k > 0 ==> a[..k][0] == b[..k][0];
        }
      }
    }
  }

  lemma {:induction false} LeqTransitive(a: string, b: string, c: string)
    requires Leq(a, b) && Leq(b, c)
    ensures Leq(a, c)
  {
    if a != "" && a[0] == b[0] == c[0] {
      LeqTransitive(a[1..], b[1..], c[1..]);
    }
  }

  lemma LeqIsTotalOrder(leq: (string, string) -> bool)
    requires forall a, b :: leq(a, b) == Leq(a, b)
    ensures TotalOrder(leq)
  {
    forall a, b, c ensures Lawful(leq, a, b, c) {
      LeqTotal(a, b);
      if Leq(a, b) && Leq(b, c) {
        LeqTransitive(a, b, c);
      }
    }
  }

  /** Where the walk over the keys begins. */
  lemma {:induction false} LeastExists(leq: (string, string) -> bool, keys: set<string>)
    requires TotalOrder(leq) && keys != {}
    ensures exists n :: Least(leq, keys, n)
  {
    var k :| k in keys;
    assert Lawful(leq, k, k, k);
    if keys == {k} {
      assert Least(leq, keys, k);
    } else {
      LeastExists(leq, keys - {k});
      var n :| Least(leq, keys - {k}, n);
      assert Lawful(leq, k, n, k);
      if leq(k, n) {
        forall m | m in keys ensures leq(k, m) { assert Lawful(leq, k, n, m); }
        assert Least(leq, keys, k);
      } else {
        assert Least(leq, keys, n);
      }
    }
  }
}
