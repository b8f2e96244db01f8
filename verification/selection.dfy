/** What a bounded result heap holds after a stream of offers: a bag of `k`
    distances drawn from everything offered, none of which is beaten by a
    left-out distance by more than a factor `f` (`f = 1 + epsilon` in the
    approximate search, `f = 1` for the exact k smallest). The seeds, the
    strict-`<` offer and the pruning of a subtree all keep this relation. */
module Selection {
  import opened Scalar

  /** `m` is drawn from `a`, and every left-out distance scaled by `f` is at
      least every kept one. */
  ghost predicate Within(m: multiset<Dist>, a: multiset<Dist>, f: real)
  {
    m <= a && forall x, y :: x in m && y in a - m ==> Le(x, Scale(y, f))
  }

  /** `m` holds smallest elements of `a`. */
  ghost predicate Smallest(m: multiset<Dist>, a: multiset<Dist>)
  {
    Within(m, a, 1.0)
  }

  ghost predicate AllNonNeg(a: multiset<Dist>)
  {
    forall y :: y in a ==> NonNeg(y)
  }

  /** `mx` is a largest element of `m`: the value `head()` shows. */
  ghost predicate IsMax(mx: Dist, m: multiset<Dist>)
  {
    mx in m && forall x :: x in m ==> Le(x, mx)
  }

  /** Moves the relation across equal bags. */
  lemma WithinSame(m: multiset<Dist>, m': multiset<Dist>, a: multiset<Dist>, a': multiset<Dist>, f: real)
    requires m == m' && a == a'
    requires Within(m, a, f)
    ensures Within(m', a', f)
    ensures AllNonNeg(a) ==> AllNonNeg(a')
  {
  }

  /** A freshly seeded heap holds everything it has been given. */
  lemma WithinSelf(m: multiset<Dist>, f: real)
    ensures Within(m, m, f)
  {
    assert m - m == multiset{};
  }

  /** The kept and left-out parts after a replacement of the head. */
  lemma ReplaceSplit(m: multiset<Dist>, a: multiset<Dist>, mx: Dist, v: Dist)
    requires m <= a && mx in m
    ensures m - multiset{mx} + multiset{v} <= a + multiset{v}
    ensures (a + multiset{v}) - (m - multiset{mx} + multiset{v}) == (a - m) + multiset{mx}
  {
  }

  /** Offering a value strictly below the head: the head leaves, the value
      enters, and the relation holds of everything offered so far. */
  lemma {:induction false} OfferReplace(m: multiset<Dist>, a: multiset<Dist>, f: real, mx: Dist, v: Dist)
    requires Within(m, a, f) && AllNonNeg(a) && f >= 1.0
    requires IsMax(mx, m) && Lt(v, mx)
    ensures Within(m - multiset{mx} + multiset{v}, a + multiset{v}, f)
  {
    var m' := m - multiset{mx} + multiset{v};
    var a' := a + multiset{v};
    ReplaceSplit(m, a, mx, v);
    forall x, y | x in m' && y in a' - m'
      ensures Le(x, Scale(y, f))
    {
      LeTotalOrder(x, mx, Scale(y, f));
      if y in a - m {
        LeTotalOrder(mx, Scale(y, f), Scale(y, f));
        LeTotalOrder(v, mx, Scale(y, f));
      } else {
        assert y == mx;
        ScaleAbove(mx, f);
        LeTotalOrder(v, mx, Scale(mx, f));
      }
    }
  }

  /** Offering a value not below the head changes nothing kept. */
  lemma {:induction false} OfferKeep(m: multiset<Dist>, a: multiset<Dist>, f: real, mx: Dist, v: Dist)
    requires Within(m, a, f) && NonNeg(v) && f >= 1.0
    requires IsMax(mx, m) && Le(mx, v)
    ensures Within(m, a + multiset{v}, f)
  {
    assert (a + multiset{v}) - m == (a - m) + multiset{v};
    ScaleAbove(v, f);
    forall x, y | x in m && y in (a + multiset{v}) - m
      ensures Le(x, Scale(y, f))
    {
      if y !in a - m {
        assert y == v;
        LeTotalOrder(x, mx, v);
        LeTotalOrder(x, v, Scale(v, f));
      }
    }
  }

  /** Skipping a whole bag whose every scaled element is at least the head:
      the relation holds as if each had been offered. */
  lemma {:induction false} Prune(m: multiset<Dist>, a: multiset<Dist>, f: real, mx: Dist, xs: multiset<Dist>)
    requires Within(m, a, f)
    requires IsMax(mx, m)
    requires forall y :: y in xs ==> Le(mx, Scale(y, f))
    ensures Within(m, a + xs, f)
  {
    assert (a + xs) - m == (a - m) + xs;
    forall x, y | x in m && y in (a + xs) - m
      ensures Le(x, Scale(y, f))
    {
      if y !in a - m {
        LeTotalOrder(x, mx, Scale(y, f));
      }
    }
  }

  lemma SubBagEqual(m1: multiset<Dist>, m2: multiset<Dist>)
    requires m1 <= m2 && |m1| == |m2|
    ensures m1 == m2
  {
    var d := m2 - m1;
    assert m2 == m1 + d;
    assert |d| == 0;
    assert d == multiset{};
  }

  /** Two bags of the same size that both hold smallest elements of the same
      bag are equal: the k smallest are unique as a bag. */
  lemma SmallestUnique(m1: multiset<Dist>, m2: multiset<Dist>, a: multiset<Dist>)
    requires Smallest(m1, a) && Smallest(m2, a)
    requires |m1| == |m2|
    ensures m1 == m2
  {
    if m1 <= m2 {
      SubBagEqual(m1, m2);
    } else if m2 <= m1 {
      SubBagEqual(m2, m1);
    } else {
      var v :| m1[v] > m2[v];
      var w :| m2[w] > m1[w];
      assert v in m1 && v in a - m2;
      assert w in m2 && w in a - m1;
      ScaleOne(v);
      ScaleOne(w);
      assert Le(w, v) && Le(v, w);
      LeTotalOrder(v, w, w);
    }
  }

  /** A least element of everything offered is kept, whenever at least one
      slot exists. */
  lemma SmallestKeepsMinimum(m: multiset<Dist>, a: multiset<Dist>, z: Dist)
    requires Smallest(m, a) && |m| > 0
    requires z in a && forall y :: y in a ==> Le(z, y)
    ensures z in m
  {
    if z !in m {
      assert z in a - m;
      var x :| x in m;
      ScaleOne(z);
      assert Le(x, z) && Le(z, x);
      LeTotalOrder(x, z, z);
    }
  }
}
