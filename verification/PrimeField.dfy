/** Square roots modulo an odd prime: there are two, `y` and `p - y`, and their parities differ. */
module PrimeField {
  import opened Numbers

  predicate Divides(d: nat, n: nat)
    requires d > 0
  {
    n % d == 0
  }

  predicate Prime(p: nat) {
    p > 1 && forall d :: 1 < d < p ==> !Divides(d, p)
  }

  /** Euclid's lemma, by the remainders of `p` modulo `a`: the witness `k` travels along. */
  lemma {:induction false} EuclidStep(p: nat, a: nat, b: int, k: int)
    requires Prime(p) && 1 <= a < p && a * b == k * p
    ensures b % p == 0
    decreases a
  {
    if a == 1 {
      DivModUnique(k, 0, p);
    } else {
      var q, r := p / a, p % a;
      assert !Divides(a, p);
      assert p == q * a + r;
      assert r * b == (b - q * k) * p by {
        assert r * b == p * b - (q * a) * b;
        assert (q * a) * b == q * (a * b);
        assert q * (k * p) == (q * k) * p;
        assert (b - q * k) * p == b * p - (q * k) * p;
      }
      EuclidStep(p, r, b, b - q * k);
    }
  }

  lemma EuclidsLemma(p: nat, a: int, b: int)
    requires Prime(p) && a * b % p == 0
    ensures a % p == 0 || b % p == 0
  {
    var q, r := a / p, a % p;
    if r != 0 {
      var k := a * b / p;
      assert a * b == k * p;
      assert a == q * p + r;
      assert r * b == (k - q * b) * p by {
        assert (q * p + r) * b == (q * p) * b + r * b;
        assert (q * p) * b == (q * b) * p;
        assert (k - q * b) * p == k * p - (q * b) * p;
      }
      EuclidStep(p, r, b, k - q * b);
    }
  }

  lemma SameRemainder(a: int, b: int, p: nat)
    requires p > 0 && a % p == b % p
    ensures (a - b) % p == 0
  {
    var q := a / p - b / p;
    assert a - b == q * p by {
      assert a == a / p * p + a % p;
      assert b == b / p * p + b % p;
      assert q * p == a / p * p - b / p * p;
    }
    DivModUnique(q, 0, p);
  }

  lemma SmallMultiple(n: int, p: nat)
    requires p > 0 && n % p == 0 && 0 - p < n < 2 * p
    ensures n == 0 || n == p
  {
    var q := n / p;
    assert n == q * p;
    MulMono(q, -1, p);
    MulMono(2, q, p);
  }

  /** Two roots of the same value are equal or add up to `p`. */
  lemma RootsOfSameSquare(p: nat, r: nat, y: nat)
    requires Prime(p) && r < p && y < p && r * r % p == y * y % p
    ensures r == y || r + y == p
  {
    SameRemainder(r * r, y * y, p);
    assert r * r - y * y == (r - y) * (r + y);
    EuclidsLemma(p, r - y, r + y);
    if (r - y) % p == 0 {
      SmallMultiple(r - y, p);
    } else {
      SmallMultiple(r + y, p);
    }
  }
}
