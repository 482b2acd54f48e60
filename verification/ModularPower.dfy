// Modular exponentiation, as big.Int.Exp computes it, and the laws key agreement needs.
module ModularPower {

  function Power(b: nat, e: nat): nat {
    if e == 0 then 1 else b * Power(b, e - 1)
  }

  function Exp(b: nat, e: nat, n: nat): (r: nat)
    requires n > 0
    ensures r < n
  {
    Power(b, e) % n
  }

  lemma {:induction false} ModAddMultiple(n: nat, k: nat, z: nat)
    requires n > 0
    ensures (n * k + z) % n == z % n
  {
    if k == 0 {
    } else {
      ModAddMultiple(n, k - 1, z);
      assert n * k + z == n * (k - 1) + z + n;
      ModAddOnce(n, n * (k - 1) + z);
    }
  }

  lemma ModAddOnce(n: nat, z: nat)
    requires n > 0
    ensures (z + n) % n == z % n
  {
    var q, r := z / n, z % n;
    assert z + n == n * (q + 1) + r;
    ModUnique(n, z + n, q + 1, r);
  }

  // Quotient and remainder are unique.
  lemma ModUnique(n: nat, w: nat, k: nat, r: nat)
    requires n > 0 && w == n * k + r && r < n
    ensures w % n == r && w / n == k
  {
    QuotientUnique(n, k, r, w / n, w % n);
  }

  lemma QuotientUnique(n: nat, k: nat, r: nat, k': nat, r': nat)
    requires n * k + r == n * k' + r' && r < n && r' < n
    ensures k == k' && r == r'
  {
    var d := k - k';
    assert n * d == n * k - n * k';
    NoSmallMultiple(n, d);
  }

  lemma NoSmallMultiple(n: int, d: int)
    requires n >= 0
    ensures d >= 1 ==> n * d >= n
    ensures d <= -1 ==> n * d <= -n
  {
  }

  lemma ModMul(x: nat, y: nat, n: nat)
    requires n > 0
    ensures ((x % n) * y) % n == (x * y) % n
  {
    var k, r := x / n, x % n;
    assert x == n * k + r;
    assert x * y == n * (k * y) + r * y by {
      assert (n * k + r) * y == (n * k) * y + r * y;
      assert (n * k) * y == n * (k * y);
    }
    ModAddMultiple(n, k * y, r * y);
  }

  // Reducing the base first changes nothing.
  lemma {:induction false} ExpReduced(b: nat, e: nat, n: nat)
    requires n > 0
    ensures Exp(b % n, e, n) == Exp(b, e, n)
  {
    if e == 0 {
    } else {
      ExpReduced(b, e - 1, n);
      var p, q := Power(b % n, e - 1), Power(b, e - 1);
      ModMul(b, p, n);
      ModMul(p, b, n);
      ModMul(q, b, n);
      assert b * p == p * b && b * q == q * b;
    }
  }

  lemma {:induction false} PowerAdd(b: nat, x: nat, y: nat)
    ensures Power(b, x + y) == Power(b, x) * Power(b, y)
  {
    if x == 0 {
    } else {
      PowerAdd(b, x - 1, y);
      var p, q := Power(b, x - 1), Power(b, y);
      assert b * (p * q) == (b * p) * q;
    }
  }

  lemma {:induction false} PowerMul(b: nat, x: nat, y: nat)
    ensures Power(Power(b, x), y) == Power(b, x * y)
  {
    if y == 0 {
    } else {
      PowerMul(b, x, y - 1);
      PowerAdd(b, x, x * (y - 1));
      assert x + x * (y - 1) == x * y;
    }
  }

  // Both sides of a Diffie-Hellman exchange compute the same shared value.
  lemma SharedValueAgrees(g: nat, a: nat, b: nat, p: nat)
    requires p > 0
    ensures Exp(Exp(g, a, p), b, p) == Exp(Exp(g, b, p), a, p)
  {
    ExpReduced(Power(g, a), b, p);
    ExpReduced(Power(g, b), a, p);
    PowerMul(g, a, b);
    PowerMul(g, b, a);
    assert a * b == b * a;
  }
}
