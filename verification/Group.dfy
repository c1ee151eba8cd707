/** Diffie-Hellman in the powers of a generator modulo a prime. */
module Group {

  function Pow(b: nat, e: nat): nat {
    if e == 0 then 1 else b * Pow(b, e - 1)
  }

  /** `b` multiplied by itself `e` times, modulo `p`. */
  function Exp(b: nat, e: nat, p: nat): (r: nat)
    requires p > 0
    ensures r < p
  {
    Pow(b, e) % p
  }

  lemma {:induction false} PowAdd(b: nat, x: nat, y: nat)
    ensures Pow(b, x + y) == Pow(b, x) * Pow(b, y)
  {
    if x == 0 {
    } else {
      PowAdd(b, x - 1, y);
      assert Pow(b, x + y) == b * Pow(b, x - 1 + y);
      Associative(b, Pow(b, x - 1), Pow(b, y));
    }
  }

  /** Powers multiply as their exponents add, from the first power on: this fixes every value of `Exp`. */
  lemma ExpLaws(b: nat, x: nat, y: nat, p: nat)
    requires p > 0
    ensures Exp(b, 1, p) == b % p
    ensures Exp(b, x + y, p) == (Exp(b, x, p) * Exp(b, y, p)) % p
  {
    assert Pow(b, 1) == b * Pow(b, 0);
    PowAdd(b, x, y);
    hide Pow;
    ReduceFactor(Pow(b, x), Pow(b, y), p);
    ReduceFactor(Pow(b, y), Exp(b, x, p), p);
    Commutes(Pow(b, y), Exp(b, x, p));
    Commutes(Exp(b, y, p), Exp(b, x, p));
  }

  lemma Commutes(x: nat, y: nat)
    ensures x * y == y * x
  {
  }

  lemma Associative(x: nat, y: nat, z: nat)
    ensures x * (y * z) == (x * y) * z
  {
  }

  lemma {:induction false} PowPow(b: nat, x: nat, y: nat)
    ensures Pow(Pow(b, x), y) == Pow(b, x * y)
  {
    if y == 0 {
    } else {
      PowPow(b, x, y - 1);
      PowAdd(b, x, x * (y - 1));
      assert x * y == x + x * (y - 1);
    }
  }

  lemma {:induction false} AddMultiple(r: nat, k: nat, p: nat)
    requires p > 0
    ensures (r + k * p) % p == r % p
  {
    if k != 0 {
      AddMultiple(r, k - 1, p);
      assert r + k * p == (r + (k - 1) * p) + p;
      AddOnce(r + (k - 1) * p, p);
    }
  }

  lemma AddOnce(a: nat, p: nat)
    requires p > 0
    ensures (a + p) % p == a % p
  {
    var x := a + p;
    var d := x / p - a / p - 1;
    assert p * d == p * (x / p) - p * (a / p) - p;
    assert p * d == a % p - x % p;
    MultipleBounds(p, d);
  }

  lemma MultipleBounds(p: int, d: int)
    requires p > 0
    ensures d >= 1 ==> p * d >= p
    ensures d <= -1 ==> p * d <= -p
  {
  }

  lemma ReduceFactor(x: nat, y: nat, p: nat)
    requires p > 0
    ensures ((x % p) * y) % p == (x * y) % p
  {
    var q, r := x / p, x % p;
    assert x == r + q * p;
    assert x * y == r * y + (q * y) * p;
    AddMultiple(r * y, q * y, p);
  }

  lemma {:induction false} ReduceBase(b: nat, e: nat, p: nat)
    requires p > 0
    ensures Pow(b % p, e) % p == Pow(b, e) % p
  {
    if e != 0 {
      ReduceBase(b, e - 1, p);
      var small, big := Pow(b % p, e - 1), Pow(b, e - 1);
      ReduceFactor(b, small, p);
      ReduceFactor(small, b, p);
      ReduceFactor(big, b, p);
      assert Pow(b, e) == b * big && Pow(b % p, e) == (b % p) * small;
      assert (b * small) % p == (small * b) % p;
    }
  }

  /** Both sides of an exchange reach the same element, each from its own secret and the other's public element. */
  lemma ExchangeCommutes(g: nat, a: nat, b: nat, p: nat)
    requires p > 0
    ensures Exp(Exp(g, b, p), a, p) == Exp(Exp(g, a, p), b, p)
  {
    ReduceBase(Pow(g, b), a, p);
    ReduceBase(Pow(g, a), b, p);
    PowPow(g, b, a);
    PowPow(g, a, b);
    assert a * b == b * a;
  }

  lemma {:induction false} InversePowers(g: nat, inverse: nat, e: nat, p: nat)
    requires p > 1 && (g * inverse) % p == 1
    ensures (Pow(g, e) * Pow(inverse, e)) % p == 1
  {
    if e != 0 {
      InversePowers(g, inverse, e - 1, p);
      var a, b := Pow(g, e - 1), Pow(inverse, e - 1);
      Rearrange(g, a, inverse, b);
      ReduceFactor(g * inverse, a * b, p);
      assert Pow(g, e) * Pow(inverse, e) == (g * inverse) * (a * b);
    }
  }

  lemma Rearrange(g: nat, a: nat, h: nat, b: nat)
    ensures (g * a) * (h * b) == (g * h) * (a * b)
  {
    Associative(g * a, h, b);
    Associative(g, a, h);
    Associative(g, h, a);
    Associative(g * h, a, b);
    assert a * h == h * a;
  }

  lemma ZeroFactor(r: nat, y: nat)
    ensures r == 0 ==> r * y == 0
  {
  }

  /** No power of an invertible element is zero. */
  lemma PowersNonzero(g: nat, inverse: nat, e: nat, p: nat)
    requires p > 1 && (g * inverse) % p == 1
    ensures Exp(g, e, p) != 0
  {
    hide Pow;
    var x, y := Pow(g, e), Pow(inverse, e);
    InversePowers(g, inverse, e, p);
    ReduceFactor(x, y, p);
    ZeroFactor(x % p, y);
  }
}
