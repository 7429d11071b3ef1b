/** Congruences, powers, and the classical theorems that RSA rests on. */
module NumberTheory {

  function Pow(b: nat, e: nat): (r: nat)
    ensures b > 0 ==> r > 0
  {
    if e == 0 then 1 else b * Pow(b, e - 1)
  }

  /** a and b leave the same remainder modulo n. */
  predicate Cong(a: int, b: int, n: int)
    requires n > 0
  {
    a % n == b % n
  }

  lemma {:induction false} MultipleIsFar(t: int, n: int)
    requires n > 0 && t != 0
    ensures if t > 0 then t * n >= n else t * n <= -n
    decreases if t > 0 then t else -t
  {
    if t > 1 {
      MultipleIsFar(t - 1, n);
      assert t * n == (t - 1) * n + n;
    } else if t < -1 {
      MultipleIsFar(t + 1, n);
      assert t * n == (t + 1) * n - n;
    }
  }

  lemma CongIntro(a: int, b: int, k: int, n: int)
    requires n > 0 && a - b == k * n
    ensures Cong(a, b, n)
  {
    var d := a % n - b % n;
    var t := k - a / n + b / n;
    assert d == t * n by {
      assert a == n * (a / n) + a % n;
      assert b == n * (b / n) + b % n;
      assert t * n == k * n - n * (a / n) + n * (b / n);
    }
    if t != 0 {
      MultipleIsFar(t, n);
    }
  }

  lemma CongElim(a: int, b: int, n: int) returns (k: int)
    requires n > 0 && Cong(a, b, n)
    ensures a - b == k * n
  {
    k := a / n - b / n;
    assert a == n * (a / n) + a % n;
    assert b == n * (b / n) + b % n;
    assert k * n == n * (a / n) - n * (b / n);
  }

  lemma MulSwap(x: int, y: int, z: int)
    ensures x * (y * z) == y * (x * z)
    ensures x * (y * z) == (x * y) * z
  {
  }

  lemma CongScale(a: int, b: int, c: int, n: int)
    requires n > 0 && Cong(a, b, n)
    ensures Cong(a * c, b * c, n) && Cong(c * a, c * b, n)
  {
    var k := CongElim(a, b, n);
    assert a * c - b * c == (a - b) * c == (k * n) * c;
    MulSwap(c, k, n);
    CongIntro(a * c, b * c, c * k, n);
  }

  lemma CongMul(a: int, b: int, c: int, d: int, n: int)
    requires n > 0 && Cong(a, b, n) && Cong(c, d, n)
    ensures Cong(a * c, b * d, n)
  {
    CongScale(a, b, c, n);
    CongScale(c, d, b, n);
  }

  lemma CongAdd(a: int, b: int, c: int, d: int, n: int)
    requires n > 0 && Cong(a, b, n) && Cong(c, d, n)
    ensures Cong(a + c, b + d, n)
  {
    var k := CongElim(a, b, n);
    var l := CongElim(c, d, n);
    assert (a + c) - (b + d) == (k + l) * n;
    CongIntro(a + c, b + d, k + l, n);
  }

  lemma CongMod(a: int, n: int)
    requires n > 0
    ensures Cong(a % n, a, n)
  {
    assert a == n * (a / n) + a % n;
    CongIntro(a % n, a, -(a / n), n);
  }

  lemma CongSmall(a: int, b: int, n: int)
    requires 0 <= a < n && 0 <= b < n && Cong(a, b, n)
    ensures a == b
  {
    var k := CongElim(a, b, n);
    if k != 0 {
      MultipleIsFar(k, n);
    }
  }

  lemma {:induction false} CongPow(a: nat, b: nat, e: nat, n: int)
    requires n > 0 && Cong(a, b, n)
    ensures Cong(Pow(a, e), Pow(b, e), n)
  {
    if e > 0 {
      CongPow(a, b, e - 1, n);
      CongMul(a, b, Pow(a, e - 1), Pow(b, e - 1), n);
    }
  }

  lemma {:induction false} PowAdd(b: nat, e: nat, f: nat)
    ensures Pow(b, e + f) == Pow(b, e) * Pow(b, f)
  {
    if e > 0 {
      PowAdd(b, e - 1, f);
      assert Pow(b, e + f) == b * Pow(b, (e - 1) + f);
      MulSwap(b, Pow(b, e - 1), Pow(b, f));
    }
  }

  lemma {:induction false} PowMul(b: nat, e: nat, f: nat)
    ensures Pow(b, e * f) == Pow(Pow(b, e), f)
  {
    if f == 0 {
      assert e * f == 0;
    } else {
      assert e * f == e + e * (f - 1) && e * (f - 1) >= 0;
      PowAdd(b, e, e * (f - 1));
      PowMul(b, e, f - 1);
    }
  }

  lemma {:induction false} PowOne(e: nat)
    ensures Pow(1, e) == 1
  {
    if e > 0 {
      PowOne(e - 1);
    }
  }

  lemma OddMultiple(k: int, m: int)
    ensures k * (2 * m + 1) == 2 * (k * m) + k
  {
  }

  /** Doubling, and so multiplying by a power of two, can be undone modulo an odd number. */
  lemma CancelTwo(x: int, y: int, n: int)
    requires n > 0 && n % 2 == 1 && Cong(2 * x, 2 * y, n)
    ensures Cong(x, y, n)
  {
    var k := CongElim(2 * x, 2 * y, n);
    OddMultiple(k, n / 2);
    assert n == 2 * (n / 2) + 1;
    var h := k / 2;
    assert (2 * h) * n == 2 * (h * n);
    CongIntro(x, y, h, n);
  }

  lemma {:induction false} CancelPow2(x: int, y: int, k: nat, n: int)
    requires n > 0 && n % 2 == 1 && Cong(x * Pow(2, k), y * Pow(2, k), n)
    ensures Cong(x, y, n)
  {
    if k > 0 {
      var h := Pow(2, k - 1);
      assert Pow(2, k) == 2 * h;
      assert x * Pow(2, k) == 2 * (x * h) && y * Pow(2, k) == 2 * (y * h);
      CancelTwo(x * h, y * h, n);
      CancelPow2(x, y, k - 1, n);
    }
  }

  predicate Factor(d: int, p: int)
    requires d != 0
  {
    p % d == 0
  }

  ghost predicate Prime(p: int) {
    p >= 2 && forall d :: 2 <= d < p ==> !Factor(d, p)
  }

  ghost predicate Divides(n: int, x: int)
    requires n > 0
  {
    Cong(x, 0, n)
  }

  /** Euclid's lemma, for a factor already reduced modulo p: replace r by p % r until it is 1. */
  lemma {:induction false} EuclidReduced(p: int, r: int, b: int)
    requires Prime(p) && 0 < r < p && Divides(p, r * b)
    ensures Divides(p, b)
    decreases r
  {
    if r == 1 {
      assert r * b == b;
    } else {
      var q, s := p / r, p % r;
      assert !Factor(r, p);
      var k := CongElim(r * b, 0, p);
      assert s == p - q * r;
      assert s * b == p * b - q * (r * b) by {
        assert (p - q * r) * b == p * b - q * r * b;
        assert q * r * b == q * (r * b);
      }
      assert q * (r * b) == q * (k * p) == (q * k) * p;
      assert s * b - 0 == (b - q * k) * p;
      CongIntro(s * b, 0, b - q * k, p);
      EuclidReduced(p, s, b);
    }
  }

  lemma Euclid(p: int, a: int, b: int)
    requires Prime(p) && Divides(p, a * b) && !Divides(p, a)
    ensures Divides(p, b)
  {
    CongMod(a, p);
    CongMul(a % p, a, b, b, p);
    EuclidReduced(p, a % p, b);
  }

  lemma CancelFactor(p: int, a: int, x: int, y: int)
    requires Prime(p) && !Divides(p, a) && Cong(a * x, a * y, p)
    ensures Cong(x, y, p)
  {
    var k := CongElim(a * x, a * y, p);
    assert a * (x - y) == k * p;
    CongIntro(a * (x - y), 0, k, p);
    Euclid(p, a, x - y);
    var l := CongElim(x - y, 0, p);
    CongIntro(x, y, l, p);
  }

  // ----- Fermat's little theorem: x -> a*x % p permutes 1..p-1 -----

  ghost function Prod(s: set<nat>): nat {
    if s == {} then 1 else
      var x :| x in s;
      x * Prod(s - {x})
  }

  lemma {:induction false} ProdRemove(s: set<nat>, y: nat)
    requires y in s
    ensures Prod(s) == y * Prod(s - {y})
    decreases |s|
  {
    var x :| x in s && Prod(s) == x * Prod(s - {x});
    if x != y {
      var t := s - {x} - {y};
      ProdRemove(s - {x}, y);
      assert s - {y} - {x} == t;
      ProdRemove(s - {y}, x);
      MulSwap(x, y, Prod(t));
    }
  }

  predicate Positive(x: nat) {
    x > 0
  }

  /** The residues 1..p-1. */
  ghost function Units(p: int): set<nat> {
    set x: nat | x < p && Positive(x)
  }

  lemma {:induction false} UnitsCount(p: int)
    requires p >= 1
    ensures |Units(p)| == p - 1
  {
    if p == 1 {
      assert Units(p) == {};
    } else {
      UnitsCount(p - 1);
      assert Positive(p - 1);
      assert Units(p) == Units(p - 1) + {p - 1};
    }
  }

  function Times(a: nat, x: nat, p: int): (r: nat)
    requires p > 0
    ensures r < p && Cong(r, a * x, p)
  {
    CongMod(a * x, p);
    (a * x) % p
  }

  ghost function Scaled(a: nat, s: set<nat>, p: int): set<nat>
    requires p > 0
  {
    set x | x in s :: Times(a, x, p)
  }

  lemma UnitNotDivisible(p: int, x: nat)
    requires p > 0 && 1 <= x < p
    ensures !Divides(p, x)
  {
    if Divides(p, x) {
      CongSmall(x, 0, p);
    }
  }

  lemma ScaleInjective(p: int, a: nat, x: nat, y: nat)
    requires Prime(p) && !Divides(p, a) && x in Units(p) && y in Units(p)
    requires Times(a, x, p) == Times(a, y, p)
    ensures x == y
  {
    CancelFactor(p, a, x, y);
    CongSmall(x, y, p);
  }

  lemma ScaledInsert(p: int, a: nat, t: set<nat>, x: nat)
    requires Prime(p) && !Divides(p, a) && t <= Units(p) && x in Units(p) && x !in t
    ensures Scaled(a, t + {x}, p) == Scaled(a, t, p) + {Times(a, x, p)}
    ensures Times(a, x, p) !in Scaled(a, t, p)
  {
    if z :| z in t && Times(a, z, p) == Times(a, x, p) {
      ScaleInjective(p, a, x, z);
    }
  }

  lemma ProdInsert(t: set<nat>, x: nat)
    requires x !in t
    ensures Prod(t + {x}) == x * Prod(t)
  {
    ProdRemove(t + {x}, x);
    assert t + {x} - {x} == t;
  }

  lemma ScaledStep(p: int, a: nat, x: nat, y: nat, u: nat, w: nat, v: nat)
    requires p > 0 && Cong(y, a * x, p) && Cong(u, w * v, p)
    ensures Cong(y * u, (a * w) * (x * v), p)
  {
    CongMul(y, a * x, u, w * v, p);
    MulSwap(a, x, w * v);
    MulSwap(x, w, v);
    MulSwap(a, w, x * v);
  }

  lemma ScaledProdStep(p: int, a: nat, x: nat, u: set<nat>, t: set<nat>, k: nat)
    requires p > 0 && k > 0 && x !in t && Times(a, x, p) !in u
    requires Cong(Prod(u), Pow(a, k - 1) * Prod(t), p)
    ensures Cong(Prod(u + {Times(a, x, p)}), Pow(a, k) * Prod(t + {x}), p)
  {
    ProdInsert(u, Times(a, x, p));
    ProdInsert(t, x);
    ScaledStep(p, a, x, Times(a, x, p), Prod(u), Pow(a, k - 1), Prod(t));
  }

  lemma {:induction false} ScaledCount(p: int, a: nat, s: set<nat>)
    requires Prime(p) && !Divides(p, a) && s <= Units(p)
    ensures |Scaled(a, s, p)| == |s|
    decreases |s|
  {
    if s == {} {
      assert Scaled(a, s, p) == {};
    } else {
      var x :| x in s;
      ScaledCount(p, a, s - {x});
      ScaledInsert(p, a, s - {x}, x);
      assert s == (s - {x}) + {x};
    }
  }

  lemma {:induction false} ScaledProd(p: int, a: nat, s: set<nat>, k: nat)
    requires Prime(p) && !Divides(p, a) && s <= Units(p) && |s| == k
    ensures Cong(Prod(Scaled(a, s, p)), Pow(a, k) * Prod(s), p)
    decreases k
  {
    if s == {} {
      assert Scaled(a, s, p) == {};
      assert Pow(a, 0) * Prod({}) == 1;
    } else {
      var x :| x in s;
      var t := s - {x};
      ScaledProd(p, a, t, k - 1);
      assert s == t + {x};
      ScaledInsert(p, a, t, x);
      ScaledProdStep(p, a, x, Scaled(a, t, p), t, k);
    }
  }

  lemma {:induction false} UnitProdNotDivisible(p: int, s: set<nat>)
    requires Prime(p) && s <= Units(p)
    ensures !Divides(p, Prod(s))
    decreases |s|
  {
    if s != {} {
      var x :| x in s;
      ProdRemove(s, x);
      UnitProdNotDivisible(p, s - {x});
      UnitNotDivisible(p, x);
      if Divides(p, Prod(s)) {
        Euclid(p, x, Prod(s - {x}));
      }
    }
  }

  lemma {:induction false} SubsetOfSameSize(s: set<nat>, t: set<nat>)
    requires s <= t && |s| == |t|
    ensures s == t
  {
    assert |t - s| == |t| - |s|;
    assert t == s + (t - s);
  }

  lemma ScaledUnits(p: int, a: nat)
    requires Prime(p) && !Divides(p, a)
    ensures Scaled(a, Units(p), p) == Units(p)
  {
    forall y | y in Scaled(a, Units(p), p)
      ensures y in Units(p)
    {
      var x :| x in Units(p) && y == Times(a, x, p);
      if y == 0 {
        Euclid(p, a, x);
        UnitNotDivisible(p, x);
      }
    }
    ScaledCount(p, a, Units(p));
    SubsetOfSameSize(Scaled(a, Units(p), p), Units(p));
  }

  lemma PermutedProd(p: int, a: nat, u: set<nat>, k: nat)
    requires Prime(p) && !Divides(p, a) && u <= Units(p) && |u| == k && Scaled(a, u, p) == u
    ensures Cong(Pow(a, k), 1, p)
  {
    ScaledProd(p, a, u, k);
    UnitProdNotDivisible(p, u);
    CancelProduct(p, Prod(u), Pow(a, k));
  }

  lemma Fermat(p: int, a: nat)
    requires Prime(p) && !Divides(p, a)
    ensures Cong(Pow(a, p - 1), 1, p)
  {
    ScaledUnits(p, a);
    UnitsCount(p);
    PermutedProd(p, a, Units(p), p - 1);
  }

  lemma CancelProduct(p: int, w: nat, z: nat)
    requires Prime(p) && !Divides(p, w) && Cong(w, z * w, p)
    ensures Cong(z, 1, p)
  {
    assert w * 1 == w && z * w == w * z;
    CancelFactor(p, w, 1, z);
  }

  // ----- The RSA identity -----

  lemma PowReturnsModPrime(p: int, m: nat, t: nat)
    requires Prime(p)
    ensures (p - 1) * t + 1 > 0 && Cong(Pow(m, (p - 1) * t + 1), m, p)
  {
    var e := (p - 1) * t;
    assert e >= 0;
    assert Pow(m, e + 1) == m * Pow(m, e);
    if Divides(p, m) {
      CongMul(m, 0, Pow(m, e), Pow(m, e), p);
    } else {
      Fermat(p, m);
      PowMul(m, p - 1, t);
      CongPow(Pow(m, p - 1), 1, t, p);
      PowOne(t);
      CongMul(m, m, Pow(m, e), 1, p);
    }
  }

  lemma PrimesNotDividing(p: int, q: int)
    requires Prime(p) && Prime(q) && p != q
    ensures !Divides(q, p)
  {
    if p < q {
      assert p % q == p;
    } else {
      assert !Factor(q, p);
    }
  }

  lemma CongProduct(p: int, q: int, a: int, b: int)
    requires Prime(p) && Prime(q) && p != q && Cong(a, b, p) && Cong(a, b, q)
    ensures p * q > 0 && Cong(a, b, p * q)
  {
    var k := CongElim(a, b, p);
    var l := CongElim(a, b, q);
    CongIntro(p * k, 0, l, q);
    PrimesNotDividing(p, q);
    Euclid(q, p, k);
    var j := CongElim(k, 0, q);
    assert p * q > 0;
    assert a - b == (j * q) * p == j * (p * q);
    CongIntro(a, b, j, p * q);
  }

  /** An exponent congruent to 1 modulo u*v is one more than a multiple of u and of v. */
  lemma PhiMultiple(u: nat, v: nat, x: nat) returns (t: nat)
    requires u >= 1 && v >= 1 && u != v && Cong(x, 1, u * v)
    ensures x == u * (v * t) + 1 == v * (u * t) + 1
  {
    var w := u * v;
    assert w >= 2 by {
      if u == 1 { assert w == v; } else { assert w == u + u * (v - 1); }
    }
    var k := CongElim(x, 1, w);
    if k < 0 {
      MultipleIsFar(k, w);
    }
    t := k;
    MulSwap(t, u, v);
    MulSwap(t, v, u);
    assert u * v == v * u;
  }

  /** Raising to e and then to d is the identity modulo p*q, for every message, units or not. */
  lemma RsaIdentity(p: int, q: int, e: nat, d: nat, m: nat)
    requires Prime(p) && Prime(q) && p != q && p * q > 0 && m < p * q
    requires (p - 1) * (q - 1) > 0 && Cong(e * d, 1, (p - 1) * (q - 1))
    ensures Pow(Pow(m, e) % (p * q), d) % (p * q) == m
  {
    var n := p * q;
    var t := PhiMultiple(p - 1, q - 1, e * d);
    PowReturnsModPrime(p, m, (q - 1) * t);
    PowReturnsModPrime(q, m, (p - 1) * t);
    CongProduct(p, q, Pow(m, e * d), m);
    CongMod(Pow(m, e), n);
    CongPow(Pow(m, e) % n, Pow(m, e), d, n);
    PowMul(m, e, d);
    CongMod(Pow(Pow(m, e) % n, d), n);
    CongSmall(Pow(Pow(m, e) % n, d) % n, m, n);
  }
}
