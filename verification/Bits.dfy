/** Binary and byte-wise views of natural numbers. */
module Bits {
  import opened NumberTheory

  type byte = b: nat | b < 256

  const U32: nat := 0x1_0000_0000

  type u32 = x: nat | x < U32

  function Max(a: int, b: int): int {
    if a >= b then a else b
  }

  function Min(a: int, b: int): int {
    if a <= b then a else b
  }

  /** The value an unsigned 32-bit register keeps. */
  function Wrap32(x: int): (r: nat)
    ensures r < U32
    ensures 0 <= x < U32 ==> r == x
  {
    x % U32
  }

  lemma DivModUnique(x: nat, d: nat, q: nat, r: nat)
    requires r < d && x == d * q + r
    ensures x / d == q && x % d == r
  {
    CongIntro(x, r, q, d);
    CongMod(x, d);
    CongSmall(x % d, r, d);
    assert x == d * (x / d) + x % d;
    var t := x / d - q;
    assert t * d == d * (x / d) - d * q == 0;
    if t != 0 {
      MultipleIsFar(t, d);
    }
  }

  lemma DivDiv(x: nat, c: nat, d: nat)
    requires c > 0 && d > 0
    ensures c * d > 0 && x / (c * d) == (x / c) / d
  {
    var y := x / c;
    var r := x % c + c * (y % d);
    assert x == c * y + x % c && y == d * (y / d) + y % d;
    assert c * y == c * (d * (y / d)) + c * (y % d);
    MulSwap(c, d, y / d);
    assert r < c * d by {
      assert c * (y % d) <= c * (d - 1) by { MulMono(c, y % d, d - 1); }
    }
    DivModUnique(x, c * d, y / d, r);
  }

  lemma {:induction false} MulMono(c: nat, x: nat, y: nat)
    requires x <= y
    ensures c * x <= c * y
  {
    assert c * y == c * x + c * (y - x);
  }

  /** b shifted right by i. */
  function High(b: nat, i: nat): (r: nat)
    ensures b == Pow(2, i) * r + b % Pow(2, i)
    ensures i == 0 ==> r == b
  {
    QuotientNonNegative(b, Pow(2, i));
    b / Pow(2, i)
  }

  lemma QuotientNonNegative(x: nat, d: nat)
    requires d > 0
    ensures x / d >= 0 && x == d * (x / d) + x % d
  {
    var q := x / d;
    assert x == q * d + x % d;
    if q < 0 {
      MultipleIsFar(q, d);
    }
  }

  /** Bit i of b, as `b & (1 << i)` tests it. */
  predicate Bit(b: nat, i: nat) {
    High(b, i) % 2 == 1
  }

  /** The i low-order bits of b. */
  function Low(b: nat, i: nat): (r: nat)
    ensures r < Pow(2, i)
    ensures b < Pow(2, i) ==> r == b
  {
    assert b < Pow(2, i) ==> b % Pow(2, i) == b by {
      if b < Pow(2, i) {
        DivModUnique(b, Pow(2, i), 0, b);
      }
    }
    b % Pow(2, i)
  }

  lemma LowSplit(b: nat, i: nat)
    ensures Low(b, i + 1) == Low(b, i) + if Bit(b, i) then Pow(2, i) else 0
  {
    SplitAtBit(b, Pow(2, i), High(b, i), b % Pow(2, i));
  }

  lemma SplitAtBit(b: nat, w: nat, q: nat, r: nat)
    requires b == w * q + r && r < w
    ensures b % (2 * w) == r + if q % 2 == 1 then w else 0
  {
    var h, t := q / 2, q % 2;
    assert w * q == w * (2 * h) + w * t by {
      assert q == 2 * h + t;
    }
    MulSwap(w, 2, h);
    MulSwap(2, w, h);
    DivModUnique(b, 2 * w, h, w * t + r);
  }

  lemma HighSplit(b: nat, i: nat, m: nat)
    ensures Low(High(b, i), m + 1) == 2 * Low(High(b, i + 1), m) + if Bit(b, i) then 1 else 0
  {
    DivDiv(b, Pow(2, i), 2);
    assert Pow(2, i + 1) == Pow(2, i) * 2;
    LowOfDouble(High(b, i), m);
  }

  lemma LowOfDouble(x: nat, m: nat)
    ensures Low(x, m + 1) == 2 * Low(x / 2, m) + x % 2
  {
    var w := Pow(2, m);
    var q := High(x / 2, m);
    MulSwap(2, w, q);
    DivModUnique(x, 2 * w, q, 2 * Low(x / 2, m) + x % 2);
  }

  /** x << k in a 32-bit register: k doublings, each losing the top bit. */
  function Shl(x: u32, k: nat): (r: u32)
    ensures r == Wrap32(x * Pow(2, k))
    decreases k
  {
    if k == 0 then x
    else
      WrapTimes(2 * x, Pow(2, k - 1));
      MulSwap(x, 2, Pow(2, k - 1));
      Shl(Wrap32(2 * x), k - 1)
  }

  /** x >> k in a 32-bit register: k halvings. */
  function Shr(x: u32, k: nat): (r: u32)
    ensures r == x / Pow(2, k)
    decreases k
  {
    if k == 0 then x
    else
      DivDiv(x, 2, Pow(2, k - 1));
      Shr(x / 2, k - 1)
  }

  lemma WrapTimes(x: int, y: nat)
    ensures Wrap32(Wrap32(x) * y) == Wrap32(x * y)
  {
    CongMod(x, U32);
    CongScale(Wrap32(x), x, y, U32);
    WrapCong(Wrap32(x) * y, x * y);
  }

  lemma WrapCong(x: int, y: int)
    requires Cong(x, y, U32)
    ensures Wrap32(x) == Wrap32(y)
  {
    CongMod(x, U32);
    CongMod(y, U32);
    CongSmall(Wrap32(x), Wrap32(y), U32);
  }

  lemma WrapPlus(x: int, y: int)
    ensures Wrap32(Wrap32(x) + y) == Wrap32(x + y)
  {
    CongMod(x, U32);
    CongAdd(Wrap32(x), x, y, y, U32);
    WrapCong(Wrap32(x) + y, x + y);
  }
}
