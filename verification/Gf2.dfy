/**
 Cyclic redundancy codes over bit strings, for any generator x^W + g: the shift-register form,
 the long-division form, and polynomials over GF(2) as sets of exponents.
 Bit strings and registers are written most significant coefficient first.
 */
module Gf2 {

  function Zeros(n: nat): (z: seq<bool>)
    ensures |z| == n
  {
    seq(n, i => false)
  }

  function Xor(a: seq<bool>, b: seq<bool>): (c: seq<bool>)
    requires |a| == |b|
    ensures |c| == |a|
  {
    seq(|a|, i requires 0 <= i < |a| => a[i] != b[i])
  }

  /** Long division: bring down the next bit, subtract the generator if the top coefficient is set. */
  function Step(r: seq<bool>, b: bool, g: seq<bool>): (r': seq<bool>)
    requires |r| == |g| > 0
    ensures |r'| == |g|
  {
    var s := r[1..] + [b];
    if r[0] then Xor(s, g) else s
  }

  function Run(r: seq<bool>, bits: seq<bool>, g: seq<bool>): (r': seq<bool>)
    requires |r| == |g| > 0
    ensures |r'| == |g|
    decreases |bits|
  {
    if bits == [] then r else Run(Step(r, bits[0], g), bits[1..], g)
  }

  /** The check bits of m: the remainder of m * x^W. */
  function Remainder(m: seq<bool>, g: seq<bool>): (r: seq<bool>)
    requires |g| > 0
    ensures |r| == |g|
  {
    Run(Zeros(|g|), m + Zeros(|g|), g)
  }

  /** The shift register with feedback: the incoming bit is added at the top. */
  function Feed(r: seq<bool>, b: bool, g: seq<bool>): (r': seq<bool>)
    requires |r| == |g| > 0
    ensures |r'| == |g|
  {
    Step([r[0] != b] + r[1..], false, g)
  }

  function FeedRun(r: seq<bool>, bits: seq<bool>, g: seq<bool>): (r': seq<bool>)
    requires |r| == |g| > 0
    ensures |r'| == |g|
    decreases |bits|
  {
    if bits == [] then r else FeedRun(Feed(r, bits[0], g), bits[1..], g)
  }

  // ----- Structure of the two runs -----

  lemma {:induction false} RunAppend(r: seq<bool>, a: seq<bool>, b: seq<bool>, g: seq<bool>)
    requires |r| == |g| > 0
    ensures Run(r, a + b, g) == Run(Run(r, a, g), b, g)
    decreases |a|
  {
    if a == [] {
      assert a + b == b;
    } else {
      assert (a + b)[1..] == a[1..] + b;
      RunAppend(Step(r, a[0], g), a[1..], b, g);
    }
  }

  lemma {:induction false} FeedAppend(r: seq<bool>, a: seq<bool>, b: seq<bool>, g: seq<bool>)
    requires |r| == |g| > 0
    ensures FeedRun(r, a + b, g) == FeedRun(FeedRun(r, a, g), b, g)
    decreases |a|
  {
    if a == [] {
      assert a + b == b;
    } else {
      assert (a + b)[1..] == a[1..] + b;
      FeedAppend(Feed(r, a[0], g), a[1..], b, g);
    }
  }

  lemma StepLinear(r: seq<bool>, s: seq<bool>, b: bool, c: bool, g: seq<bool>)
    requires |r| == |s| == |g| > 0
    ensures Step(Xor(r, s), b != c, g) == Xor(Step(r, b, g), Step(s, c, g))
  {
    assert Xor(r, s)[1..] + [b != c] == Xor(r[1..] + [b], s[1..] + [c]);
  }

  lemma {:induction false} RunLinear(r: seq<bool>, s: seq<bool>, a: seq<bool>, b: seq<bool>, g: seq<bool>)
    requires |r| == |s| == |g| > 0 && |a| == |b|
    ensures Run(Xor(r, s), Xor(a, b), g) == Xor(Run(r, a, g), Run(s, b, g))
    decreases |a|
  {
    if a != [] {
      StepLinear(r, s, a[0], b[0], g);
      assert Xor(a, b)[1..] == Xor(a[1..], b[1..]);
      RunLinear(Step(r, a[0], g), Step(s, b[0], g), a[1..], b[1..], g);
    }
  }

  /** At most W bits fed into an empty register are only shifted in. */
  lemma {:induction false} ShortRun(bits: seq<bool>, g: seq<bool>)
    requires |bits| <= |g| && |g| > 0
    ensures Run(Zeros(|g|), bits, g) == Zeros(|g| - |bits|) + bits
    decreases |bits|
  {
    var n := |bits|;
    if n == 0 {
      assert Zeros(|g|) == Zeros(|g|) + bits;
    } else {
      var front := bits[..n - 1];
      ShortRun(front, g);
      assert bits == front + [bits[n - 1]];
      RunAppend(Zeros(|g|), front, [bits[n - 1]], g);
      var r := Zeros(|g| - (n - 1)) + front;
      assert r[1..] + [bits[n - 1]] == Zeros(|g| - n) + bits;
      assert Run(r, [bits[n - 1]], g) == Step(r, bits[n - 1], g);
    }
  }

  lemma {:induction false} ZeroRun(n: nat, g: seq<bool>)
    requires |g| > 0
    ensures Run(Zeros(|g|), Zeros(n), g) == Zeros(|g|)
  {
    if n > 0 {
      assert Zeros(|g|)[1..] + [false] == Zeros(|g|);
      assert Zeros(n)[1..] == Zeros(n - 1);
      ZeroRun(n - 1, g);
    }
  }

  lemma RunLast(r: seq<bool>, a: seq<bool>, b: bool, g: seq<bool>)
    requires |r| == |g| > 0
    ensures Run(r, a + [b], g) == Step(Run(r, a, g), b, g)
  {
    RunAppend(r, a, [b], g);
    assert [b][1..] == [];
  }

  lemma XorZeros(a: seq<bool>)
    ensures Xor(a, Zeros(|a|)) == a && Xor(Zeros(|a|), a) == a && Xor(a, a) == Zeros(|a|)
  {
  }

  lemma ShortRunFull(c: seq<bool>, g: seq<bool>)
    requires |c| == |g| > 0
    ensures Run(Zeros(|g|), c, g) == c
  {
    ShortRun(c, g);
    assert Zeros(0) + c == c;
  }

  /** One feedback step commutes with multiplication by x^W. */
  lemma FeedStep(r: seq<bool>, b: bool, g: seq<bool>)
    requires |r| == |g| > 0
    ensures Feed(Run(r, Zeros(|g|), g), b, g) == Run(Step(r, b, g), Zeros(|g|), g)
  {
    var w := |g|;
    var d := Run(r, Zeros(w), g);
    var top := [b] + Zeros(w - 1);
    FeedAsXor(d, b, g);
    StepLinear(d, top, false, false, g);
    ShortRunFull(top, g);
    RunLinear(r, Zeros(w), Zeros(w), top, g);
    XorZeros(r);
    XorZeros(top);
    RunLast(r, top, false, g);
    assert top + [false] == [b] + Zeros(w);
    assert ([b] + Zeros(w))[1..] == Zeros(w);
  }

  lemma FeedAsXor(d: seq<bool>, b: bool, g: seq<bool>)
    requires |d| == |g| > 0
    ensures Feed(d, b, g) == Step(Xor(d, [b] + Zeros(|g| - 1)), false, g)
  {
    assert Xor(d, [b] + Zeros(|g| - 1)) == [d[0] != b] + d[1..];
  }

  lemma {:induction false} FeedRunShifted(r: seq<bool>, m: seq<bool>, g: seq<bool>)
    requires |r| == |g| > 0
    ensures FeedRun(Run(r, Zeros(|g|), g), m, g) == Run(Run(r, m, g), Zeros(|g|), g)
    decreases |m|
  {
    if m != [] {
      FeedStep(r, m[0], g);
      FeedRunShifted(Step(r, m[0], g), m[1..], g);
    }
  }

  /** The feedback register ends with the remainder of m * x^W, without the W trailing zeros being fed. */
  lemma FeedIsRemainder(m: seq<bool>, g: seq<bool>)
    requires |g| > 0
    ensures FeedRun(Zeros(|g|), m, g) == Remainder(m, g)
  {
    ZeroRun(|g|, g);
    FeedRunShifted(Zeros(|g|), m, g);
    RunAppend(Zeros(|g|), m, Zeros(|g|), g);
  }

  lemma FeedLinear(r: seq<bool>, s: seq<bool>, b: bool, c: bool, g: seq<bool>)
    requires |r| == |s| == |g| > 0
    ensures Feed(Xor(r, s), b != c, g) == Xor(Feed(r, b, g), Feed(s, c, g))
  {
    StepLinear([r[0] != b] + r[1..], [s[0] != c] + s[1..], false, false, g);
    var x, y := Xor([r[0] != b] + r[1..], [s[0] != c] + s[1..]), [Xor(r, s)[0] != (b != c)] + Xor(r, s)[1..];
    assert x[0] == y[0] && x[1..] == y[1..];
    assert x == [x[0]] + x[1..] && y == [y[0]] + y[1..];
  }

  lemma {:induction false} FeedRunLinear(r: seq<bool>, s: seq<bool>, a: seq<bool>, b: seq<bool>, g: seq<bool>)
    requires |r| == |s| == |g| > 0 && |a| == |b|
    ensures FeedRun(Xor(r, s), Xor(a, b), g) == Xor(FeedRun(r, a, g), FeedRun(s, b, g))
    decreases |a|
  {
    if a != [] {
      FeedLinear(r, s, a[0], b[0], g);
      assert Xor(a, b)[1..] == Xor(a[1..], b[1..]);
      FeedRunLinear(Feed(r, a[0], g), Feed(s, b[0], g), a[1..], b[1..], g);
    }
  }

  lemma {:induction false} FeedZeros(r: seq<bool>, n: nat, g: seq<bool>)
    requires |r| == |g| > 0
    ensures FeedRun(r, Zeros(n), g) == Run(r, Zeros(n), g)
    decreases n
  {
    if n > 0 {
      assert [r[0]] + r[1..] == r;
      assert Zeros(n)[1..] == Zeros(n - 1);
      FeedZeros(Step(r, false, g), n - 1, g);
    }
  }

  /** Bits at most as many as the register is wide can be added to its top all at once. */
  lemma FeedFewBits(r: seq<bool>, bits: seq<bool>, g: seq<bool>)
    requires |r| == |g| > 0 && |bits| <= |g|
    ensures FeedRun(r, bits, g) == Run(Xor(r, bits + Zeros(|g| - |bits|)), Zeros(|bits|), g)
  {
    var w, n := |g|, |bits|;
    var top := bits + Zeros(w - n);
    FeedRunLinear(r, Zeros(w), Zeros(n), bits, g);
    XorZeros(r);
    XorZeros(bits);
    XorZeros(Zeros(n));
    FeedZeros(r, n, g);
    FeedIsRemainder(bits, g);
    assert bits + Zeros(w) == top + Zeros(n);
    RunAppend(Zeros(w), top, Zeros(n), g);
    ShortRunFull(top, g);
    RunLinear(r, top, Zeros(n), Zeros(n), g);
  }

  /** Bits at least as many as the register is wide absorb the register. */
  lemma FeedManyBits(r: seq<bool>, bits: seq<bool>, g: seq<bool>)
    requires |r| == |g| > 0 && |bits| >= |g|
    ensures FeedRun(r, bits, g) == Remainder(Xor(r + Zeros(|bits| - |g|), bits), g)
  {
    hide Run, FeedRun, Xor, Zeros;
    var w, n := |g|, |bits|;
    var z := Zeros(w);
    var wide := r + Zeros(n - w);
    FeedRunLinear(r, z, Zeros(n), bits, g);
    XorZeros(r);
    XorZeros(bits);
    FeedZeros(r, n, g);
    FeedIsRemainder(bits, g);
    ZerosJoin(r, n - w, w);
    RunAppend(z, r, Zeros(n), g);
    ShortRunFull(r, g);
    RunLinear(z, z, wide + z, bits + z, g);
    XorZeros(z);
    XorBoth(wide, bits, z);
  }

  lemma ZerosJoin(r: seq<bool>, m: nat, n: nat)
    ensures (r + Zeros(m)) + Zeros(n) == r + Zeros(m + n)
  {
  }

  lemma XorBoth(a: seq<bool>, b: seq<bool>, z: seq<bool>)
    requires |a| == |b| && z == Zeros(|z|)
    ensures Xor(a + z, b + z) == Xor(a, b) + z
  {
  }

  /** Dividing by x times the generator in a register one bit longer. */
  lemma AlignedRun(t: seq<bool>, g: seq<bool>)
    requires |g| > 0 && |t| == |g| + 1
    ensures Run(t, Zeros(|t|), g + [false]) == Remainder(t, g) + [false]
  {
    hide Run, Step, Xor, Zeros;
    var w := |g|;
    var u := Step(t[..w], t[w], g);
    AlignedFirst(t, g);
    AlignedSteps(u, w, g);
    RunAppend(Zeros(w), t, Zeros(w), g);
    assert t == t[..w] + [t[w]];
    RunLast(Zeros(w), t[..w], t[w], g);
    ShortRunFull(t[..w], g);
  }

  lemma AlignedFirst(t: seq<bool>, g: seq<bool>)
    requires |g| > 0 && |t| == |g| + 1
    ensures Run(t, Zeros(|t|), g + [false]) == Run(Step(t[..|g|], t[|g|], g) + [false], Zeros(|g|), g + [false])
  {
    var w := |g|;
    hide Run;
    assert Run(t, Zeros(w + 1), g + [false]) == Run(Step(t, false, g + [false]), Zeros(w), g + [false]) by {
      RunZero(t, w, g + [false]);
    }
    WideStep(t, g);
  }

  lemma RunZero(r: seq<bool>, n: nat, g: seq<bool>)
    requires |r| == |g| > 0
    ensures Run(r, Zeros(n + 1), g) == Run(Step(r, false, g), Zeros(n), g)
  {
    assert Zeros(n + 1)[1..] == Zeros(n);
  }

  lemma WideStep(t: seq<bool>, g: seq<bool>)
    requires |g| > 0 && |t| == |g| + 1
    ensures Step(t, false, g + [false]) == Step(t[..|g|], t[|g|], g) + [false]
  {
    var s := t[..|g|][1..] + [t[|g|]];
    assert t[1..] + [false] == s + [false];
    if t[0] {
      assert Xor(s + [false], g + [false]) == Xor(s, g) + [false];
    }
  }

  lemma AlignedStep(u: seq<bool>, g: seq<bool>)
    requires |u| == |g| > 0
    ensures Step(u + [false], false, g + [false]) == Step(u, false, g) + [false]
  {
    var s := u[1..] + [false];
    assert (u + [false])[1..] + [false] == s + [false];
    if u[0] {
      assert Xor(s + [false], g + [false]) == Xor(s, g) + [false];
    }
  }

  lemma {:induction false} AlignedSteps(u: seq<bool>, n: nat, g: seq<bool>)
    requires |u| == |g| > 0
    ensures Run(u + [false], Zeros(n), g + [false]) == Run(u, Zeros(n), g) + [false]
    decreases n
  {
    if n > 0 {
      AlignedStep(u, g);
      assert Zeros(n)[1..] == Zeros(n - 1);
      AlignedSteps(Step(u, false, g), n - 1, g);
    }
  }

  // ----- Error detection -----

  lemma XorPadded(m: seq<bool>, c: seq<bool>)
    ensures Xor(m + Zeros(|c|), Zeros(|m|) + c) == m + c
  {
  }

  /** Replacing the W trailing zeros of a shifted message by c adds c to the remainder. */
  lemma AppendCheckBits(m: seq<bool>, c: seq<bool>, g: seq<bool>)
    requires |c| == |g| > 0
    ensures Run(Zeros(|g|), m + c, g) == Xor(Remainder(m, g), c)
  {
    var z := Zeros(|g|);
    RunLinear(z, z, m + z, Zeros(|m|) + c, g);
    XorZeros(z);
    XorPadded(m, c);
    RunAppend(z, Zeros(|m|), c, g);
    ZeroRun(|m|, g);
    ShortRunFull(c, g);
  }

  lemma XorIsZero(a: seq<bool>, b: seq<bool>)
    requires |a| == |b| && Xor(a, b) == Zeros(|a|)
    ensures a == b
  {
    forall i | 0 <= i < |a|
      ensures a[i] == b[i]
    {
      assert !Zeros(|a|)[i] && Xor(a, b)[i] == (a[i] != b[i]);
    }
  }

  /** A message followed by c divides exactly if and only if c is its remainder. */
  lemma CodewordIff(m: seq<bool>, c: seq<bool>, g: seq<bool>)
    requires |c| == |g| > 0
    ensures Run(Zeros(|g|), m + c, g) == Zeros(|g|) <==> c == Remainder(m, g)
  {
    AppendCheckBits(m, c, g);
    XorZeros(c);
    if Xor(Remainder(m, g), c) == Zeros(|g|) {
      XorIsZero(Remainder(m, g), c);
    }
  }

  lemma StepKeepsNonZero(r: seq<bool>, g: seq<bool>)
    requires |r| == |g| > 0 && g[|g| - 1] && r != Zeros(|g|)
    ensures Step(r, false, g) != Zeros(|g|)
  {
    var s := Step(r, false, g);
    if r[0] {
      assert s[|g| - 1];
    } else {
      var i :| 0 <= i < |g| && r[i];
      assert s[i - 1];
    }
  }

  lemma {:induction false} ZerosKeepNonZero(r: seq<bool>, n: nat, g: seq<bool>)
    requires |r| == |g| > 0 && g[|g| - 1] && r != Zeros(|g|)
    ensures Run(r, Zeros(n), g) != Zeros(|g|)
    decreases n
  {
    if n > 0 {
      StepKeepsNonZero(r, g);
      assert Zeros(n)[1..] == Zeros(n - 1);
      ZerosKeepNonZero(Step(r, false, g), n - 1, g);
    }
  }

  /** e is confined to W consecutive positions and is not empty. */
  ghost predicate Burst(e: seq<bool>, w: nat) {
    exists a, burst, c: nat :: |burst| <= w && burst != Zeros(|burst|) && IsSplit(e, a, burst, c)
  }

  predicate IsSplit(e: seq<bool>, a: nat, burst: seq<bool>, c: nat) {
    e == Zeros(a) + burst + Zeros(c)
  }

  /** No burst error of at most W bits turns one codeword into another. */
  lemma BurstDetected(word: seq<bool>, e: seq<bool>, g: seq<bool>)
    requires |g| > 0 && g[|g| - 1] && |word| == |e| && Burst(e, |g|)
    requires Run(Zeros(|g|), word, g) == Zeros(|g|)
    ensures Run(Zeros(|g|), Xor(word, e), g) != Zeros(|g|)
  {
    var z := Zeros(|g|);
    var a, burst, c: nat :| |burst| <= |g| && burst != Zeros(|burst|) && IsSplit(e, a, burst, c);
    BurstRemainder(a, burst, c, g);
    RunLinear(z, z, word, e, g);
    XorZeros(z);
    XorZeros(Run(z, e, g));
  }

  lemma XorBack(a: seq<bool>, b: seq<bool>)
    requires |a| == |b|
    ensures Xor(a, Xor(a, b)) == b
  {
  }

  /** Recomputing the check bits exposes any burst of at most W bits across message and check bits. */
  lemma CheckDetectsBurst(m: seq<bool>, m': seq<bool>, c': seq<bool>, g: seq<bool>)
    requires |g| > 0 && g[|g| - 1] && |m| == |m'| && |c'| == |g|
    requires Burst(Xor(m + Remainder(m, g), m' + c'), |g|)
    ensures c' != Remainder(m', g)
  {
    var sent, got := m + Remainder(m, g), m' + c';
    CodewordIff(m, Remainder(m, g), g);
    CodewordIff(m', c', g);
    BurstDetected(sent, Xor(sent, got), g);
    XorBack(sent, got);
  }

  lemma PaddedNonZero(a: nat, burst: seq<bool>)
    requires burst != Zeros(|burst|)
    ensures Zeros(a) + burst != Zeros(a + |burst|)
  {
    var i :| 0 <= i < |burst| && burst[i];
    assert (Zeros(a) + burst)[a + i];
  }

  lemma BurstRemainder(a: nat, burst: seq<bool>, c: nat, g: seq<bool>)
    requires |g| > 0 && g[|g| - 1] && |burst| <= |g| && burst != Zeros(|burst|)
    ensures Run(Zeros(|g|), Zeros(a) + burst + Zeros(c), g) != Zeros(|g|)
  {
    var z := Zeros(|g|);
    RunAppend(z, Zeros(a) + burst, Zeros(c), g);
    RunAppend(z, Zeros(a), burst, g);
    ZeroRun(a, g);
    ShortRun(burst, g);
    PaddedNonZero(|g| - |burst|, burst);
    ZerosKeepNonZero(Zeros(|g| - |burst|) + burst, c, g);
  }

  // ----- Polynomials over GF(2) as sets of exponents -----

  predicate Coeff(bits: seq<bool>, e: nat)
    requires e < |bits|
  {
    bits[|bits| - 1 - e]
  }

  /** The exponents with coefficient one. */
  ghost function Poly(bits: seq<bool>): set<nat> {
    set e: nat | e < |bits| && Coeff(bits, e)
  }

  ghost function Add(p: set<nat>, q: set<nat>): set<nat> {
    (p - q) + (q - p)
  }

  ghost function TimesX(p: set<nat>): set<nat> {
    set e | e in p :: e + 1
  }

  /** The product of p with the polynomial whose coefficients are q, by Horner's rule. */
  ghost function Product(q: seq<bool>, p: set<nat>): set<nat> {
    if q == [] then {}
    else
      var h := TimesX(Product(q[..|q| - 1], p));
      if q[|q| - 1] then Add(h, p) else h
  }

  /** The generator x^W + g. */
  ghost function Generator(g: seq<bool>): set<nat> {
    Poly([true] + g)
  }

  /** The coefficients long division subtracts the generator with. */
  function Quotient(bits: seq<bool>, g: seq<bool>): (q: seq<bool>)
    requires |g| > 0
    ensures |q| == |bits|
  {
    if bits == [] then []
    else
      var front := bits[..|bits| - 1];
      Quotient(front, g) + [Run(Zeros(|g|), front, g)[0]]
  }

  lemma PolySnoc(a: seq<bool>, b: bool)
    ensures Poly(a + [b]) == TimesX(Poly(a)) + if b then {0} else {}
  {
    var s := a + [b];
    forall e | e in Poly(s) && e != 0
      ensures e in TimesX(Poly(a))
    {
      assert Coeff(a, e - 1);
      assert e - 1 in Poly(a);
    }
    forall e | e in Poly(a)
      ensures e + 1 in Poly(s)
    {
      assert Coeff(s, e + 1);
    }
    assert b ==> Coeff(s, 0);
    assert 0 in Poly(s) ==> Coeff(s, 0);
  }

  lemma PolyXor(a: seq<bool>, b: seq<bool>)
    requires |a| == |b|
    ensures Poly(Xor(a, b)) == Add(Poly(a), Poly(b))
  {
    forall e: nat | e < |a|
      ensures Coeff(Xor(a, b), e) == (Coeff(a, e) != Coeff(b, e))
    {
    }
  }

  lemma PolyLeadingZero(a: seq<bool>)
    ensures Poly([false] + a) == Poly(a)
  {
    forall e: nat | e < |a|
      ensures Coeff([false] + a, e) == Coeff(a, e)
    {
    }
    assert !Coeff([false] + a, |a|);
  }

  lemma AddTwice(p: set<nat>, q: set<nat>, r: set<nat>)
    ensures Add(Add(p, q), q) == p
    ensures Add(Add(p, q), r) == Add(Add(p, r), q)
    ensures Add(p, q) == Add(q, p)
    ensures Add(Add(p, q), r) == Add(p, Add(q, r))
  {
  }

  lemma TimesXAdd(p: set<nat>, q: set<nat>)
    ensures TimesX(Add(p, q)) == Add(TimesX(p), TimesX(q))
  {
  }

  /** One division step: x * R + b, with the generator added when the top coefficient was set. */
  lemma PolyStep(r: seq<bool>, b: bool, g: seq<bool>)
    requires |r| == |g| > 0
    ensures Poly(r + [b]) == if r[0] then Add(Generator(g), Poly(Step(r, b, g))) else Poly(Step(r, b, g))
  {
    var s := r[1..] + [b];
    if r[0] {
      assert Xor(r + [b], [true] + g) == [false] + Xor(s, g);
      PolyXor(r + [b], [true] + g);
      PolyLeadingZero(Xor(s, g));
      AddTwice(Poly(r + [b]), Generator(g), {});
      AddTwice(Generator(g), Poly(Xor(s, g)), {});
    } else {
      assert r + [b] == [false] + s;
      PolyLeadingZero(s);
    }
  }

  /** The division identity: bits = Quotient * (x^W + g) + Run, with Run of degree below W. */
  lemma {:induction false} DivisionIdentity(bits: seq<bool>, g: seq<bool>)
    requires |g| > 0
    ensures Poly(bits) == Add(Product(Quotient(bits, g), Generator(g)), Poly(Run(Zeros(|g|), bits, g)))
  {
    var z := Zeros(|g|);
    if bits == [] {
      assert Poly(z) == {} by {
        assert forall e: nat :: e < |z| ==> !Coeff(z, e);
      }
      assert Poly(bits) == {};
    } else {
      var n := |bits|;
      var front, b := bits[..n - 1], bits[n - 1];
      assert bits == front + [b];
      DivisionIdentity(front, g);
      RunLast(z, front, b, g);
      DivisionStep(front, b, Quotient(front, g), Run(z, front, g), g);
      assert Quotient(bits, g)[..n - 1] == Quotient(front, g);
    }
  }

  lemma DivisionStep(front: seq<bool>, b: bool, q: seq<bool>, r: seq<bool>, g: seq<bool>)
    requires |r| == |g| > 0
    requires Poly(front) == Add(Product(q, Generator(g)), Poly(r))
    ensures Poly(front + [b]) == Add(Product(q + [r[0]], Generator(g)), Poly(Step(r, b, g)))
  {
    var G := Generator(g);
    var h, x := TimesX(Product(q, G)), TimesX(Poly(r));
    PolySnoc(front, b);
    PolySnoc(r, b);
    TimesXAdd(Product(q, G), Poly(r));
    assert 0 !in h && 0 !in x;
    assert Poly(front + [b]) == Add(h, Poly(r + [b]));
    PolyStep(r, b, g);
    assert (q + [r[0]])[..|q|] == q;
    AddTwice(h, G, Poly(Step(r, b, g)));
  }

  lemma {:induction false} ProductPad(n: nat, q: seq<bool>, p: set<nat>)
    ensures Product(Zeros(n) + q, p) == Product(q, p)
    decreases n + |q|
  {
    var s := Zeros(n) + q;
    if q != [] {
      assert s[..|s| - 1] == Zeros(n) + q[..|q| - 1];
      ProductPad(n, q[..|q| - 1], p);
    } else if n > 0 {
      assert s[..|s| - 1] == Zeros(n - 1) + [];
      ProductPad(n - 1, [], p);
      assert !s[|s| - 1];
      assert TimesX({}) == {};
    }
  }

  lemma {:induction false} ProductXor(a: seq<bool>, b: seq<bool>, p: set<nat>)
    requires |a| == |b|
    ensures Product(Xor(a, b), p) == Add(Product(a, p), Product(b, p))
    decreases |a|
  {
    if a != [] {
      var n := |a| - 1;
      assert Xor(a, b)[..n] == Xor(a[..n], b[..n]);
      ProductXor(a[..n], b[..n], p);
      var x, y := TimesX(Product(a[..n], p)), TimesX(Product(b[..n], p));
      TimesXAdd(Product(a[..n], p), Product(b[..n], p));
      AddTwice(x, y, p);
      AddTwice(x, p, Add(y, p));
      AddTwice(x, p, y);
      AddTwice(y, p, p);
    }
  }

  /** A product has the degree of its factors' degrees added. */
  lemma {:induction false} ProductTop(q: seq<bool>, g: seq<bool>)
    requires q != [] && q[0]
    ensures |q| - 1 + |g| in Product(q, Generator(g))
    ensures forall e :: e in Product(q, Generator(g)) ==> e <= |q| - 1 + |g|
    decreases |q|
  {
    var G := Generator(g);
    assert Coeff([true] + g, |g|);
    assert |g| in G && forall e :: e in G ==> e <= |g|;
    var n := |q| - 1;
    if n == 0 {
      assert q[..n] == [];
      assert TimesX({}) == {};
    } else {
      ProductTop(q[..n], g);
      var h := TimesX(Product(q[..n], G));
      assert n + |g| in h && n + |g| !in G;
    }
  }

  lemma LowProductIsZero(q: seq<bool>, g: seq<bool>)
    requires forall e :: e in Product(q, Generator(g)) ==> e < |g|
    ensures q == Zeros(|q|)
  {
    if q != Zeros(|q|) {
      var i := FirstTrue(q);
      assert q == Zeros(i) + q[i..];
      ProductPad(i, q[i..], Generator(g));
      ProductTop(q[i..], g);
    }
  }

  lemma {:induction false} FirstTrue(q: seq<bool>) returns (i: nat)
    requires q != Zeros(|q|)
    ensures i < |q| && q[i] && q[..i] == Zeros(i)
  {
    if q[0] {
      i := 0;
    } else {
      var k :| 0 <= k < |q| && q[k];
      assert q[1..][k - 1];
      i := FirstTrue(q[1..]);
      i := i + 1;
      assert q[..i] == [q[0]] + q[1..][..i - 1];
    }
  }

  lemma PolyZero(a: seq<bool>)
    ensures Poly(a) == {} <==> a == Zeros(|a|)
  {
    if Poly(a) == {} {
      forall i | 0 <= i < |a|
        ensures !a[i]
      {
        assert Coeff(a, |a| - 1 - i) ==> |a| - 1 - i in Poly(a);
      }
    } else {
      var e :| e in Poly(a);
      assert Coeff(a, e);
    }
  }

  /** The remainder is unique: nothing else of degree below W completes a multiple of the generator to bits. */
  lemma RemainderUnique(bits: seq<bool>, q: seq<bool>, r: seq<bool>, g: seq<bool>)
    requires |r| == |g| > 0 && |q| == |bits|
    requires Poly(bits) == Add(Product(q, Generator(g)), Poly(r))
    ensures r == Run(Zeros(|g|), bits, g)
  {
    var G := Generator(g);
    var q', r' := Quotient(bits, g), Run(Zeros(|g|), bits, g);
    DivisionIdentity(bits, g);
    ProductXor(q, q', G);
    PolyXor(r, r');
    EqualSums(Product(q, G), Poly(r), Product(q', G), Poly(r'));
    LowProductIsZero(Xor(q, q'), g);
    XorIsZero(q, q');
    AddTwice(Poly(r), Poly(r'), {});
    PolyZero(Xor(r, r'));
    XorIsZero(r, r');
  }

  lemma EqualSums(a: set<nat>, b: set<nat>, c: set<nat>, d: set<nat>)
    requires Add(a, b) == Add(c, d)
    ensures Add(a, c) == Add(b, d)
  {
    forall e
      ensures e in Add(a, c) <==> e in Add(b, d)
    {
      assert e in Add(a, b) <==> e in Add(c, d);
    }
  }
}
