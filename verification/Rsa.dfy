/**
 Bit-serial modular arithmetic of the RSA reference program, for a register width of k bits
 (the program fixes k = 256), and its byte-stream transformation.
 */
module Rsa {
  import opened NumberTheory
  import opened Bits

  // ----- Schoolbook multiplication and exponentiation -----

  /** One conditional subtraction reduces any value below 2n. */
  lemma ReduceOnce(x: nat, n: nat)
    requires x < 2 * n
    ensures var y := if x >= n then x - n else x; y < n && Cong(y, x, n)
  {
    CongIntro(x - n, x, -1, n);
  }

  method MulNaive(a: nat, b: nat, n: nat, k: nat) returns (ret: nat)
    requires a < n
    ensures ret == (a * Low(b, k)) % n
  {
    ret := 0;
    var i := k;
    while i > 0
      invariant 0 <= i <= k && ret < n
      invariant Cong(ret, a * Low(High(b, i), k - i), n)
    {
      i := i - 1;
      ghost var h := Low(High(b, i + 1), k - i - 1);
      ghost var was := ret;
      ret := 2 * ret;
      ReduceOnce(ret, n);
      if ret >= n {
        ret := ret - n;
      }
      ghost var doubled := ret;
      if Bit(b, i) {
        ret := ret + a;
        ReduceOnce(ret, n);
        if ret >= n {
          ret := ret - n;
        }
      }
      HighSplit(b, i, k - i - 1);
      DoubleAndAdd(was, doubled, ret, a, h, Bit(b, i), n);
    }
    CongMod(a * Low(b, k), n);
    CongSmall(ret, (a * Low(b, k)) % n, n);
  }

  lemma DoubleAndAdd(was: nat, doubled: nat, now: nat, a: nat, h: nat, bit: bool, n: nat)
    requires n > 0 && Cong(was, a * h, n) && Cong(doubled, 2 * was, n)
    requires Cong(now, doubled + if bit then a else 0, n)
    ensures Cong(now, a * (2 * h + if bit then 1 else 0), n)
  {
    CongScale(was, a * h, 2, n);
    var t := if bit then a else 0;
    CongAdd(doubled, 2 * (a * h), t, t, n);
    MulSwap(2, a, h);
    assert a * (2 * h + 1) == a * (2 * h) + a;
  }

  method PowerNaive(a: nat, b: nat, n: nat, k: nat) returns (ret: nat)
    requires a < n && 1 < n <= Pow(2, k)
    ensures ret == Pow(a, Low(b, k)) % n
  {
    var a2: nat := a;
    assert Pow(a, 1) == a * Pow(a, 0) == a;
    ret := 1;
    for i := 0 to k
      invariant ret < n && a2 < n
      invariant Cong(ret, Pow(a, Low(b, i)), n)
      invariant Cong(a2, Pow(a, Pow(2, i)), n)
    {
      ghost var was := ret;
      if Bit(b, i) {
        ret := MulNaive(ret, a2, n, k);
        CongMod(was * a2, n);
      }
      ghost var base := a2;
      a2 := MulNaive(a2, a2, n, k);
      CongMod(base * base, n);
      LowSplit(b, i);
      PowerStep(a, was, base, ret, a2, Low(b, i), Pow(2, i), Bit(b, i), n);
    }
    CongMod(Pow(a, Low(b, k)), n);
    CongSmall(ret, Pow(a, Low(b, k)) % n, n);
  }

  /** Square-and-multiply: one round adds the current bit to the exponent and squares the base. */
  lemma PowerStep(a: nat, was: nat, base: nat, now: nat, base': nat, e: nat, w: nat, bit: bool, n: nat)
    requires n > 0 && Cong(was, Pow(a, e), n) && Cong(base, Pow(a, w), n)
    requires Cong(now, if bit then was * base else was, n) && Cong(base', base * base, n)
    ensures Cong(now, Pow(a, e + if bit then w else 0), n)
    ensures Cong(base', Pow(a, 2 * w), n)
  {
    CongMul(was, Pow(a, e), base, Pow(a, w), n);
    CongMul(base, Pow(a, w), base, Pow(a, w), n);
    PowAdd(a, e, w);
    PowAdd(a, w, w);
  }

  // ----- Montgomery multiplication -----

  /** The accumulator after i rounds, before any final subtraction. */
  function MontAcc(a: nat, b: nat, n: nat, i: nat): nat
    decreases i, 0
  {
    if i == 0 then 0 else MontSum(a, b, n, i - 1) / 2
  }

  /** What round i holds just before its shift. */
  function MontSum(a: nat, b: nat, n: nat, i: nat): nat
    decreases i, 1
  {
    EvenSum(MontAcc(a, b, n, i), a, Bit(b, i), n)
  }

  /** Add a when the bit is set, then n when the sum is odd. */
  function EvenSum(acc: nat, a: nat, bit: bool, n: nat): (s: nat)
    ensures n % 2 == 1 ==> s % 2 == 0
    ensures acc < 2 * n && a < n ==> s < 4 * n
  {
    var s := acc + if bit then a else 0;
    if s % 2 == 1 then s + n else s
  }

  /** The accumulator needs one bit more than n, the adder two, and every shift is exact. */
  lemma {:induction false} MontWidth(a: nat, b: nat, n: nat, i: nat)
    requires a < n && n % 2 == 1
    ensures MontAcc(a, b, n, i) < 2 * n
    ensures MontSum(a, b, n, i) < 4 * n
    ensures MontSum(a, b, n, i) % 2 == 0
    ensures 2 * MontAcc(a, b, n, i + 1) == MontSum(a, b, n, i)
  {
    if i > 0 {
      MontWidth(a, b, n, i - 1);
    }
  }

  /** After i rounds the accumulator, scaled by 2^i, is the product with the low i bits of b. */
  lemma {:induction false} MontCongruence(a: nat, b: nat, n: nat, i: nat)
    requires n % 2 == 1
    ensures Cong(MontAcc(a, b, n, i) * Pow(2, i), a * Low(b, i), n)
  {
    if i == 0 {
      assert Low(b, 0) == 0;
    } else {
      var r, bit := MontAcc(a, b, n, i - 1), Bit(b, i - 1);
      MontCongruence(a, b, n, i - 1);
      MontHalf(a, b, n, i - 1);
      LowSplit(b, i - 1);
      EvenSumCong(r, a, bit, n);
      MontRound(r, EvenSum(r, a, bit, n), MontAcc(a, b, n, i), a, Low(b, i - 1), bit, Pow(2, i - 1), n);
    }
  }

  lemma MontHalf(a: nat, b: nat, n: nat, i: nat)
    requires n % 2 == 1
    ensures MontSum(a, b, n, i) == EvenSum(MontAcc(a, b, n, i), a, Bit(b, i), n) == 2 * MontAcc(a, b, n, i + 1)
  {
    hide Bit;
  }

  lemma EvenSumCong(acc: nat, a: nat, bit: bool, n: nat)
    requires n > 0
    ensures Cong(EvenSum(acc, a, bit, n), acc + if bit then a else 0, n)
  {
    var s := acc + if bit then a else 0;
    CongIntro(s + n, s, 1, n);
  }

  lemma MontRound(r: nat, s: nat, r': nat, a: nat, l: nat, bit: bool, w: nat, n: nat)
    requires n > 0 && Cong(r * w, a * l, n) && s == 2 * r'
    requires Cong(s, r + if bit then a else 0, n)
    ensures Cong(r' * (2 * w), a * (l + if bit then w else 0), n)
  {
    MulSwap(r', 2, w);
    assert r' * (2 * w) == s * w;
    if bit {
      CongScale(s, r + a, w, n);
      CongAdd(r * w, a * l, a * w, a * w, n);
      assert (r + a) * w == r * w + a * w;
      assert a * (l + w) == a * l + a * w;
    } else {
      CongScale(s, r, w, n);
    }
  }

  /** The Montgomery product modulo an odd n is determined by its defining congruence. */
  lemma MontUnique(r: nat, s: nat, n: nat, k: nat)
    requires n % 2 == 1 && r < n && s < n && Cong(r * Pow(2, k), s * Pow(2, k), n)
    ensures r == s
  {
    CancelPow2(r, s, k, n);
    CongSmall(r, s, n);
  }

  method MulMont(a: nat, b: nat, n: nat, k: nat) returns (ret: nat)
    requires n % 2 == 1
    ensures a < n ==> ret < n
    ensures Cong(ret * Pow(2, k), a * Low(b, k), n)
  {
    ret := 0;
    for i := 0 to k
      invariant ret == MontAcc(a, b, n, i)
    {
      if Bit(b, i) {
        ret := ret + a;
      }
      if ret % 2 == 1 {
        ret := ret + n;
      }
      assert ret == MontSum(a, b, n, i);
      ret := ret / 2;
    }
    if a < n {
      MontWidth(a, b, n, k);
    }
    MontCongruence(a, b, n, k);
    if ret >= n {
      CongIntro(ret - n, ret, -1, n);
      CongScale(ret - n, ret, Pow(2, k), n);
      ret := ret - n;
    }
  }

  /** Scaling by 2^k; what is not a residue does not become one, but only its distance from n is scaled. */
  method MontPreprocess(a: nat, n: nat, k: nat) returns (r: nat)
    requires n > 0
    ensures Cong(r, a * Pow(2, k), n)
    ensures r < n <==> a < n
    ensures a >= n ==> r == n + Pow(2, k) * (a - n)
  {
    r := a;
    for i := 0 to k
      invariant Cong(r, a * Pow(2, i), n)
      invariant r < n <==> a < n
      invariant a >= n ==> r == n + Pow(2, i) * (a - n)
    {
      MulSwap(2, Pow(2, i), a - n);
      CongScale(r, a * Pow(2, i), 2, n);
      MulSwap(2, a, Pow(2, i));
      r := 2 * r;
      CongIntro(r - n, r, -1, n);
      if r >= n {
        r := r - n;
      }
    }
  }

  /**
   The accumulator stays an ordinary residue; only a2 carries the factor 2^k, which each Montgomery product
   removes again. A base that is not a residue gives 0 for every odd exponent.
   */
  method PowerMont(a: nat, b: nat, n: nat, k: nat) returns (ret: nat)
    requires 1 < n <= Pow(2, k) && n % 2 == 1
    ensures a < n ==> ret == Pow(a, Low(b, k)) % n
    ensures a >= n && Bit(b, 0) ==> ret == 0
  {
    var a2: nat := MontPreprocess(a, n, k);
    assert Pow(a, 1) == a * Pow(a, 0) == a;
    if a >= n {
      LowOfScaled(a, n, k);
    }
    ret := 1;
    for i := 0 to k
      invariant ret < n
      invariant a < n ==> a2 < n && Cong(ret, Pow(a, Low(b, i)), n) && Cong(a2, Pow(a, Pow(2, i)) * Pow(2, k), n)
      invariant a >= n && i == 0 ==> ret == 1 && Low(a2, k) == n
      invariant a >= n && i > 0 && Bit(b, 0) ==> ret == 0
    {
      ghost var was, base := ret, a2;
      if Bit(b, i) {
        ret := MulMont(ret, a2, n, k);
      }
      a2 := MulMont(a2, a2, n, k);
      LowSplit(b, i);
      if a < n {
        MontPowerStep(a, was, base, ret, a2, Low(b, i), Pow(2, i), Bit(b, i), k, n);
      } else if Bit(b, i) && (i == 0 || was == 0) {
        NullProduct(was, Low(base, k), ret, k, n);
      }
    }
    CongMod(Pow(a, Low(b, k)), n);
    if a < n {
      CongSmall(ret, Pow(a, Low(b, k)) % n, n);
    } else {
      assert k > 0;
    }
  }

  /** The low k bits of a scaled value that was no residue are n itself. */
  lemma LowOfScaled(a: nat, n: nat, k: nat)
    requires a >= n && 1 < n <= Pow(2, k) && n % 2 == 1
    ensures Low(n + Pow(2, k) * (a - n), k) == n
  {
    PowerIsEven(k);
    DivModUnique(n + Pow(2, k) * (a - n), Pow(2, k), a - n, n);
  }

  lemma PowerIsEven(k: nat)
    requires 1 < Pow(2, k)
    ensures Pow(2, k) % 2 == 0
  {
    assert k > 0 ==> Pow(2, k) == 2 * Pow(2, k - 1);
  }

  /** A Montgomery product of a multiple of n is 0. */
  lemma NullProduct(x: nat, y: nat, r: nat, k: nat, n: nat)
    requires n % 2 == 1 && (x == 0 || y == n) && r < n && Cong(r * Pow(2, k), x * y, n)
    ensures r == 0
  {
    CongIntro(x * y, 0, if x == 0 then 0 else x, n);
    MontUnique(r, 0, n, k);
  }

  lemma MontPowerStep(a: nat, was: nat, base: nat, now: nat, base': nat, e: nat, w: nat, bit: bool, k: nat, n: nat)
    requires n % 2 == 1 && Cong(was, Pow(a, e), n) && Cong(base, Pow(a, w) * Pow(2, k), n)
    requires if bit then Cong(now * Pow(2, k), was * base, n) else now == was
    requires Cong(base' * Pow(2, k), base * base, n)
    ensures Cong(now, Pow(a, e + if bit then w else 0), n)
    ensures Cong(base', Pow(a, 2 * w) * Pow(2, k), n)
  {
    var x := Pow(a, w);
    if bit {
      UnscaledProduct(was, x, base, now, k, n);
    }
    ScaledSquare(x, base, base', k, n);
    PowerStep(a, was, x, now, x * x, e, w, bit, n);
    PowAdd(a, w, w);
  }

  /** An ordinary residue times a scaled one gives an ordinary residue. */
  lemma UnscaledProduct(x: nat, w: nat, y: nat, r: nat, k: nat, n: nat)
    requires n % 2 == 1 && Cong(y, w * Pow(2, k), n) && Cong(r * Pow(2, k), x * y, n)
    ensures Cong(r, x * w, n)
  {
    CongScale(y, w * Pow(2, k), x, n);
    MulSwap(x, w, Pow(2, k));
    CancelPow2(r, x * w, k, n);
  }

  /** The square of a scaled residue is scaled once, not twice. */
  lemma ScaledSquare(w: nat, y: nat, r: nat, k: nat, n: nat)
    requires n % 2 == 1 && Cong(y, w * Pow(2, k), n) && Cong(r * Pow(2, k), y * y, n)
    ensures Cong(r, (w * w) * Pow(2, k), n)
  {
    var z := w * Pow(2, k);
    UnscaledProduct(y, w, y, r, k, n);
    CongScale(y, z, w, n);
    MulSwap(w, w, Pow(2, k));
  }

  // ----- The byte stream -----

  /** Big-endian value of a byte string. */
  function Os2ip(s: seq<byte>): nat {
    if s == [] then 0 else 256 * Os2ip(s[..|s| - 1]) + s[|s| - 1]
  }

  /** The low w bytes of x, most significant first: byte j is x shifted right by 8(w-1-j), masked. */
  function I2osp(x: nat, w: nat): (s: seq<byte>)
    ensures |s| == w
  {
    seq(w, j requires 0 <= j < w => High(x, 8 * (w - 1 - j)) % 256)
  }

  lemma {:induction false} Os2ipBound(s: seq<byte>)
    ensures Os2ip(s) < Pow(256, |s|)
  {
    if s != [] {
      Os2ipBound(s[..|s| - 1]);
    }
  }

  lemma HighByte(x: nat, m: nat)
    ensures High(x, 8 * (m + 1)) == High(x / 256, 8 * m)
  {
    PowAdd(2, 8, 8 * m);
    assert Pow(2, 8) == 256;
    DivDiv(x, 256, Pow(2, 8 * m));
  }

  lemma I2ospSplit(x: nat, w: nat)
    ensures I2osp(x, w + 1) == I2osp(x / 256, w) + [x % 256]
  {
    forall j | 0 <= j < w
      ensures I2osp(x, w + 1)[j] == I2osp(x / 256, w)[j]
    {
      HighByte(x, w - 1 - j);
    }
    assert 8 * (w + 1 - 1 - w) == 0;
    assert I2osp(x, w + 1)[w] == High(x, 0) % 256 == x % 256;
  }

  lemma {:induction false} EncodeDecode(x: nat, w: nat)
    requires x < Pow(256, w)
    ensures Os2ip(I2osp(x, w)) == x
  {
    if w > 0 {
      I2ospSplit(x, w - 1);
      assert I2osp(x, w)[..w - 1] == I2osp(x / 256, w - 1);
      EncodeDecode(x / 256, w - 1);
    }
  }

  lemma {:induction false} DecodeEncode(s: seq<byte>)
    ensures I2osp(Os2ip(s), |s|) == s
  {
    if s != [] {
      DecodeEncode(s[..|s| - 1]);
      I2ospSplit(Os2ip(s), |s| - 1);
      assert s == s[..|s| - 1] + [s[|s| - 1]];
    }
  }

  method ReadNumber(chunk: seq<byte>) returns (msg: nat)
    ensures msg == Os2ip(chunk)
  {
    msg := 0;
    for i := 0 to |chunk|
      invariant msg == Os2ip(chunk[..i])
    {
      msg := 256 * msg + chunk[i];
      assert chunk[..i + 1][..i] == chunk[..i];
    }
    assert chunk[..|chunk|] == chunk;
  }

  /** What exponentiation gives for a chunk's value: 0 for one that is not a residue. */
  function Power(m: nat, exp: nat, n: nat): (c: nat)
    requires n > 0
    ensures c < n
  {
    if m < n then Pow(m, exp) % n else 0
  }

  /** Each whole r-byte chunk becomes a w-byte chunk holding its power; a short tail is dropped. */
  function Transformed(input: seq<byte>, exp: nat, n: nat, r: nat, w: nat): seq<byte>
    requires n > 0 && r > 0
  {
    if |input| < r then []
    else I2osp(Power(Os2ip(input[..r]), exp, n), w) + Transformed(input[r..], exp, n, r, w)
  }

  /** Every whole chunk represents a residue modulo n. */
  predicate InRange(input: seq<byte>, n: nat, r: nat)
    requires r > 0
  {
    |input| < r || (Os2ip(input[..r]) < n && InRange(input[r..], n, r))
  }

  method TransformStream(input: seq<byte>, exp: nat, n: nat, r: nat, w: nat, k: nat)
    returns (out: seq<byte>, trailing: nat)
    requires r > 0 && 1 < n <= Pow(2, k) && n % 2 == 1
    ensures InRange(input, n, r) || Bit(exp, 0) ==> out == Transformed(input, Low(exp, k), n, r, w)
    ensures trailing < r && trailing <= |input| && Cong(trailing, |input|, r)
  {
    hide Transformed, InRange, Low, Bit;
    out := [];
    var pos := 0;
    ghost var e, good := Low(exp, k), InRange(input, n, r) || Bit(exp, 0);
    while |input| - pos >= r
      invariant 0 <= pos <= |input| && Cong(|input| - pos, |input|, r)
      invariant InRange(input, n, r) ==> InRange(input[pos..], n, r)
      invariant good ==> out + Transformed(input[pos..], e, n, r, w) == Transformed(input, e, n, r, w)
    {
      var chunk := input[pos..pos + r];
      TransformNext(input, pos, e, n, r, w);
      var msg := ReadNumber(chunk);
      var msgNew := PowerMont(msg, exp, n, k);
      out := out + I2osp(msgNew, w);
      CongIntro(|input| - (pos + r), |input| - pos, -1, r);
      pos := pos + r;
    }
    trailing := |input| - pos;
    TransformEnd(input[pos..], e, n, r, w);
    assert out + [] == out;
  }

  lemma TransformNext(input: seq<byte>, pos: nat, exp: nat, n: nat, r: nat, w: nat)
    requires n > 0 && r > 0 && pos + r <= |input|
    ensures var m := Os2ip(input[pos..pos + r]);
            && Transformed(input[pos..], exp, n, r, w) ==
                  I2osp(Power(m, exp, n), w) + Transformed(input[pos + r..], exp, n, r, w)
            && (InRange(input[pos..], n, r) ==> m < n && InRange(input[pos + r..], n, r))
  {
    var rest := input[pos..];
    assert rest[..r] == input[pos..pos + r] && rest[r..] == input[pos + r..];
  }

  lemma TransformEnd(rest: seq<byte>, exp: nat, n: nat, r: nat, w: nat)
    requires n > 0 && |rest| < r
    ensures Transformed(rest, exp, n, r, w) == []
  {
  }

  /** The longest prefix made of whole chunks. */
  function WholeChunks(input: seq<byte>, r: nat): seq<byte>
    requires r > 0
  {
    if |input| < r then [] else input[..r] + WholeChunks(input[r..], r)
  }

  lemma JoinPrefix(s: seq<byte>, r: nat, m: nat)
    requires r + m <= |s|
    ensures s[..r] + s[r..][..m] == s[..r + m]
  {
  }

  lemma {:induction false} WholeChunksPrefix(input: seq<byte>, r: nat)
    requires r > 0
    ensures WholeChunks(input, r) == input[..|input| - |input| % r]
  {
    if |input| < r {
      assert |input| % r == |input| by { DivModUnique(|input|, r, 0, |input|); }
    } else {
      WholeChunksPrefix(input[r..], r);
      CongIntro(|input| - r, |input|, -1, r);
      JoinPrefix(input, r, (|input| - r) - (|input| - r) % r);
    }
  }

  /**
   Decrypting an encrypted stream restores every whole message chunk, for a modulus that is a
   product of two distinct primes and lies between the message and ciphertext chunk sizes.
   */
  lemma {:induction false} StreamRoundTrip(input: seq<byte>, p: int, q: int, e: nat, d: nat, r: nat, w: nat)
    requires Prime(p) && Prime(q) && p != q && r > 0 && w > 0
    requires p * q > 0 && Pow(256, r) <= p * q <= Pow(256, w)
    requires (p - 1) * (q - 1) > 0 && Cong(e * d, 1, (p - 1) * (q - 1))
    ensures InRange(input, p * q, r)
    ensures InRange(Transformed(input, e, p * q, r, w), p * q, w)
    ensures Transformed(Transformed(input, e, p * q, r, w), d, p * q, w, r) == WholeChunks(input, r)
  {
    var n := p * q;
    if |input| >= r {
      StreamRoundTrip(input[r..], p, q, e, d, r, w);
      var chunk, rest := input[..r], Transformed(input[r..], e, n, r, w);
      var m := Os2ip(chunk);
      Os2ipBound(chunk);
      var c := Pow(m, e) % n;
      var cipher := I2osp(c, w);
      EncodeDecode(c, w);
      RsaIdentity(p, q, e, d, m);
      DecodeEncode(chunk);
      assert Transformed(input, e, n, r, w) == cipher + rest;
      assert (cipher + rest)[..w] == cipher && (cipher + rest)[w..] == rest;
    }
  }
}
