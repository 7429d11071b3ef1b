/** NOR flash cells and words: programming clears bits, erasing sets a whole block. */
module NorFlash {
  type cell = bv8

  const ERASED: cell := 0xFF

  /** What programming value v into a cell leaves there. */
  function And(c: cell, v: cell): cell {
    c & v
  }

  lemma AndErased(v: cell)
    ensures And(ERASED, v) == v
  {
  }

  lemma AndSame(c: cell)
    ensures And(c, c) == c
  {
  }

  /** Memory after one word has been programmed at offset at. */
  function Programmed(mem: seq<cell>, at: nat, word: seq<cell>): (m: seq<cell>)
    requires at + |word| <= |mem|
    ensures |m| == |mem|
    ensures forall k :: 0 <= k < |mem| ==> m[k] == if at <= k < at + |word| then And(mem[k], word[k - at]) else mem[k]
  {
    seq(|mem|, k requires 0 <= k < |mem| => if at <= k < at + |word| then And(mem[k], word[k - at]) else mem[k])
  }

  /** Memory with data in place of what was at offset at. */
  function Spliced(mem: seq<cell>, at: nat, data: seq<cell>): (m: seq<cell>)
    requires at + |data| <= |mem|
    ensures |m| == |mem|
  {
    mem[..at] + data + mem[at + |data|..]
  }

  function Blank(n: nat): (s: seq<cell>)
    ensures |s| == n && forall k :: 0 <= k < n ==> s[k] == ERASED
  {
    seq(n, _ => ERASED)
  }

  /** s and t agree except in the cells from lo up to hi. */
  ghost predicate SameOutside(s: seq<cell>, t: seq<cell>, lo: nat, hi: nat) {
    |s| == |t| && lo <= hi <= |s| && s[..lo] == t[..lo] && s[hi..] == t[hi..]
  }

  lemma SameOutsideStep(s: seq<cell>, t: seq<cell>, u: seq<cell>, lo: nat, hi: nat, a: nat, b: nat)
    requires SameOutside(s, t, lo, hi) && SameOutside(t, u, a, b) && lo <= a && b <= hi
    ensures SameOutside(s, u, lo, hi)
  {
    assert u[..lo] == u[..a][..lo] == t[..a][..lo];
    assert u[hi..] == u[b..][hi - b..] == t[b..][hi - b..];
  }

  lemma SameOutsideSelf(s: seq<cell>, lo: nat, hi: nat)
    requires lo <= hi <= |s|
    ensures SameOutside(s, s, lo, hi)
  {
  }

  predicate AllErased(mem: seq<cell>) {
    forall k :: 0 <= k < |mem| ==> mem[k] == ERASED
  }

  /** A word that repeats what is there around data for erased cells changes just those cells. */
  lemma ProgramPreserving(mem: seq<cell>, at: nat, word: seq<cell>, lo: nat, data: seq<cell>)
    requires at <= lo && lo + |data| <= at + |word| <= |mem|
    requires word == mem[at..lo] + data + mem[lo + |data|..at + |word|]
    requires AllErased(mem[lo..lo + |data|])
    ensures Programmed(mem, at, word) == Spliced(mem, lo, data)
  {
    hide And;
    var hi := lo + |data|;
    forall k | 0 <= k < |mem|
      ensures Programmed(mem, at, word)[k] == Spliced(mem, lo, data)[k]
    {
      if lo <= k < hi {
        assert mem[lo..hi][k - lo] == ERASED;
        AndErased(data[k - lo]);
      } else {
        AndSame(mem[k]);
      }
    }
  }

  lemma SplicedOn(mem: seq<cell>, at: nat, data: seq<cell>, more: seq<cell>)
    requires at + |data| + |more| <= |mem|
    ensures Spliced(Spliced(mem, at, data), at + |data|, more) == Spliced(mem, at, data + more)
    ensures Spliced(mem, at, data)[at + |data|..] == mem[at + |data|..]
  {
  }

  // ----- The native word store -----

  type width = w: nat | w == 1 || w == 2 || w == 4 witness 1

  function HalfWord(a: cell, b: cell): bv16 {
    (a as bv16) | ((b as bv16) << 8)
  }

  function Word(a: cell, b: cell, c: cell, d: cell): bv32 {
    (a as bv32) | ((b as bv32) << 8) | ((c as bv32) << 16) | ((d as bv32) << 24)
  }

  /** Byte lane k of a 16-bit and a 32-bit store on a little-endian bus. */
  function Lane16(v: bv16, k: nat): cell
    requires k < 2
  {
    if k == 0 then (v & 0xFF) as bv8 else (v >> 8) as bv8
  }

  function Lane32(v: bv32, k: nat): cell
    requires k < 4
  {
    if k == 0 then (v & 0xFF) as bv8
    else if k == 1 then ((v >> 8) & 0xFF) as bv8
    else if k == 2 then ((v >> 16) & 0xFF) as bv8
    else (v >> 24) as bv8
  }

  lemma HalfWordLanes(a: cell, b: cell)
    ensures Lane16(HalfWord(a, b), 0) == a && Lane16(HalfWord(a, b), 1) == b
  {
  }

  lemma WordLane0(a: cell, b: cell, c: cell, d: cell)
    ensures Lane32(Word(a, b, c, d), 0) == a
  {
  }

  lemma WordLane1(a: cell, b: cell, c: cell, d: cell)
    ensures Lane32(Word(a, b, c, d), 1) == b
  {
  }

  lemma WordLane2(a: cell, b: cell, c: cell, d: cell)
    ensures Lane32(Word(a, b, c, d), 2) == c
  {
  }

  lemma WordLane3(a: cell, b: cell, c: cell, d: cell)
    ensures Lane32(Word(a, b, c, d), 3) == d
  {
  }

  /**
   The bytes that reach the flash when the driver assembles a byte, a half word or a word from its
   source, low byte first, and stores it with one access of a little-endian bus: the source in order.
   */
  function NativeStore(w: width, word: seq<cell>): (bytes: seq<cell>)
    requires |word| == w
    ensures bytes == word
  {
    hide HalfWord, Word, Lane16, Lane32;
    if w == 1 then [word[0]]
    else if w == 2 then
      var v := HalfWord(word[0], word[1]);
      HalfWordLanes(word[0], word[1]);
      [Lane16(v, 0), Lane16(v, 1)]
    else
      var v := Word(word[0], word[1], word[2], word[3]);
      WordLane0(word[0], word[1], word[2], word[3]);
      WordLane1(word[0], word[1], word[2], word[3]);
      WordLane2(word[0], word[1], word[2], word[3]);
      WordLane3(word[0], word[1], word[2], word[3]);
      [Lane32(v, 0), Lane32(v, 1), Lane32(v, 2), Lane32(v, 3)]
  }
}
