/** Writing a span of a flash device block by block. */
module FlashWrite {
  import opened Bits
  import opened NorFlash
  import opened FlashRegions
  import opened CfiFlash

  /** The part of block b that a write of length bytes at offset covers. */
  function From(b: Block, offset: nat): (lo: nat)
    ensures b.start <= lo && offset <= lo
  {
    Max(b.start, offset)
  }

  function To(b: Block, offset: nat, length: nat): (hi: nat)
    ensures hi <= b.End() && hi <= offset + length
  {
    Min(b.End(), offset + length)
  }

  /** A write leaves block b as it is if it does not reach it, or if the block already has the data. */
  predicate Untouched(mem: seq<cell>, b: Block, offset: nat, src: seq<cell>)
    requires b.End() <= |mem|
  {
    Piece(mem, 0, From(b, offset), To(b, offset, |src|)) == Piece(src, offset, From(b, offset), To(b, offset, |src|))
  }

  /** The cells from lo up to hi of data that begins at byte offset. */
  function Piece(data: seq<cell>, offset: nat, lo: nat, hi: nat): seq<cell>
    requires lo < hi ==> offset <= lo && hi <= offset + |data|
  {
    if lo < hi then data[lo - offset..hi - offset] else []
  }

  /** What a write leaves in block b: any other block has the data, and blank cells around it. */
  function BlockAfter(mem: seq<cell>, b: Block, offset: nat, src: seq<cell>): (s: seq<cell>)
    requires b.End() <= |mem|
    ensures |s| == b.size
  {
    if Untouched(mem, b, offset, src) then mem[b.start..b.End()]
    else
      var lo, hi := From(b, offset), To(b, offset, |src|);
      Blank(lo - b.start) + Piece(src, offset, lo, hi) + Blank(b.End() - hi)
  }

  predicate Inside(bs: seq<Block>, size: nat) {
    forall t :: 0 <= t < |bs| ==> bs[t].End() <= size
  }

  /** What a write leaves in a run of blocks. */
  function After(mem: seq<cell>, bs: seq<Block>, offset: nat, src: seq<cell>): seq<cell>
    requires Inside(bs, |mem|)
  {
    if bs == [] then []
    else After(mem, bs[..|bs| - 1], offset, src) + BlockAfter(mem, bs[|bs| - 1], offset, src)
  }

  lemma ContiguousPrefix(bs: seq<Block>, end: nat, n: nat)
    requires Contiguous(bs, end) && n <= |bs|
    ensures Contiguous(bs[..n], if n < |bs| then bs[n].start else end)
  {
    if n == |bs| {
      assert bs[..n] == bs;
    }
  }

  lemma {:induction false} InOrder(bs: seq<Block>, end: nat, t: nat)
    requires Contiguous(bs, end) && t < |bs|
    ensures bs[t].End() <= end && (t + 1 < |bs| ==> bs[t].End() == bs[t + 1].start)
    decreases |bs| - t
  {
    if t + 1 < |bs| {
      InOrder(bs, end, t + 1);
    }
  }

  lemma AllInside(bs: seq<Block>, end: nat)
    requires Contiguous(bs, end)
    ensures Inside(bs, end)
  {
    forall t | 0 <= t < |bs|
      ensures bs[t].End() <= end
    {
      InOrder(bs, end, t);
    }
  }

  lemma {:induction false} AfterLength(mem: seq<cell>, bs: seq<Block>, end: nat, offset: nat, src: seq<cell>)
    requires Contiguous(bs, end) && Inside(bs, |mem|)
    ensures |After(mem, bs, offset, src)| == end
  {
    if bs != [] {
      var n := |bs| - 1;
      ContiguousPrefix(bs, end, n);
      AfterLength(mem, bs[..n], bs[n].start, offset, src);
    }
  }

  /** The result of a write, block by block. */
  lemma {:induction false} AfterAt(mem: seq<cell>, bs: seq<Block>, end: nat, offset: nat, src: seq<cell>, t: nat)
    requires Contiguous(bs, end) && Inside(bs, |mem|) && t < |bs|
    ensures bs[t].End() <= |After(mem, bs, offset, src)|
    ensures After(mem, bs, offset, src)[bs[t].start..bs[t].End()] == BlockAfter(mem, bs[t], offset, src)
    decreases |bs|
  {
    hide BlockAfter;
    var n := |bs| - 1;
    ContiguousPrefix(bs, end, n);
    AfterLength(mem, bs[..n], bs[n].start, offset, src);
    var head, last := After(mem, bs[..n], offset, src), BlockAfter(mem, bs[n], offset, src);
    assert After(mem, bs, offset, src) == head + last;
    hide After, Contiguous;
    if t < n {
      AfterAt(mem, bs[..n], bs[n].start, offset, src, t);
      SliceOfHead(head, last, bs[t].start, bs[t].End());
    } else {
      assert bs[t].start == |head|;
      SliceOfTail(head, last);
    }
  }

  lemma SliceOfHead(s: seq<cell>, t: seq<cell>, a: nat, b: nat)
    requires a <= b <= |s|
    ensures (s + t)[a..b] == s[a..b]
  {
  }

  lemma SliceOfTail(s: seq<cell>, t: seq<cell>)
    ensures (s + t)[|s|..|s| + |t|] == t
  {
  }

  /** Every byte of the device lies in a block. */
  lemma {:induction false} BlockOf(bs: seq<Block>, end: nat, k: nat) returns (t: nat)
    requires Contiguous(bs, end) && k < end
    ensures t < |bs| && bs[t].start <= k < bs[t].End()
    decreases |bs|
  {
    var n := |bs| - 1;
    if k >= bs[n].start {
      t := n;
    } else {
      ContiguousPrefix(bs, end, n);
      t := BlockOf(bs[..n], bs[n].start, k);
    }
  }

  /** What a write leaves, as far as the device reaches, has the data in the span. */
  lemma SpanHasData(mem: seq<cell>, bs: seq<Block>, offset: nat, src: seq<cell>)
    requires Contiguous(bs, |mem|) && Inside(bs, |mem|)
    ensures |After(mem, bs, offset, src)| == |mem|
    ensures forall k :: offset <= k < offset + |src| && k < |mem| ==> After(mem, bs, offset, src)[k] == src[k - offset]
  {
    hide After, Contiguous, BlockAfter;
    AfterLength(mem, bs, |mem|, offset, src);
    var m := After(mem, bs, offset, src);
    forall k | offset <= k < offset + |src| && k < |mem|
      ensures m[k] == src[k - offset]
    {
      var t := BlockOf(bs, |mem|, k);
      AfterAt(mem, bs, |mem|, offset, src, t);
      BlockHasData(mem, bs[t], offset, src, k);
      assert m[bs[t].start..bs[t].End()][k - bs[t].start] == m[k];
    }
  }

  lemma BlockHasData(mem: seq<cell>, b: Block, offset: nat, src: seq<cell>, k: nat)
    requires b.End() <= |mem| && b.start <= k < b.End() && offset <= k < offset + |src|
    ensures BlockAfter(mem, b, offset, src)[k - b.start] == src[k - offset]
  {
    if Untouched(mem, b, offset, src) {
      KeptHasData(mem, b, offset, src, k);
    } else {
      FilledHasData(mem, b, offset, src, k);
    }
  }

  lemma KeptHasData(mem: seq<cell>, b: Block, offset: nat, src: seq<cell>, k: nat)
    requires b.End() <= |mem| && b.start <= k < b.End()
    requires offset <= k < offset + |src| && Untouched(mem, b, offset, src)
    ensures BlockAfter(mem, b, offset, src)[k - b.start] == src[k - offset]
  {
    hide BlockAfter, Blank, Piece, Untouched;
    BlockKept(mem, b, offset, src);
    var lo, hi := From(b, offset), To(b, offset, |src|);
    PieceAt(src, offset, lo, hi, k);
    PieceAt(mem, 0, lo, hi, k);
    SliceAt(mem, b.start, b.End(), k);
  }

  lemma FilledHasData(mem: seq<cell>, b: Block, offset: nat, src: seq<cell>, k: nat)
    requires b.End() <= |mem| && b.start <= k < b.End()
    requires offset <= k < offset + |src| && !Untouched(mem, b, offset, src)
    ensures BlockAfter(mem, b, offset, src)[k - b.start] == src[k - offset]
  {
    hide BlockAfter, Blank, Piece, Untouched;
    BlockFilled(mem, b, offset, src);
    var lo, hi := From(b, offset), To(b, offset, |src|);
    PieceAt(src, offset, lo, hi, k);
    FilledAt(Piece(src, offset, lo, hi), lo - b.start, b.End() - hi, k - b.start);
  }

  lemma PieceAt(data: seq<cell>, offset: nat, lo: nat, hi: nat, k: nat)
    requires offset <= lo <= k < hi <= offset + |data|
    ensures |Piece(data, offset, lo, hi)| == hi - lo && Piece(data, offset, lo, hi)[k - lo] == data[k - offset]
  {
  }

  lemma BlockKept(mem: seq<cell>, b: Block, offset: nat, src: seq<cell>)
    requires b.End() <= |mem| && Untouched(mem, b, offset, src)
    ensures BlockAfter(mem, b, offset, src) == mem[b.start..b.End()]
    ensures var lo, hi := From(b, offset), To(b, offset, |src|); Piece(mem, 0, lo, hi) == Piece(src, offset, lo, hi)
  {
    hide Blank;
  }

  lemma BlockFilled(mem: seq<cell>, b: Block, offset: nat, src: seq<cell>)
    requires b.End() <= |mem| && !Untouched(mem, b, offset, src)
    ensures var lo, hi := From(b, offset), To(b, offset, |src|);
            && lo < hi
            && BlockAfter(mem, b, offset, src) == Blank(lo - b.start) + Piece(src, offset, lo, hi) + Blank(b.End() - hi)
  {
    hide Blank;
  }

  lemma SliceAt(s: seq<cell>, a: nat, b: nat, k: nat)
    requires a <= k < b <= |s|
    ensures s[a..b][k - a] == s[k]
  {
  }

  lemma FilledAt(data: seq<cell>, p: nat, q: nat, i: nat)
    requires p <= i < p + |data|
    ensures (Blank(p) + data + Blank(q))[i] == data[i - p]
  {
  }

  lemma BlankAround(p: nat, data: seq<cell>, q: nat, i: nat)
    requires i < p || p + |data| <= i < p + |data| + q
    ensures (Blank(p) + data + Blank(q))[i] == ERASED
  {
  }

  /** Block b after the write: as before if untouched, and otherwise blank outside the span. */
  ghost predicate RestIs(mem: seq<cell>, m: seq<cell>, b: Block, offset: nat, src: seq<cell>)
    requires b.End() <= |mem| == |m|
  {
    if Untouched(mem, b, offset, src) then m[b.start..b.End()] == mem[b.start..b.End()]
    else forall k :: b.start <= k < b.End() && !(offset <= k < offset + |src|) ==> m[k] == ERASED
  }

  lemma BlockRest(mem: seq<cell>, m: seq<cell>, b: Block, offset: nat, src: seq<cell>)
    requires b.End() <= |mem| == |m| && m[b.start..b.End()] == BlockAfter(mem, b, offset, src)
    ensures RestIs(mem, m, b, offset, src)
  {
    if !Untouched(mem, b, offset, src) {
      var lo, hi := From(b, offset), To(b, offset, |src|);
      var after := BlockAfter(mem, b, offset, src);
      BlockFilled(mem, b, offset, src);
      hide BlockAfter, Untouched, Blank;
      forall k | b.start <= k < b.End() && !(offset <= k < offset + |src|)
        ensures m[k] == ERASED
      {
        SliceAt(m, b.start, b.End(), k);
        BlankAround(lo - b.start, Piece(src, offset, lo, hi), b.End() - hi, k - b.start);
      }
    }
  }

  /**
   What a write does: the span, as far as the device reaches, has the data; blocks outside the span, and
   blocks that already had it, are as before; the rest of any other block is blank.
   */
  lemma WriteEffect(mem: seq<cell>, regions: seq<Region>, offset: nat, src: seq<cell>)
    requires Tiles(regions, |mem|)
    ensures Inside(Blocks(regions), |mem|) && |After(mem, Blocks(regions), offset, src)| == |mem|
    ensures forall k :: offset <= k < offset + |src| && k < |mem| ==>
          After(mem, Blocks(regions), offset, src)[k] == src[k - offset]
    ensures forall t :: 0 <= t < |Blocks(regions)| ==>
              RestIs(mem, After(mem, Blocks(regions), offset, src), Blocks(regions)[t], offset, src)
  {
    var bs := Blocks(regions);
    BlocksContiguous(regions, |mem|);
    AllInside(bs, |mem|);
    hide Blocks, After, Contiguous, Tiles, BlockAfter, RestIs;
    SpanHasData(mem, bs, offset, src);
    var m := After(mem, bs, offset, src);
    forall t | 0 <= t < |bs|
      ensures RestIs(mem, m, bs[t], offset, src)
    {
      AfterAt(mem, bs, |mem|, offset, src, t);
      BlockRest(mem, m, bs[t], offset, src);
    }
  }

  // ----- A write in progress -----

  function StartOf(bs: seq<Block>, end: nat, t: nat): nat {
    if t < |bs| then bs[t].start else end
  }

  /** The device when a write has passed the first t blocks. */
  ghost function Image(mem: seq<cell>, bs: seq<Block>, t: nat, offset: nat, src: seq<cell>): seq<cell>
    requires Inside(bs, |mem|) && t <= |bs| && StartOf(bs, |mem|, t) <= |mem|
  {
    After(mem, bs[..t], offset, src) + mem[StartOf(bs, |mem|, t)..]
  }

  lemma ImageAt(mem: seq<cell>, bs: seq<Block>, t: nat, offset: nat, src: seq<cell>)
    requires Contiguous(bs, |mem|) && t <= |bs|
    ensures Inside(bs, |mem|) && StartOf(bs, |mem|, t) <= |mem|
    ensures |After(mem, bs[..t], offset, src)| == StartOf(bs, |mem|, t) && |Image(mem, bs, t, offset, src)| == |mem|
    ensures t < |bs| ==> StartOf(bs, |mem|, t + 1) == bs[t].End() <= |mem|
    ensures t == 0 ==> Image(mem, bs, t, offset, src) == mem
    ensures t == |bs| ==> Image(mem, bs, t, offset, src) == After(mem, bs, offset, src)
  {
    AllInside(bs, |mem|);
    ContiguousPrefix(bs, |mem|, t);
    if t < |bs| {
      InOrder(bs, |mem|, t);
    }
    hide After, Contiguous;
    AfterLength(mem, bs[..t], StartOf(bs, |mem|, t), offset, src);
    if t == |bs| {
      assert bs[..t] == bs;
    } else if t == 0 {
      assert StartOf(bs, |mem|, 0) == 0;
    }
  }

  lemma AfterNext(mem: seq<cell>, bs: seq<Block>, t: nat, offset: nat, src: seq<cell>)
    requires Inside(bs, |mem|) && t < |bs|
    ensures After(mem, bs[..t + 1], offset, src) ==
          After(mem, bs[..t], offset, src) + BlockAfter(mem, bs[t], offset, src)
  {
    assert bs[..t + 1][..t] == bs[..t];
  }

  lemma BlockAfterLocal(mem: seq<cell>, now: seq<cell>, b: Block, offset: nat, src: seq<cell>)
    requires b.End() <= |mem| == |now| && now[b.start..] == mem[b.start..]
    ensures BlockAfter(now, b, offset, src) == BlockAfter(mem, b, offset, src)
  {
    var lo, hi := From(b, offset), To(b, offset, |src|);
    hide Blank;
    SameSlice(now, mem, b.start, b.start, b.End());
    if lo < hi {
      SameSlice(now, mem, b.start, lo, hi);
    }
  }

  lemma SameSlice(s: seq<cell>, t: seq<cell>, a: nat, lo: nat, hi: nat)
    requires a <= lo <= hi <= |s| == |t| && s[a..] == t[a..]
    ensures s[lo..hi] == t[lo..hi]
  {
    assert s[lo..] == s[a..][lo - a..] == t[lo..];
    SameAfter(s, t, lo, hi - lo);
  }

  /** Writing block t as specified takes the image one block on. */
  lemma ImageStep(mem: seq<cell>, bs: seq<Block>, t: nat, offset: nat, src: seq<cell>, was: seq<cell>, now: seq<cell>)
    requires Contiguous(bs, |mem|) && t < |bs| && |now| == |was| == |mem| && Inside(bs, |mem|)
    requires bs[t].End() <= |mem| && was == Image(mem, bs, t, offset, src)
    requires now[..bs[t].start] == was[..bs[t].start] && now[bs[t].End()..] == was[bs[t].End()..]
    requires now[bs[t].start..bs[t].End()] == BlockAfter(mem, bs[t], offset, src)
    ensures StartOf(bs, |mem|, t + 1) <= |mem| && now == Image(mem, bs, t + 1, offset, src)
  {
    ImageAt(mem, bs, t, offset, src);
    AfterNext(mem, bs, t, offset, src);
    hide After, Contiguous, BlockAfter, Inside;
    Pieces(now, After(mem, bs[..t], offset, src), mem, bs[t].start, bs[t].End());
  }

  lemma Pieces(now: seq<cell>, head: seq<cell>, mem: seq<cell>, a: nat, b: nat)
    requires |head| == a <= b <= |mem| == |now|
    requires now[..a] == (head + mem[a..])[..a] && now[b..] == (head + mem[a..])[b..]
    ensures now == head + now[a..b] + mem[b..]
  {
    assert (head + mem[a..])[..a] == head;
    assert (head + mem[a..])[b..] == mem[b..];
    assert now == now[..a] + now[a..b] + now[b..];
  }

  /** Passing blocks that the write leaves alone changes nothing. */
  lemma {:induction false} ImageSkip(mem: seq<cell>, bs: seq<Block>, t: nat, u: nat, offset: nat, src: seq<cell>)
    requires Contiguous(bs, |mem|) && t <= u <= |bs| && Inside(bs, |mem|)
    requires forall v :: t <= v < u ==> Untouched(mem, bs[v], offset, src)
    ensures StartOf(bs, |mem|, t) <= |mem| && StartOf(bs, |mem|, u) <= |mem|
    ensures Image(mem, bs, u, offset, src) == Image(mem, bs, t, offset, src)
    decreases u
  {
    hide Image, Contiguous, Inside, Untouched, StartOf, After;
    ImageAt(mem, bs, t, offset, src);
    if t < u {
      ImageSkip(mem, bs, t, u - 1, offset, src);
      ImageSkipOne(mem, bs, u - 1, offset, src);
    }
  }

  lemma ImageSkipOne(mem: seq<cell>, bs: seq<Block>, t: nat, offset: nat, src: seq<cell>)
    requires Contiguous(bs, |mem|) && t < |bs| && Inside(bs, |mem|) && Untouched(mem, bs[t], offset, src)
    ensures StartOf(bs, |mem|, t) <= |mem| && StartOf(bs, |mem|, t + 1) <= |mem|
    ensures Image(mem, bs, t + 1, offset, src) == Image(mem, bs, t, offset, src)
  {
    ImageAt(mem, bs, t, offset, src);
    AfterNext(mem, bs, t, offset, src);
    var b, head := bs[t], After(mem, bs[..t], offset, src);
    hide Blank;
    assert BlockAfter(mem, b, offset, src) == mem[b.start..b.End()];
    hide After, Contiguous, Inside, Untouched, BlockAfter;
    Rejoin(head, mem, b.start, b.End());
  }

  lemma Rejoin(head: seq<cell>, mem: seq<cell>, a: nat, b: nat)
    requires a <= b <= |mem|
    ensures head + mem[a..] == head + mem[a..b] + mem[b..]
  {
    assert mem[a..] == mem[a..b] + mem[b..];
  }
}
