/** The write entry point of a CFI flash device. */
module FlashDevice {
  import opened Bits
  import opened NorFlash
  import opened FlashRegions
  import opened CfiFlash
  import opened FlashWrite

  /** The write has no span that lies strictly inside one native word. */
  predicate Whole(w: width, offset: nat, src: seq<cell>) {
    src == [] || ReachesWordEnd(w, offset, |src|)
  }

  /** What the write does to a block it reaches: nothing outside it and, without an error, the block's new contents. */
  ghost predicate BlockWhole(was: seq<cell>, now: seq<cell>, b: Block, offset: nat, src: seq<cell>, r: int)
    requires b.End() <= |was|
  {
    SameOutside(was, now, b.start, b.End()) && (r == 0 ==> now[b.start..b.End()] == BlockAfter(was, b, offset, src))
  }

  /** How far a write of a span strictly inside one word of block b can reach: into the word after the span's. */
  function SpillLimit(w: width, b: Block, offset: nat, size: nat): nat
    requires Into(offset, w) <= offset
  {
    Max(b.End(), SpillEnd(offset, size, w))
  }

  /**
   What the write leaves for a span strictly inside one word of block b: nothing new if the block has the data;
   otherwise the block is erased and the two words take what follows the source.
   */
  function SpillAfter(w: width, mem: seq<cell>, b: Block, offset: nat, src: seq<cell>, behind: seq<cell>): seq<cell>
    requires b.End() <= |mem| && Into(offset, w) <= offset && Into(offset, w) + |src| < w <= |behind|
    requires offset - Into(offset, w) + w <= |mem|
  {
    if Untouched(mem, b, offset, src) then mem
    else Spilled(w, Spliced(mem, b.start, Blank(b.size)), offset, src + behind, |src|)
  }

  ghost predicate BlockSpilt(w: width, was: seq<cell>, now: seq<cell>, b: Block, offset: nat, src: seq<cell>,
                             behind: seq<cell>, r: int)
    requires b.End() <= |was| && w <= |behind| && !Whole(w, offset, src)
  {
    && Into(offset, w) <= offset && offset - Into(offset, w) + w <= b.End()
    && SameOutside(was, now, b.start, SpillLimit(w, b, offset, |was|))
    && (r == 0 ==> now == SpillAfter(w, was, b, offset, src, behind))
  }

  class Device {
    const flash: Flash
    const regions: seq<Region>

    ghost predicate Valid()
      reads flash
    {
      Tiles(regions, |flash.mem|)
    }

    constructor (f: Flash, rs: seq<Region>)
      requires Tiles(rs, |f.mem|)
      ensures Valid() && flash == f && regions == rs
    {
      flash := f;
      regions := rs;
    }

    /**
     Bring the block at start up to date with the source from byte offset on, as far as the block reaches;
     behind is what memory holds after the source.
     */
    method WriteBlock(start: nat, size: nat, offset: nat, src: seq<cell>, behind: seq<cell>)
      returns (r: int, chunk: nat)
      requires start <= offset < start + size && start + size <= |flash.mem| && flash.w <= |behind|
      requires Into(start, flash.w) == 0 && Into(start + size, flash.w) == 0 && Into(|flash.mem|, flash.w) == 0
      modifies flash`mem, flash`faults
      ensures flash.faults == old(flash.faults) + if r == 0 then 0 else 1
      ensures |flash.mem| == |old(flash.mem)| && chunk == Min(start + size - offset, |src|)
      ensures Whole(flash.w, offset, src) ==> BlockWhole(old(flash.mem), flash.mem, Block(start, size), offset, src, r)
      ensures !Whole(flash.w, offset, src) ==>
            BlockSpilt(flash.w, old(flash.mem), flash.mem, Block(start, size), offset, src, behind, r)
    {
      hide Spliced, AllErased, Into, Blank, Spilled, BlockWhole;
      hide BlockSpilt, SpillEnd, WordEnd, Untouched, BlockAfter, SameOutside;
      ghost var was, b, w := flash.mem, Block(start, size), flash.w;
      r := 0;
      chunk := start + size - offset;
      chunk := Min(chunk, |src|);
      ChunkIs(was, b, offset, src);
      ChunkReaches(offset, |src|, start, start + size, w);
      if src[..chunk] != flash.mem[offset..offset + chunk] {
        r := flash.EraseBlock(start, size);
        if r == 0 {
          ghost var now := flash.mem;
          ErasedSpan(was, start, size, offset, chunk);
          r := flash.ProgramBlock(offset, src + behind, chunk);
          Prefix(src, behind, chunk);
          if Whole(w, offset, src) {
            ProgrammedWhole(w, was, now, flash.mem, b, offset, src, r);
          } else {
            ProgrammedSpilt(w, was, now, flash.mem, b, offset, src, behind, r);
          }
        } else {
          NotErased(w, was, flash.mem, b, offset, src, behind, r);
        }
      } else {
        LeftAlone(w, was, b, offset, src, behind);
      }
    }

    /** The write has passed t blocks; rest is what it has still to write, from byte at on. */
    ghost predicate Passed(was: seq<cell>, offset: nat, src: seq<cell>, t: nat, at: nat, rest: seq<cell>)
      reads flash
    {
      var bs := Blocks(regions);
      && Valid() && |was| == |flash.mem| && t <= |bs| && Inside(bs, |was|) && StartOf(bs, |was|, t) <= |was|
      && flash.mem == Image(was, bs, t, offset, src)
      && at == Max(StartOf(bs, |was|, t), offset) && at - offset <= |src| && rest == src[at - offset..]
      && (rest == [] ==> src == [])
    }

    /**
     The write of src, followed in memory by behind, has come to its end with result r. In block t it was
     stopped by an error, or found its span strictly inside one word.
     */
    ghost predicate Ended(was: seq<cell>, offset: nat, src: seq<cell>, behind: seq<cell>, r: int, t: nat)
      requires flash.w <= |behind|
      reads flash
    {
      var bs, now := Blocks(regions), flash.mem;
      && |now| == |was| && Inside(bs, |was|)
      && if Whole(flash.w, offset, src) then
           && (r == 0 ==> now == After(was, bs, offset, src))
           && (r != 0 ==> t < |bs| && SameOutside(Image(was, bs, t, offset, src), now, bs[t].start, bs[t].End()))
         else
           && t < |bs| && bs[t].start <= offset < bs[t].End()
           && BlockSpilt(flash.w, was, now, bs[t], offset, src, behind, r)
    }

    /** One block, number t: written if the write has reached it. */
    method Visit(current: nat, size: nat, at: nat, rest: seq<cell>, behind: seq<cell>,
                 ghost was: seq<cell>, ghost offset: nat, ghost src: seq<cell>, ghost t: nat)
      returns (r: int, next: nat, left: seq<cell>, done: bool)
      requires Passed(was, offset, src, t, at, rest) && t < |Blocks(regions)|
      requires Blocks(regions)[t] == Block(current, size)
      requires flash.w <= |behind|
      modifies flash`mem, flash`faults
      ensures flash.faults == old(flash.faults) + if r == 0 then 0 else 1
      ensures |flash.mem| == |was| && (done ==> Ended(was, offset, src, behind, r, t))
      ensures !done ==> r == 0 && Passed(was, offset, src, t + 1, next, left)
    {
      hide Image, BlockAfter, Blocks, Tiles, Contiguous, Inside;
      hide After, Untouched, SameOutside, Into, BlockWhole, BlockSpilt, Whole;
      ghost var bs, now := Blocks(regions), flash.mem;
      Facts(regions, |was|, flash.w, t);
      ImageAt(was, bs, t, offset, src);
      r, next, left, done := 0, at, rest, false;
      if current <= at < current + size {
        var chunk;
        r, chunk := WriteBlock(current, size, at, rest, behind);
        Onward(offset, src, at, rest, current, current + size, chunk);
        if Whole(flash.w, offset, src) {
          StepWhole(flash.w, was, now, flash.mem, bs, t, offset, src, at, rest, r);
        } else {
          StepSpilt(flash.w, was, now, bs, t, offset, src, at, rest);
        }
        if |rest| == chunk || r != 0 {
          if r == 0 {
            AllPassed(was, bs, t + 1, offset, src);
          }
          done := true;
        } else {
          left := rest[chunk..];
          next := current + size;
        }
      } else {
        NotReached(was, bs, t, offset, src);
        ImageSkipOne(was, bs, t, offset, src);
      }
    }

    lemma PassedSize(was: seq<cell>, offset: nat, src: seq<cell>, t: nat, at: nat, rest: seq<cell>)
      requires Passed(was, offset, src, t, at, rest)
      ensures |flash.mem| == |was|
    {
    }

    lemma BeginPassed(offset: nat, src: seq<cell>)
      requires Valid()
      ensures Passed(flash.mem, offset, src, |Blocks(regions[..0])|, offset, src)
    {
      Begins(regions, flash.mem, offset, src);
    }

    lemma InRegion(was: seq<cell>, offset: nat, src: seq<cell>, i: nat, at: nat, rest: seq<cell>)
      requires i < |regions| && Passed(was, offset, src, |Blocks(regions[..i])|, at, rest)
      requires at < regions[i].offset + regions[i].size
      ensures offset < |was|
    {
      hide Image, Blocks;
      RegionEnds(regions, |was|, i);
      StartBelow(Blocks(regions), |was|, |Blocks(regions[..i + 1])|);
    }

    /** The write has passed every region. */
    lemma AllRegionsPassed(was: seq<cell>, offset: nat, src: seq<cell>, behind: seq<cell>, at: nat, rest: seq<cell>,
                           t: nat)
      requires Passed(was, offset, src, |Blocks(regions)|, at, rest) && flash.w <= |behind|
      ensures Valid() && |flash.mem| == |was|
      ensures |was| <= offset ==> flash.mem == was
      ensures offset < |was| ==> Ended(was, offset, src, behind, 0, t)
    {
      hide Image, Blocks, After, BlockSpilt, Tiles, Whole;
      var bs := Blocks(regions);
      BlocksContiguous(regions, |was|);
      ImageAt(was, bs, |bs|, offset, src);
      if |was| <= offset {
        BeforeSpan(was, bs, |bs|, offset, src);
      } else if !Whole(flash.w, offset, src) {
        EndAligned(regions, |was|, flash.w);
        SpanAtOnce(flash.w, offset, src, at, |was|);
      }
    }

    /** A region the write does not begin in is passed over. */
    lemma PassRegion(was: seq<cell>, offset: nat, src: seq<cell>, i: nat, at: nat, rest: seq<cell>)
      requires i < |regions| && Passed(was, offset, src, |Blocks(regions[..i])|, at, rest)
      requires !(regions[i].offset <= at < regions[i].offset + regions[i].size)
      ensures Passed(was, offset, src, |Blocks(regions[..i + 1])|, at, rest)
    {
      hide Image, Blocks, Untouched, Inside, Contiguous, Tiles, StartOf, After;
      RegionEnds(regions, |was|, i);
      RegionNotReached(regions, was, i, offset, src);
    }

    /** The blocks of one region, from the first one on. */
    method WriteRegion(i: nat, at: nat, rest: seq<cell>, behind: seq<cell>, ghost was: seq<cell>, ghost offset: nat,
                       ghost src: seq<cell>)
      returns (r: int, next: nat, left: seq<cell>, done: bool, ghost t: nat)
      requires i < |regions| && Passed(was, offset, src, |Blocks(regions[..i])|, at, rest) && flash.w <= |behind|
      modifies flash`mem, flash`faults
      ensures flash.faults == old(flash.faults) + if r == 0 then 0 else 1
      ensures |flash.mem| == |was| && (done ==> Ended(was, offset, src, behind, r, t))
      ensures !done ==> r == 0 && Passed(was, offset, src, |Blocks(regions[..i + 1])|, next, left)
    {
      hide Image, Blocks, Tiles, Inside, After, SameOutside, StartOf, Into, Passed, Nth, Ended;
      PassedSize(was, offset, src, |Blocks(regions[..i])|, at, rest);
      r, next, left, done, t := 0, at, rest, false, |Blocks(regions[..i])|;
      var current := regions[i].offset;
      var j: nat := 0;
      NthNext(regions[i], j);
      BlockCount(regions, i);
      while j < regions[i].blocks
        invariant j <= regions[i].blocks && r == 0 && !done && flash.faults == old(flash.faults)
        invariant t == |Blocks(regions[..i])| + j && current == Nth(regions[i], j)
        invariant Passed(was, offset, src, t, next, left) && |flash.mem| == |was|
      {
        BlockAt(regions, i, j);
        r, next, left, done := Visit(current, regions[i].blockSize, next, left, behind, was, offset, src, t);
        if done {
          return;
        }
        NthNext(regions[i], j);
        current := current + regions[i].blockSize;
        j, t := j + 1, t + 1;
      }
    }

    /**
     Write the source at the given offset, erasing and programming every block whose part of the span
     differs. What lies beyond the end of the device is dropped without an error. Memory goes on with behind
     after the source, which matters only for a span strictly inside one native word.
     */
    method Write(offset: int, src: seq<cell>, behind: seq<cell>) returns (r: int, ghost t: nat)
      requires Valid() && flash.w <= |behind|
      modifies flash`mem, flash`faults
      ensures flash.faults == old(flash.faults) + if r == 0 then 0 else 1
      ensures Valid()
      ensures offset < 0 || |flash.mem| <= offset ==> r == 0 && flash.mem == old(flash.mem)
      ensures 0 <= offset < |flash.mem| ==> Ended(old(flash.mem), offset, src, behind, r, t)
    {
      hide Blocks, Tiles, Ended, Passed;
      r, t := 0, 0;
      ghost var was, from: nat := flash.mem, if offset < 0 then 0 else offset;
      BeginPassed(from, src);
      var at, rest, i: nat := offset, src, 0;
      while i < |regions|
        invariant i <= |regions| && r == 0 && |flash.mem| == |was| && flash.faults == old(flash.faults) && Valid()
        invariant offset < 0 ==> flash.mem == was && at == offset
        invariant offset >= 0 ==> at >= 0 && Passed(was, from, src, |Blocks(regions[..i])|, at, rest)
      {
        if regions[i].offset <= at < regions[i].offset + regions[i].size {
          var done;
          InRegion(was, from, src, i, at, rest);
          r, at, rest, done, t := WriteRegion(i, at, rest, behind, was, from, src);
          if done {
            return;
          }
        } else if offset >= 0 {
          PassRegion(was, from, src, i, at, rest);
        }
        i := i + 1;
      }
      if offset >= 0 {
        assert regions[..i] == regions;
        AllRegionsPassed(was, from, src, behind, at, rest, t);
      }
    }
  }

  // ----- When a write of a span strictly inside one word is right -----

  /**
   Such a write does what a write should, whatever lies behind the source, exactly if the block has the data
   already: otherwise it spoils the cells after the span.
   */
  lemma SpiltRightIff(w: width, mem: seq<cell>, regions: seq<Region>, offset: nat, src: seq<cell>, t: nat)
    requires Tiles(regions, |mem|) && t < |Blocks(regions)| && !Whole(w, offset, src)
    requires Blocks(regions)[t].start <= offset < Blocks(regions)[t].End()
    ensures Inside(Blocks(regions), |mem|) && Into(offset, w) <= offset
    ensures offset - Into(offset, w) + w <= Blocks(regions)[t].End() <= |mem|
    ensures (forall behind: seq<cell> | w <= |behind| ::
               SpillAfter(w, mem, Blocks(regions)[t], offset, src, behind) == After(mem, Blocks(regions), offset, src))
            <==> Untouched(mem, Blocks(regions)[t], offset, src)
  {
    hide Blocks, After, Untouched, Spilled, Into, Tiles, Contiguous;
    var bs := Blocks(regions);
    var b := bs[t];
    Facts(regions, |mem|, w, t);
    ChunkReaches(offset, |src|, b.start, b.End(), w);
    if Untouched(mem, b, offset, src) {
      NothingToDo(mem, bs, t, offset, src);
    } else {
      SpoilsNeighbour(w, mem, regions, offset, src, t);
      assert w <= |Zeros(w)|;
    }
  }

  lemma NothingToDo(mem: seq<cell>, bs: seq<Block>, t: nat, offset: nat, src: seq<cell>)
    requires Contiguous(bs, |mem|) && Inside(bs, |mem|) && t < |bs|
    requires bs[t].start <= offset && offset + |src| <= bs[t].End()
    requires Untouched(mem, bs[t], offset, src)
    ensures After(mem, bs, offset, src) == mem
  {
    hide Image, After, Contiguous, Untouched;
    assert StartOf(bs, |mem|, t) == bs[t].start;
    BeforeSpan(mem, bs, t, offset, src);
    ImageSkipOne(mem, bs, t, offset, src);
    AllPassed(mem, bs, t + 1, offset, src);
  }

  /** With a zero behind the source the cell after the span is lost, although the block was erased. */
  lemma SpoilsNeighbour(w: width, mem: seq<cell>, regions: seq<Region>, offset: nat, src: seq<cell>, t: nat)
    requires Tiles(regions, |mem|) && t < |Blocks(regions)| && !Whole(w, offset, src)
    requires var b := Blocks(regions)[t];
             && b.start <= offset < b.End() <= |mem| && Into(offset, w) <= offset
             && offset - Into(offset, w) + w <= b.End()
             && !Untouched(mem, b, offset, src)
    ensures Inside(Blocks(regions), |mem|) && |After(mem, Blocks(regions), offset, src)| == |mem|
    ensures After(mem, Blocks(regions), offset, src)[offset + |src|] == ERASED
    ensures SpillAfter(w, mem, Blocks(regions)[t], offset, src, Zeros(w))[offset + |src|] == 0
  {
    hide Blocks, After, Untouched, Spilled, Into, Tiles, And, Spliced;
    var b, k := Blocks(regions)[t], offset + |src|;
    WriteEffect(mem, regions, offset, src);
    assert RestIs(mem, After(mem, Blocks(regions), offset, src), b, offset, src);
    var erased := Spliced(mem, b.start, Blank(b.size));
    SpilledHead(w, erased, offset, src + Zeros(w), |src|, k);
    BlankInside(mem, b.start, b.size, k);
    AndErased(0);
  }

  lemma BlankInside(mem: seq<cell>, start: nat, size: nat, k: nat)
    requires start <= k < start + size <= |mem|
    ensures Spliced(mem, start, Blank(size))[k] == ERASED
  {
  }

  lemma EndAligned(regions: seq<Region>, total: nat, w: width)
    requires Tiles(regions, total)
    ensures Into(total, w) == 0
  {
    BlocksContiguous(regions, total);
    hide Blocks, Into, Tiles;
    StartAligned(Blocks(regions), total, |Blocks(regions)|, w);
  }

  lemma StartBelow(bs: seq<Block>, total: nat, t: nat)
    requires Contiguous(bs, total) && t <= |bs|
    ensures StartOf(bs, total, t) <= total
  {
    if t < |bs| {
      InOrder(bs, total, t);
    }
  }

  /** A span strictly inside one word is not cut by a word's start. */
  lemma SpanAtOnce(w: width, offset: nat, src: seq<cell>, at: nat, start: nat)
    requires !Whole(w, offset, src) && Into(start, w) == 0 && at == Max(start, offset) && at - offset <= |src|
    ensures start <= offset == at
  {
    if w == 2 {
      InsideTwos(offset, |src|, start);
    } else if w == 4 {
      InsideFours(offset, |src|, start);
    }
  }

  lemma InsideTwos(offset: nat, length: nat, start: nat)
    requires start % 2 == 0 && offset % 2 != 0 && offset % 2 + length < 2
    ensures start <= offset || offset + length < start
  {
  }

  lemma InsideFours(offset: nat, length: nat, start: nat)
    requires start % 4 == 0 && offset % 4 != 0 && offset % 4 + length < 4
    ensures start <= offset || offset + length < start
  {
  }

  /** Blocks that end before the span are left alone. */
  lemma BeforeSpan(was: seq<cell>, bs: seq<Block>, t: nat, offset: nat, src: seq<cell>)
    requires Contiguous(bs, |was|) && Inside(bs, |was|) && t <= |bs| && StartOf(bs, |was|, t) <= offset
    ensures StartOf(bs, |was|, t) <= |was| && Image(was, bs, t, offset, src) == was
  {
    hide Image, After, Contiguous, Untouched;
    ImageAt(was, bs, 0, offset, src);
    forall v | 0 <= v < t
      ensures Untouched(was, bs[v], offset, src)
    {
      Ordered(bs, |was|, v, t);
      NotReached(was, bs, v, offset, src);
    }
    ImageSkip(was, bs, 0, t, offset, src);
  }

  /** A block the write has brought up to date takes the device one block further. */
  lemma StepWhole(w: width, was: seq<cell>, now: seq<cell>, mem: seq<cell>, bs: seq<Block>, t: nat, offset: nat,
                  src: seq<cell>, at: nat, rest: seq<cell>, r: int)
    requires Contiguous(bs, |was|) && Inside(bs, |was|) && t < |bs|
    requires bs[t].End() <= |was| == |now| && StartOf(bs, |was|, t) <= |was|
    requires now == Image(was, bs, t, offset, src) && Whole(w, offset, src) && Into(bs[t].start, w) == 0
    requires at == Max(bs[t].start, offset) && at - offset <= |src| && rest == src[at - offset..]
    requires Whole(w, at, rest) ==> BlockWhole(now, mem, bs[t], at, rest, r)
    ensures SameOutside(now, mem, bs[t].start, bs[t].End())
    ensures StartOf(bs, |was|, t + 1) <= |was| && (r == 0 ==> mem == Image(was, bs, t + 1, offset, src))
  {
    hide Image, BlockAfter, Contiguous, Inside, After, SameOutside, Into;
    ImageAt(was, bs, t, offset, src);
    BlockLocal(was, now, bs, t, offset, src, at, rest);
    RestReaches(offset, src, at, rest, bs[t].start, w);
    SameOutsideIs(now, mem, bs[t].start, bs[t].End());
    if r == 0 {
      ImageStep(was, bs, t, offset, src, now, mem);
    }
  }

  /** The block that a span strictly inside one word lies in is the first the write reaches, and the last. */
  lemma StepSpilt(w: width, was: seq<cell>, now: seq<cell>, bs: seq<Block>, t: nat, offset: nat, src: seq<cell>,
                  at: nat, rest: seq<cell>)
    requires Contiguous(bs, |was|) && Inside(bs, |was|) && t < |bs|
    requires bs[t].End() <= |was| && StartOf(bs, |was|, t) <= |was|
    requires now == Image(was, bs, t, offset, src) && !Whole(w, offset, src)
    requires Into(bs[t].start, w) == 0 && Into(bs[t].End(), w) == 0
    requires at == Max(bs[t].start, offset) < bs[t].End() && at - offset <= |src| && rest == src[at - offset..]
    ensures at == offset && rest == src && now == was && offset + |src| <= bs[t].End()
  {
    hide Image, Contiguous, Inside, Into;
    SpanAtOnce(w, offset, src, at, bs[t].start);
    ChunkReaches(offset, |src|, bs[t].start, bs[t].End(), w);
    BeforeSpan(was, bs, t, offset, src);
  }

  lemma RegionNotReached(regions: seq<Region>, was: seq<cell>, i: nat, offset: nat, src: seq<cell>)
    requires Tiles(regions, |was|) && i < |regions| && Inside(Blocks(regions), |was|)
    requires regions[i].size == 0 || regions[i].offset + regions[i].size <= offset
    ensures var bs, t, u := Blocks(regions), |Blocks(regions[..i])|, |Blocks(regions[..i + 1])|;
            && t <= u <= |bs| && StartOf(bs, |was|, t) <= |was| && StartOf(bs, |was|, u) <= |was|
            && Image(was, bs, u, offset, src) == Image(was, bs, t, offset, src)
  {
    hide Image, Blocks, Untouched, Contiguous, Tiles, StartOf, After;
    var bs, t, u := Blocks(regions), |Blocks(regions[..i])|, |Blocks(regions[..i + 1])|;
    RegionEnds(regions, |was|, i);
    forall v | t <= v < u
      ensures Untouched(was, bs[v], offset, src)
    {
      Ordered(bs, |was|, v, u);
      StartsAfter(bs, |was|, t, v);
      NotReached(was, bs, v, offset, src);
    }
    ImageSkip(was, bs, t, u, offset, src);
  }

  lemma {:induction false} StartsAfter(bs: seq<Block>, end: nat, t: nat, v: nat)
    requires Contiguous(bs, end) && t <= v < |bs|
    ensures StartOf(bs, end, t) <= bs[v].start
  {
    if t < v {
      StartsAfter(bs, end, t, v - 1);
    }
  }

  /** Region i begins and ends where its first block and the one after its last begin. */
  lemma RegionEnds(regions: seq<Region>, total: nat, i: nat)
    requires Tiles(regions, total) && i < |regions|
    ensures var bs, t, u := Blocks(regions), |Blocks(regions[..i])|, |Blocks(regions[..i + 1])|;
            && Contiguous(bs, total) && t <= u == t + regions[i].blocks <= |bs|
            && StartOf(bs, total, t) == regions[i].offset
            && StartOf(bs, total, u) == regions[i].offset + regions[i].size
  {
    BlocksContiguous(regions, total);
    BlockCount(regions, i);
    TilesPrefix(regions, total, i);
    TilesPrefix(regions, total, i + 1);
    RegionStart(regions, total, i);
    RegionStart(regions, total, i + 1);
  }

  lemma {:induction false} BlocksPrefix(regions: seq<Region>, k: nat)
    requires k <= |regions|
    ensures |Blocks(regions[..k])| <= |Blocks(regions)|
    ensures Blocks(regions)[..|Blocks(regions[..k])|] == Blocks(regions[..k])
  {
    if k == |regions| {
      assert regions[..k] == regions;
    } else {
      var n := |regions| - 1;
      BlocksPrefix(regions[..n], k);
      assert regions[..n][..k] == regions[..k];
    }
  }

  lemma RegionStart(regions: seq<Region>, total: nat, k: nat)
    requires Tiles(regions, total) && k <= |regions|
    ensures |Blocks(regions[..k])| <= |Blocks(regions)|
    ensures StartOf(Blocks(regions), total, |Blocks(regions[..k])|) == SizeOf(regions[..k])
  {
    var bs, cs := Blocks(regions), Blocks(regions[..k]);
    BlocksContiguous(regions, total);
    TilesPrefix(regions, total, k);
    BlocksContiguous(regions[..k], SizeOf(regions[..k]));
    BlocksPrefix(regions, k);
    hide Blocks, Tiles, SizeOf;
    if |cs| > 0 {
      assert cs[|cs| - 1] == bs[|cs| - 1];
      InOrder(bs, total, |cs| - 1);
    }
    if |cs| == |bs| {
      assert cs == bs[..|cs|] == bs;
    }
  }

  lemma Begins(regions: seq<Region>, mem: seq<cell>, offset: nat, src: seq<cell>)
    requires Tiles(regions, |mem|)
    ensures var bs := Blocks(regions);
            && Contiguous(bs, |mem|) && Inside(bs, |mem|) && Blocks(regions[..0]) == []
            && StartOf(bs, |mem|, 0) == 0 && Image(mem, bs, 0, offset, src) == mem
  {
    BlocksContiguous(regions, |mem|);
    hide Blocks;
    ImageAt(mem, Blocks(regions), 0, offset, src);
    assert Blocks(regions[..0]) == [] by {
      RegionStart(regions, |mem|, 0);
      NoBlocks(regions[..0]);
    }
  }

  lemma NoBlocks(regions: seq<Region>)
    requires regions == []
    ensures Blocks(regions) == []
  {
  }

  lemma Onward(offset: nat, src: seq<cell>, at: nat, rest: seq<cell>, start: nat, end: nat, chunk: nat)
    requires at == Max(start, offset) < end && at - offset <= |src|
    requires rest == src[at - offset..] && chunk == Min(end - at, |rest|)
    ensures |rest| == chunk ==> offset + |src| <= end
    ensures |rest| != chunk ==>
              end == Max(end, offset) && end - offset < |src| && rest[chunk..] == src[end - offset..] != []
  {
    DropDrop(src, at - offset, chunk);
  }

  lemma DropDrop(s: seq<cell>, a: nat, b: nat)
    requires a + b <= |s|
    ensures s[a..][b..] == s[a + b..]
  {
  }

  lemma SameOutsideIs(s: seq<cell>, t: seq<cell>, a: nat, b: nat)
    requires SameOutside(s, t, a, b)
    ensures b <= |s| == |t| && t[..a] == s[..a] && t[b..] == s[b..]
  {
  }

  lemma Facts(regions: seq<Region>, total: nat, w: width, t: nat)
    requires Tiles(regions, total) && t < |Blocks(regions)|
    ensures var bs := Blocks(regions);
            && Contiguous(bs, total) && Inside(bs, total) && bs[t].start == StartOf(bs, total, t)
            && Into(bs[t].start, w) == 0 && Into(bs[t].End(), w) == 0 && Into(total, w) == 0
            && bs[t].End() == StartOf(bs, total, t + 1)
  {
    var bs := Blocks(regions);
    BlocksContiguous(regions, total);
    AllInside(bs, total);
    InOrder(bs, total, t);
    hide Blocks, Into, Tiles;
    StartAligned(bs, total, t, w);
    StartAligned(bs, total, t + 1, w);
    StartAligned(bs, total, |bs|, w);
  }

  lemma {:induction false} StartAligned(bs: seq<Block>, total: nat, t: nat, w: width)
    requires Contiguous(bs, total) && t <= |bs|
    requires forall u :: 0 <= u < |bs| ==> bs[u].size % 4 == 0
    ensures Into(StartOf(bs, total, t), w) == 0
  {
    if t > 0 {
      StartAligned(bs, total, t - 1, w);
      assert StartOf(bs, total, t) == bs[t - 1].start + bs[t - 1].size;
      FourMore(bs[t - 1].start, bs[t - 1].size, w);
    }
  }

  lemma FourMore(x: nat, n: nat, w: width)
    requires Into(x, w) == 0 && n % 4 == 0
    ensures Into(x + n, w) == 0
  {
    if w == 2 {
      assert (x + n) % 2 == 0;
    } else if w == 4 {
      assert (x + n) % 4 == 0;
    }
  }

  /** The rest of the source does in the block just what the whole source does. */
  lemma BlockLocal(was: seq<cell>, now: seq<cell>, bs: seq<Block>, t: nat, offset: nat, src: seq<cell>, at: nat,
                   rest: seq<cell>)
    requires Contiguous(bs, |was|) && Inside(bs, |was|) && t < |bs| && |now| == |was|
    requires bs[t].End() <= |was| && now == Image(was, bs, t, offset, src)
    requires at == Max(bs[t].start, offset) && at - offset <= |src| && rest == src[at - offset..]
    ensures BlockAfter(now, bs[t], at, rest) == BlockAfter(was, bs[t], offset, src)
  {
    ImageAt(was, bs, t, offset, src);
    var b := bs[t];
    hide BlockAfter, Contiguous, Inside, After;
    TailOfSum(After(was, bs[..t], offset, src), was[b.start..]);
    BlockAfterLocal(was, now, b, offset, src);
    SameSpan(now, b, offset, src, at, rest);
  }

  lemma TailOfSum(s: seq<cell>, t: seq<cell>)
    ensures (s + t)[|s|..] == t
  {
  }

  lemma SameSpan(mem: seq<cell>, b: Block, offset: nat, src: seq<cell>, at: nat, rest: seq<cell>)
    requires b.End() <= |mem| && at == Max(b.start, offset) && at - offset <= |src| && rest == src[at - offset..]
    ensures BlockAfter(mem, b, at, rest) == BlockAfter(mem, b, offset, src)
  {
    hide BlockAfter, Blank, Untouched, Piece, From, To;
    SpanData(b, offset, src, at, rest);
    SpanUntouched(mem, b, offset, src, at, rest);
    if Untouched(mem, b, offset, src) {
      BlockKept(mem, b, offset, src);
      BlockKept(mem, b, at, rest);
    } else {
      BlockFilled(mem, b, offset, src);
      BlockFilled(mem, b, at, rest);
    }
  }

  lemma SpanData(b: Block, offset: nat, src: seq<cell>, at: nat, rest: seq<cell>)
    requires at == Max(b.start, offset) && at - offset <= |src| && rest == src[at - offset..]
    ensures var lo, hi := From(b, offset), To(b, offset, |src|);
            && From(b, at) == lo == at && To(b, at, |rest|) == hi
            && Piece(rest, at, lo, hi) == Piece(src, offset, lo, hi)
  {
    var lo, hi := From(b, offset), To(b, offset, |src|);
    if lo < hi {
      TailSlice(src, lo - offset, hi - lo);
      assert rest[0..hi - at] == rest[..hi - lo];
    }
  }

  lemma SpanUntouched(mem: seq<cell>, b: Block, offset: nat, src: seq<cell>, at: nat, rest: seq<cell>)
    requires b.End() <= |mem| && at == Max(b.start, offset) && at - offset <= |src| && rest == src[at - offset..]
    ensures Untouched(mem, b, at, rest) <==> Untouched(mem, b, offset, src)
  {
    hide From, To, Piece;
    SpanData(b, offset, src, at, rest);
  }

  lemma TailSlice(s: seq<cell>, x: nat, n: nat)
    requires x + n <= |s|
    ensures s[x..][..n] == s[x..x + n]
  {
  }

  lemma RestReaches(offset: nat, src: seq<cell>, at: nat, rest: seq<cell>, start: nat, w: width)
    requires src == [] || Into(offset, w) == 0 || Into(offset, w) + |src| >= w
    requires Into(start, w) == 0 && at == Max(start, offset) && at - offset <= |src| && rest == src[at - offset..]
    ensures rest == [] || Into(at, w) == 0 || Into(at, w) + |rest| >= w
  {
  }

  /** Once the source is used up the remaining blocks are not reached. */
  lemma AllPassed(was: seq<cell>, bs: seq<Block>, t: nat, offset: nat, src: seq<cell>)
    requires Contiguous(bs, |was|) && Inside(bs, |was|) && 0 < t <= |bs|
    requires offset + |src| <= bs[t - 1].End()
    ensures StartOf(bs, |was|, t) <= |was| && Image(was, bs, t, offset, src) == After(was, bs, offset, src)
  {
    hide Image, After, Contiguous, Untouched;
    forall v | t <= v < |bs|
      ensures Untouched(was, bs[v], offset, src)
    {
      Ordered(bs, |was|, t - 1, v);
      Behind(was, bs[v], offset, src);
    }
    ImageAt(was, bs, |bs|, offset, src);
    ImageSkip(was, bs, t, |bs|, offset, src);
  }

  lemma Behind(was: seq<cell>, b: Block, offset: nat, src: seq<cell>)
    requires b.End() <= |was| && offset + |src| <= b.start
    ensures Untouched(was, b, offset, src)
  {
  }

  lemma {:induction false} Ordered(bs: seq<Block>, end: nat, v: nat, u: nat)
    requires Contiguous(bs, end) && v < u <= |bs|
    ensures bs[v].End() <= StartOf(bs, end, u)
  {
    if v + 1 < u {
      Ordered(bs, end, v, u - 1);
    }
  }

  lemma NotReached(was: seq<cell>, bs: seq<Block>, t: nat, offset: nat, src: seq<cell>)
    requires Inside(bs, |was|) && t < |bs| && bs[t].End() <= Max(bs[t].start, offset)
    ensures Untouched(was, bs[t], offset, src)
  {
  }

  lemma ChunkIs(mem: seq<cell>, b: Block, offset: nat, src: seq<cell>)
    requires b.End() <= |mem| && b.start <= offset < b.End()
    ensures var chunk := Min(b.End() - offset, |src|);
            && 0 <= chunk <= |src| && (Untouched(mem, b, offset, src) <==> src[..chunk] == mem[offset..offset + chunk])
            && (Untouched(mem, b, offset, src) ==> BlockAfter(mem, b, offset, src) == mem[b.start..b.End()])
            && (!Untouched(mem, b, offset, src) ==>
                  BlockAfter(mem, b, offset, src) ==
                      Blank(offset - b.start) + src[..chunk] + Blank(b.End() - offset - chunk))
  {
    hide BlockAfter, Blank, Piece;
    var chunk := Min(b.End() - offset, |src|);
    assert From(b, offset) == offset && To(b, offset, |src|) == offset + chunk;
    hide From, To;
    PieceIsSlice(src, offset, offset, chunk);
    PieceIsSlice(mem, 0, offset, chunk);
    assert src[0..chunk] == src[..chunk];
    if Untouched(mem, b, offset, src) {
      hide Untouched;
      BlockKept(mem, b, offset, src);
    } else {
      hide Untouched;
      BlockFilled(mem, b, offset, src);
    }
  }

  lemma PieceIsSlice(data: seq<cell>, offset: nat, lo: nat, n: nat)
    requires offset <= lo && lo + n <= offset + |data|
    ensures Piece(data, offset, lo, lo + n) == data[lo - offset..lo - offset + n]
  {
  }

  lemma Prefix(src: seq<cell>, behind: seq<cell>, n: nat)
    requires n <= |src|
    ensures (src + behind)[..n] == src[..n]
  {
  }

  /** Erasing and programming a span that is whole does to the block what the write should. */
  lemma ProgrammedWhole(w: width, was: seq<cell>, now: seq<cell>, mem: seq<cell>, b: Block, offset: nat,
                        src: seq<cell>, r: int)
    requires b.start <= offset < b.End() <= |was| && !Untouched(was, b, offset, src)
    requires now == Spliced(was, b.start, Blank(b.size)) && SameOutside(was, now, b.start, b.End())
    requires b.start <= offset - Into(offset, w)
    requires var n := Min(b.End() - offset, |src|);
             && WordEnd(offset + n, w) <= b.End()
             && SameOutside(now, mem, offset - Into(offset, w), WordEnd(offset + n, w))
             && (r == 0 ==> mem == Spliced(now, offset, src[..n]))
    ensures BlockWhole(was, mem, b, offset, src, r)
  {
    hide Spliced, Into, WordEnd, Blank, Untouched, BlockAfter, SameOutside;
    var n := Min(b.End() - offset, |src|);
    ChunkIs(was, b, offset, src);
    BlockWritten(was, b.start, b.size, offset, src[..n]);
    SameOutsideStep(was, now, mem, b.start, b.End(), offset - Into(offset, w), WordEnd(offset + n, w));
  }

  lemma ProgrammedSpilt(w: width, was: seq<cell>, now: seq<cell>, mem: seq<cell>, b: Block, offset: nat,
                        src: seq<cell>, behind: seq<cell>, r: int)
    requires b.start <= offset < b.End() <= |was| && !Untouched(was, b, offset, src)
    requires !Whole(w, offset, src) && w <= |behind|
    requires now == Spliced(was, b.start, Blank(b.size)) && SameOutside(was, now, b.start, b.End())
    requires b.start <= offset - Into(offset, w) && offset - Into(offset, w) + w <= b.End()
    requires SameOutside(now, mem, offset - Into(offset, w), SpillEnd(offset, |was|, w))
    requires r == 0 ==> mem == Spilled(w, now, offset, src + behind, |src|)
    ensures BlockSpilt(w, was, mem, b, offset, src, behind, r)
  {
    hide Spliced, Into, Blank, Spilled, SpillEnd, Untouched, SameOutside;
    var limit := SpillLimit(w, b, offset, |was|);
    LimitFits(w, b, offset, |was|);
    SameOutsideMore(was, now, b.start, b.End(), b.start, limit);
    SameOutsideStep(was, now, mem, b.start, limit, offset - Into(offset, w), SpillEnd(offset, |was|, w));
  }

  lemma LimitFits(w: width, b: Block, offset: nat, size: nat)
    requires b.End() <= size && Into(offset, w) <= offset && offset - Into(offset, w) + w <= b.End()
    ensures b.End() <= SpillLimit(w, b, offset, size) <= size
    ensures SpillEnd(offset, size, w) <= SpillLimit(w, b, offset, size)
  {
    hide Into;
  }

  /** An erase that failed changed nothing outside the block. */
  lemma NotErased(w: width, was: seq<cell>, mem: seq<cell>, b: Block, offset: nat, src: seq<cell>, behind: seq<cell>,
                  r: int)
    requires b.start <= offset < b.End() <= |was| && w <= |behind| && r != 0 && SameOutside(was, mem, b.start, b.End())
    requires b.start <= offset - Into(offset, w) && offset - Into(offset, w) + w <= b.End()
    ensures Whole(w, offset, src) ==> BlockWhole(was, mem, b, offset, src, r)
    ensures !Whole(w, offset, src) ==> BlockSpilt(w, was, mem, b, offset, src, behind, r)
  {
    hide Into, BlockAfter, SameOutside;
    LimitFits(w, b, offset, |was|);
    SameOutsideMore(was, mem, b.start, b.End(), b.start, SpillLimit(w, b, offset, |was|));
  }

  lemma LeftAlone(w: width, mem: seq<cell>, b: Block, offset: nat, src: seq<cell>, behind: seq<cell>)
    requires b.start <= offset < b.End() <= |mem| && w <= |behind| && Untouched(mem, b, offset, src)
    requires b.start <= offset - Into(offset, w) && offset - Into(offset, w) + w <= b.End()
    ensures Whole(w, offset, src) ==> BlockWhole(mem, mem, b, offset, src, 0)
    ensures !Whole(w, offset, src) ==> BlockSpilt(w, mem, mem, b, offset, src, behind, 0)
  {
    hide Into, BlockAfter, SameOutside, Untouched, Blank;
    ChunkIs(mem, b, offset, src);
    LimitFits(w, b, offset, |mem|);
    SameOutsideSelf(mem, b.start, b.End());
    SameOutsideSelf(mem, b.start, SpillLimit(w, b, offset, |mem|));
  }

  /**
   The part of a span that lies in one block touches no word outside it, and ends its first word as the whole
   span does; a span strictly inside one word lies in one block.
   */
  lemma ChunkReaches(offset: nat, length: nat, start: nat, end: nat, w: width)
    requires Into(start, w) == 0 && Into(end, w) == 0 && start <= offset < end
    ensures var chunk := Min(end - offset, length);
            && Into(offset, w) <= offset && start <= offset - Into(offset, w) && offset - Into(offset, w) + w <= end
            && (ReachesWordEnd(w, offset, length) <==> ReachesWordEnd(w, offset, chunk))
            && WordEnd(offset + chunk, w) <= end
            && (!ReachesWordEnd(w, offset, length) ==> chunk == length)
  {
    var chunk := Min(end - offset, length);
    if w == 2 {
      TwosReach(offset, chunk, start, end);
    } else if w == 4 {
      FoursReach(offset, chunk, start, end);
    }
  }

  lemma TwosReach(offset: nat, chunk: nat, start: nat, end: nat)
    requires start % 2 == 0 && end % 2 == 0 && start <= offset < end && offset + chunk <= end
    ensures start <= offset - offset % 2 && offset - offset % 2 + 2 <= end
    ensures (offset + chunk) % 2 != 0 ==> offset + chunk + (2 - (offset + chunk) % 2) <= end
  {
  }

  lemma FoursReach(offset: nat, chunk: nat, start: nat, end: nat)
    requires start % 4 == 0 && end % 4 == 0 && start <= offset < end && offset + chunk <= end
    ensures start <= offset - offset % 4 && offset - offset % 4 + 4 <= end
    ensures (offset + chunk) % 4 != 0 ==> offset + chunk + (4 - (offset + chunk) % 4) <= end
  {
  }

  lemma ErasedSpan(mem: seq<cell>, start: nat, size: nat, offset: nat, n: nat)
    requires start <= offset && offset + n <= start + size <= |mem|
    ensures AllErased(Spliced(mem, start, Blank(size))[offset..offset + n])
  {
  }

  /** A block erased and then programmed with data. */
  lemma BlockWritten(mem: seq<cell>, start: nat, size: nat, offset: nat, data: seq<cell>)
    requires start <= offset && offset + |data| <= start + size <= |mem|
    ensures Spliced(Spliced(mem, start, Blank(size)), offset, data)[start..start + size] ==
            Blank(offset - start) + data + Blank(start + size - offset - |data|)
  {
    var p, q := offset - start, start + size - offset - |data|;
    var erased := Spliced(mem, start, Blank(size));
    assert erased[..offset] == mem[..start] + Blank(p);
    assert erased[offset + |data|..] == Blank(q) + mem[start + size..];
    hide Blank, Spliced;
    Middle(mem[..start], Blank(p) + data + Blank(q), mem[start + size..]);
    assert Spliced(erased, offset, data) == mem[..start] + (Blank(p) + data + Blank(q)) + mem[start + size..] by {
      Regroup(erased, mem[..start], Blank(p), data, Blank(q), mem[start + size..]);
    }
  }

  lemma Middle(s: seq<cell>, t: seq<cell>, u: seq<cell>)
    ensures (s + t + u)[|s|..|s| + |t|] == t
  {
  }

  lemma Regroup(m: seq<cell>, s: seq<cell>, p: seq<cell>, data: seq<cell>, q: seq<cell>, u: seq<cell>)
    requires |s| + |p| + |data| <= |m|
    requires m[..|s| + |p|] == s + p && m[|s| + |p| + |data|..] == q + u
    ensures Spliced(m, |s| + |p|, data) == s + (p + data + q) + u
  {
    var r := Spliced(m, |s| + |p|, data);
    assert r == (s + p) + data + (q + u);
  }
}
