/** The erase regions and erase blocks of a flash device. */
module FlashRegions {
  /** A run of equal erase blocks. */
  datatype Region = Region(offset: nat, size: nat, blocks: nat, blockSize: nat)

  function SizeOf(regions: seq<Region>): nat {
    if regions == [] then 0 else SizeOf(regions[..|regions| - 1]) + regions[|regions| - 1].size
  }

  /**
   Regions follow one another from 0 to total, each as large as its blocks, whose size is a multiple of any
   native word.
   */
  ghost predicate Tiles(regions: seq<Region>, total: nat) {
    && total == SizeOf(regions)
    && forall i :: 0 <= i < |regions| ==>
         && regions[i].offset == SizeOf(regions[..i])
         && regions[i].size == regions[i].blocks * regions[i].blockSize
         && regions[i].blockSize % 4 == 0
  }

  lemma TilesPrefix(regions: seq<Region>, total: nat, n: nat)
    requires Tiles(regions, total) && n <= |regions|
    ensures Tiles(regions[..n], SizeOf(regions[..n]))
    ensures n < |regions| ==> SizeOf(regions[..n + 1]) == SizeOf(regions[..n]) + regions[n].size
    ensures n < |regions| ==> regions[n].offset == SizeOf(regions[..n])
  {
    forall i | 0 <= i < n
      ensures regions[..n][..i] == regions[..i]
    {
    }
    if n < |regions| {
      assert regions[..n + 1][..n] == regions[..n];
    }
  }

  datatype Block = Block(start: nat, size: nat)
  {
    function End(): nat {
      start + size
    }
  }

  function RegionBlocks(start: nat, n: nat, size: nat): (bs: seq<Block>)
    ensures |bs| == n
  {
    seq(n, j requires 0 <= j < n => Block(start + j * size, size))
  }

  /** All erase blocks, in order. */
  function Blocks(regions: seq<Region>): seq<Block> {
    if regions == [] then []
    else
      var r := regions[|regions| - 1];
      Blocks(regions[..|regions| - 1]) + RegionBlocks(r.offset, r.blocks, r.blockSize)
  }

  /** Blocks follow one another from 0 to end. */
  ghost predicate Contiguous(bs: seq<Block>, end: nat) {
    && (bs == [] ==> end == 0)
    && (bs != [] ==> bs[0].start == 0 && bs[|bs| - 1].End() == end)
    && forall t :: 0 < t < |bs| ==> bs[t].start == bs[t - 1].End()
  }

  lemma {:induction false} BlocksContiguous(regions: seq<Region>, total: nat)
    requires Tiles(regions, total)
    ensures Contiguous(Blocks(regions), total)
    ensures forall t :: 0 <= t < |Blocks(regions)| ==> Blocks(regions)[t].size % 4 == 0
  {
    if regions != [] {
      var n := |regions| - 1;
      var r := regions[n];
      TilesPrefix(regions, total, n);
      BlocksContiguous(regions[..n], SizeOf(regions[..n]));
      RegionContiguous(r);
      AppendContiguous(Blocks(regions[..n]), r.offset, RegionBlocks(r.offset, r.blocks, r.blockSize), total);
    }
  }

  lemma RegionContiguous(r: Region)
    requires r.size == r.blocks * r.blockSize
    ensures var bs := RegionBlocks(r.offset, r.blocks, r.blockSize);
            && (bs == [] ==> r.size == 0)
            && (bs != [] ==> bs[0].start == r.offset && bs[|bs| - 1].End() == r.offset + r.size)
            && (forall t :: 0 < t < |bs| ==> bs[t].start == bs[t - 1].End())
            && (forall t :: 0 <= t < |bs| ==> bs[t].size == r.blockSize)
  {
    var bs := RegionBlocks(r.offset, r.blocks, r.blockSize);
    forall t | 0 < t < |bs|
      ensures bs[t].start == bs[t - 1].End()
    {
      Multiple(t, r.blockSize);
    }
    if r.blocks > 0 {
      Multiple(r.blocks, r.blockSize);
    }
  }

  lemma Multiple(t: nat, size: nat)
    requires t > 0
    ensures t * size == (t - 1) * size + size
  {
  }

  lemma AppendContiguous(bs: seq<Block>, mid: nat, cs: seq<Block>, end: nat)
    requires Contiguous(bs, mid)
    requires cs == [] ==> end == mid
    requires cs != [] ==> cs[0].start == mid && cs[|cs| - 1].End() == end
    requires forall t :: 0 < t < |cs| ==> cs[t].start == cs[t - 1].End()
    ensures Contiguous(bs + cs, end)
  {
    var ds := bs + cs;
    forall t | 0 < t < |ds|
      ensures ds[t].start == ds[t - 1].End()
    {
      if t > |bs| {
        assert ds[t] == cs[t - |bs|] && ds[t - 1] == cs[t - |bs| - 1];
      }
    }
  }

  /** Where block j of a region starts. */
  function Nth(r: Region, j: nat): nat {
    r.offset + j * r.blockSize
  }

  lemma NthNext(r: Region, j: nat)
    ensures Nth(r, 0) == r.offset && Nth(r, j + 1) == Nth(r, j) + r.blockSize
  {
    Multiple(j + 1, r.blockSize);
  }

  /** Block j of region i is number j after those of the regions before it. */
  lemma {:induction false} BlockAt(regions: seq<Region>, i: nat, j: nat)
    requires i < |regions| && j < regions[i].blocks
    ensures var t := |Blocks(regions[..i])| + j;
            t < |Blocks(regions)| && Blocks(regions)[t] == Block(Nth(regions[i], j), regions[i].blockSize)
    ensures |Blocks(regions[..i + 1])| == |Blocks(regions[..i])| + regions[i].blocks
    decreases |regions|
  {
    var n := |regions| - 1;
    if i < n {
      assert regions[..n][..i] == regions[..i] && regions[..n][..i + 1] == regions[..i + 1];
      BlockAt(regions[..n], i, j);
    } else {
      assert regions[..i + 1] == regions;
    }
  }

  lemma {:induction false} BlockCount(regions: seq<Region>, i: nat)
    requires i < |regions|
    ensures |Blocks(regions[..i + 1])| == |Blocks(regions[..i])| + regions[i].blocks
  {
    assert regions[..i + 1][..i] == regions[..i];
  }
}
