/** Building the erase region table of a flash device from its CFI query data. */
module CfiTable {
  import opened NumberTheory
  import opened Bits
  import opened FlashRegions

  const MAX_REGIONS: nat := 8
  const ENOMEM: int := 12
  const ENODEV: int := 19
  const EIO: int := 5

  const ALG_INTEL_STRATA: byte := 1
  const ALG_AMD: byte := 2
  const ALG_INTEL: byte := 3
  const TOP_BOOT: byte := 3

  type query = q: seq<byte> | |q| == 256 witness seq(256, _ => 0)

  function Entry16(q: query, address: nat): nat
    requires address + 1 < 256
  {
    q[address] as int + 0x100 * q[address + 1] as int
  }

  function RegionCount(q: query): nat {
    q[0x2C]
  }

  function DeviceSize(q: query): nat {
    Pow(2, q[0x27])
  }

  /** What the query says of region i; where the region lies is not part of it. */
  function Described(q: query, i: nat): Region
    requires i < MAX_REGIONS
  {
    var blocks, size := Entry16(q, 0x2D + 4 * i) + 1, Entry16(q, 0x2F + 4 * i) * 256;
    Region(0, blocks * size, blocks, size)
  }

  function AllDescribed(q: query): (rs: seq<Region>)
    requires RegionCount(q) <= MAX_REGIONS
    ensures |rs| == RegionCount(q)
  {
    seq(RegionCount(q), i requires 0 <= i < RegionCount(q) => Described(q, i))
  }

  /** What the four bytes of a region can say. */
  predicate Describable(r: Region) {
    && r.offset == 0 && 1 <= r.blocks <= 0x1_0000 && r.blockSize % 256 == 0 && r.blockSize < 0x100_0000
    && r.size == r.blocks * r.blockSize
  }

  /** The number of blocks less one, then the size of a block in units of 256 bytes, each low byte first. */
  function RegionBytes(r: Region): (s: seq<byte>)
    requires Describable(r)
    ensures |s| == 4
  {
    var more, units := r.blocks - 1, r.blockSize / 256;
    [more % 256, more / 256, units % 256, units / 256]
  }

  /** The query of a device of 2^k bytes with these regions. */
  ghost predicate Describes(q: query, k: nat, rs: seq<Region>) {
    && q[0x27] == k && q[0x2C] == |rs| <= MAX_REGIONS
    && forall i :: 0 <= i < |rs| ==> Describable(rs[i]) && q[0x2D + 4 * i..][..4] == RegionBytes(rs[i])
  }

  /** The regions and the size of the device are read back as they are described. */
  lemma RegionsDescribed(q: query, k: nat, rs: seq<Region>)
    requires Describes(q, k, rs)
    ensures AllDescribed(q) == rs && DeviceSize(q) == Pow(2, k)
  {
    hide Described, Describable, RegionBytes;
    forall i | 0 <= i < |rs|
      ensures Described(q, i) == rs[i]
    {
      RegionDescribed(q, i, rs[i]);
    }
  }

  lemma RegionDescribed(q: query, i: nat, r: Region)
    requires i < MAX_REGIONS && Describable(r) && q[0x2D + 4 * i..][..4] == RegionBytes(r)
    ensures Described(q, i) == r
  {
    var s := q[0x2D + 4 * i..][..4];
    assert forall j :: 0 <= j < 4 ==> q[0x2D + 4 * i + j] == s[j];
    assert Entry16(q, 0x2D + 4 * i) == s[0] as int + 0x100 * s[1] as int;
    assert Entry16(q, 0x2F + 4 * i) == s[2] as int + 0x100 * s[3] as int;
    Halves(r.blocks - 1);
    Halves(r.blockSize / 256);
  }

  lemma Halves(v: nat)
    requires v < 0x1_0000
    ensures v % 256 + 0x100 * (v / 256) == v
  {
  }

  function Reversed(rs: seq<Region>): (s: seq<Region>)
    ensures |s| == |rs|
  {
    if rs == [] then [] else Reversed(rs[1..]) + [rs[0]]
  }

  /** AMD parts describe a top-boot device from its far end. */
  function InAddressOrder(q: query, bootMode: byte): seq<Region>
    requires RegionCount(q) <= MAX_REGIONS
  {
    if q[0x13] == ALG_AMD && bootMode == TOP_BOOT then Reversed(AllDescribed(q)) else AllDescribed(q)
  }

  /** r is the region d, wherever it lies. */
  predicate Same(r: Region, d: Region) {
    r.size == d.size && r.blocks == d.blocks && r.blockSize == d.blockSize
  }

  /** The regions laid out one after the other. */
  function LaidOut(rs: seq<Region>): (s: seq<Region>)
    ensures |s| == |rs|
  {
    if rs == [] then []
    else
      var n := |rs| - 1;
      LaidOut(rs[..n]) + [rs[n].(offset := SizeOf(rs[..n]))]
  }

  lemma {:induction false} ReversedAt(rs: seq<Region>, i: nat)
    requires i < |rs|
    ensures Reversed(rs)[i] == rs[|rs| - 1 - i]
  {
    if i < |rs| - 1 {
      ReversedAt(rs[1..], i);
    }
  }

  lemma {:induction false} SizeOfAppend(rs: seq<Region>, r: Region)
    ensures SizeOf(rs + [r]) == SizeOf(rs) + r.size
  {
    assert (rs + [r])[..|rs|] == rs;
  }

  lemma SizeOfNext(rs: seq<Region>, i: nat)
    requires i < |rs|
    ensures SizeOf(rs[..i + 1]) == SizeOf(rs[..i]) + rs[i].size
  {
    assert rs[..i + 1] == rs[..i] + [rs[i]];
    SizeOfAppend(rs[..i], rs[i]);
  }

  lemma {:induction false} SizeOfCons(rs: seq<Region>)
    requires rs != []
    ensures SizeOf(rs) == rs[0].size + SizeOf(rs[1..])
  {
    if |rs| > 1 {
      var n := |rs| - 1;
      SizeOfCons(rs[..n]);
      assert rs[..n][1..] == rs[1..][..n - 1];
    }
  }

  lemma {:induction false} ReversedSize(rs: seq<Region>)
    ensures SizeOf(Reversed(rs)) == SizeOf(rs)
  {
    if rs != [] {
      assert Reversed(rs) == Reversed(rs[1..]) + [rs[0]];
      hide Reversed, SizeOf;
      ReversedSize(rs[1..]);
      SizeOfAppend(Reversed(rs[1..]), rs[0]);
      SizeOfCons(rs);
    }
  }

  lemma {:induction false} LaidOutAt(rs: seq<Region>, i: nat)
    requires i < |rs|
    ensures LaidOut(rs)[i] == rs[i].(offset := SizeOf(rs[..i]))
    decreases |rs|
  {
    var n := |rs| - 1;
    if i < n {
      LaidOutAt(rs[..n], i);
      assert rs[..n][..i] == rs[..i];
    }
  }

  lemma {:induction false} LaidOutSize(rs: seq<Region>, k: nat)
    requires k <= |rs|
    ensures SizeOf(LaidOut(rs)[..k]) == SizeOf(rs[..k])
  {
    if k > 0 {
      LaidOutSize(rs, k - 1);
      LaidOutAt(rs, k - 1);
      assert LaidOut(rs)[..k][..k - 1] == LaidOut(rs)[..k - 1] && rs[..k][..k - 1] == rs[..k - 1];
    }
  }

  /** Laid-out regions tile the device if their sizes are those of their blocks. */
  lemma LaidOutTiles(rs: seq<Region>)
    requires forall i :: 0 <= i < |rs| ==> rs[i].size == rs[i].blocks * rs[i].blockSize && rs[i].blockSize % 4 == 0
    ensures Tiles(LaidOut(rs), SizeOf(rs))
  {
    var s := LaidOut(rs);
    forall i | 0 <= i < |s|
      ensures s[i].offset == SizeOf(s[..i]) && s[i].size == s[i].blocks * s[i].blockSize && s[i].blockSize % 4 == 0
    {
      LaidOutAt(rs, i);
      LaidOutSize(rs, i);
    }
    LaidOutSize(rs, |rs|);
    assert s[..|s|] == s && rs[..|rs|] == rs;
  }

  /** Whatever order the regions are in, they tile a device of the size they add up to. */
  lemma TableTiles(q: query, bootMode: byte)
    requires RegionCount(q) <= MAX_REGIONS
    ensures Tiles(LaidOut(InAddressOrder(q, bootMode)), SizeOf(AllDescribed(q)))
  {
    var rs, s := AllDescribed(q), InAddressOrder(q, bootMode);
    ReversedSize(rs);
    forall i | 0 <= i < |s|
      ensures s[i].size == s[i].blocks * s[i].blockSize && s[i].blockSize % 4 == 0
    {
      ReversedAt(rs, i);
      var j := if q[0x13] == ALG_AMD && bootMode == TOP_BOOT then |rs| - 1 - i else i;
      assert s[i] == Described(q, j);
      FourTimes(Entry16(q, 0x2F + 4 * j));
    }
    LaidOutTiles(s);
  }

  lemma FourTimes(x: nat)
    ensures (x * 256) % 4 == 0
  {
  }

  /** Read the regions as the query describes them; returns the sum of their sizes. */
  method ReadRegions(q: query, table: array<Region>) returns (size: nat)
    requires RegionCount(q) <= MAX_REGIONS <= table.Length
    modifies table
    ensures size == SizeOf(AllDescribed(q))
    ensures forall k :: 0 <= k < RegionCount(q) ==> Same(table[k], AllDescribed(q)[k])
  {
    hide Described;
    size := 0;
    var i: nat := 0;
    ghost var rs := AllDescribed(q);
    while i < RegionCount(q)
      invariant i <= RegionCount(q) && size == SizeOf(rs[..i])
      invariant forall k :: 0 <= k < i ==> Same(table[k], rs[k])
    {
      table[i] := Described(q, i).(offset := table[i].offset);
      size := size + table[i].size;
      SizeOfNext(rs, i);
      i := i + 1;
    }
    assert rs[..i] == rs;
  }

  /** Reverse the first n regions in place, all but where they lie. */
  method ReverseRegions(table: array<Region>, n: nat, ghost rs: seq<Region>)
    requires n == |rs| <= table.Length
    requires forall k :: 0 <= k < n ==> Same(table[k], rs[k])
    modifies table
    ensures forall k :: 0 <= k < n ==> Same(table[k], Reversed(rs)[k])
  {
    hide Reversed;
    ghost var rev := Reversed(rs);
    var i: int, j: int := n - 1, 0;
    while j <= i
      invariant 0 <= j && i == n - 1 - j && j <= i + 2
      invariant forall k :: 0 <= k < j ==> Same(table[k], rev[k])
      invariant forall k :: i < k < n ==> Same(table[k], rev[k])
      invariant forall k :: j <= k <= i ==> Same(table[k], rs[k])
    {
      ReversedAt(rs, j);
      ReversedAt(rs, i);
      var far, near := table[i], table[j];
      table[i] := near.(offset := far.offset);
      table[j] := far.(offset := near.offset);
      i, j := i - 1, j + 1;
    }
  }

  /** Give every region its place after those before it. */
  method PlaceRegions(table: array<Region>, n: nat, ghost rs: seq<Region>)
    requires n == |rs| <= table.Length
    requires forall k :: 0 <= k < n ==> Same(table[k], rs[k])
    modifies table
    ensures table[..n] == LaidOut(rs)
  {
    hide SizeOf, LaidOut;
    ghost var placed := LaidOut(rs);
    var offset, i: nat := 0, 0;
    assert SizeOf(rs[..0]) == 0 by { NoRegions(rs[..0]); }
    while i < n
      invariant i <= n && offset == SizeOf(rs[..i])
      invariant forall k :: 0 <= k < i ==> table[k] == placed[k]
      invariant forall k :: i <= k < n ==> Same(table[k], rs[k])
    {
      LaidOutAt(rs, i);
      SizeOfNext(rs, i);
      table[i] := table[i].(offset := offset);
      offset := offset + table[i].size;
      i := i + 1;
    }
  }

  lemma NoRegions(rs: seq<Region>)
    requires rs == []
    ensures SizeOf(rs) == 0
  {
  }

  /**
   Read the table; a return of 0 means the regions tile the device exactly, in address order. What the
   check of the primary vendor table returned comes first.
   */
  method ReadTable(q: query, primary: int, bootMode: byte, table: array<Region>) returns (r: int)
    requires table.Length == MAX_REGIONS
    modifies table
    ensures primary != 0 ==> r == primary && table[..] == old(table[..])
    ensures r == 0 <==>
              && primary == 0 && RegionCount(q) <= MAX_REGIONS && SizeOf(AllDescribed(q)) == DeviceSize(q)
              && (q[0x13] == ALG_AMD || q[0x13] == ALG_INTEL || q[0x13] == ALG_INTEL_STRATA)
    ensures primary == 0 && RegionCount(q) > MAX_REGIONS ==> r == -ENOMEM
    ensures r == 0 ==>
              && table[..RegionCount(q)] == LaidOut(InAddressOrder(q, bootMode))
              && Tiles(table[..RegionCount(q)], DeviceSize(q))
  {
    hide AllDescribed, Reversed, LaidOut, Tiles, DeviceSize, RegionCount;
    r := primary;
    if r != 0 {
      return;
    }
    var n := RegionCount(q);
    if n > MAX_REGIONS {
      return -ENOMEM;
    }
    var size := ReadRegions(q, table);
    if size != DeviceSize(q) {
      r := -ENODEV;
    }
    ghost var rs := AllDescribed(q);
    if q[0x13] == ALG_AMD && bootMode == TOP_BOOT {
      ReverseRegions(table, n, rs);
    }
    PlaceRegions(table, n, InAddressOrder(q, bootMode));
    TableTiles(q, bootMode);
    if q[0x13] != ALG_AMD && q[0x13] != ALG_INTEL && q[0x13] != ALG_INTEL_STRATA {
      r := -EIO;
    }
  }
}
