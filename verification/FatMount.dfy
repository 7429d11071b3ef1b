/** Where a mounted volume keeps its tables and data, and that these areas do not interfere. */
module FatMount {
  import opened Bits
  import opened BlockDevice
  import opened FatLayout
  import opened FatVolume

  /** The boot record fields the mount uses. */
  datatype BootRecord = BootRecord(fat32: bool, partition: u32, reserved: u32, fats: u32, fatSize: u32,
                                   rootEntries: u32, perCluster: nat)

  type record = b: BootRecord | 1 <= b.perCluster < 256 witness BootRecord(false, 0, 0, 0, 0, 0, 1)

  function MountLayout(b: record): layout {
    var fatStart := Wrap32(b.partition + b.reserved);
    var rootStart := Wrap32(fatStart + Wrap32(b.fats * b.fatSize));
    var dataStart := Wrap32(rootStart + Wrap32(Wrap32(b.rootEntries * DIRECTORY_ENTRY) + (SECTOR - 1)) / SECTOR);
    Volume(b.fat32, fatStart, rootStart, dataStart, b.perCluster)
  }

  /** The tables end below the 32-bit limit, so that no sum of the mount wraps. */
  predicate Fits(b: record) {
    && b.partition + b.reserved + b.fats * b.fatSize + b.rootEntries < U32
    && b.rootEntries * DIRECTORY_ENTRY + SECTOR < U32
  }

  /**
   The FAT type and cluster size are the boot record's; the areas follow one another, each as large as what it
   holds.
   */
  lemma AreasInOrder(b: record)
    requires Fits(b)
    ensures var v := MountLayout(b);
            && v.fat32 == b.fat32 && v.perCluster == b.perCluster
            && v.fatStart == b.partition + b.reserved
            && v.rootStart == v.fatStart + b.fats * b.fatSize
            && v.rootStart <= v.dataStart
            && SECTOR * (v.dataStart - v.rootStart) - SECTOR < b.rootEntries * DIRECTORY_ENTRY
            && b.rootEntries * DIRECTORY_ENTRY <= SECTOR * (v.dataStart - v.rootStart)
  {
    SectorsFor(b.rootEntries * DIRECTORY_ENTRY);
    var tables := b.fats * b.fatSize;
    assert tables >= 0 by { MulMono(b.fatSize, 0, b.fats); }
    NoWrap(b.partition, b.reserved, tables, b.rootEntries * DIRECTORY_ENTRY);
  }

  lemma NoWrap(partition: u32, reserved: u32, tables: nat, root: nat)
    requires partition + reserved + tables + root / 32 < U32 && root + SECTOR < U32
    ensures Wrap32(partition + reserved) == partition + reserved
    ensures Wrap32(tables) == tables
    ensures Wrap32(partition + reserved + tables) == partition + reserved + tables
    ensures Wrap32(root) == root && Wrap32(root + (SECTOR - 1)) == root + (SECTOR - 1)
  {
  }

  lemma SectorsFor(n: nat)
    ensures 0 <= (n + (SECTOR - 1)) / SECTOR <= n / 32 + 1
    ensures SECTOR * ((n + (SECTOR - 1)) / SECTOR) - SECTOR < n <= SECTOR * ((n + (SECTOR - 1)) / SECTOR)
  {
  }

  /** Every root directory entry lies in the root area. */
  lemma DirectoryInRoot(b: record, i: u32)
    requires Fits(b) && i < b.rootEntries
    ensures var v := MountLayout(b); v.rootStart <= DirectorySector(v, i) < v.dataStart
  {
    AreasInOrder(b);
    DirectoryTable(MountLayout(b), i);
  }

  /** Every entry of an allocation table of fatSize sectors lies in the first copy of the table. */
  lemma EntryInTable(b: record, c: u32)
    requires Fits(b) && 0 < b.fats && c * EntrySize(MountLayout(b)) < SECTOR * b.fatSize
    requires SECTOR * b.fatSize < U32
    ensures var v := MountLayout(b);
            InTable(v, c) && v.fatStart <= EntrySector(v, c) < v.fatStart + b.fatSize <= v.rootStart
  {
    hide MountLayout, EntrySector, EntrySize, Fits, InTable;
    FirstTable(b);
    EntryBetween(MountLayout(b), c, b.fatSize);
  }

  lemma FirstTable(b: record)
    requires Fits(b) && 0 < b.fats
    ensures var v := MountLayout(b); v.fatStart + b.fatSize <= v.rootStart
  {
    AreasInOrder(b);
    MulMono(b.fatSize, 1, b.fats);
    hide MountLayout;
  }

  lemma EntryBetween(lay: layout, c: u32, n: nat)
    requires c * EntrySize(lay) < SECTOR * n < U32 && lay.fatStart + n < U32
    ensures InTable(lay, c) && lay.fatStart <= EntrySector(lay, c) < lay.fatStart + n
  {
    BelowSectors(c * EntrySize(lay), n);
    hide EntrySize;
  }

  lemma BelowSectors(o: nat, n: nat)
    requires o < SECTOR * n
    ensures 0 <= o / SECTOR < n
  {
  }

  /** Cluster c lies wholly below the 32-bit limit. */
  predicate Addressable(lay: layout, c: u32) {
    2 <= c && lay.dataStart + (c - 1) * lay.perCluster <= U32
  }

  /** Different sectors of clusters are different sectors of the disk, all of them in the data area. */
  lemma ClustersApart(lay: layout, c: u32, s: nat, d: u32, t: nat)
    requires Addressable(lay, c) && Addressable(lay, d) && s < lay.perCluster && t < lay.perCluster
    ensures ClusterSector(lay, c, s) >= lay.dataStart
    ensures ClusterSector(lay, c, s) == ClusterSector(lay, d, t) <==> c == d && s == t
  {
    SectorPlace(lay, c, s);
    SectorPlace(lay, d, t);
    var p := lay.perCluster;
    if ClusterSector(lay, c, s) == ClusterSector(lay, d, t) {
      DivModUnique((c - 2) * p + s, p, c - 2, s);
      DivModUnique((d - 2) * p + t, p, d - 2, t);
    }
  }

  lemma SectorPlace(lay: layout, c: u32, s: nat)
    requires Addressable(lay, c) && s < lay.perCluster
    ensures ClusterSector(lay, c, s) == lay.dataStart + (c - 2) * lay.perCluster + s
    ensures (c - 2) * lay.perCluster >= 0
  {
    ProductStep(c - 2, lay.perCluster);
    PlaceFits((c - 2) * lay.perCluster, lay.dataStart, s);
  }

  lemma ProductStep(q: nat, p: nat)
    ensures q * p >= 0 && (q + 1) * p == q * p + p
  {
  }

  lemma PlaceFits(m: nat, dataStart: u32, s: nat)
    requires dataStart + m + s < U32
    ensures Wrap32(m + dataStart + s) == dataStart + m + s
  {
  }

  /** Clearing the table entry of a cluster outside a chain leaves the chain and its contents as they were. */
  lemma OtherFilesKept(dk: disk, b: record, c: u32, chain: seq<u32>)
    requires Fits(b) && 0 < b.fats && SECTOR * b.fatSize < U32
    requires var lay := MountLayout(b);
             && Chain(dk, lay, chain) && c !in chain && EntrySector(lay, c) < |dk|
             && c * EntrySize(lay) < SECTOR * b.fatSize
             && forall i :: 0 <= i < |chain| ==>
                   Addressable(lay, chain[i]) && chain[i] * EntrySize(lay) < SECTOR * b.fatSize
    ensures var lay := MountLayout(b);
            var after := Cleared(dk, lay, c);
            Chain(after, lay, chain) && Content(after, lay, chain) == Content(dk, lay, chain)
  {
    hide Entry, Usable, Content, MountLayout, TypeOf, Cleared;
    var lay := MountLayout(b);
    var after := Cleared(dk, lay, c);
    forall i | 0 <= i < |chain|
      ensures Entry(after, lay, chain[i]) == Entry(dk, lay, chain[i]) && Usable(after, lay, chain[i])
      ensures ClusterData(after, lay, chain[i]) == ClusterData(dk, lay, chain[i])
    {
      EntryKept(dk, b, c, chain[i]);
      DataKept(dk, b, c, chain[i]);
    }
    ContentKept(dk, after, lay, chain);
  }

  lemma EntryKept(dk: disk, b: record, c: u32, d: u32)
    requires Fits(b) && 0 < b.fats && SECTOR * b.fatSize < U32 && c != d
    requires var lay := MountLayout(b);
             && EntrySector(lay, c) < |dk|
             && c * EntrySize(lay) < SECTOR * b.fatSize && d * EntrySize(lay) < SECTOR * b.fatSize
    ensures var lay := MountLayout(b); Entry(Cleared(dk, lay, c), lay, d) == Entry(dk, lay, d)
  {
    hide Entry, Cleared, EntrySector;
    EntryInTable(b, c);
    EntryInTable(b, d);
    ClearedEntry(dk, MountLayout(b), c, d);
  }

  lemma DataKept(dk: disk, b: record, c: u32, d: u32)
    requires Fits(b) && 0 < b.fats && SECTOR * b.fatSize < U32
    requires var lay := MountLayout(b);
             && EntrySector(lay, c) < |dk| && c * EntrySize(lay) < SECTOR * b.fatSize
             && Addressable(lay, d) && Usable(dk, lay, d)
    ensures var lay := MountLayout(b);
            Usable(Cleared(dk, lay, c), lay, d) && ClusterData(Cleared(dk, lay, c), lay, d) == ClusterData(dk, lay, d)
  {
    EntryInTable(b, c);
    AreasInOrder(b);
    var lay := MountLayout(b);
    var after := Cleared(dk, lay, c);
    hide ClusterSector, MountLayout, ClearAt;
    forall o | 0 <= o < ClusterBytes(lay)
      ensures ClusterByte(after, lay, d, o) == ClusterByte(dk, lay, d, o)
    {
      ClustersApart(lay, d, o / SECTOR, d, o / SECTOR);
    }
  }

  lemma {:induction false} ContentKept(dk: disk, after: disk, lay: layout, chain: seq<u32>)
    requires forall i :: 0 <= i < |chain| ==> ClusterData(after, lay, chain[i]) == ClusterData(dk, lay, chain[i])
    ensures Content(after, lay, chain) == Content(dk, lay, chain)
  {
    if chain != [] {
      ContentKept(dk, after, lay, chain[..|chain| - 1]);
    }
  }
}
