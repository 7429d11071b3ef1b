/** The on-disk structure of a FAT volume: allocation table entries, cluster chains and file bytes. */
module FatLayout {
  import opened Bits
  import opened BlockDevice

  datatype Volume = Volume(fat32: bool, fatStart: u32, rootStart: u32, dataStart: u32, perCluster: nat)

  type layout = v: Volume | 1 <= v.perCluster < 256 witness Volume(false, 0, 0, 0, 1)

  function ClusterBytes(lay: layout): (r: nat)
    ensures 512 <= r < U32
  {
    SECTOR * lay.perCluster
  }

  /** The number of the cluster that byte k of a file lies in. */
  function ClusterOf(lay: layout, k: nat): (q: nat)
    ensures q == k / ClusterBytes(lay)
  {
    QuotientNonNegative(k, ClusterBytes(lay));
    k / ClusterBytes(lay)
  }

  function OffsetIn(lay: layout, k: nat): (o: nat)
    ensures o < ClusterBytes(lay) && k == ClusterOf(lay, k) * ClusterBytes(lay) + o
  {
    QuotientNonNegative(k, ClusterBytes(lay));
    k % ClusterBytes(lay)
  }

  lemma Locate(lay: layout, k: nat, q: nat, o: nat)
    requires o < ClusterBytes(lay) && k == q * ClusterBytes(lay) + o
    ensures ClusterOf(lay, k) == q && OffsetIn(lay, k) == o
  {
    DivModUnique(k, ClusterBytes(lay), q, o);
  }

  lemma ClusterBelow(lay: layout, k: nat, m: nat)
    requires k < m * ClusterBytes(lay)
    ensures ClusterOf(lay, k) < m
  {
    if ClusterOf(lay, k) >= m {
      MulMono(ClusterBytes(lay), m, ClusterOf(lay, k));
    }
  }

  // ----- The allocation table -----

  datatype ClusterType = Unused | Reserved | Bad | LastInFile | NextInFile

  function Fat16Type(entry: u32): ClusterType {
    var e := entry % 0x1_0000;
    if 0 < e < 0xFFF0 then NextInFile
    else if e >= 0xFFF8 then LastInFile
    else if e == 0 then Unused
    else if e <= 0xFFF6 then Reserved
    else Bad
  }

  function Fat32Type(entry: u32): ClusterType {
    var e := entry % 0x1000_0000;
    if 0 < e < 0xFFF_FFF0 then NextInFile
    else if e >= 0xFFF_FFF8 then LastInFile
    else if e == 0 then Unused
    else if e <= 0xFFF_FFF6 then Reserved
    else Bad
  }

  function TypeOf(lay: layout, entry: u32): ClusterType {
    if lay.fat32 then Fat32Type(entry) else Fat16Type(entry)
  }

  function EntrySize(lay: layout): (r: nat)
    ensures r == 2 || r == 4
  {
    if lay.fat32 then 4 else 2
  }

  function EntrySector(lay: layout, c: u32): u32 {
    Wrap32(lay.fatStart + Wrap32(c * EntrySize(lay)) / SECTOR)
  }

  function EntryOffset(lay: layout, c: u32): (r: nat)
    ensures r + EntrySize(lay) <= SECTOR
  {
    (c % (SECTOR / EntrySize(lay))) * EntrySize(lay)
  }

  /** The little-endian table entry at offset o of a sector. */
  function EntryAt(lay: layout, data: sector, o: nat): u32
    requires o + EntrySize(lay) <= SECTOR
  {
    var low := data[o] as int + 0x100 * data[o + 1] as int;
    if lay.fat32 then low + 0x1_0000 * data[o + 2] as int + 0x100_0000 * data[o + 3] as int else low
  }

  /** The successor an entry yields: an end-of-chain mark stands for itself, 0 for no successor. */
  function Follow(lay: layout, entry: u32): u32 {
    var t := TypeOf(lay, entry);
    if t == NextInFile || t == LastInFile then entry else 0
  }

  function Entry(dk: disk, lay: layout, c: u32): u32 {
    if EntrySector(lay, c) < |dk| then EntryAt(lay, dk[EntrySector(lay, c)], EntryOffset(lay, c)) else 0
  }

  function Next(dk: disk, lay: layout, c: u32): u32 {
    Follow(lay, Entry(dk, lay, c))
  }

  /** The cluster i steps after first. */
  function Walk(dk: disk, lay: layout, first: u32, i: nat): u32 {
    if i == 0 then first else Next(dk, lay, Walk(dk, lay, first, i - 1))
  }

  // ----- File contents -----

  function ClusterSector(lay: layout, c: u32, s: nat): u32 {
    Wrap32((c - 2) * lay.perCluster + lay.dataStart + s)
  }

  /** Byte o of cluster c. */
  function ClusterByte(dk: disk, lay: layout, c: u32, o: nat): byte {
    var n := ClusterSector(lay, c, o / SECTOR);
    if n < |dk| then dk[n][o % SECTOR] else 0
  }

  /** Byte k of the file that starts at cluster first. */
  function FileByte(dk: disk, lay: layout, first: u32, k: nat): byte {
    ClusterByte(dk, lay, Walk(dk, lay, first, ClusterOf(lay, k)), OffsetIn(lay, k))
  }

  function FileBytes(dk: disk, lay: layout, first: u32, pos: nat, n: nat): (s: seq<byte>)
    ensures |s| == n && forall i :: 0 <= i < n ==> s[i] == FileByte(dk, lay, first, pos + i)
  {
    seq<byte>(n, i requires 0 <= i < n => FileByte(dk, lay, first, pos + i))
  }

  /** n bytes of cluster c from byte o on. */
  function ClusterSlice(dk: disk, lay: layout, c: u32, o: nat, n: nat): (s: seq<byte>)
    ensures |s| == n && forall i :: 0 <= i < n ==> s[i] == ClusterByte(dk, lay, c, o + i)
  {
    seq<byte>(n, i requires 0 <= i < n => ClusterByte(dk, lay, c, o + i))
  }

  lemma FileByteHere(dk: disk, lay: layout, first: u32, q: nat, o: nat, k: nat)
    requires q * ClusterBytes(lay) + o == k && o < ClusterBytes(lay)
    ensures FileByte(dk, lay, first, k) == ClusterByte(dk, lay, Walk(dk, lay, first, q), o)
  {
    hide ClusterByte, Walk;
    Locate(lay, k, q, o);
  }

  /** Reading on inside cluster number q extends the bytes read. */
  lemma BytesJoin(dk: disk, lay: layout, first: u32, start: nat, m: nat, q: nat, o: nat, n: nat)
    requires q * ClusterBytes(lay) + o == start + m && o + n <= ClusterBytes(lay)
    ensures FileBytes(dk, lay, first, start, m + n) ==
            FileBytes(dk, lay, first, start, m) + ClusterSlice(dk, lay, Walk(dk, lay, first, q), o, n)
  {
    hide ClusterByte, FileByte, Walk, ClusterSlice, FileBytes, ClusterBytes;
    var s, t := FileBytes(dk, lay, first, start, m), ClusterSlice(dk, lay, Walk(dk, lay, first, q), o, n);
    var whole := FileBytes(dk, lay, first, start, m + n);
    forall i | 0 <= i < m + n
      ensures whole[i] == (s + t)[i]
    {
      if i >= m {
        FileByteHere(dk, lay, first, q, o + (i - m), start + i);
        assert t[i - m] == ClusterByte(dk, lay, Walk(dk, lay, first, q), o + (i - m));
      }
    }
  }

  /** Cluster c has a table entry and data sectors on the disk. */
  ghost predicate Usable(dk: disk, lay: layout, c: u32) {
    c != 0 && EntrySector(lay, c) < |dk| && forall s :: 0 <= s < lay.perCluster ==> ClusterSector(lay, c, s) < |dk|
  }

  /** The chain from first can be followed, and read, up to its cluster number last. */
  ghost predicate Reaches(dk: disk, lay: layout, first: u32, last: nat) {
    forall i :: 0 <= i <= last ==> Usable(dk, lay, Walk(dk, lay, first, i))
  }

  // ----- The flat file -----

  /** The clusters of a file: each entry names the next one and the last entry is an end-of-chain mark. */
  ghost predicate Chain(dk: disk, lay: layout, chain: seq<u32>) {
    && |chain| > 0
    && (forall i :: 0 <= i < |chain| ==> Usable(dk, lay, chain[i]))
    && (forall i :: 0 <= i < |chain| - 1 ==>
          TypeOf(lay, Entry(dk, lay, chain[i])) == NextInFile && Entry(dk, lay, chain[i]) == chain[i + 1])
    && TypeOf(lay, Entry(dk, lay, chain[|chain| - 1])) == LastInFile
  }

  function ClusterData(dk: disk, lay: layout, c: u32): (s: seq<byte>)
    ensures |s| == ClusterBytes(lay) && forall o :: 0 <= o < |s| ==> s[o] == ClusterByte(dk, lay, c, o)
  {
    seq(ClusterBytes(lay), o requires 0 <= o < ClusterBytes(lay) => ClusterByte(dk, lay, c, o))
  }

  /** The contents of a chain: its clusters one after the other. */
  function Content(dk: disk, lay: layout, chain: seq<u32>): (s: seq<byte>)
    ensures |s| == |chain| * ClusterBytes(lay)
  {
    if chain == [] then []
    else
      var n := |chain| - 1;
      assert |chain| * ClusterBytes(lay) == n * ClusterBytes(lay) + ClusterBytes(lay);
      Content(dk, lay, chain[..n]) + ClusterData(dk, lay, chain[n])
  }

  lemma {:induction false} ChainIsWalk(dk: disk, lay: layout, chain: seq<u32>, i: nat)
    requires Chain(dk, lay, chain) && i < |chain|
    ensures Walk(dk, lay, chain[0], i) == chain[i]
  {
    if i > 0 {
      ChainIsWalk(dk, lay, chain, i - 1);
      assert TypeOf(lay, Entry(dk, lay, chain[i - 1])) == NextInFile;
    }
  }

  lemma ChainReaches(dk: disk, lay: layout, chain: seq<u32>)
    requires Chain(dk, lay, chain)
    ensures Reaches(dk, lay, chain[0], |chain| - 1)
  {
    hide Usable, Walk, TypeOf, Entry;
    forall i | 0 <= i <= |chain| - 1
      ensures Usable(dk, lay, Walk(dk, lay, chain[0], i))
    {
      ChainIsWalk(dk, lay, chain, i);
    }
  }

  /** Past its last cluster a chain goes on into the end-of-chain mark, taken as a cluster number. */
  lemma EndMarkIsFollowed(dk: disk, lay: layout, chain: seq<u32>)
    requires Chain(dk, lay, chain)
    ensures var e := Walk(dk, lay, chain[0], |chain|);
            e == Entry(dk, lay, chain[|chain| - 1]) && e != 0 && TypeOf(lay, e) == LastInFile
  {
    ChainIsWalk(dk, lay, chain, |chain| - 1);
    assert |chain| - 1 + 1 == |chain|;
  }

  lemma {:induction false} ContentAt(dk: disk, lay: layout, chain: seq<u32>, q: nat, o: nat)
    requires q < |chain| && o < ClusterBytes(lay)
    ensures q * ClusterBytes(lay) + o < |Content(dk, lay, chain)|
    ensures Content(dk, lay, chain)[q * ClusterBytes(lay) + o] == ClusterByte(dk, lay, chain[q], o)
    decreases |chain|
  {
    hide ClusterByte, ClusterBytes;
    var n := |chain| - 1;
    assert |chain| * ClusterBytes(lay) == n * ClusterBytes(lay) + ClusterBytes(lay);
    if q < n {
      ContentAt(dk, lay, chain[..n], q, o);
    }
  }

  /** The bytes of a file are those of its chain, for every position the chain covers. */
  lemma FlatFile(dk: disk, lay: layout, chain: seq<u32>, pos: nat, n: nat)
    requires Chain(dk, lay, chain) && pos + n <= |chain| * ClusterBytes(lay)
    ensures FileBytes(dk, lay, chain[0], pos, n) == Content(dk, lay, chain)[pos..pos + n]
  {
    var c := Content(dk, lay, chain);
    hide Content, FileByte;
    forall i | 0 <= i < n
      ensures FileBytes(dk, lay, chain[0], pos, n)[i] == c[pos + i]
    {
      FlatByte(dk, lay, chain, pos + i);
    }
  }

  lemma FlatByte(dk: disk, lay: layout, chain: seq<u32>, k: nat)
    requires Chain(dk, lay, chain) && k < |chain| * ClusterBytes(lay)
    ensures FileByte(dk, lay, chain[0], k) == Content(dk, lay, chain)[k]
  {
    hide Content, ClusterByte, Walk, ClusterBytes, ClusterOf, OffsetIn;
    var q, o := ClusterOf(lay, k), OffsetIn(lay, k);
    ClusterBelow(lay, k, |chain|);
    ChainIsWalk(dk, lay, chain, q);
    ContentAt(dk, lay, chain, q, o);
  }
}
