/** What is stored in an allocation table is what following it yields. */
module FatTable {
  import opened Bits
  import opened BlockDevice
  import opened FatLayout
  import opened FatVolume

  /** Byte j of a table entry that holds v, low byte first. */
  function EntryByte(v: u32, j: nat): byte
    requires j < 4
  {
    if j == 0 then v % 0x100
    else if j == 1 then (v / 0x100) % 0x100
    else if j == 2 then (v / 0x1_0000) % 0x100
    else v / 0x100_0000
  }

  /** The values an entry can hold. */
  predicate FitsEntry(lay: layout, v: u32) {
    !lay.fat32 ==> v < 0x1_0000
  }

  /** Byte k of the allocation table, which lies on the disk in one piece. */
  function TableByte(dk: disk, lay: layout, k: nat): byte
    requires lay.fatStart + k / SECTOR < |dk|
  {
    QuotientNonNegative(k, SECTOR);
    dk[lay.fatStart + k / SECTOR][k % SECTOR]
  }

  /** The table holds v for cluster c: two or four bytes for each cluster. */
  ghost predicate Holds(dk: disk, lay: layout, c: u32, v: u32) {
    && InTable(lay, c) && FitsEntry(lay, v) && lay.fatStart + c * EntrySize(lay) / SECTOR < |dk|
    && forall j :: 0 <= j < EntrySize(lay) ==>
         && lay.fatStart + (c * EntrySize(lay) + j) / SECTOR < |dk|
         && TableByte(dk, lay, c * EntrySize(lay) + j) == EntryByte(v, j)
  }

  lemma BytesGive16(v: u32)
    requires v < 0x1_0000
    ensures EntryByte(v, 0) as int + 0x100 * EntryByte(v, 1) as int == v
  {
  }

  lemma BytesGive32(v: u32)
    ensures EntryByte(v, 0) as int + 0x100 * EntryByte(v, 1) as int
            + 0x1_0000 * EntryByte(v, 2) as int + 0x100_0000 * EntryByte(v, 3) as int == v
  {
  }

  /** A stored value is read back. */
  lemma EntryIsStored(dk: disk, lay: layout, c: u32, v: u32)
    requires Holds(dk, lay, c, v)
    ensures EntrySector(lay, c) < |dk| && Entry(dk, lay, c) == v
  {
    EntryPlace(lay, c);
    var n, o := EntrySector(lay, c), EntryOffset(lay, c);
    hide EntrySector, EntryOffset, EntryByte;
    forall j | 0 <= j < EntrySize(lay)
      ensures n < |dk| && dk[n][o + j] == EntryByte(v, j)
    {
      DivModUnique(c * EntrySize(lay) + j, SECTOR, n - lay.fatStart, o + j);
      assert TableByte(dk, lay, c * EntrySize(lay) + j) == EntryByte(v, j);
    }
    if lay.fat32 {
      BytesGive32(v);
    } else {
      BytesGive16(v);
    }
  }

  /** The bits of a table entry that say what it means: all 16, or the low 28 of 32. */
  function Meaning(lay: layout, v: u32): (m: nat)
    ensures m < if lay.fat32 then 0x1000_0000 else 0x1_0000
  {
    if lay.fat32 then v % 0x1000_0000 else v % 0x1_0000
  }

  /** How far a value is below the first of those that end a file. */
  function BelowMarks(lay: layout, v: u32): int {
    (if lay.fat32 then 0xFFF_FFF8 else 0xFFF8) - Meaning(lay, v)
  }

  /** The number of a cluster that a file can go on in. */
  predicate IsCluster(lay: layout, v: u32) {
    Meaning(lay, v) != 0 && BelowMarks(lay, v) > 8
  }

  predicate IsEndMark(lay: layout, v: u32) {
    BelowMarks(lay, v) <= 0
  }

  /** What each stored value means: the one value below the end marks is a bad cluster, seven more are reserved. */
  lemma StoredMeaning(dk: disk, lay: layout, c: u32, v: u32)
    requires Holds(dk, lay, c, v)
    ensures Next(dk, lay, c) == if IsCluster(lay, v) || IsEndMark(lay, v) then v else 0
    ensures var t := TypeOf(lay, Entry(dk, lay, c));
            && (t == NextInFile <==> IsCluster(lay, v))
            && (t == LastInFile <==> IsEndMark(lay, v))
            && (t == Unused <==> Meaning(lay, v) == 0)
            && (t == Bad <==> BelowMarks(lay, v) == 1)
            && (t == Reserved <==> 2 <= BelowMarks(lay, v) <= 8)
  {
    hide Holds, Entry;
    EntryIsStored(dk, lay, c, v);
  }

  function Successor(chain: seq<u32>, mark: u32, i: nat): u32
    requires i < |chain|
  {
    if i + 1 < |chain| then chain[i + 1] else mark
  }

  /** The entry of each cluster holds the number of the next one, and that of the last one holds the mark. */
  ghost predicate HoldsChain(dk: disk, lay: layout, chain: seq<u32>, mark: u32) {
    && chain != []
    && forall i :: 0 <= i < |chain| ==> Holds(dk, lay, chain[i], Successor(chain, mark, i))
  }

  /** A list of clusters stored in the table, ended by any end mark, is a chain, and the only one from its first. */
  lemma StoredChain(dk: disk, lay: layout, chain: seq<u32>, mark: u32)
    requires HoldsChain(dk, lay, chain, mark) && IsEndMark(lay, mark)
    requires forall i :: 0 <= i < |chain| ==>
               IsCluster(lay, chain[i]) && forall s :: 0 <= s < lay.perCluster ==>
                   ClusterSector(lay, chain[i], s) < |dk|
    ensures Chain(dk, lay, chain)
    ensures forall other :: Chain(dk, lay, other) && other[0] == chain[0] ==> other == chain
  {
    hide Holds, Entry, TypeOf, BelowMarks, ClusterSector, EntrySector;
    forall i | 0 <= i < |chain|
      ensures Usable(dk, lay, chain[i])
      ensures Entry(dk, lay, chain[i]) == if i + 1 < |chain| then chain[i + 1] else mark
      ensures TypeOf(lay, Entry(dk, lay, chain[i])) == if i + 1 < |chain| then NextInFile else LastInFile
    {
      var v := Successor(chain, mark, i);
      EntryIsStored(dk, lay, chain[i], v);
      StoredMeaning(dk, lay, chain[i], v);
    }
    forall other | Chain(dk, lay, other) && other[0] == chain[0]
      ensures other == chain
    {
      ChainsAgree(dk, lay, other, chain);
    }
  }

  /** Two chains from the same cluster are the same. */
  lemma ChainsAgree(dk: disk, lay: layout, a: seq<u32>, b: seq<u32>)
    requires Chain(dk, lay, a) && Chain(dk, lay, b) && a[0] == b[0]
    ensures a == b
  {
    hide Usable, Walk, TypeOf, Entry;
    var n := Min(|a|, |b|);
    forall i | 0 <= i < n
      ensures a[i] == b[i]
    {
      ChainIsWalk(dk, lay, a, i);
      ChainIsWalk(dk, lay, b, i);
    }
    assert a[n - 1] == b[n - 1];
  }
}
