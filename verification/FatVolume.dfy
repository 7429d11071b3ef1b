/** A mounted FAT volume: the one-sector cache and what is looked up through it. */
module FatVolume {
  import opened Bits
  import opened BlockDevice
  import opened FatLayout

  /** The cache index that means no sector is held. */
  const NONE: u32 := U32 - 1

  const DIRECTORY_ENTRY: nat := 32

  /** Where entry i of the root directory is. */
  function DirectorySector(lay: layout, i: u32): u32 {
    Wrap32(lay.rootStart + Wrap32(DIRECTORY_ENTRY * i) / SECTOR)
  }

  function DirectoryOffset(i: u32): (o: nat)
    ensures o + DIRECTORY_ENTRY <= SECTOR
  {
    Wrap32(DIRECTORY_ENTRY * i) % SECTOR
  }

  /** Sixteen entries to a sector, in order, as far as the byte offset fits 32 bits. */
  lemma DirectoryTable(lay: layout, i: u32)
    requires DIRECTORY_ENTRY * i < U32 && lay.rootStart + i / 16 < U32
    ensures DirectorySector(lay, i) == lay.rootStart + i / 16 && DirectoryOffset(i) == DIRECTORY_ENTRY * (i % 16)
  {
    DivModUnique(DIRECTORY_ENTRY * i, SECTOR, i / 16, DIRECTORY_ENTRY * (i % 16));
  }

  /** The sector with the table entry at offset o set to 0. */
  function ClearAt(lay: layout, data: sector, o: nat): sector
    requires o + EntrySize(lay) <= SECTOR
  {
    data[..o] + seq(EntrySize(lay), _ => 0) + data[o + EntrySize(lay)..]
  }

  lemma ClearedAt(lay: layout, data: sector, o: nat)
    requires o + EntrySize(lay) <= SECTOR
    ensures EntryAt(lay, ClearAt(lay, data, o), o) == 0
    ensures forall p ::
              0 <= p && p + EntrySize(lay) <= SECTOR && (p + EntrySize(lay) <= o || o + EntrySize(lay) <= p) ==>
              EntryAt(lay, ClearAt(lay, data, o), p) == EntryAt(lay, data, p)
  {
  }

  /** The disk with the table entry of cluster c set to 0. */
  function Cleared(dk: disk, lay: layout, c: u32): disk
    requires EntrySector(lay, c) < |dk|
  {
    var n := EntrySector(lay, c);
    dk[n := ClearAt(lay, dk[n], EntryOffset(lay, c))]
  }

  /** The entry of c has a byte offset and a sector number below 2^32. */
  predicate InTable(lay: layout, c: u32) {
    c * EntrySize(lay) < U32 && lay.fatStart + c * EntrySize(lay) / SECTOR < U32
  }

  /** Clearing the entry of c frees c and no other cluster of the table. */
  lemma ClearedEntry(dk: disk, lay: layout, c: u32, d: u32)
    requires EntrySector(lay, c) < |dk|
    requires InTable(lay, c) && InTable(lay, d)
    ensures Entry(Cleared(dk, lay, c), lay, d) == if c == d then 0 else Entry(dk, lay, d)
  {
    var n := EntrySector(lay, c);
    ClearedAt(lay, dk[n], EntryOffset(lay, c));
    hide ClearAt, EntryAt;
    if c != d && EntrySector(lay, d) == n {
      EntriesApart(lay, c, d);
    }
  }

  lemma EntriesApart(lay: layout, c: u32, d: u32)
    requires InTable(lay, c) && InTable(lay, d) && c != d
    requires EntrySector(lay, c) == EntrySector(lay, d)
    ensures var o, p := EntryOffset(lay, c), EntryOffset(lay, d);
            o + EntrySize(lay) <= p || p + EntrySize(lay) <= o
  {
    EntryPlace(lay, c);
    EntryPlace(lay, d);
  }

  /** The entry of c is at byte c * size of the table. */
  lemma EntryPlace(lay: layout, c: u32)
    requires InTable(lay, c)
    ensures EntrySector(lay, c) >= lay.fatStart
    ensures c * EntrySize(lay) == SECTOR * (EntrySector(lay, c) - lay.fatStart) + EntryOffset(lay, c)
  {
    QuotientNonNegative(c, if lay.fat32 then 128 else 256);
    QuotientNonNegative(c * EntrySize(lay), SECTOR);
    if lay.fat32 {
      Place32(c, c / 128, c % 128);
    } else {
      Place16(c, c / 256, c % 256);
    }
  }

  lemma Place16(c: nat, q: nat, r: nat)
    requires c == 256 * q + r && r < 256
    ensures c * 2 / 512 == q
  {
    DivModUnique(c * 2, 512, q, 2 * r);
  }

  lemma Place32(c: nat, q: nat, r: nat)
    requires c == 128 * q + r && r < 128
    ensures c * 4 / 512 == q
  {
    DivModUnique(c * 4, 512, q, 4 * r);
  }

  class MountedVolume {
    const device: Device
    const lay: layout
    var data: sector
    var index: u32
    ghost var lost: nat

    /** The cache holds what the disk holds. */
    ghost predicate Coherent()
      reads this, device
    {
      index != NONE ==> index < |device.sectors| && data == device.sectors[index]
    }

    constructor (d: Device, l: layout)
      ensures Coherent() && device == d && lay == l
    {
      device := d;
      lay := l;
      data := seq(SECTOR, _ => 0);
      index := NONE;
      lost := 0;
    }

    /** Bring sector n into the cache. */
    method ReadSector(n: u32) returns (ok: bool)
      requires Coherent()
      modifies `data, `index, device`faults
      ensures Coherent() && device.faults >= old(device.faults)
      ensures ok ==> index == n && (n != NONE ==> n < |device.sectors| && data == device.sectors[n])
      ensures n < |device.sectors| ==> (ok <==> device.faults == old(device.faults))
      ensures |device.sectors| <= n ==> device.faults == old(device.faults)
      ensures !ok ==> index == NONE
      ensures n == old(index) ==> ok && data == old(data) && index == old(index) && device.faults == old(device.faults)
    {
      ok := true;
      if n != index {
        ok, data := device.ReadBlock(n);
        if !ok {
          index := NONE;
        } else {
          index := n;
        }
      }
    }

    /** The cluster after c; it is the disk's unless the table sector could not be read, which counts as lost. */
    method NextCluster(c: u32) returns (next: u32)
      requires Coherent()
      modifies `data, `index, `lost, device`faults
      ensures Coherent() && device.faults >= old(device.faults) && lost >= old(lost)
      ensures EntrySector(lay, c) < |device.sectors| && lost == old(lost) ==> next == Next(device.sectors, lay, c)
      ensures EntrySector(lay, c) < |device.sectors| && device.faults == old(device.faults) ==> lost == old(lost)
    {
      var unset: u32 :| true;
      next := unset;
      var ok := ReadSector(EntrySector(lay, c));
      if ok {
        next := EntryAt(lay, data, EntryOffset(lay, c));
        var t := TypeOf(lay, next);
        if t != NextInFile && t != LastInFile {
          next := 0;
        }
      } else {
        lost := lost + 1;
      }
    }

    /** Entry i of the root directory, null-pointer style: ok says whether there is one. */
    method FindDirectory(i: u32) returns (ok: bool, entry: seq<byte>)
      requires Coherent()
      modifies `data, `index, device`faults
      ensures Coherent() && device.faults >= old(device.faults)
      ensures |device.sectors| <= DirectorySector(lay, i) < NONE ==> !ok && device.faults == old(device.faults)
      ensures var n := DirectorySector(lay, i);
              n < |device.sectors| ==>
                && (ok <==> device.faults == old(device.faults))
                && (ok ==> entry == device.sectors[n][DirectoryOffset(i)..DirectoryOffset(i) + DIRECTORY_ENTRY])
    {
      entry := [];
      ok := ReadSector(DirectorySector(lay, i));
      if ok {
        entry := data[DirectoryOffset(i)..DirectoryOffset(i) + DIRECTORY_ENTRY];
      }
    }

    /**
     Clear table entries from cluster start. Only the entry of start is ever cleared, and the call succeeds
     exactly if start is the last cluster of its chain: on a longer chain the second round finds start unused.
     Only a failed write can leave the cache ahead of the disk.
     */
    method DeleteClusterList(start: u32) returns (ok: bool)
      requires Coherent()
      modifies `data, `index, device`faults, device`badWrites, device`sectors
      ensures device.faults >= old(device.faults) && device.badWrites >= old(device.badWrites)
      ensures device.badWrites == old(device.badWrites) ==> Coherent()
      ensures device.faults == old(device.faults) && EntrySector(lay, start) < |old(device.sectors)| ==>
                var t := TypeOf(lay, Entry(old(device.sectors), lay, start));
                && (ok <==> t == LastInFile)
                && device.sectors == if t == NextInFile || t == LastInFile then Cleared(old(device.sectors), lay, start)
                                     else old(device.sectors)
    {
      ok := true;
      var done := false;
      var n, o := EntrySector(lay, start), EntryOffset(lay, start);
      ghost var dk, t := device.sectors, TypeOf(lay, Entry(device.sectors, lay, start));
      ghost var rounds: nat := 0;
      while ok && !done
        invariant rounds <= 2 && device.faults >= old(device.faults) && |device.sectors| == |dk|
        invariant device.badWrites >= old(device.badWrites)
        invariant device.badWrites == old(device.badWrites) ==> Coherent()
        invariant rounds == 0 ==> ok && !done && device.sectors == dk && Coherent()
        invariant rounds > 0 && ok ==> Coherent() && n < |dk|
        invariant rounds == 1 && ok && !done ==> index == n != NONE && EntryAt(lay, data, o) == 0
        invariant rounds == 2 ==> !ok
        invariant rounds > 0 && n < |dk| && device.faults == old(device.faults) ==>
                    && (done && ok <==> t == LastInFile)
                    && (ok && !done ==> t == NextInFile)
                    && device.sectors == if t == NextInFile || t == LastInFile then Cleared(dk, lay, start) else dk
        decreases 2 - rounds
      {
        rounds := rounds + 1;
        ok := ReadSector(EntrySector(lay, start));
        if ok {
          var entry := TypeOf(lay, EntryAt(lay, data, o));
          if entry != NextInFile && entry != LastInFile {
            done := true;
            ok := false;
          } else {
            if entry == LastInFile {
              done := true;
            }
            ClearedAt(lay, data, o);
            data := ClearAt(lay, data, o);
            ok := device.WriteBlock(index, data);
          }
        }
      }
    }
  }
}
