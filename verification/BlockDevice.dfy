/** A block device of 512-byte sectors, any of whose operations may fail. */
module BlockDevice {
  import opened Bits

  const SECTOR: nat := 512

  type sector = s: seq<byte> | |s| == SECTOR witness seq(SECTOR, _ => 0)

  /** The sectors of a device; its size fits the 32-bit sector numbers with the last number left over. */
  type disk = d: seq<sector> | |d| < U32

  class Device {
    var sectors: disk
    ghost var faults: nat
    ghost var badWrites: nat

    constructor (contents: disk)
      ensures sectors == contents && faults == 0
    {
      sectors := contents;
      faults := 0;
      badWrites := 0;
    }

    /** A failed read leaves anything in the caller's buffer. */
    method ReadBlock(n: u32) returns (ok: bool, data: sector)
      modifies `faults
      ensures ok ==> n < |sectors| && data == sectors[n] && faults == old(faults)
      ensures !ok ==> faults == old(faults) + if n < |sectors| then 1 else 0
    {
      var works: bool :| true;
      if works && n < |sectors| {
        return true, sectors[n];
      }
      if n < |sectors| {
        faults := faults + 1;
      }
      var junk: sector :| true;
      return false, junk;
    }

    /** A failed write leaves anything in the sector. */
    method WriteBlock(n: u32, data: sector) returns (ok: bool)
      modifies `sectors, `faults, `badWrites
      ensures |sectors| == |old(sectors)| && forall i :: 0 <= i < |sectors| && i != n ==> sectors[i] == old(sectors)[i]
      ensures ok ==> n < |sectors| && sectors[n] == data && faults == old(faults)
      ensures badWrites == old(badWrites) + if ok then 0 else 1
      ensures !ok ==> faults == old(faults) + if n < |sectors| then 1 else 0
    {
      var works: bool :| true;
      if works && n < |sectors| {
        sectors := sectors[n := data];
        return true;
      }
      badWrites := badWrites + 1;
      if n < |sectors| {
        var torn: sector :| true;
        sectors := sectors[n := torn];
        faults := faults + 1;
      }
      return false;
    }
  }
}
