/** Reading and seeking an open file through the volume's sector cache. */
module FatFile {
  import opened NumberTheory
  import opened Bits
  import opened BlockDevice
  import opened FatLayout
  import opened FatVolume

  // ----- The shift fast paths -----

  lemma PowersOfTwo()
    ensures Pow(2, 5) == 32 && Pow(2, 6) == 64 && Pow(2, 11) == 2048 && Pow(2, 14) == 16384 && Pow(2, 15) == 32768
  {
    assert Pow(2, 4) == 16;
    assert Pow(2, 8) == 256;
    assert Pow(2, 11) == 2048;
    assert Pow(2, 14) == 16384;
  }

  /** The number of the cluster that holds byte pos. */
  function ClusterNumber(pos: u32, perCluster: nat): (r: u32)
    requires 0 < perCluster
    ensures r == pos / perCluster
  {
    PowersOfTwo();
    QuotientNonNegative(pos, perCluster);
    MulMono(pos / perCluster, 1, perCluster);
    if perCluster == 32768 then Shr(pos, 15)
    else if perCluster == 16384 then Shr(pos, 14)
    else if perCluster == 2048 then Shr(pos, 11)
    else pos / perCluster
  }

  /** The bytes in q clusters. */
  function BytesBefore(q: u32, perCluster: nat): (r: u32)
    ensures r == Wrap32(q * perCluster)
  {
    PowersOfTwo();
    if perCluster == 32768 then Shl(q, 15)
    else if perCluster == 16384 then Shl(q, 14)
    else if perCluster == 2048 then Shl(q, 11)
    else Wrap32(q * perCluster)
  }

  /** The first sector of cluster c. */
  function FirstSector(lay: layout, c: u32): (r: u32)
    ensures r == ClusterSector(lay, c, 0)
  {
    PowersOfTwo();
    WrapTimes(c - 2, lay.perCluster);
    WrapPlus((c - 2) * lay.perCluster, lay.dataStart);
    if lay.perCluster == 32 then Wrap32(Shl(Wrap32(c - 2), 5) + lay.dataStart)
    else if lay.perCluster == 64 then Wrap32(Shl(Wrap32(c - 2), 6) + lay.dataStart)
    else Wrap32(Wrap32(Wrap32(c - 2) * lay.perCluster) + lay.dataStart)
  }

  lemma NextSector(lay: layout, c: u32, s: nat)
    ensures Wrap32(ClusterSector(lay, c, s) + 1) == ClusterSector(lay, c, s + 1)
  {
    WrapPlus((c - 2) * lay.perCluster + lay.dataStart + s, 1);
  }

  // ----- Positions in a chain -----

  lemma OnTheWalk(dk: disk, lay: layout, first: u32, i: nat, last: nat)
    requires Reaches(dk, lay, first, last) && i < last
    ensures EntrySector(lay, Walk(dk, lay, first, i)) < |dk|
    ensures Next(dk, lay, Walk(dk, lay, first, i)) == Walk(dk, lay, first, i + 1) != 0
  {
    assert Usable(dk, lay, Walk(dk, lay, first, i));
    assert Usable(dk, lay, Walk(dk, lay, first, i + 1));
  }

  lemma ClusterAtLeast(lay: layout, k: nat, m: nat)
    requires m * ClusterBytes(lay) <= k
    ensures m <= ClusterOf(lay, k)
  {
    if m > ClusterOf(lay, k) {
      MulMono(ClusterBytes(lay), ClusterOf(lay, k) + 1, m);
    }
  }

  lemma ClusterStep(lay: layout, q: nat, pos: nat, target: nat)
    requires q * ClusterBytes(lay) + pos == target < U32 && pos >= ClusterBytes(lay)
    ensures q < ClusterOf(lay, target) < U32
    ensures (q + 1) * ClusterBytes(lay) + (pos - ClusterBytes(lay)) == target
  {
    assert (q + 1) * ClusterBytes(lay) == q * ClusterBytes(lay) + ClusterBytes(lay);
    ClusterAtLeast(lay, target, q + 1);
    ClusterBelow(lay, target, target + 1) by {
      MulMono(target + 1, 1, ClusterBytes(lay));
    }
  }

  /** The cluster that the last of n bytes from byte start on lies in. */
  ghost function Last(lay: layout, start: nat, n: nat): nat {
    ClusterOf(lay, if n == 0 then start else start + n - 1)
  }

  /** Byte t of sector s of a cluster. */
  lemma SectorByte(dk: disk, lay: layout, c: u32, s: nat, t: nat)
    requires t < SECTOR && ClusterSector(lay, c, s) < |dk|
    ensures ClusterByte(dk, lay, c, SECTOR * s + t) == dk[ClusterSector(lay, c, s)][t]
  {
    DivModUnique(SECTOR * s + t, SECTOR, s, t);
  }

  /** Copying from inside sector s extends the bytes copied of its cluster. */
  lemma SliceJoin(dk: disk, lay: layout, c: u32, o: nat, m: nat, s: nat, t: nat, n: nat)
    requires o + m == SECTOR * s + t && t + n <= SECTOR && ClusterSector(lay, c, s) < |dk|
    ensures ClusterSlice(dk, lay, c, o, m + n) ==
          ClusterSlice(dk, lay, c, o, m) + dk[ClusterSector(lay, c, s)][t..t + n]
  {
    hide ClusterSlice, ClusterByte, ClusterSector;
    var head, tail := ClusterSlice(dk, lay, c, o, m), dk[ClusterSector(lay, c, s)][t..t + n];
    var whole := ClusterSlice(dk, lay, c, o, m + n);
    forall i | 0 <= i < m + n
      ensures whole[i] == (head + tail)[i]
    {
      if i >= m {
        SectorByte(dk, lay, c, s, t + (i - m));
        assert o + i == SECTOR * s + (t + (i - m));
      }
    }
  }

  lemma SameFrom(before: seq<byte>, after: seq<byte>, m: nat, n: nat)
    requires m <= n <= |before| == |after| && after[m..] == before[m..]
    ensures after[n..] == before[n..]
  {
    assert after[n..] == after[m..][n - m..];
  }

  /** A buffer whose part from m on changed only in its first n bytes. */
  lemma Extended(before: seq<byte>, after: seq<byte>, from: nat, m: nat, n: nat)
    requires from <= m && m + n <= |before| == |after|
    requires after[..m] == before[..m] && after[m + n..] == before[m + n..]
    ensures after[..from] == before[..from] && after[m + n..] == before[m..][n..]
    ensures after[from..m + n] == before[from..m] + after[m..m + n]
  {
    assert after[from..m] == after[..m][from..] == before[from..m];
    assert after[..from] == after[..m][..from];
  }

  /** Copy count bytes of data from offset p to offset at of the caller's buffer. */
  method CopyOut(data: sector, p: nat, buffer: array<byte>, at: nat, count: nat)
    requires p + count <= SECTOR && at + count <= buffer.Length
    modifies buffer
    ensures forall j :: 0 <= j < buffer.Length ==>
              buffer[j] == if at <= j < at + count then data[p + (j - at)] else old(buffer[j])
  {
    var k: nat := 0;
    while k < count
      invariant k <= count
      invariant forall j :: 0 <= j < buffer.Length ==>
                  buffer[j] == if at <= j < at + k then data[p + (j - at)] else old(buffer[j])
    {
      buffer[at + k] := data[p + k];
      k := k + 1;
    }
  }

  datatype Origin = Begin | Current | End | Other

  class File {
    const vol: MountedVolume
    const first: u32
    const size: u32
    var seekPos: u32
    var cluster: u32
    var clusterSeq: u32

    /** The remembered cluster is number clusterSeq of the chain and not past the position. */
    ghost predicate Cursor()
      reads this, vol, vol.device
    {
      && cluster == Walk(vol.device.sectors, vol.lay, first, clusterSeq)
      && clusterSeq * ClusterBytes(vol.lay) <= seekPos
    }

    constructor (v: MountedVolume, start: u32, length: u32)
      ensures Cursor() && vol == v && first == start && size == length && seekPos == 0
    {
      vol := v;
      first := start;
      size := length;
      seekPos := 0;
      cluster := start;
      clusterSeq := 0;
    }

    method Seek(origin: Origin, offset: int) returns (ok: bool)
      modifies `seekPos, `cluster, `clusterSeq
      ensures Cursor() && (ok <==> origin != Other)
      ensures seekPos == match origin
                         case Begin => Wrap32(offset)
                         case Current => Wrap32(old(seekPos) + offset)
                         case End => Wrap32(size + offset)
                         case Other => old(seekPos)
    {
      ok := true;
      match origin {
        case Begin => seekPos := Wrap32(offset);
        case Current => seekPos := Wrap32(seekPos + offset);
        case End => seekPos := Wrap32(size + offset);
        case Other => ok := false;
      }
      cluster := first;
      clusterSeq := 0;
    }

    /** Go on to the next cluster; last bounds the part of the chain that is known to be sound. */
    method Advance(ghost last: nat) returns (ok: bool)
      requires vol.Coherent()
      modifies `cluster, `clusterSeq, vol`data, vol`index, vol`lost, vol.device`faults
      ensures vol.Coherent() && vol.device.faults >= old(vol.device.faults) && vol.lost >= old(vol.lost)
      ensures var dk := vol.device.sectors;
              (Reaches(dk, vol.lay, first, last) && old(clusterSeq) < last < U32
               && old(cluster) == Walk(dk, vol.lay, first, old(clusterSeq))) ==>
                && (vol.lost == old(vol.lost) ==>
                      ok && clusterSeq == old(clusterSeq) + 1 && cluster == Walk(dk, vol.lay, first, clusterSeq))
                && (vol.device.faults == old(vol.device.faults) ==> vol.lost == old(vol.lost))
    {
      hide Reaches, Walk, Next, EntrySector;
      ghost var dk := vol.device.sectors;
      if Reaches(dk, vol.lay, first, last) && clusterSeq < last {
        OnTheWalk(dk, vol.lay, first, clusterSeq, last);
      }
      ok := true;
      var next := vol.NextCluster(cluster);
      if next == 0 {
        ok := false;
      } else {
        cluster := next;
      }
      clusterSeq := Wrap32(clusterSeq + 1);
    }

    /** The remembered cluster is number clusterSeq of the chain and pos bytes before the target. */
    ghost predicate Located(pos: nat, target: nat)
      reads this, vol, vol.device
    {
      && cluster == Walk(vol.device.sectors, vol.lay, first, clusterSeq)
      && clusterSeq * ClusterBytes(vol.lay) + pos == target
    }

    /** Move to the cluster that holds the target, start bytes from where the remembered cluster begins. */
    method SkipClusters(start: u32, ghost target: nat) returns (ok: bool, pos: u32)
      requires vol.Coherent() && target < U32
      modifies `cluster, `clusterSeq, vol`data, vol`index, vol`lost, vol.device`faults
      ensures vol.Coherent() && vol.device.faults >= old(vol.device.faults)
      ensures ok ==> pos < ClusterBytes(vol.lay)
      ensures vol.lost >= old(vol.lost)
      ensures old(Located(start, target)) && Reaches(vol.device.sectors, vol.lay, first, ClusterOf(vol.lay, target)) ==>
                && (vol.lost == old(vol.lost) ==> ok && Located(pos, target))
                && (vol.device.faults == old(vol.device.faults) ==> vol.lost == old(vol.lost))
    {
      hide Reaches, Walk, ClusterBytes, ClusterOf;
      ghost var lay, q := vol.lay, ClusterOf(vol.lay, target);
      var perCluster := ClusterBytes(vol.lay);
      ok, pos := true, start;
      while pos >= perCluster && ok
        invariant vol.Coherent() && vol.device.faults >= old(vol.device.faults)
        invariant vol.lost >= old(vol.lost)
        invariant old(Located(start, target)) && Reaches(vol.device.sectors, lay, first, q) ==>
                    && (vol.lost == old(vol.lost) ==> ok && Located(pos, target))
                    && (vol.device.faults == old(vol.device.faults) ==> vol.lost == old(vol.lost))
        decreases pos, ok
      {
        ghost var was := clusterSeq;
        if was * perCluster + pos == target {
          ClusterStep(lay, was, pos, target);
        }
        ok := Advance(q);
        pos := pos - perCluster;
      }
    }

    /** Copy what the caller still wants of one sector, from offset pos on: at most up to the sector's end. */
    method CopySector(physical: u32, buffer: array<byte>, n: nat, done: nat, pos: nat) returns (ok: bool, count: nat)
      requires vol.Coherent() && done < n <= buffer.Length && pos < SECTOR
      modifies vol`data, vol`index, vol.device`faults, buffer
      ensures vol.Coherent() && vol.device.faults >= old(vol.device.faults)
      ensures count == if ok then Min(SECTOR - pos, n - done) else 0
      ensures buffer[..done] == old(buffer[..done]) && buffer[done + count..] == old(buffer[done + count..])
      ensures physical < |vol.device.sectors| ==>
                && (vol.device.faults == old(vol.device.faults) ==> ok)
                && (ok ==> buffer[done..done + count] == vol.device.sectors[physical][pos..pos + count])
    {
      count := 0;
      ok := vol.ReadSector(physical);
      if ok {
        count := SECTOR;
        if pos != 0 {
          count := count - pos;
        }
        if count > n - done {
          count := n - done;
        }
        if count == 512 {
          CopyOut(vol.data, 0, buffer, done, 512);
        } else {
          CopyOut(vol.data, pos, buffer, done, count);
        }
      }
    }

    /**
     With s sectors of the remembered cluster passed, the bytes from up to done are the cluster's from
     byte start on, and pos bytes are still to be skipped.
     */
    ghost predicate Copied(buffer: array<byte>, n: nat, from: nat, start: nat, s: nat, done: nat, pos: nat)
      requires from <= done <= n <= buffer.Length
      reads this, vol, vol.device, buffer
    {
      && (SECTOR * s <= start ==> pos == start - SECTOR * s && done == from)
      && (SECTOR * s > start ==> pos == 0 && done == Min(n, from + SECTOR * s - start))
      && (Usable(vol.device.sectors, vol.lay, cluster) ==>
            buffer[from..done] == ClusterSlice(vol.device.sectors, vol.lay, cluster, start, done - from))
    }

    /** Sector number s of the remembered cluster is skipped or copied. */
    method SectorStep(physical: u32, buffer: array<byte>, n: nat, s: nat, was: nat, at: nat, ghost from: nat,
                      ghost start: nat)
      returns (ok: bool, done: nat, pos: nat)
      requires vol.Coherent() && from <= was < n <= buffer.Length && s < vol.lay.perCluster
      requires Copied(buffer, n, from, start, s, was, at) && physical == ClusterSector(vol.lay, cluster, s)
      modifies vol`data, vol`index, vol.device`faults, buffer
      ensures vol.Coherent() && vol.device.faults >= old(vol.device.faults)
      ensures was <= done <= n && (ok ==> Copied(buffer, n, from, start, s + 1, done, pos))
      ensures buffer[..was] == old(buffer[..was]) && buffer[done..] == old(buffer[done..])
      ensures Usable(vol.device.sectors, vol.lay, cluster) && vol.device.faults == old(vol.device.faults) ==> ok
    {
      hide ClusterSlice, ClusterSector;
      ok, done, pos := true, was, at;
      if pos >= SECTOR {
        pos := pos - SECTOR;
      } else {
        ghost var before := buffer[..];
        var count;
        ok, count := CopySector(physical, buffer, n, done, pos);
        if ok {
          if Usable(vol.device.sectors, vol.lay, cluster) {
            SliceJoin(vol.device.sectors, vol.lay, cluster, start, done - from, s, pos, count);
            Extended(before, buffer[..], from, done, count);
          }
          done := done + count;
          if pos > 0 {
            pos := 0;
          }
        }
      }
    }

    /** Copy what the caller still wants of the remembered cluster, from offset start on. */
    method ReadCluster(buffer: array<byte>, n: nat, from: nat, start: nat) returns (ok: bool, done: nat, pos: nat)
      requires vol.Coherent() && from < n <= buffer.Length && start < ClusterBytes(vol.lay)
      modifies vol`data, vol`index, vol.device`faults, buffer
      ensures vol.Coherent() && vol.device.faults >= old(vol.device.faults)
      ensures from <= done <= n && (ok ==> done == Min(n, from + ClusterBytes(vol.lay) - start) && pos == 0)
      ensures buffer[..from] == old(buffer[..from]) && buffer[done..] == old(buffer[done..])
      ensures Usable(vol.device.sectors, vol.lay, cluster) ==>
                && (vol.device.faults == old(vol.device.faults) ==> ok)
                && (ok ==> buffer[from..done] == ClusterSlice(vol.device.sectors, vol.lay, cluster, start, done - from))
    {
      hide ClusterSlice, ClusterSector, Usable;
      ok, done, pos := true, from, start;
      assert buffer[from..from] == ClusterSlice(vol.device.sectors, vol.lay, cluster, start, 0);
      var physical := FirstSector(vol.lay, cluster);
      var s: nat := 0;
      while s < vol.lay.perCluster && done < n && ok
        invariant s <= vol.lay.perCluster && physical == ClusterSector(vol.lay, cluster, s)
        invariant vol.Coherent() && vol.device.faults >= old(vol.device.faults)
        invariant from <= done <= n && (ok ==> Copied(buffer, n, from, start, s, done, pos))
        invariant buffer[..from] == old(buffer[..from]) && buffer[done..] == old(buffer[done..])
        invariant Usable(vol.device.sectors, vol.lay, cluster) && vol.device.faults == old(vol.device.faults) ==> ok
      {
        ghost var before, was := buffer[..], done;
        ok, done, pos := SectorStep(physical, buffer, n, s, done, pos, from, start);
        assert buffer[..from] == buffer[..was][..from] == before[..from];
        assert before[done..] == before[was..][done - was..];
        NextSector(vol.lay, cluster, s);
        physical := Wrap32(physical + 1);
        s := s + 1;
      }
    }

    /** The first done of the bytes wanted from byte start on are in the buffer; pos locates the next one. */
    ghost predicate Reading(buffer: array<byte>, n: nat, start: nat, done: nat, pos: nat)
      requires done <= n <= buffer.Length
      reads this, vol, vol.device, buffer
    {
      && cluster == Walk(vol.device.sectors, vol.lay, first, clusterSeq)
      && clusterSeq * ClusterBytes(vol.lay) <= start + done
      && (done < n ==> clusterSeq * ClusterBytes(vol.lay) + pos == start + done)
      && buffer[..done] == FileBytes(vol.device.sectors, vol.lay, first, start, done)
    }

    /** Read what is wanted of the remembered cluster, and go on to the next one if that is not all. */
    method ReadStep(buffer: array<byte>, n: nat, from: nat, at: nat, ghost start: nat)
      returns (ok: bool, done: nat, pos: nat)
      requires vol.Coherent() && from < n <= buffer.Length && at < ClusterBytes(vol.lay) && start + n < 2 * U32
      modifies `cluster, `clusterSeq, vol`data, vol`index, vol`lost, vol.device`faults, buffer
      ensures vol.Coherent() && vol.device.faults >= old(vol.device.faults)
      ensures from <= done <= n && (ok ==> from < done && pos == 0)
      ensures buffer[n..] == old(buffer[n..])
      ensures vol.lost >= old(vol.lost)
      ensures (Reaches(vol.device.sectors, vol.lay, first, Last(vol.lay, start, n))
               && old(Reading(buffer, n, start, from, at))) ==>
                && (vol.lost == old(vol.lost) && ok ==> Reading(buffer, n, start, done, pos))
                && (vol.device.faults == old(vol.device.faults) ==> vol.lost == old(vol.lost) && ok)
    {
      hide Reaches, Walk, FileBytes, ClusterSlice, ClusterBytes, ClusterOf, Usable;
      ghost var dk, lay, q := vol.device.sectors, vol.lay, clusterSeq;
      ghost var good := Reading(buffer, n, start, from, at) && Reaches(dk, lay, first, Last(vol.lay, start, n));
      if good {
        UsableHere(dk, lay, first, q, at, start, from, n);
      }
      ghost var before := buffer[..];
      ok, done, pos := ReadCluster(buffer, n, from, at);
      SameFrom(before, buffer[..], done, n);
      if good && ok {
        BytesJoin(dk, lay, first, start, from, q, at, done - from);
        assert buffer[..done] == buffer[..from] + buffer[from..done];
      }
      if done < n {
        if good && ok {
          NextBegins(lay, q, at, start, from, done, n);
        }
        var more := Advance(Last(vol.lay, start, n));
        if !more {
          ok := false;
        }
      }
    }

    /** Make the remembered cluster the one that holds the current position, pos bytes into it. */
    method Position() returns (ok: bool, pos: u32)
      requires vol.Coherent()
      modifies `cluster, `clusterSeq, vol`data, vol`index, vol`lost, vol.device`faults
      ensures vol.Coherent() && vol.device.faults >= old(vol.device.faults)
      ensures ok ==> pos < ClusterBytes(vol.lay)
      ensures vol.lost >= old(vol.lost)
      ensures old(Cursor()) && Reaches(vol.device.sectors, vol.lay, first, ClusterOf(vol.lay, seekPos)) ==>
                && (vol.lost == old(vol.lost) ==> ok && Located(pos, seekPos))
                && (vol.device.faults == old(vol.device.faults) ==> vol.lost == old(vol.lost))
    {
      hide Reaches, Walk, ClusterBytes, ClusterOf;
      var perCluster := ClusterBytes(vol.lay);
      var number := ClusterNumber(seekPos, perCluster);
      pos := Wrap32(seekPos - BytesBefore(clusterSeq, perCluster));
      ok := true;
      StartOf(vol.lay, seekPos, clusterSeq);
      if number != clusterSeq {
        ok, pos := SkipClusters(pos, seekPos);
      }
    }

    /** Go to the current position and fill the first n bytes of the buffer from there. */
    method ReadBytes(buffer: array<byte>, n: nat) returns (ok: bool)
      requires vol.Coherent() && n <= buffer.Length && n < U32
      modifies `cluster, `clusterSeq, vol`data, vol`index, vol`lost, vol.device`faults, buffer
      ensures vol.Coherent() && vol.device.faults >= old(vol.device.faults)
      ensures buffer[n..] == old(buffer[n..])
      ensures vol.lost >= old(vol.lost)
      ensures old(Cursor()) && Reaches(vol.device.sectors, vol.lay, first, Last(vol.lay, seekPos, n)) ==>
                && (vol.lost == old(vol.lost) && ok ==> Reading(buffer, n, seekPos, n, 0))
                && (vol.device.faults == old(vol.device.faults) ==> vol.lost == old(vol.lost) && ok)
    {
      hide Reaches, Walk, FileBytes, ClusterBytes, ClusterOf, Last;
      ghost var good := Cursor() && Reaches(vol.device.sectors, vol.lay, first, Last(vol.lay, seekPos, n));
      EarlierReached(seekPos, n);
      var done: nat, at: nat := 0, 0;
      ok, at := Position();
      NothingRead(buffer, n, seekPos, at);
      while done < n && ok
        invariant done <= n && (ok && done < n ==> at < ClusterBytes(vol.lay))
        invariant vol.Coherent() && vol.device.faults >= old(vol.device.faults)
        invariant buffer[n..] == old(buffer[n..])
        invariant vol.lost >= old(vol.lost)
        invariant good && vol.lost == old(vol.lost) && ok ==> Reading(buffer, n, seekPos, done, at)
        invariant good && vol.device.faults == old(vol.device.faults) ==> vol.lost == old(vol.lost) && ok
        decreases n - done, ok
      {
        ok, done, at := ReadStep(buffer, n, done, at, seekPos);
      }
    }

    lemma EarlierReached(k: nat, n: nat)
      ensures Reaches(vol.device.sectors, vol.lay, first, Last(vol.lay, k, n)) ==>
                Reaches(vol.device.sectors, vol.lay, first, ClusterOf(vol.lay, k))
    {
      ClusterAtLeast(vol.lay, if n == 0 then k else k + n - 1, ClusterOf(vol.lay, k));
    }

    lemma NothingRead(buffer: array<byte>, n: nat, start: nat, pos: nat)
      requires n <= buffer.Length
      ensures Located(pos, start) ==> Reading(buffer, n, start, 0, pos)
    {
      hide Walk, ClusterBytes;
      assert buffer[..0] == FileBytes(vol.device.sectors, vol.lay, first, start, 0);
    }

    /**
     Read n bytes at the current position. If the cursor was right and the chain is sound up to the last
     byte wanted, a success has read exactly the file's bytes unless a table entry was lost on the way, and
     the call does succeed, with no entry lost, if no disk access failed.
     */
    method Read(buffer: array<byte>, n: nat) returns (ok: bool)
      requires vol.Coherent() && n <= buffer.Length && n < U32 / 2
      modifies `seekPos, `cluster, `clusterSeq, vol`data, vol`index, vol`lost, vol.device`faults, buffer
      ensures vol.Coherent() && vol.device.faults >= old(vol.device.faults)
      ensures seekPos == if ok then Wrap32(old(seekPos) + n) else old(seekPos)
      ensures buffer[n..] == old(buffer[n..])
      ensures vol.lost >= old(vol.lost)
      ensures old(Cursor()) && Reaches(vol.device.sectors, vol.lay, first, Last(vol.lay, old(seekPos), n)) ==>
                && (vol.lost == old(vol.lost) && ok ==>
                      && buffer[..n] == FileBytes(vol.device.sectors, vol.lay, first, old(seekPos), n)
                      && (old(seekPos) + n < U32 ==> Cursor()))
                && (vol.device.faults == old(vol.device.faults) ==> vol.lost == old(vol.lost) && ok)
    {
      hide Reaches, Walk, FileBytes, ClusterBytes, ClusterOf, Last;
      ok := ReadBytes(buffer, n);
      if ok {
        seekPos := Wrap32(seekPos + n);
      }
    }
  }

  /** What Read promises for a position inside a chain: the bytes of the concatenated clusters. */
  lemma ChainReadable(dk: disk, lay: layout, chain: seq<u32>, start: nat, n: nat)
    requires Chain(dk, lay, chain) && 0 < n && start + n <= |chain| * ClusterBytes(lay)
    ensures Reaches(dk, lay, chain[0], Last(lay, start, n))
    ensures FileBytes(dk, lay, chain[0], start, n) == Content(dk, lay, chain)[start..start + n]
  {
    hide Content, FileBytes, Chain, Walk, Usable, ClusterBytes, ClusterOf;
    FlatFile(dk, lay, chain, start, n);
    ChainReaches(dk, lay, chain);
    ClusterBelow(lay, start + n - 1, |chain|);
  }

  lemma UsableHere(dk: disk, lay: layout, first: u32, q: nat, at: nat, start: nat, from: nat, n: nat)
    requires from < n && q * ClusterBytes(lay) + at == start + from
    requires Reaches(dk, lay, first, ClusterOf(lay, start + n - 1))
    ensures Usable(dk, lay, Walk(dk, lay, first, q))
  {
    ClusterAtLeast(lay, start + n - 1, q);
  }

  lemma NextBegins(lay: layout, q: nat, at: nat, start: nat, from: nat, done: nat, n: nat)
    requires q * ClusterBytes(lay) + at == start + from && done == from + ClusterBytes(lay) - at && done < n
    requires start + n < 2 * U32
    ensures q < ClusterOf(lay, start + n - 1) < U32
    ensures (q + 1) * ClusterBytes(lay) == start + done
  {
    assert (q + 1) * ClusterBytes(lay) == q * ClusterBytes(lay) + ClusterBytes(lay);
    ClusterAtLeast(lay, start + n - 1, q + 1);
  }

  lemma StartOf(lay: layout, k: u32, q: u32)
    ensures q * ClusterBytes(lay) <= k ==> Wrap32(k - Wrap32(q * ClusterBytes(lay))) == k - q * ClusterBytes(lay)
    ensures k / ClusterBytes(lay) == q ==> 0 <= k - q * ClusterBytes(lay) < ClusterBytes(lay)
  {
    hide ClusterBytes;
    StartDifference(k, q * ClusterBytes(lay));
    QuotientNonNegative(k, ClusterBytes(lay));
  }

  lemma StartDifference(k: u32, m: nat)
    ensures m <= k ==> Wrap32(k - Wrap32(m)) == k - m
  {
  }
}
