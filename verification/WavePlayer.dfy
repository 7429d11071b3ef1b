/** Streaming the sample data of a file to the DAC through one 512-byte buffer. */
module WavePlayer {
  import opened Bits
  import opened BlockDevice
  import opened FatLayout
  import opened FatFile
  import opened WavePositions

  type short = x: int | -0x8000 <= x < 0x8000

  /** One stereo sample. */
  datatype Frame = Frame(left: short, right: short)

  function Short(low: byte, high: byte): short {
    var v := low as int + 0x100 * high as int;
    if v >= 0x8000 then v - 0x1_0000 else v
  }

  /** The stereo samples that a run of bytes holds, each four bytes long. */
  function Frames(s: seq<byte>): (f: seq<Frame>)
    ensures |f| == |s| / 4
  {
    seq(|s| / 4, i requires 0 <= i < |s| / 4 => Frame(Short(s[4 * i], s[4 * i + 1]), Short(s[4 * i + 2], s[4 * i + 3])))
  }

  lemma FramesJoin(s: seq<byte>, t: seq<byte>)
    requires |s| % 4 == 0
    ensures Frames(s + t) == Frames(s) + Frames(t)
  {
    hide Short;
    var u, k := s + t, |s| / 4;
    assert |u| / 4 == k + |t| / 4;
    forall i | 0 <= i < |u| / 4
      ensures Frames(u)[i] == (Frames(s) + Frames(t))[i]
    {
      if i >= k {
        assert u[4 * i..] == t[4 * (i - k)..];
      }
    }
  }

  // ----- How samples are stored -----

  /** Two's complement in 16 bits, low byte first. */
  function StoredShort(v: short): (s: seq<byte>)
    ensures |s| == 2
  {
    var u := if v < 0 then v + 0x1_0000 else v;
    [u % 0x100, u / 0x100]
  }

  /** The bytes of a list of samples, left before right. */
  function StoredFrames(fs: seq<Frame>): (s: seq<byte>)
    ensures |s| == 4 * |fs|
  {
    if fs == [] then []
    else
      var n := |fs| - 1;
      StoredFrames(fs[..n]) + (StoredShort(fs[n].left) + StoredShort(fs[n].right))
  }

  lemma ShortStored(v: short)
    ensures Short(StoredShort(v)[0], StoredShort(v)[1]) == v
  {
  }

  /** The samples in the bytes that store a list of samples are that list. */
  lemma {:induction false} FramesStored(fs: seq<Frame>)
    ensures Frames(StoredFrames(fs)) == fs
  {
    hide Short, StoredShort;
    if fs != [] {
      var n := |fs| - 1;
      var last := StoredShort(fs[n].left) + StoredShort(fs[n].right);
      FramesStored(fs[..n]);
      FramesJoin(StoredFrames(fs[..n]), last);
      ShortStored(fs[n].left);
      ShortStored(fs[n].right);
      assert Frames(last) == [fs[n]];
    }
  }

  /** The file of the chain holds the samples from byte from on. */
  ghost predicate HoldsSong(dk: disk, lay: layout, chain: seq<u32>, from: nat, samples: seq<Frame>) {
    && chain != [] && Chain(dk, lay, chain) && from + 4 * |samples| <= |chain| * ClusterBytes(lay)
    && Content(dk, lay, chain)[from..from + 4 * |samples|] == StoredFrames(samples)
  }

  /** Any number of bytes of such a file, taken from byte from on, holds those samples in order. */
  lemma SongFrames(dk: disk, lay: layout, chain: seq<u32>, from: nat, samples: seq<Frame>, m: nat)
    requires HoldsSong(dk, lay, chain, from, samples)
    ensures var f := Frames(FileBytes(dk, lay, chain[0], from, m));
            |f| == m / 4 && if m / 4 <= |samples| then f == samples[..m / 4] else f[..|samples|] == samples
  {
    hide FileBytes, Content, Frames, StoredFrames, Chain;
    FlatFile(dk, lay, chain, from, 4 * |samples|);
    FramesStored(samples);
    if m <= 4 * |samples| {
      FramesPrefix(dk, lay, chain[0], from, m, 4 * |samples|);
    } else {
      FramesPrefix(dk, lay, chain[0], from, 4 * |samples|, m);
    }
  }

  lemma FramesNext(s: seq<byte>, at: nat, i: nat)
    requires at + i + 4 <= |s| && i % 4 == 0
    ensures Frames(s[at..at + i + 4]) ==
            Frames(s[at..at + i]) + [Frame(Short(s[at + i], s[at + i + 1]), Short(s[at + i + 2], s[at + i + 3]))]
  {
    hide Short;
    var t := s[at + i..at + i + 4];
    assert s[at..at + i] + t == s[at..at + i + 4];
    FramesJoin(s[at..at + i], t);
    assert Frames(t) == [Frame(Short(t[0], t[1]), Short(t[2], t[3]))];
  }

  lemma BytesInside(dk: disk, lay: layout, first: u32, start: nat, m: nat, x: nat, n: nat)
    requires x + n <= m
    ensures FileBytes(dk, lay, first, start, m)[x..x + n] == FileBytes(dk, lay, first, start + x, n)
  {
    hide FileByte, FileBytes;
    var s, t := FileBytes(dk, lay, first, start, m), FileBytes(dk, lay, first, start + x, n);
    forall i | 0 <= i < n
      ensures s[x..x + n][i] == t[i]
    {
      assert s[x + i] == FileByte(dk, lay, first, start + (x + i));
    }
  }

  lemma BytesAppend(dk: disk, lay: layout, first: u32, start: nat, m: nat, n: nat)
    ensures FileBytes(dk, lay, first, start, m + n) ==
          FileBytes(dk, lay, first, start, m) + FileBytes(dk, lay, first, start + m, n)
  {
    BytesInside(dk, lay, first, start, m + n, 0, m);
    BytesInside(dk, lay, first, start, m + n, m, n);
    hide FileBytes;
    var s := FileBytes(dk, lay, first, start, m + n);
    assert s == s[0..m] + s[m..m + n];
  }

  lemma EarlierReads(dk: disk, lay: layout, first: u32, all: nat, start: nat, n: nat)
    requires 0 < n
    ensures start + n <= all && Reaches(dk, lay, first, Last(lay, 0, all)) ==>
          Reaches(dk, lay, first, Last(lay, start, n))
  {
    if start + n <= all && Reaches(dk, lay, first, Last(lay, 0, all)) {
      ClusterAtLeast(lay, all - 1, ClusterOf(lay, start + n - 1));
    }
  }

  class Player {
    const file: File
    const buf: array<byte>
    const beyond: seq<byte>
    var readPos: u32
    var playPos: u32
    var maxPlayPos: u32
    var dac: seq<Frame>
    ghost var offset: nat
    ghost var base: nat

    ghost function At(): Pos
      reads `offset, `base, `readPos, `playPos, `maxPlayPos
    {
      Pos(offset, base, readPos, playPos, maxPlayPos)
    }

    ghost predicate Valid()
      reads `offset, `base, `readPos, `playPos, `maxPlayPos, file.vol, file.vol.device
    {
      buf.Length == SECTOR == |beyond| && file.vol.Coherent() && Placed(At())
    }

    /** The buffer has the file's bytes from base up to readPos, where the file cursor stands; the rest can be read. */
    ghost predicate Buffered()
      requires buf.Length == SECTOR && base <= readPos <= base + SECTOR
      reads `readPos, `base, `maxPlayPos, buf, file, file.vol, file.vol.device
    {
      var dk, lay, first := file.vol.device.sectors, file.vol.lay, file.first;
      && file.Cursor() && file.seekPos == readPos
      && buf[..readPos - base] == FileBytes(dk, lay, first, base, readPos - base)
      && Reaches(dk, lay, first, Last(lay, 0, Max(SECTOR, maxPlayPos)))
    }

    /** The DAC has the file's samples from offset up to playPos. */
    ghost predicate Played()
      requires offset <= playPos
      reads `dac, `offset, `playPos, file.vol.device
    {
      dac == Frames(FileBytes(file.vol.device.sectors, file.vol.lay, file.first, offset, playPos - offset))
    }

    /** The buffer is right and, for a song whose loads are played from their right places, so is what was played. */
    ghost predicate Faithful()
      requires Valid()
      reads this, buf, file, file.vol, file.vol.device
    {
      Buffered() && (Right(offset, At().Length()) ==> Played())
    }

    constructor (f: File, after: seq<byte>)
      ensures file == f && beyond == after && buf.Length == SECTOR && fresh(buf) && dac == []
    {
      file := f;
      buf := new byte[SECTOR];
      beyond := after;
      readPos, playPos, maxPlayPos, dac, offset, base := 0, 0, 0, [], 0, 0;
    }

    /**
     Begin to play size bytes of the freshly opened file from byte from on, as its header, read into the
     buffer here, gives them.
     */
    method Start(from: u32, size: u32) returns (ok: bool)
      requires buf.Length == SECTOR == |beyond| && file.vol.Coherent() && dac == []
      modifies this, buf, file, file.vol`data, file.vol`index, file.vol`lost, file.vol.device`faults
      ensures file.vol.device.faults >= old(file.vol.device.faults) && file.vol.Coherent()
      ensures ok ==> Valid() && At() == Pos(from, 0, SECTOR, from, Wrap32(from + size)) && dac == []
      ensures file.vol.lost >= old(file.vol.lost)
      ensures var dk, lay, first := file.vol.device.sectors, file.vol.lay, file.first;
              old(file.Cursor()) && old(file.seekPos) == 0 ==>
                && (Reaches(dk, lay, first, Last(lay, 0, Max(SECTOR, Wrap32(from + size)))) ==>
                      (file.vol.lost == old(file.vol.lost) && ok ==> Faithful()))
                && (Reaches(dk, lay, first, Last(lay, 0, SECTOR)) ==>
                      (file.vol.device.faults == old(file.vol.device.faults) ==>
                          file.vol.lost == old(file.vol.lost) && ok))
    {
      hide Reaches, FileBytes, Last, Placed;
      BeginPlaced(from, size);
      ghost var dk, lay, first := file.vol.device.sectors, file.vol.lay, file.first;
      EarlierReads(dk, lay, first, Max(SECTOR, Wrap32(from + size)), 0, SECTOR);
      ok := file.Read(buf, SECTOR);
      if ok {
        playPos := from;
        maxPlayPos := Wrap32(playPos + size);
        readPos := SECTOR;
        offset, base := from, 0;
        assert FileBytes(dk, lay, first, from, 0) == [];
      }
    }

    /** The memory from the buffer on. */
    ghost function Memory(): seq<byte>
      reads buf
    {
      buf[..] + beyond
    }

    function Peek(i: nat): (b: byte)
      requires i < buf.Length + |beyond|
      reads buf
      ensures b == Memory()[i]
    {
      if i < buf.Length then buf[i] else beyond[i - buf.Length]
    }

    /** Push count / 4 samples, from byte at of the memory on. */
    method Push(at: nat, count: nat)
      requires at + count <= buf.Length + |beyond| && count % 4 == 0
      modifies `dac
      ensures dac == old(dac) + Frames(Memory()[at..at + count])
    {
      hide Short, Frames, Memory, Peek;
      ghost var m := Memory();
      assert |m| == buf.Length + |beyond| by { MemorySize(); }
      var i: nat := 0;
      assert Frames(m[at..at]) == [];
      while i < count
        invariant i <= count && i % 4 == 0
        invariant dac == old(dac) + Frames(m[at..at + i])
      {
        FramesNext(m, at, i);
        var left, right := Short(Peek(at + i), Peek(at + i + 1)), Short(Peek(at + i + 2), Peek(at + i + 3));
        dac := dac + [Frame(left, right)];
        i := i + 4;
      }
    }

    lemma MemorySize()
      ensures |Memory()| == buf.Length + |beyond|
    {
    }

    /** One read of the loop into the buffer. */
    method ReadOn() returns (ok: bool)
      requires Valid() && readPos <= playPos < maxPlayPos
      modifies `readPos, `base, buf, file`seekPos, file`cluster, file`clusterSeq
      modifies file.vol`data, file.vol`index, file.vol`lost, file.vol.device`faults
      ensures Valid() && file.vol.device.faults >= old(file.vol.device.faults)
      ensures At() == if ok then AfterRead(old(At())) else old(At())
      ensures file.vol.lost >= old(file.vol.lost)
      ensures old(Faithful()) ==>
                && (file.vol.lost == old(file.vol.lost) && ok ==> Faithful())
                && (file.vol.device.faults == old(file.vol.device.faults) ==> file.vol.lost == old(file.vol.lost) && ok)
    {
      hide Reaches, FileBytes, Last, Frames, Walk, ClusterBytes, Placed, AfterRead;
      ReadFacts(At());
      var size := SECTOR;
      if size > maxPlayPos - playPos {
        size := maxPlayPos - playPos;
      }
      EarlierReads(file.vol.device.sectors, file.vol.lay, file.first, Max(SECTOR, maxPlayPos), readPos, size);
      ok := file.Read(buf, size);
      if ok {
        base := readPos;
        readPos := Wrap32(readPos + size);
      }
    }

    /** Read on in the file until the buffer holds data to play. */
    method Refill() returns (ok: bool)
      requires Valid() && playPos < maxPlayPos
      modifies `readPos, `base, buf, file`seekPos, file`cluster, file`clusterSeq
      modifies file.vol`data, file.vol`index, file.vol`lost, file.vol.device`faults
      ensures Valid() && file.vol.device.faults >= old(file.vol.device.faults)
      ensures ok ==> At() == SkipTo(old(At()))
      ensures file.vol.lost >= old(file.vol.lost)
      ensures old(Faithful()) ==>
                && (file.vol.lost == old(file.vol.lost) && ok ==> Faithful())
                && (file.vol.device.faults == old(file.vol.device.faults) ==> file.vol.lost == old(file.vol.lost) && ok)
    {
      hide Faithful, Placed;
      ok := true;
      var ready := false;
      while !ready && ok
        invariant Valid() && file.vol.device.faults >= old(file.vol.device.faults)
        invariant ok ==> SkipTo(At()) == SkipTo(old(At())) && (ready ==> playPos < readPos)
        invariant file.vol.lost >= old(file.vol.lost)
        invariant old(Faithful()) && file.vol.lost == old(file.vol.lost) && ok ==> Faithful()
        invariant old(Faithful()) && file.vol.device.faults == old(file.vol.device.faults) ==>
              file.vol.lost == old(file.vol.lost) && ok
        decreases ok && !ready, playPos - readPos
      {
        if playPos < readPos {
          ready := true;
        } else {
          ok := ReadOn();
        }
      }
    }

    lemma BufferIs()
      requires buf.Length == SECTOR && base <= readPos <= base + SECTOR && Buffered()
      ensures Memory()[..readPos - base] ==
            FileBytes(file.vol.device.sectors, file.vol.lay, file.first, base, readPos - base)
    {
      assert Memory()[..readPos - base] == buf[..readPos - base];
    }

    /** Push the samples in the next size bytes to play. */
    method PushNext(size: nat)
      requires Valid() && playPos < readPos && size <= readPos - playPos && size % 4 == 0
      modifies `dac
      ensures dac == old(dac) + Frames(Memory()[InBuffer(playPos)..InBuffer(playPos) + size])
      ensures old(Faithful()) && Right(offset, At().Length()) ==>
                var dk, lay, first := file.vol.device.sectors, file.vol.lay, file.first;
                dac == Frames(FileBytes(dk, lay, first, offset, playPos + size - offset))
    {
      hide Buffered, FileBytes, Frames, InBuffer, Placed, Right, Memory;
      PlayFacts(At());
      MemorySize();
      if size == 0 {
        NoFrames();
      } else if Faithful() && Right(offset, At().Length()) {
        BufferIs();
        Pushed(file.vol.device.sectors, file.vol.lay, file.first, Memory(), offset, base, playPos, readPos, size);
      }
      Push(InBuffer(playPos), size);
    }

    /** Push every whole sample the buffer still holds. */
    method Play()
      requires Valid() && playPos < readPos && playPos < maxPlayPos
      modifies `playPos, `dac
      ensures Valid() && At() == AfterPlay(old(At()))
      ensures var at := InBuffer(old(playPos));
              dac == old(dac) + Frames(Memory()[at..at + WholeSamples(readPos - old(playPos))])
      ensures old(Faithful()) ==> Faithful()
    {
      hide Buffered, FileBytes, Frames, WholeSamples, InBuffer, Memory, Placed, Right;
      PlayFacts(At());
      PlayKeeps(At());
      var size: nat := WholeSamples(readPos - playPos);
      PushNext(size);
      playPos := playPos + size;
    }

    /**
     One call of the streaming loop: at the end of the data report it, otherwise refill the buffer when it is
     used up and push the whole samples it holds.
     */
    method Execute() returns (ok: bool, eof: bool)
      requires Valid()
      modifies `readPos, `playPos, `dac, `base, buf, file`seekPos, file`cluster, file`clusterSeq
      modifies file.vol`data, file.vol`index, file.vol`lost, file.vol.device`faults
      ensures Valid() && file.vol.device.faults >= old(file.vol.device.faults)
      ensures eof == (old(playPos) >= maxPlayPos) && (eof ==> ok && At() == old(At()))
      ensures ok && !eof ==> At() == AfterPlay(SkipTo(old(At())))
      ensures eof || !ok ==> playPos == old(playPos) && dac == old(dac)
      ensures file.vol.lost >= old(file.vol.lost)
      ensures old(Faithful()) ==>
                && (file.vol.lost == old(file.vol.lost) && ok ==> Faithful())
                && (file.vol.device.faults == old(file.vol.device.faults) ==> file.vol.lost == old(file.vol.lost) && ok)
    {
      hide Faithful, Placed;
      if playPos >= maxPlayPos {
        return true, true;
      }
      eof := false;
      ok := Refill();
      if ok {
        Play();
      }
    }
  }

  /** The calls of the loop so far have played this far: a song that ends moves on with every call. */
  ghost predicate Progress(p: Pos, from: nat, n: nat, calls: nat, eof: bool) {
    && p.offset == from && p.Length() == n && Placed(p) && p.playPos <= Final(from, n)
    && (calls > 0 ==> p.playPos == from || p.readPos - p.playPos < 4)
    && (eof ==> p.max <= p.playPos == Final(from, n) && Ends(from, n))
    && (!eof ==> p.playPos >= from + calls || (p.playPos == Final(from, n) && !Ends(from, n)))
  }

  lemma ProgressStarts(from: u32, size: u32)
    ensures Progress(Pos(from, 0, SECTOR, from, Wrap32(from + size)), from, DataLength(from, size), 0, false)
  {
    hide Placed, Final;
    LengthSeen(from, size);
    BeginPlaced(from, size);
  }

  lemma ProgressGoesOn(p: Pos, from: nat, n: nat, calls: nat)
    requires Progress(p, from, n, calls, false) && p.playPos < p.max
    ensures Progress(AfterPlay(SkipTo(p)), from, n, calls + 1, false)
  {
    hide Placed, Final, Ends;
    CallMovesOn(p);
    EndsIff(from, n);
  }

  lemma ProgressEnds(p: Pos, from: nat, n: nat, calls: nat)
    requires Progress(p, from, n, calls, false) && p.max <= p.playPos && (calls == 0 ==> p.playPos == from)
    ensures Progress(p, from, n, calls + 1, true)
  {
    hide Placed, Final, Ends;
    EndIsFinal(p);
    EndsIff(from, n);
  }

  /**
   Play a song with the given number of calls of the loop. It ends, given enough calls, exactly if its header
   says so; otherwise it comes to rest before its end for good. If the header also says that every load is
   played from its right place, what has been played is the file's samples from the beginning of the data on:
   if the file holds a list of samples there, the DAC got that list, or as much of it as has been played.
   */
  method PlaySong(file: File, beyond: seq<byte>, from: u32, size: u32, calls: nat,
                  ghost chain: seq<u32>, ghost samples: seq<Frame>)
    returns (ok: bool, eof: bool, player: Player)
    requires file.vol.Coherent() && file.seekPos == 0 && file.Cursor() && |beyond| == SECTOR
    modifies file, file.vol`data, file.vol`index, file.vol`lost, file.vol.device`faults
    ensures fresh(player) && file.vol.lost >= old(file.vol.lost)
    ensures var n := DataLength(from, size);
            ok ==>
              && from <= player.playPos <= Final(from, n)
              && (eof ==> Ends(from, n))
              && (calls > Final(from, n) - from ==> player.playPos == Final(from, n) && (eof <==> Ends(from, n)))
    ensures var dk, lay, first := file.vol.device.sectors, file.vol.lay, file.first;
            Reaches(dk, lay, first, Last(lay, 0, Max(SECTOR, Wrap32(from + size)))) ==>
              && (file.vol.lost == old(file.vol.lost) && ok && Right(from, DataLength(from, size)) ==>
                    && from <= player.playPos
                    && player.dac == Frames(FileBytes(dk, lay, first, from, player.playPos - from)))
              && (file.vol.device.faults == old(file.vol.device.faults) ==> file.vol.lost == old(file.vol.lost) && ok)
    ensures var dk, lay, n := file.vol.device.sectors, file.vol.lay, DataLength(from, size);
            && HoldsSong(dk, lay, chain, from, samples) && chain[0] == file.first
            && Max(SECTOR, Wrap32(from + size)) <= |chain| * ClusterBytes(lay)
            && file.vol.lost == old(file.vol.lost) && ok && Right(from, n) ==>
              from <= player.playPos && Heard(player.dac, samples, from, n, player.playPos)
  {
    hide Reaches, FileBytes, Frames, Last, Walk, ClusterBytes, Placed, Right, Final, Ends, HoldsSong, Heard;
    ghost var n := DataLength(from, size);
    EarlierReads(file.vol.device.sectors, file.vol.lay, file.first, Max(SECTOR, Wrap32(from + size)), 0, SECTOR);
    player := new Player(file, beyond);
    ok := player.Start(from, size);
    eof := false;
    ProgressStarts(from, size);
    var c: nat := 0;
    while c < calls && ok && !eof
      invariant c <= calls && file.vol.device.faults >= old(file.vol.device.faults)
      invariant file.vol.lost >= old(file.vol.lost)
      invariant fresh(player) && fresh(player.buf) && player.file == file
      invariant ok ==> player.Valid() && Progress(player.At(), from, n, c, eof) && (c == 0 ==> player.playPos == from)
      invariant Reaches(file.vol.device.sectors, file.vol.lay, file.first,
          Last(file.vol.lay, 0, Max(SECTOR, Wrap32(from + size)))) ==>
                  && (file.vol.lost == old(file.vol.lost) && ok ==> player.Faithful())
                  && (file.vol.device.faults == old(file.vol.device.faults) ==>
                        file.vol.lost == old(file.vol.lost) && ok)
    {
      if player.playPos < player.maxPlayPos {
        ProgressGoesOn(player.At(), from, n, c);
      } else {
        ProgressEnds(player.At(), from, n, c);
      }
      ok, eof := player.Execute();
      c := c + 1;
    }
    SongHeard(file.vol.device.sectors, file.vol.lay, chain, from, samples, n, Max(SECTOR, Wrap32(from + size)),
              player.playPos, player.dac);
  }

  /**
   What the DAC got when byte playPos has been reached: the samples in order, as many of them as that. It is all of
   them and nothing else if the data is as long as the list and has been played, completely, to its resting place.
   */
  ghost predicate Heard(dac: seq<Frame>, samples: seq<Frame>, from: nat, n: nat, playPos: nat) {
    && from <= playPos && |dac| == (playPos - from) / 4
    && (if |dac| <= |samples| then dac == samples[..|dac|] else dac[..|samples|] == samples)
    && (playPos == Final(from, n) && Complete(from, n) && n / 4 == |samples| ==> dac == samples)
  }

  /** A player that has sent the samples of the file's bytes has sent those stored in it. */
  lemma SongHeard(dk: disk, lay: layout, chain: seq<u32>, from: u32, samples: seq<Frame>, n: nat, end: nat,
                  playPos: nat, dac: seq<Frame>)
    requires SECTOR <= end
    ensures HoldsSong(dk, lay, chain, from, samples) && end <= |chain| * ClusterBytes(lay) ==>
              && chain != [] && Reaches(dk, lay, chain[0], Last(lay, 0, end))
              && (from <= playPos && dac == Frames(FileBytes(dk, lay, chain[0], from, playPos - from)) ==>
                    Heard(dac, samples, from, n, playPos))
  {
    hide FileBytes, Frames, Content, StoredFrames, Chain, Final, Complete, Reaches, Last, ClusterBytes;
    if HoldsSong(dk, lay, chain, from, samples) && end <= |chain| * ClusterBytes(lay) {
      ChainReadable(dk, lay, chain, 0, end);
      if from <= playPos {
        SongFrames(dk, lay, chain, from, samples, playPos - from);
        FinalCount(from, n);
        WholeList(samples, (playPos - from) / 4);
      }
    }
  }

  lemma WholeList(samples: seq<Frame>, k: int)
    ensures k == |samples| ==> samples[..k] == samples
  {
  }

  /** Playing one after the other from the same byte on, the longer run begins with the samples of the shorter. */
  lemma FramesPrefix(dk: disk, lay: layout, first: u32, from: nat, a: nat, b: nat)
    requires a <= b
    ensures Frames(FileBytes(dk, lay, first, from, a)) <= Frames(FileBytes(dk, lay, first, from, b))
  {
    var w := WholeSamples(a);
    BytesAppend(dk, lay, first, from, w, a - w);
    BytesAppend(dk, lay, first, from, w, b - w);
    hide FileBytes, Frames, WholeSamples;
    var s := FileBytes(dk, lay, first, from, w);
    FramesJoin(s, FileBytes(dk, lay, first, from + w, a - w));
    FramesJoin(s, FileBytes(dk, lay, first, from + w, b - w));
  }

  /**
   The samples from the beginning of the data up to the resting place are exactly the whole samples of the data in
   the cases given; otherwise samples that follow the data come after it, or samples are left out at its end.
   */
  lemma PlaysTheData(dk: disk, lay: layout, chain: seq<u32>, from: nat, n: nat)
    requires Chain(dk, lay, chain) && Max(SECTOR, from + n) <= |chain| * ClusterBytes(lay)
    ensures Reaches(dk, lay, chain[0], Last(lay, 0, Max(SECTOR, from + n)))
    ensures var played := Frames(FileBytes(dk, lay, chain[0], from, Final(from, n) - from));
            var data := Frames(Content(dk, lay, chain)[from..from + n]);
            && (played == data <==> Complete(from, n))
            && (played <= data || data <= played)
  {
    hide FileBytes, Frames, Content, Chain, Reaches, Last, Walk, ClusterBytes, Final;
    ChainReadable(dk, lay, chain, 0, Max(SECTOR, from + n));
    FlatFile(dk, lay, chain, from, n);
    var f := Final(from, n) - from;
    FinalCount(from, n);
    if f <= n {
      FramesPrefix(dk, lay, chain[0], from, f, n);
    } else {
      FramesPrefix(dk, lay, chain[0], from, n, f);
    }
  }

  lemma NoFrames()
    ensures Frames([]) == []
  {
  }

  lemma Pushed(dk: disk, lay: layout, first: u32, buf: seq<byte>, offset: nat, base: nat, pos: nat, end: nat, n: nat)
    requires base <= pos && offset <= pos && pos + n <= end && end - base <= |buf| && (pos - offset) % 4 == 0
    requires buf[..end - base] == FileBytes(dk, lay, first, base, end - base)
    ensures Frames(FileBytes(dk, lay, first, offset, pos + n - offset)) ==
            Frames(FileBytes(dk, lay, first, offset, pos - offset)) + Frames(buf[pos - base..pos - base + n])
  {
    hide FileBytes, Frames;
    BytesInside(dk, lay, first, base, end - base, pos - base, n);
    assert buf[pos - base..pos - base + n] == buf[..end - base][pos - base..pos - base + n];
    BytesAppend(dk, lay, first, offset, pos - offset, n);
    FramesJoin(FileBytes(dk, lay, first, offset, pos - offset), FileBytes(dk, lay, first, pos, n));
  }
}
