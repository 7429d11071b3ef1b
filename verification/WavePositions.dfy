/** The positions of the playing loop: what it has read, what it has played, and where it stops. */
module WavePositions {
  import opened NumberTheory
  import opened Bits
  import opened BlockDevice

  /**
   Sample data from byte offset up to max; the buffer holds the file from byte base up to readPos, and
   playing has come to byte playPos.
   */
  datatype Pos = Pos(offset: nat, base: nat, readPos: nat, playPos: nat, max: nat)
  {
    function Length(): nat {
      if offset <= max then max - offset else 0
    }
  }

  /** The length the loop sees: an end that does not fit 32 bits lies before the start. */
  function DataLength(from: u32, size: u32): u32 {
    if from + size < U32 then size else 0
  }

  lemma LengthSeen(from: u32, size: u32)
    ensures Pos(from, 0, SECTOR, from, Wrap32(from + size)).Length() == DataLength(from, size)
  {
  }

  /** Data past the first sector that is shorter than the buffer: the loop reads no more than its length at a time. */
  predicate Brief(from: nat, n: nat) {
    SECTOR < from && 0 < n < SECTOR
  }

  /** How far into the load it is reached in such data begins. */
  function Lead(from: nat, n: nat): (m: nat)
    requires Brief(from, n)
    ensures m < n
  {
    QuotientNonNegative(from - SECTOR, n);
    (from - SECTOR) % n
  }

  /** The end of the buffer load in which playing begins. */
  function FirstEnd(from: nat): (e: nat)
    ensures from <= e
  {
    if from <= SECTOR then SECTOR else (from / SECTOR + 1) * SECTOR
  }

  /** Up to where the first buffer load is played: its last whole sample. */
  function LastWhole(from: nat): (p: nat)
    ensures from <= p <= FirstEnd(from) < p + 4
  {
    FirstEnd(from) - (FirstEnd(from) - from) % 4
  }

  /** Where playing n bytes of data from byte from on comes to rest. */
  function Final(from: nat, n: nat): (p: nat)
    ensures from <= p
  {
    if n == 0 then from
    else if Brief(from, n) then
      var m := Lead(from, n);
      if (n - m) % 4 != 0 then from + (n - m) - (n - m) % 4 else from + n - m % 4
    else if from % 4 != 0 || from + n <= FirstEnd(from) then LastWhole(from)
    else from + n - n % 4
  }

  /** The end of the data will be reached. */
  predicate Ends(from: nat, n: nat) {
    n == 0 || (from % 4 == 0 && n % 4 == 0) || (from <= SECTOR && from + n <= LastWhole(from))
  }

  /**
   Playing comes to rest at or past the end of the data exactly if there is none, it is on sample boundaries, or it
   ends in time in the first sector.
   */
  lemma EndsIff(from: nat, n: nat)
    ensures Ends(from, n) <==> from + n <= Final(from, n)
  {
    hide Final, Ends, Lead;
    if Brief(from, n) {
      LeadOnSamples(from, n);
      EndsShort(from, n, Lead(from, n));
    } else {
      EndsLong(from, n);
    }
  }

  lemma EndsShort(from: nat, n: nat, m: nat)
    requires Brief(from, n) && m == Lead(from, n)
    requires from % 4 == 0 && n % 4 == 0 <==> m % 4 == 0 && n % 4 == 0
    ensures Ends(from, n) <==> from + n <= Final(from, n)
  {
    hide Lead;
  }

  lemma EndsLong(from: nat, n: nat)
    requires !Brief(from, n)
    ensures Ends(from, n) <==> from + n <= Final(from, n)
  {
    hide FirstEnd, LastWhole;
    LastWholeIs(from);
    FirstEndNear(from);
  }

  lemma FirstEndNear(from: nat)
    ensures from % 4 == 0 ==> (FirstEnd(from) - from) % 4 == 0
    ensures from <= SECTOR ==> FirstEnd(from) == SECTOR
    ensures SECTOR < from ==> FirstEnd(from) <= from + SECTOR && (from % 4 != 0 ==> FirstEnd(from) < from + SECTOR)
  {
  }

  /** On samples, short data begins on a sample of its load too. */
  lemma LeadOnSamples(from: nat, n: nat)
    requires Brief(from, n)
    ensures from % 4 == 0 && n % 4 == 0 <==> Lead(from, n) % 4 == 0 && n % 4 == 0
  {
    QuotientNonNegative(from - SECTOR, n);
    var q := (from - SECTOR) / n;
    if n % 4 == 0 {
      FourDivides(n / 4, q, n);
      SameRest(from, n * q, Lead(from, n));
    }
  }

  lemma SameRest(x: nat, y: nat, m: nat)
    requires y % 4 == 0 && x == SECTOR + y + m
    ensures x % 4 == m % 4
  {
  }

  lemma FourDivides(k: nat, q: nat, n: nat)
    requires n == 4 * k
    ensures (n * q) % 4 == 0
  {
    MulSwap(4, k, q);
    assert n * q == 4 * (k * q);
  }

  /** Two bytes are left over of a header of 78 bytes, so the end of data that goes on past the sector never comes. */
  lemma StallingHeader(n: nat)
    requires 434 < n
    ensures !Ends(78, n) && Final(78, n) == 510
  {
  }

  // ----- Invariants -----

  predicate Sound(p: Pos) {
    && p.offset <= p.playPos && (p.playPos - p.offset) % 4 == 0
    && (p.offset < p.playPos ==> p.playPos <= p.readPos && p.offset < p.max)
    && p.base <= p.readPos <= p.base + SECTOR && SECTOR <= p.readPos && (SECTOR < p.readPos ==> p.readPos <= p.max)
    && (p.playPos < p.readPos ==> p.base <= p.playPos)
  }

  /** The buffer loads begin at multiples of the sector size. */
  predicate Lined(p: Pos) {
    && p.base % SECTOR == 0 && (p.readPos == p.base + SECTOR || p.readPos == p.max)
    && (p.offset % 4 != 0 ==> p.base + SECTOR <= FirstEnd(p.offset))
  }

  /** The load short data begins in, and the one its last bytes come in. */
  function FirstLoad(from: nat, n: nat): Pos
    requires Brief(from, n)
  {
    var m := Lead(from, n);
    Pos(from, from - m, from - m + n, from, from + n)
  }

  function SecondLoad(from: nat, n: nat): Pos
    requires Brief(from, n)
  {
    var m := Lead(from, n);
    Pos(from, from - m + n, from + n, from - m + n, from + n)
  }

  /** The loop is on its way to the first load of short data, or has loaded or played one of the two. */
  predicate Stepped(p: Pos)
    requires Brief(p.offset, p.Length())
  {
    var from, n := p.offset, p.Length();
    var m, a, b := Lead(from, n), FirstLoad(from, n), SecondLoad(from, n);
    || (p.playPos == from && p.readPos <= from && SkipTo(p) == a)
    || p == a || p == AfterPlay(a)
    || ((n - m) % 4 == 0 && 0 < m && (p == b || p == AfterPlay(b)))
  }

  predicate Placed(p: Pos) {
    Sound(p) && if Brief(p.offset, p.Length()) then Stepped(p) else Lined(p)
  }

  function Chunk(p: Pos): (n: nat)
    requires p.playPos < p.max
    ensures 0 < n <= SECTOR
  {
    if SECTOR > p.max - p.playPos then p.max - p.playPos else SECTOR
  }

  /** One read of the loop. */
  function AfterRead(p: Pos): Pos
    requires p.playPos < p.max
  {
    p.(base := p.readPos, readPos := p.readPos + Chunk(p))
  }

  lemma ReadKeepsSound(p: Pos)
    requires Sound(p) && p.readPos <= p.playPos < p.max
    ensures Sound(AfterRead(p)) && AfterRead(p).readPos <= p.max
  {
  }

  lemma ReadKeepsLined(p: Pos)
    requires Sound(p) && p.readPos <= p.playPos < p.max && !Brief(p.offset, p.Length()) && Lined(p)
    ensures Lined(AfterRead(p))
  {
    NextLoad(p.base);
    if p.playPos > p.readPos {
      SectorBelow(p.readPos, p.offset);
    } else {
      OnSamples(p.base, p.playPos, p.offset);
    }
  }

  lemma NextLoad(base: nat)
    requires base % SECTOR == 0
    ensures (base + SECTOR) % SECTOR == 0
  {
  }

  lemma OnSamples(base: nat, pos: nat, x: nat)
    requires base % SECTOR == 0 && pos == base + SECTOR && x <= pos && (pos - x) % 4 == 0
    ensures x % 4 == 0
  {
  }

  lemma SectorBelow(base: nat, x: nat)
    requires base % SECTOR == 0 && base <= x && SECTOR < x
    ensures base + SECTOR <= FirstEnd(x)
  {
  }

  lemma ReadKeepsStepped(p: Pos)
    requires Sound(p) && p.readPos <= p.playPos < p.max && Brief(p.offset, p.Length()) && Stepped(p)
    ensures AfterRead(p).Length() == p.Length() && Stepped(AfterRead(p))
  {
    hide WholeSamples, Lead;
    var from, n := p.offset, p.Length();
    var m, a := Lead(from, n), FirstLoad(from, n);
    AfterReadSame(p);
    if p.playPos == from && p.readPos <= from && SkipTo(p) == a {
      assert SkipTo(AfterRead(p)) == a;
    } else {
      assert p == AfterPlay(a) && p.playPos == p.readPos;
      assert AfterRead(p) == SecondLoad(from, n);
    }
  }

  lemma ReadKeeps(p: Pos)
    requires Placed(p) && p.readPos <= p.playPos < p.max
    ensures Placed(AfterRead(p)) && AfterRead(p).readPos <= p.max
  {
    hide Sound, Lined, Stepped, Brief, AfterRead;
    ReadKeepsSound(p);
    assert AfterRead(p).offset == p.offset && AfterRead(p).Length() == p.Length() by { AfterReadSame(p); }
    if Brief(p.offset, p.Length()) {
      ReadKeepsStepped(p);
    } else {
      ReadKeepsLined(p);
    }
  }

  lemma ReadFacts(p: Pos)
    requires Placed(p) && p.readPos <= p.playPos < p.max
    ensures var q := AfterRead(p);
            && Placed(q) && q.base == p.readPos && q.readPos == p.readPos + Chunk(p) <= p.max
            && q == Pos(p.offset, q.base, q.readPos, p.playPos, p.max)
    ensures p.offset <= p.playPos && p.base <= p.readPos <= p.base + SECTOR
  {
    hide Lined, Stepped, Brief;
    ReadKeeps(p);
  }

  lemma PlayFacts(p: Pos)
    requires Placed(p) && p.playPos < p.readPos
    ensures p.base <= p.playPos < p.readPos <= p.base + SECTOR
    ensures p.offset <= p.playPos && (p.playPos - p.offset) % 4 == 0
    ensures Right(p.offset, p.Length()) && 4 <= p.readPos - p.playPos ==> InBuffer(p.playPos) == p.playPos - p.base
  {
    hide Stepped, Brief, Right, InBuffer;
    InBufferIff(p.base, p.playPos);
    if Brief(p.offset, p.Length()) && Right(p.offset, p.Length()) && 4 <= p.readPos - p.playPos {
      RightLoad(p);
    }
  }

  lemma RightLoad(p: Pos)
    requires Sound(p) && Brief(p.offset, p.Length()) && Stepped(p) && 4 <= p.readPos - p.playPos
    ensures Right(p.offset, p.Length()) ==> p.base % SECTOR == 0
  {
    hide Lead;
  }

  lemma AfterReadSame(p: Pos)
    requires p.playPos < p.max
    ensures AfterRead(p).offset == p.offset && AfterRead(p).max == p.max && AfterRead(p).playPos == p.playPos
  {
  }

  function WholeSamples(n: nat): (r: nat)
    ensures r <= n < r + 4 && r % 4 == 0
  {
    n / 4 * 4
  }

  /** Playing every whole sample the buffer holds. */
  function AfterPlay(p: Pos): Pos
    requires p.playPos <= p.readPos
  {
    p.(playPos := p.playPos + WholeSamples(p.readPos - p.playPos))
  }

  lemma PlayKeeps(p: Pos)
    requires Placed(p) && p.playPos < p.readPos && p.playPos < p.max
    ensures Placed(AfterPlay(p))
  {
    hide WholeSamples, Lined, Brief, Stepped;
    WholeSum(p.playPos - p.offset, WholeSamples(p.readPos - p.playPos));
    if Brief(p.offset, p.Length()) {
      PlayKeepsStepped(p);
    } else {
      LinedSame(p);
    }
  }

  lemma PlayKeepsStepped(p: Pos)
    requires p.playPos < p.readPos && Brief(p.offset, p.Length()) && Stepped(p)
    ensures AfterPlay(p).Length() == p.Length() && Stepped(AfterPlay(p))
  {
    hide WholeSamples, Lead;
    PlayedOnce(FirstLoad(p.offset, p.Length()));
    PlayedOnce(SecondLoad(p.offset, p.Length()));
  }

  lemma PlayedOnce(p: Pos)
    requires p.playPos <= p.readPos
    ensures AfterPlay(AfterPlay(p)) == AfterPlay(p)
  {
  }

  lemma LinedSame(p: Pos)
    requires p.playPos <= p.readPos && Lined(p)
    ensures Lined(AfterPlay(p))
  {
  }

  lemma WholeSum(m: nat, n: nat)
    requires m % 4 == 0 && n % 4 == 0
    ensures (m + n) % 4 == 0
  {
  }

  // ----- Where playing stops -----

  /** Playing never passes its resting place. */
  lemma FinalBound(p: Pos)
    requires Placed(p)
    ensures p.playPos <= Final(p.offset, p.Length())
  {
    hide Stepped, Lined, Brief, Final;
    if Brief(p.offset, p.Length()) {
      SteppedBound(p);
    } else {
      LinedBound(p);
    }
  }

  lemma SteppedBound(p: Pos)
    requires Brief(p.offset, p.Length()) && Stepped(p)
    ensures p.playPos <= Final(p.offset, p.Length())
  {
    hide Lead;
  }

  lemma LinedBound(p: Pos)
    requires Sound(p) && Lined(p) && !Brief(p.offset, p.Length())
    ensures p.playPos <= Final(p.offset, p.Length())
  {
    var n := p.Length();
    if p.offset < p.playPos && p.offset % 4 == 0 && p.offset + n > FirstEnd(p.offset) {
      WholeBelow(p.playPos - p.offset, n);
    } else if p.offset < p.playPos {
      WholeBelow(p.playPos - p.offset, FirstEnd(p.offset) - p.offset);
    }
  }

  lemma WholeBelow(m: nat, n: nat)
    requires m % 4 == 0 && m <= n
    ensures m <= n - n % 4
  {
  }

  /** A rest shorter than a sample is left only at the resting place. */
  lemma RestIsFinal(p: Pos)
    requires Placed(p) && p.playPos < p.max && 0 < p.readPos - p.playPos < 4
    ensures p.playPos == Final(p.offset, p.Length())
  {
    hide Stepped, Lined, Brief, Final;
    if Brief(p.offset, p.Length()) {
      SteppedRest(p);
    } else {
      LinedRest(p);
    }
  }

  lemma SteppedRest(p: Pos)
    requires Brief(p.offset, p.Length()) && Stepped(p) && p.playPos < p.max && 0 < p.readPos - p.playPos < 4
    ensures p.playPos == Final(p.offset, p.Length())
  {
    hide Lead;
  }

  lemma LinedRest(p: Pos)
    requires Sound(p) && Lined(p) && !Brief(p.offset, p.Length()) && p.playPos < p.max && 0 < p.readPos - p.playPos < 4
    ensures p.playPos == Final(p.offset, p.Length())
  {
    hide FirstEnd, LastWhole;
    var n := p.Length();
    if p.offset % 4 != 0 {
      LoadEndsAt(p);
      RestOfLoad(p.playPos, p.offset, FirstEnd(p.offset));
      LastWholeIs(p.offset);
    } else if p.readPos == p.base + SECTOR {
      LoadOnSamples(p.base, p.offset);
      RestOfLoad(p.playPos, p.offset, p.readPos);
    } else {
      RestOfLoad(p.playPos, p.offset, p.max);
      EndsLater(p.offset, n);
    }
  }

  lemma LastWholeIs(x: nat)
    ensures LastWhole(x) == FirstEnd(x) - (FirstEnd(x) - x) % 4
  {
  }

  lemma LoadOnSamples(base: nat, x: nat)
    requires base % SECTOR == 0 && x % 4 == 0
    ensures (base + SECTOR - x) % 4 == 0
  {
  }

  lemma EndsLater(from: nat, n: nat)
    requires from % 4 == 0 && n % 4 != 0 && SECTOR <= from + n && !Brief(from, n)
    ensures FirstEnd(from) < from + n
  {
  }

  lemma LoadEndsAt(p: Pos)
    requires Sound(p) && Lined(p) && !Brief(p.offset, p.Length())
    requires p.playPos < p.max && p.playPos < p.readPos && p.offset % 4 != 0
    ensures p.readPos == FirstEnd(p.offset)
  {
    if p.offset > SECTOR {
      OnlyMultiple(p.base, p.offset);
    }
  }

  lemma OnlyMultiple(base: nat, x: nat)
    requires base % SECTOR == 0 && x < base + SECTOR <= (x / SECTOR + 1) * SECTOR
    ensures base + SECTOR == (x / SECTOR + 1) * SECTOR <= x + SECTOR
  {
  }

  lemma RestOfLoad(pos: nat, x: nat, end: nat)
    requires x <= pos && (pos - x) % 4 == 0 && 0 < end - pos < 4
    ensures pos == end - (end - x) % 4 && (end - x) % 4 != 0
  {
  }

  /** What is played holds as many samples as the data in just these cases. */
  lemma FinalCount(from: nat, n: nat)
    ensures (Final(from, n) - from) / 4 == n / 4 <==> Complete(from, n)
  {
    hide Lead;
  }

  /** The data is played to its last whole sample, and no further. */
  predicate Complete(from: nat, n: nat) {
    var m := (FirstEnd(from) - from) / 4;
    if Brief(from, n) then
      var k := n - Lead(from, n);
      k % 4 == 0 || k / 4 == n / 4
    else n == 0 || n / 4 == m || (from % 4 == 0 && n / 4 > m)
  }

  // ----- Short data past the first sector -----

  /** The reads until the buffer holds data to play. */
  function SkipTo(p: Pos): (q: Pos)
    requires p.playPos < p.max
    ensures q.playPos == p.playPos < q.readPos && q.offset == p.offset && q.max == p.max
    decreases p.playPos - p.readPos
  {
    if p.playPos < p.readPos then p else SkipTo(AfterRead(p))
  }

  function InBuffer(pos: nat): (i: nat)
    ensures i < SECTOR
  {
    pos % SECTOR
  }

  /**
   The loop takes the byte to play from the right place of the buffer exactly if the load begins at a sector's
   multiple.
   */
  lemma InBufferIff(base: nat, pos: nat)
    requires base <= pos < base + SECTOR
    ensures InBuffer(pos) == pos - base <==> base % SECTOR == 0
  {
  }

  /** Every load of the song is played from its right place in the buffer. */
  predicate Right(from: nat, n: nat) {
    Brief(from, n) ==>
      var m := Lead(from, n);
      n - m < 4 || ((from - m) % SECTOR == 0 && ((n - m) % 4 != 0 || m < 4))
  }

  /**
   Data shorter than the buffer that begins past the first sector is reached in reads of its own length, so the
   load it is played from begins at a multiple of that length past the first sector.
   */
  lemma BriefData(from: nat, n: nat)
    requires Brief(from, n)
    ensures SkipTo(Begin(from, n)) == FirstLoad(from, n)
  {
    QuotientNonNegative(from - SECTOR, n);
    assert n * 0 == 0;
    SkipShort(from, n, 0, 0, (from - SECTOR) / n);
  }

  lemma {:induction false} SkipShort(from: nat, n: nat, base: nat, j: nat, q: nat)
    requires SECTOR < from && 0 < n < SECTOR && j <= q && n * q <= from - SECTOR < n * q + n
    ensures SkipTo(Pos(from, base, SECTOR + n * j, from, from + n)) ==
          Pos(from, SECTOR + n * q, SECTOR + n * q + n, from, from + n)
    decreases q - j
  {
    MulMono(n, j, q);
    var p := Pos(from, base, SECTOR + n * j, from, from + n);
    assert n * (j + 1) == n * j + n;
    assert AfterRead(p) == Pos(from, SECTOR + n * j, SECTOR + n * (j + 1), from, from + n);
    if j < q {
      SkipShort(from, n, SECTOR + n * j, j + 1, q);
    }
  }

  /** 100 bytes of data at byte 514 come to rest at byte 610, less than a sample before the end of the first load. */
  lemma StallPastFirstSector()
    ensures Brief(514, 100) && !Ends(514, 100) && Final(514, 100) == 610
  {
    LeadIs(514, 100, 0, 2);
  }

  /**
   100 bytes of data at byte 516 are played to their end, but the last sample comes from the wrong place: the
   second load begins at byte 612 and is read from index 100 of the buffer on.
   */
  lemma MisplacedPastFirstSector()
    ensures Brief(516, 100) && Ends(516, 100) && !Right(516, 100)
    ensures var p := Calls(Begin(516, 100), 1);
            p.playPos == 612 < p.max && SkipTo(p).base == 612 && InBuffer(612) == 100
  {
    LeadIs(516, 100, 0, 4);
    BriefData(516, 100);
    assert Calls(Begin(516, 100), 0) == Begin(516, 100);
    assert AfterPlay(FirstLoad(516, 100)) == Pos(516, 512, 612, 612, 616);
    assert Calls(Begin(516, 100), 1) == Pos(516, 512, 612, 612, 616);
  }

  lemma LeadIs(from: nat, n: nat, q: nat, m: nat)
    requires Brief(from, n) && from - SECTOR == n * q + m && m < n
    ensures Lead(from, n) == m
  {
    DivModUnique(from - SECTOR, n, q, m);
  }

  // ----- One call of the loop -----

  lemma {:induction false} SkipKeeps(p: Pos)
    requires Placed(p) && p.playPos < p.max
    ensures var q := SkipTo(p);
            && Placed(q) && q.playPos < q.readPos
            && q.offset == p.offset && q.max == p.max && q.playPos == p.playPos
    decreases p.playPos - p.readPos
  {
    hide Placed, AfterRead;
    if p.readPos <= p.playPos {
      ReadKeeps(p);
      AfterReadSame(p);
      AfterReadMore(p);
      SkipKeeps(AfterRead(p));
    }
  }

  lemma AfterReadMore(p: Pos)
    requires p.playPos < p.max
    ensures p.readPos < AfterRead(p).readPos
  {
  }

  /** A call that is not at the end of the data moves on, or playing is at its resting place and stays there. */
  lemma CallMovesOn(p: Pos)
    requires Placed(p) && p.playPos < p.max
    ensures var q := AfterPlay(SkipTo(p));
            && Placed(q) && q.offset == p.offset && q.max == p.max && q.playPos <= q.readPos < q.playPos + 4
            && p.playPos <= q.playPos <= Final(p.offset, p.Length())
            && (q.playPos == p.playPos ==> p.playPos == Final(p.offset, p.Length()))
  {
    hide Final, Sound, Lined, Stepped, Brief, Placed, WholeSamples;
    var s := SkipTo(p);
    SkipKeeps(p);
    PlayKeeps(s);
    FinalBound(AfterPlay(s));
    if AfterPlay(s).playPos == s.playPos {
      RestIsFinal(s);
    }
  }

  /** At the end of the data playing is at its resting place. */
  lemma EndIsFinal(p: Pos)
    requires Placed(p) && p.max <= p.playPos && (p.playPos == p.offset || p.readPos - p.playPos < 4)
    ensures p.playPos == Final(p.offset, p.Length())
  {
    hide Stepped, Lined, Brief, Final;
    if Brief(p.offset, p.Length()) {
      SteppedEnd(p);
    } else {
      LinedEnd(p);
    }
  }

  lemma SteppedEnd(p: Pos)
    requires Brief(p.offset, p.Length()) && Stepped(p) && p.max <= p.playPos
    ensures p.playPos == Final(p.offset, p.Length())
  {
    hide Lead;
  }

  lemma LinedEnd(p: Pos)
    requires Sound(p) && Lined(p) && !Brief(p.offset, p.Length()) && p.max <= p.playPos
    requires p.playPos == p.offset || p.readPos - p.playPos < 4
    ensures p.playPos == Final(p.offset, p.Length())
  {
    LinedBound(p);
  }

  // ----- Whole songs -----

  /** After the header has been read. */
  function Begin(from: nat, n: nat): Pos {
    Pos(from, 0, SECTOR, from, from + n)
  }

  lemma BeginPlaced(from: u32, size: u32)
    ensures Placed(Pos(from, 0, SECTOR, from, Wrap32(from + size)))
  {
    var p := Pos(from, 0, SECTOR, from, Wrap32(from + size));
    LengthSeen(from, size);
    if Brief(from, p.Length()) {
      BriefData(from, p.Length());
    }
  }

  /** The positions after k calls of the loop. */
  function Calls(p: Pos, k: nat): Pos {
    if k == 0 then p
    else
      var q := Calls(p, k - 1);
      if q.playPos < q.max then AfterPlay(SkipTo(q)) else q
  }

  /** The next call takes what it plays from its right place in the buffer. */
  predicate PlaysRight(p: Pos) {
    p.playPos < p.max ==>
      var s := SkipTo(p);
      s.readPos - s.playPos < 4 || InBuffer(s.playPos) == s.playPos - s.base
  }

  lemma {:induction false} CallsPlaced(p: Pos, k: nat)
    requires Placed(p)
    ensures var q := Calls(p, k); Placed(q) && q.offset == p.offset && q.max == p.max
  {
    hide Placed, Final;
    if k > 0 {
      CallsPlaced(p, k - 1);
      if Calls(p, k - 1).playPos < Calls(p, k - 1).max {
        CallMovesOn(Calls(p, k - 1));
      }
    }
  }

  /** All calls for a song take what they play from its right place exactly if its header satisfies the condition. */
  lemma RightIff(from: nat, n: nat)
    ensures (forall k: nat :: PlaysRight(Calls(Begin(from, n), k))) <==> Right(from, n)
  {
    hide Right, PlaysRight, Calls, Placed;
    assert Placed(Begin(from, n)) by { BeginIsPlaced(from, n); }
    if Right(from, n) {
      forall k: nat
        ensures PlaysRight(Calls(Begin(from, n), k))
      {
        CallsPlaced(Begin(from, n), k);
        PlacedPlaysRight(Calls(Begin(from, n), k));
      }
    } else {
      WrongPlace(from, n);
    }
  }

  lemma BeginIsPlaced(from: nat, n: nat)
    ensures Placed(Begin(from, n)) && Begin(from, n).Length() == n
  {
    if Brief(from, n) {
      BriefData(from, n);
    }
  }

  lemma PlacedPlaysRight(p: Pos)
    requires Placed(p) && Right(p.offset, p.Length())
    ensures PlaysRight(p)
  {
    hide Placed, Right, InBuffer;
    if p.playPos < p.max {
      SkipKeeps(p);
      PlayFacts(SkipTo(p));
    }
  }

  lemma WrongPlace(from: nat, n: nat)
    requires !Right(from, n)
    ensures !PlaysRight(Calls(Begin(from, n), 0)) || !PlaysRight(Calls(Begin(from, n), 1))
  {
    hide Lead;
    var a, b := FirstLoad(from, n), SecondLoad(from, n);
    BriefData(from, n);
    assert Calls(Begin(from, n), 0) == Begin(from, n);
    InBufferIff(a.base, a.playPos);
    if a.base % SECTOR == 0 {
      assert Calls(Begin(from, n), 1) == AfterPlay(a);
      assert SkipTo(AfterPlay(a)) == b;
      InBufferIff(b.base, b.playPos);
    }
  }
}
