/** Writing a CFI flash device: words with unaligned ends, and spans over erase blocks. */
module CfiFlash {
  import opened NorFlash

  const EIO: int := 5
  const ETIME: int := 62

  /** How far into its native word byte x lies. */
  function Into(x: nat, w: width): (r: nat)
    ensures r < w
  {
    x % w
  }

  /** The end of the last word a span up to byte end touches. */
  function WordEnd(end: nat, w: width): nat {
    if Into(end, w) == 0 then end else end + (w - Into(end, w))
  }

  /** The word that holds the start of a span ends inside the span, or starts with it. */
  predicate ReachesWordEnd(w: width, offset: nat, length: nat) {
    Into(offset, w) == 0 || Into(offset, w) + length >= w
  }

  /** A store past the end of the device changes none of its cells. */
  function Stored(mem: seq<cell>, at: nat, word: seq<cell>): (m: seq<cell>)
    ensures |m| == |mem|
  {
    if at + |word| <= |mem| then Programmed(mem, at, word) else mem
  }

  /**
   What programming leaves for a span strictly inside one word: the whole rest of that word takes what follows
   in the source's memory, and the next word takes more of it and then a copy of the cells after the span.
   */
  function Spilled(w: width, mem: seq<cell>, offset: nat, src: seq<cell>, length: nat): (m: seq<cell>)
    requires Into(offset, w) <= offset && Into(offset, w) + length < w && length + w <= |src|
    requires offset - Into(offset, w) + w <= |mem|
    ensures |m| == |mem|
  {
    var at, fill := offset - Into(offset, w), w - Into(offset, w);
    var one := Programmed(mem, at, mem[at..offset] + src[..fill]);
    Stored(one, at + w, src[fill..w + length] + one[offset + length..at + w])
  }

  class Flash {
    const w: width
    var mem: seq<cell>
    ghost var faults: nat

    constructor (modeWidth: width, contents: seq<cell>)
      ensures w == modeWidth && mem == contents
    {
      w := modeWidth;
      mem := contents;
      faults := 0;
    }

    /** Program one native word; a device error leaves anything in the word. */
    method ProgramWord(at: nat, word: seq<cell>) returns (r: int)
      requires Into(at, w) == 0 && |word| == w && (at + w <= |mem| || |mem| <= at)
      modifies `mem, `faults
      ensures faults == old(faults) + if r == 0 then 0 else 1
      ensures |mem| == |old(mem)|
      ensures r == 0 ==> mem == Stored(old(mem), at, word)
      ensures if at + w <= |mem| then SameOutside(old(mem), mem, at, at + w) else mem == old(mem)
    {
      var works: bool :| true;
      if works {
        mem := Stored(mem, at, NativeStore(w, word));
        return 0;
      }
      if at + w <= |mem| {
        var junk: seq<cell> :| |junk| == w;
        mem := Spliced(mem, at, junk);
      }
      faults := faults + 1;
      var timeout: bool :| true;
      r := if timeout then -ETIME else -EIO;
    }

    /** Erase a block; a device error leaves anything in it. */
    method EraseBlock(at: nat, size: nat) returns (r: int)
      requires at + size <= |mem|
      modifies `mem, `faults
      ensures faults == old(faults) + if r == 0 then 0 else 1
      ensures |mem| == |old(mem)|
      ensures r == 0 ==> mem == Spliced(old(mem), at, Blank(size))
      ensures SameOutside(old(mem), mem, at, at + size)
    {
      var works: bool :| true;
      if works {
        mem := Spliced(mem, at, Blank(size));
        return 0;
      }
      assert |Blank(size)| == size;
      var junk: seq<cell> :| |junk| == size;
      mem := Spliced(mem, at, junk);
      faults := faults + 1;
      var timeout: bool :| true;
      r := if timeout then -ETIME else -EIO;
    }

    /**
     Program a span of erased cells whatever its alignment to words: cells outside it keep their values.
     A span that lies strictly inside one word is the exception: two words take what follows the source.
     */
    method ProgramBlock(offset: nat, src: seq<cell>, length: nat) returns (r: int)
      requires length <= |src| && offset + length <= |mem| && Into(|mem|, w) == 0
      requires AllErased(mem[offset..offset + length])
      requires !ReachesWordEnd(w, offset, length) ==> length + w <= |src|
      modifies `mem, `faults
      ensures faults == old(faults) + if r == 0 then 0 else 1
      ensures |mem| == |old(mem)|
      ensures Into(offset, w) <= offset
      ensures ReachesWordEnd(w, offset, length) ==>
                && SameOutside(old(mem), mem, offset - Into(offset, w), WordEnd(offset + length, w))
                && (r == 0 ==> mem == Spliced(old(mem), offset, src[..length]))
      ensures !ReachesWordEnd(w, offset, length) ==>
                && offset - Into(offset, w) + w <= |mem|
                && SameOutside(old(mem), mem, offset - Into(offset, w), SpillEnd(offset, |mem|, w))
                && (r == 0 ==> mem == Spilled(w, old(mem), offset, src, length))
    {
      hide And, AllErased, Into, SameOutside, Going, WordEnd, Spliced, Stored, Programmed, SpillEnd;
      ghost var good := ReachesWordEnd(w, offset, length);
      r := 0;
      var i: nat := 0;
      ghost var was := mem;
      WholeWords(offset, length, |mem|, w);
      if !good {
        InsideOneWord(offset, length, |mem|, w);
      }
      if Into(offset, w) != 0 {
        r := ProgramHead(offset, src, length);
        i := w - Into(offset, w);
      } else {
        NothingYet(w, was, offset, src, length);
      }
      ghost var head, atHead := mem, r;
      var ending := Into(offset + length, w);
      while r == 0 && i < length - ending
        invariant |mem| == |was| && Into(offset + i, w) == 0 && faults == old(faults) + if r == 0 then 0 else 1
        invariant good ==> i <= length - ending && Going(w, was, mem, offset, src, length, i, r)
        invariant !good ==> mem == head && i == w - Into(offset, w) && r == atHead
        decreases length - i, r == 0
      {
        WordFits(offset, length, i, w);
        r := ProgramNext(was, offset, src, length, i);
        i := i + w;
      }
      if ending != 0 && r == 0 {
        r := ProgramTail(was, offset, src, length, i, ending);
      } else if good && r != 0 {
        Stopped(w, was, mem, offset, src, length, i, r);
      }
      if good {
        Finished(w, was, mem, offset, src, length, r);
      } else {
        SpilledOutside(was, head, mem, offset, w);
      }
    }

    /** The word that holds the start of a span beginning inside it. */
    method ProgramHead(offset: nat, src: seq<cell>, length: nat) returns (r: int)
      requires length <= |src| && offset + length <= |mem| && Into(|mem|, w) == 0 && Into(offset, w) != 0
      requires AllErased(mem[offset..offset + length])
      requires w - Into(offset, w) <= |src| && offset + (w - Into(offset, w)) <= |mem|
      modifies `mem, `faults
      ensures faults == old(faults) + if r == 0 then 0 else 1
      ensures |mem| == |old(mem)|
      ensures var fill := w - Into(offset, w);
              && Into(offset, w) <= offset && SameOutside(old(mem), mem, offset - Into(offset, w), offset + fill)
              && (fill <= length ==> Going(w, old(mem), mem, offset, src, length, fill, r))
              && (r == 0 ==>
                    var at := offset - Into(offset, w);
                    mem == Programmed(old(mem), at, old(mem)[at..offset] + src[..fill]))
    {
      hide And, Programmed, Spliced, AllErased, Into, SameOutside, WordEnd;
      var keep, fill := Into(offset, w), w - Into(offset, w);
      AlignedDown(offset, w);
      var unaligned := mem[offset - keep..offset] + src[..fill];
      if fill <= length {
        HeadWord(mem, w, offset, src, length);
        HeadInside(offset, length, |mem|, w);
      }
      ghost var was := mem;
      r := ProgramWord(offset - keep, unaligned);
      if fill <= length {
        SameOutsideMore(was, mem, offset - keep, offset - keep + w, offset - keep, WordEnd(offset + length, w));
      }
    }

    /** One whole word inside the span. */
    method ProgramNext(ghost was: seq<cell>, offset: nat, src: seq<cell>, length: nat, i: nat) returns (r: int)
      requires Into(offset + i, w) == 0 && i + w <= length <= |src| && offset + length <= |mem| == |was|
      requires AllErased(was[offset..offset + length])
      modifies `mem, `faults
      ensures faults == old(faults) + if r == 0 then 0 else 1
      ensures |mem| == |old(mem)|
      ensures Going(w, was, old(mem), offset, src, length, i, 0) ==> Going(w, was, mem, offset, src, length, i + w, r)
    {
      hide And, Programmed, Spliced, AllErased, Into, SameOutside;
      ghost var now := mem;
      var word := src[i..i + w];
      r := ProgramWord(offset + i, word);
      if Going(w, was, now, offset, src, length, i, 0) {
        ProgramOn(was, offset, src, length, i, w, word);
        var at := offset + i;
        SameOutsideStep(was, now, mem, offset - Into(offset, w), WordEnd(offset + length, w), at, at + w);
      }
    }

    /** The word that holds the end of a span ending inside it. */
    method ProgramTail(ghost was: seq<cell>, offset: nat, src: seq<cell>, length: nat, i: nat, ending: nat)
      returns (r: int)
      requires 0 < ending < w && i + ending <= |src| && |mem| == |was| && Into(offset + i, w) == 0
      requires offset + i + w <= |mem| || |mem| <= offset + i
      requires offset + length + w - ending <= |mem| && length <= |src| && ending == Into(offset + length, w)
      requires offset + length <= |was| && AllErased(was[offset..offset + length])
      modifies `mem, `faults
      ensures faults == old(faults) + if r == 0 then 0 else 1
      ensures |mem| == |old(mem)|
      ensures offset + i + w <= |mem| ==> SameOutside(old(mem), mem, offset + i, offset + i + w)
      ensures |mem| < offset + i + w ==> mem == old(mem)
      ensures r == 0 ==>
                var after := offset + length;
                mem == Stored(old(mem), offset + i, src[i..i + ending] + old(mem)[after..after + (w - ending)])
      ensures i + ending == length && Going(w, was, old(mem), offset, src, length, i, 0) ==>
                Going(w, was, mem, offset, src, length, length, r)
    {
      hide And, Programmed, Spliced, AllErased, Into;
      ghost var now := mem;
      var unaligned := src[i..i + ending] + mem[offset + length..offset + length + (w - ending)];
      r := ProgramWord(offset + i, unaligned);
      hide SameOutside;
      if i + ending == length && Going(w, was, now, offset, src, length, i, 0) {
        ProgramOn(was, offset, src, length, i, ending, unaligned);
        var at := offset + i;
        SameOutsideStep(was, now, mem, offset - Into(offset, w), WordEnd(offset + length, w), at, at + w);
      }
    }
  }

  /**
   Programming of the span has reached byte i: only words of the span have changed and, unless there was an
   error, they have the source in the span and what they had outside it.
   */
  ghost predicate Going(w: width, was: seq<cell>, now: seq<cell>, offset: nat, src: seq<cell>, length: nat, i: nat,
                        r: int)
    requires i <= |src|
  {
    && |was| == |now| && Into(offset, w) <= offset && offset + i <= |was|
    && SameOutside(was, now, offset - Into(offset, w), WordEnd(offset + length, w))
    && (r == 0 ==> now == Spliced(was, offset, src[..i]))
  }

  lemma NothingYet(w: width, mem: seq<cell>, offset: nat, src: seq<cell>, length: nat)
    requires Into(offset, w) <= offset && offset + length <= |mem| && Into(|mem|, w) == 0
    ensures Going(w, mem, mem, offset, src, length, 0, 0)
  {
    WholeWords(offset, length, |mem|, w);
  }

  lemma Stopped(w: width, was: seq<cell>, now: seq<cell>, offset: nat, src: seq<cell>, length: nat, i: nat, r: int)
    requires i <= |src| && length <= |src| && offset + length <= |was| && r != 0
    requires Going(w, was, now, offset, src, length, i, r)
    ensures Going(w, was, now, offset, src, length, length, r)
  {
  }

  lemma Finished(w: width, was: seq<cell>, now: seq<cell>, offset: nat, src: seq<cell>, length: nat, r: int)
    requires length <= |src| && offset + length <= |was| && Going(w, was, now, offset, src, length, length, r)
    ensures Into(offset, w) <= offset
    ensures SameOutside(was, now, offset - Into(offset, w), WordEnd(offset + length, w))
    ensures r == 0 ==> now == Spliced(was, offset, src[..length])
  {
  }

  lemma SameOutsideMore(s: seq<cell>, t: seq<cell>, a: nat, b: nat, lo: nat, hi: nat)
    requires SameOutside(s, t, a, b) && lo <= a && b <= hi <= |s|
    ensures SameOutside(s, t, lo, hi)
  {
    SameOutsideSelf(s, lo, hi);
    SameOutsideStep(s, s, t, lo, hi, a, b);
  }

  /** The first word of a span that reaches its end is one of the span's words. */
  lemma HeadInside(offset: nat, length: nat, size: nat, w: width)
    requires Into(offset, w) + length >= w && offset + length <= size && Into(size, w) == 0
    ensures Into(offset, w) <= offset && offset - Into(offset, w) + w <= WordEnd(offset + length, w) <= size
  {
    WholeWords(offset, length, size, w);
  }

  lemma AlignedDown(offset: nat, w: width)
    ensures Into(offset, w) <= offset && Into(offset - Into(offset, w), w) == 0
  {
    if w == 2 {
      TwosDown(offset);
    } else if w == 4 {
      FoursDown(offset);
    }
  }

  lemma TwosDown(a: nat)
    ensures (a - a % 2) % 2 == 0
  {
  }

  lemma FoursDown(a: nat)
    ensures (a - a % 4) % 4 == 0
  {
  }

  /** Where the whole words of a span begin and end. */
  lemma WholeWords(offset: nat, length: nat, size: nat, w: width)
    requires offset + length <= size && Into(size, w) == 0
    ensures var keep, ending := Into(offset, w), Into(offset + length, w);
            var i := if keep == 0 then 0 else w - keep;
            && keep <= offset && Into(offset + i, w) == 0 && offset + i <= size
            && (keep == 0 || keep + length >= w ==> i <= length - ending)
            && (ending != 0 ==> offset + length + (w - ending) <= size)
  {
    if w == 2 {
      WholeTwos(offset, length, size);
    } else if w == 4 {
      WholeFours(offset, length, size);
    }
  }

  lemma WholeTwos(offset: nat, length: nat, size: nat)
    requires offset + length <= size && size % 2 == 0
    ensures var keep, ending := offset % 2, (offset + length) % 2;
            var i := if keep == 0 then 0 else 2 - keep;
            && (offset + i) % 2 == 0 && offset + i <= size
            && (keep == 0 || keep + length >= 2 ==> i <= length - ending)
            && (ending != 0 ==> offset + length + (2 - ending) <= size)
  {
  }

  lemma WholeFours(offset: nat, length: nat, size: nat)
    requires offset + length <= size && size % 4 == 0
    ensures var keep, ending := offset % 4, (offset + length) % 4;
            var i := if keep == 0 then 0 else 4 - keep;
            && (offset + i) % 4 == 0 && offset + i <= size
            && (keep == 0 || keep + length >= 4 ==> i <= length - ending)
            && (ending != 0 ==> offset + length + (4 - ending) <= size)
  {
  }

  /** A span strictly inside one word has no whole word, and a word follows it unless the device ends there. */
  lemma InsideOneWord(offset: nat, length: nat, size: nat, w: width)
    requires Into(offset, w) != 0 && Into(offset, w) + length < w && offset + length <= size && Into(size, w) == 0
    ensures Into(offset, w) <= offset && Into(offset + length, w) == Into(offset, w) + length
    ensures var next := offset - Into(offset, w) + w;
            Into(next, w) == 0 && next <= size && (next + w <= size || next == size)
  {
    if w == 2 {
      InsideTwo(offset, length, size);
    } else if w == 4 {
      InsideFour(offset, length, size);
    }
  }

  lemma InsideTwo(offset: nat, length: nat, size: nat)
    requires 0 < offset % 2 && offset % 2 + length < 2 && offset + length <= size && size % 2 == 0
    ensures var next := offset - offset % 2 + 2;
            && (offset + length) % 2 == offset % 2 + length && next % 2 == 0
            && next <= size && (next + 2 <= size || next == size)
  {
  }

  lemma InsideFour(offset: nat, length: nat, size: nat)
    requires 0 < offset % 4 && offset % 4 + length < 4 && offset + length <= size && size % 4 == 0
    ensures var next := offset - offset % 4 + 4;
            && (offset + length) % 4 == offset % 4 + length && next % 4 == 0
            && next <= size && (next + 4 <= size || next == size)
  {
  }

  /** How far programming a span strictly inside one word reaches. */
  function SpillEnd(offset: nat, size: nat, w: width): nat
    requires Into(offset, w) <= offset
  {
    var next := offset - Into(offset, w) + w;
    if next + w <= size then next + w else next
  }

  lemma SpilledOutside(was: seq<cell>, one: seq<cell>, now: seq<cell>, offset: nat, w: width)
    requires Into(offset, w) <= offset && offset - Into(offset, w) + w <= |was|
    requires SameOutside(was, one, offset - Into(offset, w), offset - Into(offset, w) + w)
    requires var next := offset - Into(offset, w) + w;
             now == one || (next + w <= |was| && SameOutside(one, now, next, next + w))
    ensures SameOutside(was, now, offset - Into(offset, w), SpillEnd(offset, |was|, w))
  {
    var at, end := offset - Into(offset, w), SpillEnd(offset, |was|, w);
    hide Into;
    SameOutsideMore(was, one, at, at + w, at, end);
    if now != one {
      SameOutsideStep(was, one, now, at, end, at + w, at + w + w);
    }
  }

  lemma WordFits(offset: nat, length: nat, i: nat, w: width)
    requires Into(offset + i, w) == 0 && i < length - Into(offset + length, w)
    ensures i + w <= length - Into(offset + length, w) && Into(offset + i + w, w) == 0
  {
    if w == 2 {
      TwoAfter(offset + i, offset + length);
    } else if w == 4 {
      FourAfter(offset + i, offset + length);
    }
  }

  lemma TwoAfter(a: nat, b: nat)
    requires a % 2 == 0 && a < b - b % 2
    ensures a + 2 <= b - b % 2 && (a + 2) % 2 == 0
  {
  }

  lemma FourAfter(a: nat, b: nat)
    requires a % 4 == 0 && a < b - b % 4
    ensures a + 4 <= b - b % 4 && (a + 4) % 4 == 0
  {
  }

  /** Programming goes on by n bytes at byte i of the source, the rest of the word repeating what is there. */
  lemma ProgramOn(was: seq<cell>, offset: nat, src: seq<cell>, length: nat, i: nat, n: nat, word: seq<cell>)
    requires i + n <= length <= |src| && offset + length <= |was| && AllErased(was[offset..offset + length])
    requires n <= |word| && offset + i + |word| <= |was|
    requires var mem := Spliced(was, offset, src[..i]); word == src[i..i + n] + mem[offset + i + n..offset + i + |word|]
    ensures Programmed(Spliced(was, offset, src[..i]), offset + i, word) == Spliced(was, offset, src[..i + n])
  {
    hide And, Programmed, Spliced;
    var mem, at, data := Spliced(was, offset, src[..i]), offset + i, src[i..i + n];
    SplicedOn(was, offset, src[..i], data);
    assert src[..i] + data == src[..i + n];
    ErasedPart(was, offset, offset + length, at, n);
    SameAfter(mem, was, at, n);
    assert word == mem[at..at] + data + mem[at + n..at + |word|];
    ProgramPreserving(mem, at, word, at, data);
  }

  lemma HeadWord(mem: seq<cell>, w: width, offset: nat, src: seq<cell>, length: nat)
    requires length <= |src| && offset + length <= |mem| && AllErased(mem[offset..offset + length])
    requires Into(offset, w) != 0 && w - Into(offset, w) <= length
    ensures var at, fill := offset - Into(offset, w), w - Into(offset, w);
            Programmed(mem, at, mem[at..offset] + src[..fill]) == Spliced(mem, offset, src[..fill])
  {
    var at, fill := offset - Into(offset, w), w - Into(offset, w);
    var word := mem[at..offset] + src[..fill];
    ErasedPart(mem, offset, offset + length, offset, fill);
    assert word == mem[at..offset] + src[..fill] + mem[offset + fill..at + |word|];
    ProgramPreserving(mem, at, word, offset, src[..fill]);
  }

  lemma ErasedPart(mem: seq<cell>, lo: nat, hi: nat, at: nat, n: nat)
    requires lo <= at && at + n <= hi <= |mem| && AllErased(mem[lo..hi])
    ensures AllErased(mem[at..at + n])
  {
    var part := mem[at..at + n];
    forall k | 0 <= k < |part|
      ensures part[k] == ERASED
    {
      assert mem[lo..hi][at - lo + k] == ERASED;
    }
  }

  lemma SameAfter(s: seq<cell>, t: seq<cell>, at: nat, n: nat)
    requires at + n <= |s| == |t| && s[at..] == t[at..]
    ensures s[at..at + n] == t[at..at + n]
  {
    assert s[at..at + n] == s[at..][..n];
    assert t[at..at + n] == t[at..][..n];
  }

  // ----- When programming is right -----

  /** What programming a block demands: an erased span on the device, and memory that goes on behind the source. */
  predicate Programmable(w: width, mem: seq<cell>, offset: nat, src: seq<cell>, length: nat) {
    length + w <= |src| && offset + length <= |mem| && Into(|mem|, w) == 0 && AllErased(mem[offset..offset + length])
  }

  /** What programming without a device error leaves. */
  function Outcome(w: width, mem: seq<cell>, offset: nat, src: seq<cell>, length: nat): (m: seq<cell>)
    requires Programmable(w, mem, offset, src, length)
  {
    if ReachesWordEnd(w, offset, length) then Spliced(mem, offset, src[..length])
    else InsideOneWord(offset, length, |mem|, w); Spilled(w, mem, offset, src, length)
  }

  lemma HeadClears(mem: seq<cell>, at: nat, offset: nat, data: seq<cell>)
    requires at <= offset && offset + |data| <= |mem|
    ensures forall k :: offset <= k < offset + |data| ==>
              Programmed(mem, at, mem[at..offset] + data)[k] == And(mem[k], data[k - offset])
  {
    hide And;
  }

  /** In the word of the span every cell from the span's start on takes the source and what follows it. */
  lemma SpilledHead(w: width, mem: seq<cell>, offset: nat, src: seq<cell>, length: nat, k: nat)
    requires Into(offset, w) <= offset && Into(offset, w) + length < w && length + w <= |src|
    requires offset - Into(offset, w) + w <= |mem| && offset <= k < offset - Into(offset, w) + w
    ensures Spilled(w, mem, offset, src, length)[k] == And(mem[k], src[k - offset])
  {
    hide And, Into;
    HeadClears(mem, offset - Into(offset, w), offset, src[..w - Into(offset, w)]);
  }

  function Zeros(n: nat): (s: seq<cell>)
    ensures |s| == n && forall k :: 0 <= k < n ==> s[k] == 0
  {
    seq(n, _ => 0)
  }

  /** Blank flash in words of four, one byte written at offset 1, a zero behind it: the cell after the byte is lost. */
  lemma SpillExample()
    ensures var src: seq<cell> := [0x5A, 0, 0xFF, 0xFF, 0xFF];
            && Programmable(4, Blank(16), 1, src, 1)
            && Outcome(4, Blank(16), 1, src, 1)[2] == 0 && Spliced(Blank(16), 1, src[..1])[2] == ERASED
  {
    var src: seq<cell> := [0x5A, 0, 0xFF, 0xFF, 0xFF];
    assert Into(1, 4) == 1 && Into(16, 4) == 0;
    SpilledHead(4, Blank(16), 1, src, 1, 2);
    AndErased(0);
  }

  /**
   Programming turns a span at this offset and of this length into the source, and leaves all else, whatever
   the flash holds and whatever lies behind the source, exactly if the span reaches the end of its first word.
   */
  lemma ProgramRightIff(w: width, offset: nat, length: nat)
    ensures ReachesWordEnd(w, offset, length) <==>
              forall mem, src :: Programmable(w, mem, offset, src, length) ==>
                                   Outcome(w, mem, offset, src, length) == Spliced(mem, offset, src[..length])
  {
    if !ReachesWordEnd(w, offset, length) {
      var mem, src := SpillWitness(w, offset, length);
    }
  }

  lemma SpillWitness(w: width, offset: nat, length: nat) returns (mem: seq<cell>, src: seq<cell>)
    requires !ReachesWordEnd(w, offset, length)
    ensures Programmable(w, mem, offset, src, length)
    ensures Outcome(w, mem, offset, src, length) != Spliced(mem, offset, src[..length])
  {
    NextWord(offset, w);
    hide Into;
    mem, src := Blank(offset - Into(offset, w) + w), Zeros(length + w);
    InsideOneWord(offset, length, |mem|, w);
    SpilledHead(w, mem, offset, src, length, offset + length);
    AndErased(0);
    hide Spilled, And;
    assert Spliced(mem, offset, src[..length])[offset + length] == ERASED;
    assert Outcome(w, mem, offset, src, length)[offset + length] == 0;
  }

  lemma NextWord(offset: nat, w: width)
    ensures Into(offset, w) <= offset && Into(offset - Into(offset, w) + w, w) == 0
  {
    if w == 2 {
      TwosUp(offset);
    } else if w == 4 {
      FoursUp(offset);
    }
  }

  lemma TwosUp(a: nat)
    ensures (a - a % 2 + 2) % 2 == 0
  {
  }

  lemma FoursUp(a: nat)
    ensures (a - a % 4 + 4) % 4 == 0
  {
  }
}
