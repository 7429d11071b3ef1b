/** Exactly which directories browsing finds a long name in: what was browsed is one descending run of pieces. */
module LongRuns {
  import opened Bits
  import opened LongNames

  /** The number a piece carries. */
  function Number(e: entry): nat {
    e[0] % 64
  }

  /** Entries that are in use. */
  function InUse(es: seq<entry>): seq<entry> {
    if es == [] then []
    else if ValidFirst(es[0][0]) then [es[0]] + InUse(es[1..])
    else InUse(es[1..])
  }

  /** Pieces whose numbers go down by one from one that fits the buffer. They need not go down to one. */
  ghost predicate Descends(run: seq<entry>) {
    && (run != [] ==> Number(run[0]) <= 9)
    && forall k :: 0 <= k < |run| ==> IsPiece(run[k]) && Number(run[k]) == Number(run[0]) - k > 0
  }

  /** Every piece at the place its number gives it, and zeros everywhere else. */
  function NameOf(run: seq<entry>): (name: buffer)
    requires run != []
  {
    seq(BUFFER, p requires 0 <= p < BUFFER => NameByte(run, p))
  }

  function NameByte(run: seq<entry>, p: nat): byte
    requires run != []
  {
    var k := Number(run[0]) - 1 - p / PIECE;
    if 0 <= k < |run| then PieceBytes(run[k])[p % PIECE] else 0
  }

  /** What the scan remembers after a run of pieces. */
  ghost predicate After(run: seq<entry>, s: Scan) {
    && Descends(run)
    && (run == [] ==> s.order == 0 && !s.long)
    && (run != [] ==> s.order == Number(run[0]) - |run| && s.long && s.name == NameOf(run))
  }

  lemma PutAt(name: buffer, at: nat, s: seq<byte>, p: nat)
    requires at + |s| <= BUFFER && p < BUFFER
    ensures Put(name, at, s)[p] == if at <= p < at + |s| then s[p - at] else name[p]
  {
  }

  lemma PlaceIn(p: nat, q: nat)
    ensures PIECE * q <= p < PIECE * q + PIECE <==> p / PIECE == q
    ensures PIECE * q <= p < PIECE * q + PIECE ==> p % PIECE == p - PIECE * q
  {
  }

  lemma NamePut(run: seq<entry>, e: entry, name: buffer)
    requires Descends(run + [e]) && name == if run == [] then Zeros(BUFFER) else NameOf(run)
    ensures 0 < Number(e) && PIECE * Number(e) <= BUFFER
    ensures Put(name, PIECE * (Number(e) - 1), PieceBytes(e)) == NameOf(run + [e])
  {
    hide IsPiece, PieceBytes, Put, Number;
    var all := run + [e];
    assert all[|run|] == e && (run != [] ==> all[0] == run[0]);
    var to := Put(name, PIECE * (Number(e) - 1), PieceBytes(e));
    forall p | 0 <= p < BUFFER
      ensures to[p] == NameOf(all)[p]
    {
      PutAt(name, PIECE * (Number(e) - 1), PieceBytes(e), p);
      PlaceIn(p, Number(e) - 1);
      assert NameOf(all)[p] == NameByte(all, p);
      assert run != [] ==> NameOf(run)[p] == NameByte(run, p);
    }
  }

  /** A piece is taken exactly if it goes on the run. */
  lemma PieceVisited(run: seq<entry>, s: Scan, e: entry)
    requires After(run, s) && ValidFirst(e[0]) && IsPiece(e)
    ensures var o := Visit(s, e);
            && (o.More? <==> Descends(run + [e]))
            && (o.More? ==> After(run + [e], o.scan))
            && !o.Found?
  {
    var all := run + [e];
    assert all[|run|] == e && (run != [] ==> all[0] == run[0]);
    assert forall k :: 0 <= k < |run| ==> all[k] == run[k];
    hide ValidFirst, IsPiece, PieceBytes, NameOf, Put;
    if Descends(all) {
      NamePut(run, e, if run == [] then Zeros(BUFFER) else s.name);
    }
  }

  predicate IsEntry(e: entry, long: bool) {
    ValidFirst(e[0]) && !IsPiece(e) && (long ==> IsFileOrDirectory(e))
  }

  /** Behind a run, entry j is reached: up to it there are only free entries and pieces that go on the run. */
  ghost predicate Leads(dir: seq<entry>, run: seq<entry>, i: nat, j: nat) {
    && i <= j < |dir| && (forall k :: i <= k < j ==> dir[k][0] != 0)
    && Descends(run + InUse(dir[i..j])) && IsEntry(dir[j], run + InUse(dir[i..j]) != [])
  }

  lemma InUseNext(dir: seq<entry>, i: nat, j: nat)
    requires i < j <= |dir|
    ensures InUse(dir[i..j]) == (if ValidFirst(dir[i][0]) then [dir[i]] else []) + InUse(dir[i + 1..j])
  {
    assert dir[i..j][1..] == dir[i + 1..j];
  }

  lemma LeadsSkip(dir: seq<entry>, run: seq<entry>, i: nat, j: nat)
    requires i < |dir| && dir[i][0] != 0 && !ValidFirst(dir[i][0])
    ensures Leads(dir, run, i, j) <==> Leads(dir, run, i + 1, j)
  {
    hide ValidFirst, IsPiece, Descends;
    if i < j < |dir| {
      InUseNext(dir, i, j);
    }
  }

  lemma LeadsPiece(dir: seq<entry>, run: seq<entry>, i: nat, j: nat)
    requires i < |dir| && dir[i][0] != 0 && ValidFirst(dir[i][0]) && IsPiece(dir[i])
    ensures Leads(dir, run, i, j) <==> Leads(dir, run + [dir[i]], i + 1, j)
  {
    hide ValidFirst, IsPiece, Descends;
    if i < j < |dir| {
      InUseNext(dir, i, j);
      assert run + ([dir[i]] + InUse(dir[i + 1..j])) == (run + [dir[i]]) + InUse(dir[i + 1..j]);
    }
  }

  lemma LeadsNowhere(dir: seq<entry>, run: seq<entry>, i: nat, j: nat)
    requires i < |dir| && (dir[i][0] != 0 ==> ValidFirst(dir[i][0]))
    requires dir[i][0] != 0 ==> !Descends(run + [dir[i]])
    requires j == i ==> dir[i][0] == 0 || IsPiece(dir[i])
    ensures !Leads(dir, run, i, j)
  {
    hide IsPiece, Number, Descends;
    if Leads(dir, run, i, j) && i < j {
      InUseNext(dir, i, j);
      assert run + ([dir[i]] + InUse(dir[i + 1..j])) == (run + [dir[i]]) + InUse(dir[i + 1..j]);
      PrefixDescends(run + [dir[i]], InUse(dir[i + 1..j]));
      assert false;
    }
  }

  lemma PrefixDescends(a: seq<entry>, b: seq<entry>)
    requires Descends(a + b) && a != []
    ensures Descends(a)
  {
    hide IsPiece, Number;
    assert (a + b)[0] == a[0];
    assert forall k :: 0 <= k < |a| ==> (a + b)[k] == a[k];
  }

  /** What is found behind a run. */
  ghost predicate Result(r: (Outcome, nat), dir: seq<entry>, run: seq<entry>, i: nat)
    requires i <= r.1 < |dir| && r.0.Found?
  {
    var all, short := run + InUse(dir[i..r.1]), ShortName(dir[r.1]);
    && (r.0.long <==> all != [])
    && (all != [] ==> r.0.name == NameOf(all))
    && (all == [] ==> |short| < BUFFER && r.0.name[..|short| + 1] == short + [0])
  }

  lemma FileVisited(run: seq<entry>, s: Scan, e: entry)
    requires After(run, s) && ValidFirst(e[0]) && !IsPiece(e)
    ensures Visit(s, e) == if run == [] then Found(ShortBuffer(s.name, e), false)
                           else if IsFileOrDirectory(e) then Found(NameOf(run), true) else Failed
  {
    hide IsPiece, NameOf, ShortName, Put, Descends;
  }

  /** The buffer with the short name of an entry in front. */
  function ShortBuffer(name: buffer, e: entry): (b: buffer)
    ensures |ShortName(e)| < BUFFER && b[..|ShortName(e)| + 1] == ShortName(e) + [0]
  {
    TrimmedShort(e[0..8]);
    TrimmedShort(e[8..11]);
    Put(name, 0, ShortName(e) + [0])
  }

  lemma BrowseNextEntry(dir: seq<entry>, i: nat, s: Scan)
    requires i < |dir|
    ensures Browse(dir, i, s) ==
            var o := Visit(s, dir[i]); if o.More? then Browse(dir, i + 1, o.scan) else (o, i)
  {
  }

  lemma OtherVisited(s: Scan, e: entry)
    ensures e[0] == 0 ==> Visit(s, e) == End
    ensures e[0] != 0 && !ValidFirst(e[0]) ==> Visit(s, e) == More(s)
  {
  }

  /** The file's own entry. */
  lemma LeadsHere(dir: seq<entry>, run: seq<entry>, i: nat, s: Scan, j: nat)
    requires i < |dir| && After(run, s) && ValidFirst(dir[i][0]) && dir[i][0] != 0 && !IsPiece(dir[i])
    ensures Leads(dir, run, i, j) <==> j == i && (run != [] ==> IsFileOrDirectory(dir[i]))
    ensures var r := (Visit(s, dir[i]), i);
            !r.0.More? && (r.0.Found? <==> (run != [] ==> IsFileOrDirectory(dir[i])))
    ensures var r := (Visit(s, dir[i]), i); r.0.Found? ==> Result(r, dir, run, i)
  {
    hide Visit, ValidFirst, IsPiece, IsFileOrDirectory, NameOf, ShortName, Number;
    FileVisited(run, s, dir[i]);
    assert run + InUse(dir[i..i]) == run;
    if i < j < |dir| && Leads(dir, run, i, j) {
      NoFileInRun(dir, run, i, j);
    }
  }

  lemma NoFileInRun(dir: seq<entry>, run: seq<entry>, i: nat, j: nat)
    requires i < j < |dir| && ValidFirst(dir[i][0]) && !IsPiece(dir[i])
    ensures !Descends(run + InUse(dir[i..j]))
  {
    hide ValidFirst, IsPiece, Number;
    InUseNext(dir, i, j);
    assert (run + InUse(dir[i..j]))[|run|] == dir[i];
  }

  lemma ResultSkips(r: (Outcome, nat), dir: seq<entry>, run: seq<entry>, i: nat)
    requires i < r.1 < |dir| && r.0.Found?
    requires ValidFirst(dir[i][0]) ==> Result(r, dir, run + [dir[i]], i + 1)
    requires !ValidFirst(dir[i][0]) ==> Result(r, dir, run, i + 1)
    ensures Result(r, dir, run, i)
  {
    hide ValidFirst, NameOf, ShortName;
    InUseNext(dir, i, r.1);
    assert run + ([dir[i]] + InUse(dir[i + 1..r.1])) == (run + [dir[i]]) + InUse(dir[i + 1..r.1]);
    assert run + ([] + InUse(dir[i + 1..r.1])) == run + InUse(dir[i + 1..r.1]);
  }

  lemma LeadsInside(dir: seq<entry>, run: seq<entry>, i: nat, j: nat)
    requires Leads(dir, run, i, j)
    ensures i <= j < |dir|
  {
  }

  /** Browsing on behind a run finds entry j exactly if the directory leads there. */
  lemma {:induction false} FoundBehind(dir: seq<entry>, i: nat, run: seq<entry>, s: Scan, j: nat)
    requires i <= |dir| && After(run, s)
    ensures var r := Browse(dir, i, s);
            && (r.0.Found? && r.1 == j <==> Leads(dir, run, i, j))
            && (r.0.Found? && r.1 == j ==> j < |dir| && Result(r, dir, run, i))
    decreases |dir| - i
  {
    hide *;
    if i == |dir| {
      NothingBehind(dir, i, run, s, j);
    } else {
      var e := dir[i];
      BrowseNextEntry(dir, i, s);
      OtherVisited(s, e);
      if e[0] == 0 {
        LeadsNowhere(dir, run, i, j);
      } else if !ValidFirst(e[0]) {
        LeadsSkip(dir, run, i, j);
        FoundBehind(dir, i + 1, run, s, j);
        if Leads(dir, run, i, j) {
          ResultSkips(Browse(dir, i, s), dir, run, i);
        }
      } else if IsPiece(e) {
        PieceVisited(run, s, e);
        if Descends(run + [e]) {
          LeadsPiece(dir, run, i, j);
          FoundBehind(dir, i + 1, run + [e], Visit(s, e).scan, j);
          if Leads(dir, run, i, j) {
            ResultSkips(Browse(dir, i, s), dir, run, i);
          }
        } else {
          LeadsNowhere(dir, run, i, j);
        }
      } else {
        LeadsHere(dir, run, i, s, j);
      }
    }
  }

  lemma NothingBehind(dir: seq<entry>, i: nat, run: seq<entry>, s: Scan, j: nat)
    requires i == |dir|
    ensures Browse(dir, i, s) == (Failed, i) && !Leads(dir, run, i, j)
  {
  }

  /**
   Browsing from entry i finds entry j, and nothing else, exactly if all there is before it are free entries and one
   descending run of pieces, and it is a file or a directory if there are any. The name found is made of these
   pieces, whether or not the run goes down to number one; without pieces it is the entry's short name.
   */
  lemma FoundIff(dir: seq<entry>, i: nat, junk: buffer, j: nat)
    requires i <= |dir|
    ensures var r := Browse(dir, i, Scan(0, false, junk));
            && (r.0.Found? && r.1 == j <==> Leads(dir, [], i, j))
            && (r.0.Found? && r.1 == j ==> j < |dir| && Result(r, dir, [], i))
  {
    hide Browse, Leads, Result;
    FoundBehind(dir, i, [], Scan(0, false, junk), j);
  }

  /** A name that has lost its first piece is found all the same, with zeros in place of its first characters. */
  lemma TruncatedExample(piece: entry, file: entry, junk: buffer)
    requires ValidFirst(piece[0]) && IsPiece(piece) && Number(piece) == 2 && IsEntry(file, true)
    ensures var r := Browse([piece, file], 0, Scan(0, false, junk));
            r.0.Found? && r.0.long && r.1 == 1 && r.0.name[..PIECE] == Zeros(PIECE)
  {
    var dir := [piece, file];
    FoundIff(dir, 0, junk, 1);
    assert dir[0..1] == [piece];
    hide ValidFirst, IsPiece, IsFileOrDirectory, Browse;
    InUseNext(dir, 0, 1);
    assert [] + InUse(dir[0..1]) == [piece];
  }
}
