/** Directory browsing: reassembling a long file name from its pieces, and flattening it for comparison. */
module LongNames {
  import opened Bits

  const BUFFER: nat := 256
  const PIECE: nat := 26
  const DELETED: byte := 0xE5
  const SPACE: byte := 0x20

  type entry = e: seq<byte> | |e| == 32 witness seq(32, _ => 0)
  type buffer = b: seq<byte> | |b| == BUFFER witness seq(BUFFER, _ => 0)

  predicate ValidFirst(c: byte) {
    c !in [0x00, 0xE5, 0x22, 0x2A, 0x2B, 0x2C, 0x2E, 0x2F, 0x3A, 0x3B, 0x3C, 0x3E, 0x3F, 0x5B, 0x5C, 0x5D, 0x7C]
  }

  /** All four attribute bits that mark a piece of a long name are set. */
  predicate IsPiece(e: entry) {
    e[11] % 16 == 15
  }

  /** The archive or the directory bit is set. */
  predicate IsFileOrDirectory(e: entry) {
    (e[11] / 16) % 4 != 0
  }

  /** The name bytes of a piece. */
  function PieceBytes(e: entry): (s: seq<byte>)
    ensures |s| == PIECE
  {
    e[1..11] + e[14..26] + e[28..32]
  }

  function Zeros(n: nat): (s: seq<byte>)
    ensures |s| == n && forall k :: 0 <= k < n ==> s[k] == 0
  {
    seq<byte>(n, _ => 0)
  }

  /** The characters up to the first blank or zero. */
  function Trimmed(s: seq<byte>): seq<byte> {
    if s == [] || s[0] == 0 || s[0] == SPACE then [] else [s[0]] + Trimmed(s[1..])
  }

  function ShortName(e: entry): seq<byte> {
    Trimmed(e[0..8]) + if IsFileOrDirectory(e) then [0x2E] + Trimmed(e[8..11]) else []
  }

  lemma {:induction false} TrimmedShort(s: seq<byte>)
    ensures |Trimmed(s)| <= |s|
  {
    if s != [] {
      TrimmedShort(s[1..]);
    }
  }

  /** What the scan remembers: the number of the piece before the next one, whether it saw any, and the name so far. */
  datatype Scan = Scan(order: nat, long: bool, name: buffer)

  /** Overrun stands for a copy outside the name buffer, which the C code makes for such an entry. */
  datatype Outcome = More(scan: Scan) | Found(name: buffer, long: bool) | Failed | End | Overrun

  function Put(name: buffer, at: nat, s: seq<byte>): buffer
    requires at + |s| <= BUFFER
  {
    name[..at] + s + name[at + |s|..]
  }

  /** One directory entry. */
  function Visit(s: Scan, e: entry): Outcome {
    if e[0] == 0 then End
    else if !ValidFirst(e[0]) || e[0] == DELETED then More(s)
    else if IsPiece(e) then
      if s.order == 0 && s.long then Failed
      else if s.order != 0 && e[0] % 64 != s.order then Failed
      else
        var name := if s.order == 0 then Zeros(BUFFER) else s.name;
        var order := e[0] % 64;
        if order == 0 || order * PIECE > BUFFER then Overrun
        else More(Scan(order - 1, true, Put(name, (order - 1) * PIECE, PieceBytes(e))))
    else if s.long then
      if IsFileOrDirectory(e) then Found(s.name, true) else Failed
    else
      TrimmedShort(e[0..8]);
      TrimmedShort(e[8..11]);
      Found(Put(s.name, 0, ShortName(e) + [0]), false)
  }

  /** Scanning on from entry i; the second result is the entry the scan stopped at. */
  function Browse(dir: seq<entry>, i: nat, s: Scan): (r: (Outcome, nat))
    requires i <= |dir|
    ensures !r.0.More? && i <= r.1 <= |dir|
    decreases |dir| - i
  {
    if i == |dir| then (Failed, i)
    else
      match Visit(s, dir[i])
      case More(t) => Browse(dir, i + 1, t)
      case r => (r, i)
  }

  /** The characters of a name that the comparison sees. */
  function NoSpaces(s: seq<byte>): seq<byte> {
    if s == [] then [] else NoSpaces(s[..|s| - 1]) + Kept(s[|s| - 1])
  }

  function Kept(c: byte): seq<byte> {
    if c != 0 && c != SPACE then [c] else []
  }

  /** The bytes of the two-byte units of s from unit i up to the first zero unit, without zeros and spaces. */
  function Flat(s: seq<byte>, i: nat): seq<byte>
    requires 2 * i <= |s|
    decreases |s| - 2 * i
  {
    if 2 * i + 1 >= |s| || (s[2 * i] == 0 && s[2 * i + 1] == 0) then []
    else Kept(s[2 * i]) + Kept(s[2 * i + 1]) + Flat(s, i + 1)
  }

  method Flatten(s: buffer) returns (name: seq<byte>)
    ensures name == Flat(s, 0)
  {
    hide Flat;
    name := [];
    var i: nat := 0;
    while 2 * i + 1 < |s| && !(s[2 * i] == 0 && s[2 * i + 1] == 0)
      invariant 2 * i <= |s| && name + Flat(s, i) == Flat(s, 0)
      decreases |s| - 2 * i
    {
      ghost var was, j := name, i;
      if s[2 * i] != 0 && s[2 * i] != SPACE {
        name := name + [s[2 * i]];
      }
      if s[2 * i + 1] != 0 && s[2 * i + 1] != SPACE {
        name := name + [s[2 * i + 1]];
      }
      i := i + 1;
      assert name == was + Kept(s[2 * j]) + Kept(s[2 * j + 1]);
      FlatUnit(s, j);
      Grouped(was, Kept(s[2 * j]), Kept(s[2 * j + 1]), Flat(s, i));
    }
    FlatUnit(s, i);
  }

  lemma FlatUnit(s: seq<byte>, i: nat)
    requires 2 * i <= |s|
    ensures Flat(s, i) == if 2 * i + 1 >= |s| || (s[2 * i] == 0 && s[2 * i + 1] == 0) then []
                          else Kept(s[2 * i]) + Kept(s[2 * i + 1]) + Flat(s, i + 1)
  {
  }

  lemma Grouped(a: seq<byte>, b: seq<byte>, c: seq<byte>, d: seq<byte>)
    ensures a + b + c + d == a + (b + c + d)
  {
  }

  // ----- How a name is stored -----

  /** Characters that take one byte of their unit. */
  predicate Narrow(name: seq<byte>) {
    forall i :: 0 <= i < |name| ==> name[i] != 0
  }

  /** The number of pieces a name takes, thirteen characters each. */
  function Pieces(name: seq<byte>): nat {
    (|name| + 12) / 13
  }

  /** Byte k of the name in two-byte units, low byte first, ended by a zero unit and padded with ones. */
  function StoredByte(name: seq<byte>, k: nat): byte {
    if k / 2 < |name| then (if k % 2 == 0 then name[k / 2] else 0)
    else if k / 2 == |name| then 0
    else 0xFF
  }

  function Stored(name: seq<byte>, from: nat, n: nat): (s: seq<byte>)
    ensures |s| == n && forall k :: 0 <= k < n ==> s[k] == StoredByte(name, from + k)
  {
    seq<byte>(n, k requires 0 <= k < n => StoredByte(name, from + k))
  }

  /** Piece i of a name; the last one is marked. */
  function PieceEntry(name: seq<byte>, i: nat, checksum: byte): (e: entry)
    requires i < 63
  {
    var b := Stored(name, PIECE * i, PIECE);
    var mark: byte := if i + 1 == Pieces(name) then i + 1 + 0x40 else i + 1;
    [mark] + b[..10] + [0x0F, 0, checksum] + b[10..22] + [0, 0] + b[22..]
  }

  /** The first m pieces, last piece first, and then the file's own entry. */
  function Entries(name: seq<byte>, m: nat, checksum: byte, file: entry): (es: seq<entry>)
    requires m <= 63
    ensures |es| == m + 1 && es[m] == file
  {
    if m == 0 then [file] else [PieceEntry(name, m - 1, checksum)] + Entries(name, m - 1, checksum, file)
  }

  lemma PieceEntryIs(name: seq<byte>, i: nat, checksum: byte)
    requires i < Pieces(name) <= 9
    ensures var e := PieceEntry(name, i, checksum);
            && PieceBytes(e) == Stored(name, PIECE * i, PIECE) && IsPiece(e) && e[0] % 64 == i + 1
            && ValidFirst(e[0]) && e[0] != DELETED && e[0] != 0
  {
  }

  /** The buffer once the pieces from number m on are in place. */
  function Assembled(name: seq<byte>, m: nat): buffer
    requires m <= Pieces(name) <= 9
  {
    Zeros(PIECE * m) + Stored(name, PIECE * m, PIECE * (Pieces(name) - m)) + Zeros(BUFFER - PIECE * Pieces(name))
  }

  lemma PutPiece(name: seq<byte>, m: nat)
    requires m < Pieces(name) <= 9
    ensures Put(Assembled(name, m + 1), PIECE * m, Stored(name, PIECE * m, PIECE)) == Assembled(name, m)
  {
  }

  lemma NothingPut(name: seq<byte>)
    requires Pieces(name) <= 9
    ensures Assembled(name, Pieces(name)) == Zeros(BUFFER)
  {
  }

  /** The directory holds the first m pieces, last piece first, and the file's entry from entry i on. */
  ghost predicate Holds(dir: seq<entry>, i: nat, name: seq<byte>, m: nat, checksum: byte, file: entry)
    requires m <= 63
    decreases m
  {
    i < |dir| && if m == 0 then dir[i] == file
                 else dir[i] == PieceEntry(name, m - 1, checksum) && Holds(dir, i + 1, name, m - 1, checksum, file)
  }

  lemma {:induction false} EntriesHeld(before: seq<entry>, name: seq<byte>, m: nat, checksum: byte, file: entry,
                                       rest: seq<entry>)
    requires m <= 63
    ensures Holds(before + Entries(name, m, checksum, file) + rest, |before|, name, m, checksum, file)
    decreases m
  {
    if m > 0 {
      var e, es := PieceEntry(name, m - 1, checksum), Entries(name, m - 1, checksum, file);
      assert Entries(name, m, checksum, file) == [e] + es;
      hide PieceEntry, Entries;
      EntriesHeld(before + [e], name, m - 1, checksum, file, rest);
      MoveOne(before, e, es, rest);
    }
  }

  lemma MoveOne(before: seq<entry>, e: entry, es: seq<entry>, rest: seq<entry>)
    ensures before + ([e] + es) + rest == (before + [e]) + es + rest
  {
  }

  /** Visiting the pieces from number m - 1 down and then the file's entry finds the file. */
  lemma {:induction false} Reassemble(dir: seq<entry>, i: nat, name: seq<byte>, m: nat, checksum: byte, file: entry,
                                      s: Scan)
    requires m <= Pieces(name) <= 9 && Holds(dir, i, name, m, checksum, file)
    requires m < Pieces(name) ==> s == Scan(m, true, Assembled(name, m))
    requires m == Pieces(name) ==> m > 0 && s.order == 0 && !s.long
    requires ValidFirst(file[0]) && file[0] != DELETED && !IsPiece(file) && IsFileOrDirectory(file)
    ensures i + m < |dir| && Browse(dir, i, s) == (Found(Assembled(name, 0), true), i + m) && dir[i + m] == file
    decreases m
  {
    hide Visit, PieceEntry, Assembled, ValidFirst, IsPiece, IsFileOrDirectory;
    if m == 0 {
      VisitFile(file, s);
    } else {
      var t := Scan(m - 1, true, Assembled(name, m - 1));
      VisitPiece(name, m, checksum, s);
      Reassemble(dir, i + 1, name, m - 1, checksum, file, t);
    }
  }

  lemma VisitFile(file: entry, s: Scan)
    requires s.long && ValidFirst(file[0]) && file[0] != DELETED && !IsPiece(file) && IsFileOrDirectory(file)
    ensures Visit(s, file) == Found(s.name, true)
  {
  }

  lemma VisitPiece(name: seq<byte>, m: nat, checksum: byte, s: Scan)
    requires 0 < m <= Pieces(name) <= 9
    requires m < Pieces(name) ==> s == Scan(m, true, Assembled(name, m))
    requires m == Pieces(name) ==> s.order == 0 && !s.long
    ensures Visit(s, PieceEntry(name, m - 1, checksum)) == More(Scan(m - 1, true, Assembled(name, m - 1)))
  {
    PieceEntryIs(name, m - 1, checksum);
    PutPiece(name, m - 1);
    NothingPut(name);
    hide PieceEntry, Assembled, Put, PieceBytes, Stored, Zeros, ValidFirst;
  }

  /** The flattened buffer is the name without its spaces. */
  lemma {:induction false} FlatIsName(name: seq<byte>, s: buffer, i: nat)
    requires Narrow(name) && i <= |name| && 2 * |name| + 2 <= BUFFER
    requires forall k :: 0 <= k < 2 * |name| + 2 ==> s[k] == StoredByte(name, k)
    ensures NoSpaces(name[..i]) + Flat(s, i) == NoSpaces(name)
    decreases |name| - i
  {
    hide StoredByte, NoSpaces, Kept, Flat;
    UnitStored(name, i);
    FlatUnit(s, i);
    if i == |name| {
      assert name[..i] == name;
    } else {
      FlatIsName(name, s, i + 1);
      NoSpacesNext(name, i);
      Grouped(NoSpaces(name[..i]), Kept(name[i]), Kept(0), Flat(s, i + 1));
      assert NoSpaces(name[..i]) + Kept(name[i]) + Kept(0) == NoSpaces(name[..i + 1]);
    }
  }

  lemma NoSpacesNext(name: seq<byte>, i: nat)
    requires i < |name|
    ensures NoSpaces(name[..i + 1]) == NoSpaces(name[..i]) + Kept(name[i]) && Kept(0) == []
  {
    assert name[..i + 1][..i] == name[..i];
  }

  lemma UnitStored(name: seq<byte>, i: nat)
    requires i <= |name|
    ensures StoredByte(name, 2 * i) == (if i < |name| then name[i] else 0) && StoredByte(name, 2 * i + 1) == 0
  {
  }

  lemma AssembledStores(name: seq<byte>, k: nat)
    requires 0 < Pieces(name) <= 9 && k < 2 * |name| + 2
    ensures Assembled(name, 0)[k] == StoredByte(name, k)
  {
  }

  /**
   A name of up to nine pieces, stored before the entry of its file or directory anywhere in the directory,
   is found there and compares as the name itself without its spaces.
   */
  lemma LongNameRoundTrip(before: seq<entry>, name: seq<byte>, checksum: byte, file: entry, rest: seq<entry>,
                          junk: buffer)
    requires Narrow(name) && 0 < Pieces(name) <= 9
    requires ValidFirst(file[0]) && file[0] != DELETED && !IsPiece(file) && IsFileOrDirectory(file)
    ensures var dir := before + Entries(name, Pieces(name), checksum, file) + rest;
            var r := Browse(dir, |before|, Scan(0, false, junk));
            && r.0.Found? && r.0.long && Flat(r.0.name, 0) == NoSpaces(name)
            && r.1 == |before| + Pieces(name) < |dir| && dir[r.1] == file
  {
    hide Entries, Browse, Visit, Assembled, Stored, StoredByte;
    hide ValidFirst, IsPiece, IsFileOrDirectory, Holds, Flat, NoSpaces;
    var n := Pieces(name);
    var dir := before + Entries(name, n, checksum, file) + rest;
    EntriesHeld(before, name, n, checksum, file, rest);
    Reassemble(dir, |before|, name, n, checksum, file, Scan(0, false, junk));
    forall k | 0 <= k < 2 * |name| + 2
      ensures Assembled(name, 0)[k] == StoredByte(name, k)
    {
      AssembledStores(name, k);
    }
    FlatIsName(name, Assembled(name, 0), 0);
    NoName(name[..0]);
  }

  lemma NoName(name: seq<byte>)
    requires name == []
    ensures NoSpaces(name) == []
  {
  }

  // ----- Whole directories -----

  /** What a directory is made of: free entries, entries with a short name only, and files with a long name. */
  datatype Item = Free(e: entry) | Short(e: entry) | Long(name: seq<byte>, checksum: byte, file: entry)

  predicate WellFormed(it: Item) {
    match it
    case Free(e) => e[0] != 0 && !ValidFirst(e[0])
    case Short(e) => ValidFirst(e[0]) && e[0] != DELETED && !IsPiece(e)
    case Long(name, _, file) =>
      && Narrow(name) && 0 < Pieces(name) <= 9
      && ValidFirst(file[0]) && file[0] != DELETED && !IsPiece(file) && IsFileOrDirectory(file)
  }

  function Size(it: Item): nat {
    if it.Long? then Pieces(it.name) + 1 else 1
  }

  function EntriesOf(it: Item): (es: seq<entry>)
    requires WellFormed(it)
    ensures |es| == Size(it)
  {
    match it
    case Free(e) => [e]
    case Short(e) => [e]
    case Long(name, checksum, file) => Entries(name, Pieces(name), checksum, file)
  }

  function Layout(items: seq<Item>): seq<entry>
    requires forall it :: it in items ==> WellFormed(it)
  {
    if items == [] then [] else EntriesOf(items[0]) + Layout(items[1..])
  }

  /** Browsing on from entry i, each time from behind the entry found, until nothing is found. */
  function Listing(dir: seq<entry>, i: nat, name: buffer): seq<(Outcome, nat)>
    requires i <= |dir|
    decreases |dir| - i
  {
    var r := Browse(dir, i, Scan(0, false, name));
    if r.0.Found? && r.1 < |dir| then [r] + Listing(dir, r.1 + 1, r.0.name) else []
  }

  /** The listing has every item but the free ones, in order, at its own entry and under its own name. */
  ghost predicate Lists(listing: seq<(Outcome, nat)>, items: seq<Item>, i: nat) {
    if items == [] then listing == []
    else if items[0].Free? then Lists(listing, items[1..], i + 1)
    else
      && listing != [] && listing[0].0.Found?
      && Shows(listing[0], items[0], i) && Lists(listing[1..], items[1..], i + Size(items[0]))
  }

  ghost predicate Shows(r: (Outcome, nat), it: Item, i: nat)
    requires r.0.Found? && !it.Free?
  {
    match it
    case Short(e) =>
      && !r.0.long && r.1 == i && |ShortName(e)| < BUFFER
      && r.0.name[..|ShortName(e)| + 1] == ShortName(e) + [0]
    case Long(name, _, _) => r.0.long && r.1 == i + Pieces(name) && Flat(r.0.name, 0) == NoSpaces(name)
  }

  lemma {:induction false} Skipping(dir: seq<entry>, i: nat, name: buffer)
    requires i < |dir| && dir[i][0] != 0 && !ValidFirst(dir[i][0])
    ensures Listing(dir, i, name) == Listing(dir, i + 1, name)
  {
    var s := Scan(0, false, name);
    assert Visit(s, dir[i]) == More(s);
    hide Visit, ValidFirst;
    assert Browse(dir, i, s) == Browse(dir, i + 1, s);
  }

  lemma ShortFound(dir: seq<entry>, i: nat, name: buffer)
    requires i < |dir| && ValidFirst(dir[i][0]) && dir[i][0] != DELETED && !IsPiece(dir[i])
    ensures var r := Browse(dir, i, Scan(0, false, name));
            && r.0.Found? && !r.0.long && r.1 == i && |ShortName(dir[i])| < BUFFER
            && r.0.name[..|ShortName(dir[i])| + 1] == ShortName(dir[i]) + [0]
  {
    var e := dir[i];
    TrimmedShort(e[0..8]);
    TrimmedShort(e[8..11]);
    hide ShortName, IsPiece, ValidFirst;
  }

  /** Browsing a directory from its first entry on lists exactly its files, directories and labels. */
  lemma {:induction false} DirectoryListed(before: seq<entry>, items: seq<Item>, rest: seq<entry>, name: buffer)
    requires forall it :: it in items ==> WellFormed(it)
    requires rest != [] ==> rest[0][0] == 0
    ensures Lists(Listing(before + Layout(items) + rest, |before|, name), items, |before|)
    decreases |items|
  {
    hide Browse, ShortName, Flat, NoSpaces, Entries, ValidFirst, IsPiece, IsFileOrDirectory;
    var dir, i := before + Layout(items) + rest, |before|;
    if items == [] {
      NothingMore(dir, i, name);
    } else {
      var it := items[0];
      var es := EntriesOf(it);
      Regroup(before, es, Layout(items[1..]), rest);
      EntriesAt(before, es, Layout(items[1..]), rest);
      assert dir == (before + es) + Layout(items[1..]) + rest;
      match it
      case Free(e) =>
        DirectoryListed(before + es, items[1..], rest, name);
        Skipping(dir, i, name);
      case Short(e) =>
        ShortFound(dir, i, name);
        DirectoryListed(before + es, items[1..], rest, Browse(dir, i, Scan(0, false, name)).0.name);
      case Long(n, checksum, file) =>
        LongNameRoundTrip(before, n, checksum, file, Layout(items[1..]) + rest, name);
        Tail(before, es, Layout(items[1..]), rest);
        DirectoryListed(before + es, items[1..], rest, Browse(dir, i, Scan(0, false, name)).0.name);
    }
  }

  lemma Regroup(before: seq<entry>, es: seq<entry>, more: seq<entry>, rest: seq<entry>)
    ensures before + (es + more) + rest == (before + es) + more + rest
  {
  }

  lemma Tail(before: seq<entry>, es: seq<entry>, more: seq<entry>, rest: seq<entry>)
    ensures (before + es) + more + rest == before + es + (more + rest)
  {
  }

  lemma EntriesAt(before: seq<entry>, es: seq<entry>, more: seq<entry>, rest: seq<entry>)
    requires es != []
    ensures ((before + es) + more + rest)[|before|] == es[0]
  {
  }

  lemma NothingMore(dir: seq<entry>, i: nat, name: buffer)
    requires i <= |dir| && (i < |dir| ==> dir[i][0] == 0)
    ensures Listing(dir, i, name) == []
  {
  }
}
