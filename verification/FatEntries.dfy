/** What is stored in a directory entry is what browsing and opening make of it. */
module FatEntries {
  import opened Bits
  import opened LongNames

  type u16 = x: nat | x < 0x1_0000
  type name8 = s: seq<byte> | |s| == 8 witness seq(8, _ => 0)
  type name3 = s: seq<byte> | |s| == 3 witness seq(3, _ => 0)

  /** What browsing tells of a file besides its name. */
  datatype FileInfo = FileInfo(
    attribute: byte, createTime: nat, accessDate: nat, clusterHigh: nat,
    writeTime: nat, writeDate: nat, cluster: nat, size: nat)

  function Word16(e: entry, o: nat): nat
    requires o + 2 <= 32
  {
    e[o] as int + 0x100 * e[o + 1] as int
  }

  function InfoOf(e: entry): FileInfo {
    FileInfo(e[11], Word16(e, 14), Word16(e, 18), Word16(e, 20), Word16(e, 22), Word16(e, 24), Word16(e, 26),
             Word16(e, 28) + 0x1_0000 * Word16(e, 30))
  }

  // ----- How an entry is stored -----

  /** The fields of an entry in their order on the disk. */
  datatype Record = Record(
    name: name8, extension: name3, attribute: byte, reserved: (byte, byte), createTime: u16, createDate: u16,
    accessDate: u16, clusterHigh: u16, writeTime: u16, writeDate: u16, cluster: u16, size: u32)
  {
    function Info(): FileInfo {
      FileInfo(attribute, createTime, accessDate, clusterHigh, writeTime, writeDate, cluster, size)
    }
  }

  /** Two bytes, low byte first. */
  function Bytes2(v: u16): (s: seq<byte>)
    ensures |s| == 2
  {
    [v % 0x100, v / 0x100]
  }

  /** The packed fields, one after the other. */
  function StoredEntry(r: Record): entry {
    r.name + r.extension + [r.attribute, r.reserved.0, r.reserved.1] + Bytes2(r.createTime) + Bytes2(r.createDate)
    + Bytes2(r.accessDate) + Bytes2(r.clusterHigh) + Bytes2(r.writeTime) + Bytes2(r.writeDate) + Bytes2(r.cluster)
    + Bytes2(r.size % 0x1_0000) + Bytes2(r.size / 0x1_0000)
  }

  lemma WordStored(e: entry, o: nat, v: u16)
    requires o + 2 <= 32 && e[o] == Bytes2(v)[0] && e[o + 1] == Bytes2(v)[1]
    ensures Word16(e, o) == v
  {
  }

  /** The fields of a stored entry are read back. */
  lemma InfoStored(r: Record)
    ensures InfoOf(StoredEntry(r)) == r.Info()
  {
    hide Bytes2, Word16;
    var e := StoredEntry(r);
    WordStored(e, 14, r.createTime);
    WordStored(e, 18, r.accessDate);
    WordStored(e, 20, r.clusterHigh);
    WordStored(e, 22, r.writeTime);
    WordStored(e, 24, r.writeDate);
    WordStored(e, 26, r.cluster);
    WordStored(e, 28, r.size % 0x1_0000);
    WordStored(e, 30, r.size / 0x1_0000);
  }

  // ----- Attributes -----

  /** The attribute bits, lowest first; the top two have no meaning. */
  datatype Attributes = Attributes(readOnly: bool, hidden: bool, system: bool, volume: bool, directory: bool,
                                   archive: bool, top: bool, upper: bool)

  function BitOf(b: bool): (d: nat)
    ensures d < 2
  {
    if b then 1 else 0
  }

  function AttributeByte(a: Attributes): byte {
    BitOf(a.readOnly) + 2 * BitOf(a.hidden) + 4 * BitOf(a.system) + 8 * BitOf(a.volume)
    + 16 * BitOf(a.directory) + 32 * BitOf(a.archive) + 64 * BitOf(a.top) + 128 * BitOf(a.upper)
  }

  /** Which attributes make an entry a piece of a long name, and which ones make it a file or a directory. */
  lemma AttributesTell(e: entry, a: Attributes)
    requires e[11] == AttributeByte(a)
    ensures IsPiece(e) <==> a.readOnly && a.hidden && a.system && a.volume
    ensures IsFileOrDirectory(e) <==> a.directory || a.archive
  {
    var low := BitOf(a.readOnly) + 2 * BitOf(a.hidden) + 4 * BitOf(a.system) + 8 * BitOf(a.volume);
    var kind := BitOf(a.directory) + 2 * BitOf(a.archive);
    SplitByte(e[11], low, kind, BitOf(a.top) + 2 * BitOf(a.upper));
  }

  lemma SplitByte(b: byte, low: nat, kind: nat, high: nat)
    requires low < 16 && kind < 4 && b == low + 16 * kind + 64 * high
    ensures b % 16 == low && (b / 16) % 4 == kind
  {
  }

  const FORBIDDEN := "\"*+,./:;<>?[\\]|"

  /** Which first characters keep an entry from being listed; an equals sign is not among them. */
  lemma FirstCharacters(c: byte)
    ensures ValidFirst(c) <==> c != 0 && c != 0xE5 && forall k :: 0 <= k < |FORBIDDEN| ==> FORBIDDEN[k] as int != c
  {
    assert |FORBIDDEN| == 15;
    assert FORBIDDEN[0] as int == 0x22 && FORBIDDEN[1] as int == 0x2A && FORBIDDEN[2] as int == 0x2B;
    assert FORBIDDEN[3] as int == 0x2C && FORBIDDEN[4] as int == 0x2E && FORBIDDEN[5] as int == 0x2F;
    assert FORBIDDEN[6] as int == 0x3A && FORBIDDEN[7] as int == 0x3B && FORBIDDEN[8] as int == 0x3C;
    assert FORBIDDEN[9] as int == 0x3E && FORBIDDEN[10] as int == 0x3F && FORBIDDEN[11] as int == 0x5B;
    assert FORBIDDEN[12] as int == 0x5C && FORBIDDEN[13] as int == 0x5D && FORBIDDEN[14] as int == 0x7C;
  }

  // ----- Short names -----

  predicate Plain(s: seq<byte>) {
    forall i :: 0 <= i < |s| ==> s[i] != 0 && s[i] != ' ' as int
  }

  /** A name filled up with blanks. */
  function Padded(s: seq<byte>, n: nat): (p: seq<byte>)
    requires |s| <= n
    ensures |p| == n
  {
    s + seq<byte>(n - |s|, _ => ' ' as int)
  }

  lemma {:induction false} PaddedTrimmed(s: seq<byte>, n: nat)
    requires |s| <= n && Plain(s)
    ensures Trimmed(Padded(s, n)) == s
  {
    if s != [] {
      PaddedTrimmed(s[1..], n - 1);
      assert Padded(s, n)[1..] == Padded(s[1..], n - 1);
    }
  }

  /** A name and extension stored with blanks behind them are listed with a dot between them, a label without both. */
  lemma ShortNameStored(r: Record, name: seq<byte>, extension: seq<byte>, a: Attributes)
    requires Plain(name) && Plain(extension) && |name| <= 8 && |extension| <= 3
    requires r.name == Padded(name, 8) && r.extension == Padded(extension, 3) && r.attribute == AttributeByte(a)
    ensures ShortName(StoredEntry(r)) ==
            if a.directory || a.archive then name + ['.' as int] + extension else name
  {
    hide Padded, Bytes2, AttributeByte, Trimmed, IsFileOrDirectory;
    var e := StoredEntry(r);
    AttributesTell(e, a);
    assert e[0..8] == r.name && e[8..11] == r.extension;
    PaddedTrimmed(name, 8);
    PaddedTrimmed(extension, 3);
  }

  // ----- Comparing names -----

  function Lower(c: byte): byte {
    if 0x41 <= c <= 0x5A then c + 0x20 else c
  }

  predicate SameIgnoringCase(s: seq<byte>, t: seq<byte>) {
    |s| == |t| && forall i :: 0 <= i < |s| ==> Lower(s[i]) == Lower(t[i])
  }

  const CAPITALS := "ABCDEFGHIJKLMNOPQRSTUVWXYZ"
  const SMALL := "abcdefghijklmnopqrstuvwxyz"

  /** c and d are the same letter, c a capital. */
  predicate CapitalOf(c: byte, d: byte) {
    exists k :: 0 <= k < |CAPITALS| == |SMALL| && CAPITALS[k] as int == c && SMALL[k] as int == d
  }

  lemma Alphabet(k: nat)
    requires k < 26
    ensures |CAPITALS| == |SMALL| == 26 && CAPITALS[k] as int == 0x41 + k && SMALL[k] as int == 0x61 + k
  {
  }

  lemma SameLetter(c: byte, d: byte)
    ensures Lower(c) == Lower(d) <==> c == d || CapitalOf(c, d) || CapitalOf(d, c)
  {
    if Lower(c) == Lower(d) && c < d {
      Alphabet(c - 0x41);
      assert CapitalOf(c, d);
    } else if Lower(c) == Lower(d) && c > d {
      Alphabet(d - 0x41);
      assert CapitalOf(d, c);
    }
    forall k | 0 <= k < |CAPITALS| == |SMALL|
      ensures SMALL[k] as int == CAPITALS[k] as int + 0x20 && 0x41 <= CAPITALS[k] as int <= 0x5A
    {
      Alphabet(k);
    }
  }

  /** Names compare as equal exactly if they differ at most in which letters are capitals. */
  lemma CaseIgnored(s: seq<byte>, t: seq<byte>)
    ensures SameIgnoringCase(s, t) <==>
              |s| == |t| && forall i :: 0 <= i < |s| ==> s[i] == t[i] || CapitalOf(s[i], t[i]) || CapitalOf(t[i], s[i])
  {
    hide Lower, CapitalOf;
    forall i | 0 <= i < |s| && i < |t|
      ensures Lower(s[i]) == Lower(t[i]) <==> s[i] == t[i] || CapitalOf(s[i], t[i]) || CapitalOf(t[i], s[i])
    {
      SameLetter(s[i], t[i]);
    }
  }

  // ----- Names without their spaces -----

  /** The places of the characters that are neither zero nor a space, in order. */
  function Places(s: seq<byte>): (f: seq<nat>)
    ensures forall k :: 0 <= k < |f| ==> f[k] < |s| && s[f[k]] != 0 && s[f[k]] != ' ' as int
    ensures forall j, k :: 0 <= j < k < |f| ==> f[j] < f[k]
    ensures forall i :: 0 <= i < |s| && s[i] != 0 && s[i] != ' ' as int ==> i in f
  {
    if s == [] then []
    else
      var n := |s| - 1;
      Places(s[..n]) + if s[n] == 0 || s[n] == ' ' as int then [] else [n]
  }

  /** Those characters are kept, in their order, and no others. */
  lemma {:induction false} NoSpacesKeeps(s: seq<byte>)
    ensures |NoSpaces(s)| == |Places(s)|
    ensures forall k :: 0 <= k < |Places(s)| ==> NoSpaces(s)[k] == s[Places(s)[k]]
  {
    if s != [] {
      NoSpacesKeeps(s[..|s| - 1]);
    }
  }
}
