/** Browsing the root directory of a mounted volume through its sector cache. */
module FatBrowse {
  import opened Bits
  import opened BlockDevice
  import opened FatLayout
  import opened FatVolume
  import opened LongNames
  import opened FatEntries

  /** dir is the table of the root directory up to its end mark or, if it has none, up to the end of the disk. */
  ghost predicate IsDirectory(dk: disk, lay: layout, dir: seq<entry>) {
    && |dir| <= U32
    && (forall i :: 0 <= i < |dir| ==>
          && DirectorySector(lay, i) < |dk|
          && dir[i] == dk[DirectorySector(lay, i)][DirectoryOffset(i)..DirectoryOffset(i) + DIRECTORY_ENTRY])
    && if EndsInMark(dir) then true else |dir| < U32 && |dk| <= DirectorySector(lay, |dir|) < NONE
  }

  predicate EndsInMark(dir: seq<entry>) {
    dir != [] && dir[|dir| - 1][0] == 0
  }

  /** Browsing can begin at entry i. */
  predicate Begins(dir: seq<entry>, i: nat) {
    i <= |dir| && (EndsInMark(dir) ==> i < |dir|)
  }

  /**
   Find the next file, directory or volume label from entry start on: the scan of the directory, unless a
   sector cannot be read.
   */
  method BrowseNext(vol: MountedVolume, start: u32, name: buffer, ghost dir: seq<entry>)
    returns (r: Outcome, i: u32, info: FileInfo)
    requires vol.Coherent() && IsDirectory(vol.device.sectors, vol.lay, dir) && Begins(dir, start)
    modifies vol`data, vol`index, vol.device`faults
    ensures vol.Coherent() && vol.device.faults >= old(vol.device.faults)
    ensures vol.device.faults == old(vol.device.faults) ==> (r, i) == Browse(dir, start, Scan(0, false, name))
    ensures vol.device.faults != old(vol.device.faults) ==> r == Failed
    ensures r.Found? ==> start <= i < |dir| && info == InfoOf(dir[i]) && Begins(dir, i + 1) && i + 1 < U32
  {
    hide Visit, DirectorySector, DirectoryOffset, EndsInMark, InfoOf;
    var s := Scan(0, false, name);
    i := start;
    while true
      invariant start <= i <= |dir| && Begins(dir, i) && Browse(dir, i, s) == Browse(dir, start, Scan(0, false, name))
      invariant vol.Coherent() && vol.device.faults == old(vol.device.faults)
      decreases |dir| - i
    {
      var ok, e := vol.FindDirectory(i);
      if !ok {
        r, info := Failed, InfoOf(seq(32, _ => 0));
        return;
      }
      assert i < |dir| && e == dir[i];
      info := InfoOf(e);
      r := Visit(s, e);
      GoesOn(dir, i, s);
      if !r.More? {
        return;
      }
      s := r.scan;
      i := i + 1;
    }
  }

  /** An entry that is not the end mark has one behind it where browsing can go on. */
  lemma GoesOn(dir: seq<entry>, i: nat, s: Scan)
    requires i < |dir|
    ensures Visit(s, dir[i]) != End ==> Begins(dir, i + 1)
  {
  }

  // ----- Opening a file -----

  function UpToZero(s: seq<byte>): seq<byte> {
    if s == [] || s[0] == 0 then [] else [s[0]] + UpToZero(s[1..])
  }

  /** Long names are compared flattened, short ones up to their zero and without regard to case. */
  predicate Matches(r: Outcome, target: seq<byte>)
    requires r.Found?
  {
    if r.long then Flat(r.name, 0) == target else SameIgnoringCase(UpToZero(r.name), target)
  }

  /** The entry of the first match of a listing. */
  function FirstMatch(listing: seq<(Outcome, nat)>, target: seq<byte>): (m: (bool, nat)) {
    if listing == [] then (false, 0)
    else if listing[0].0.Found? && Matches(listing[0].0, target) then (true, listing[0].1)
    else FirstMatch(listing[1..], target)
  }

  /**
   Look for a file by its name, browsing from the first entry on. In a directory of items the first item with the
   name is opened, and info has the fields its own entry stores: its start cluster and size among them.
   */
  method OpenFile(vol: MountedVolume, target: seq<byte>, name: buffer, ghost dir: seq<entry>, ghost items: seq<Item>,
                  ghost rest: seq<entry>)
    returns (found: bool, info: FileInfo, ghost at: nat)
    requires vol.Coherent() && IsDirectory(vol.device.sectors, vol.lay, dir) && Begins(dir, 0)
    modifies vol`data, vol`index, vol.device`faults
    ensures vol.Coherent() && vol.device.faults >= old(vol.device.faults)
    ensures vol.device.faults == old(vol.device.faults) ==>
              var m := FirstMatch(Listing(dir, 0, name), target);
              found == m.0 && (found ==> at == m.1)
    ensures found ==> at < |dir| && info == InfoOf(dir[at])
    ensures vol.device.faults == old(vol.device.faults) && HasItems(dir, items, rest) ==>
              var k := Chosen(items, target);
              && (found <==> k < |items|)
              && (found ==> forall r :: OwnEntry(items[k]) == StoredEntry(r) ==> info == r.Info())
  {
    hide Browse, Matches, IsDirectory, EndsInMark, Listing, FirstMatch, Begins, HasItems, Chosen, OwnEntry, StoredEntry;
    hide InfoOf;
    found, at := false, 0;
    info := InfoOf(seq(32, _ => 0));
    var next: u32, last := 0, name;
    var more := true;
    while more && !found
      invariant vol.Coherent() && vol.device.faults >= old(vol.device.faults) && Begins(dir, next) && next <= |dir|
      invariant IsDirectory(vol.device.sectors, vol.lay, dir)
      invariant vol.device.faults == old(vol.device.faults) && more && !found ==>
                  FirstMatch(Listing(dir, next, last), target) == FirstMatch(Listing(dir, 0, name), target)
      invariant vol.device.faults == old(vol.device.faults) && !more ==> !FirstMatch(Listing(dir, 0, name), target).0
      invariant vol.device.faults == old(vol.device.faults) && found ==>
            FirstMatch(Listing(dir, 0, name), target) == (true, at)
      invariant found ==> at < |dir| && info == InfoOf(dir[at])
      decreases more && !found, |dir| - next
    {
      var r, i;
      r, i, info := BrowseNext(vol, next, last, dir);
      ListingNext(dir, next, last, target);
      if !r.Found? {
        more := false;
      } else if Matches(r, target) {
        found, at := true, i;
      } else {
        next, last := i + 1, r.name;
      }
    }
    if HasItems(dir, items, rest) {
      OpenedItem(dir, items, rest, name, target);
    }
  }

  lemma ListingNext(dir: seq<entry>, i: nat, name: buffer, target: seq<byte>)
    requires i <= |dir|
    ensures var r := Browse(dir, i, Scan(0, false, name));
            var m := FirstMatch(Listing(dir, i, name), target);
            if !r.0.Found? || r.1 == |dir| then m == (false, 0)
            else if Matches(r.0, target) then m == (true, r.1)
            else m == FirstMatch(Listing(dir, r.1 + 1, r.0.name), target)
  {
    hide Browse, Matches;
  }

  predicate ItemMatches(it: Item, target: seq<byte>)
    requires !it.Free?
  {
    match it
    case Short(e) => SameIgnoringCase(ShortName(e), target)
    case Long(name, _, _) => NoSpaces(name) == target
  }

  /** A file stored under a short name is opened by its name, a dot and its extension, in capitals or not. */
  lemma ShortOpened(r: Record, name: seq<byte>, extension: seq<byte>, a: Attributes, target: seq<byte>)
    requires Plain(name) && Plain(extension) && |name| <= 8 && |extension| <= 3 && (a.directory || a.archive)
    requires r.name == Padded(name, 8) && r.extension == Padded(extension, 3) && r.attribute == AttributeByte(a)
    ensures var full := name + ['.' as int] + extension;
            ItemMatches(Short(StoredEntry(r)), target) <==>
              && |target| == |full|
              && forall i :: 0 <= i < |full| ==>
                   full[i] == target[i] || CapitalOf(full[i], target[i]) || CapitalOf(target[i], full[i])
  {
    hide ShortName, StoredEntry, Padded, AttributeByte, SameIgnoringCase, CapitalOf;
    ShortNameStored(r, name, extension, a);
    CaseIgnored(name + ['.' as int] + extension, target);
  }

  /** The first item that matches, and where its own entry is if the items begin at entry i. */
  function Where(items: seq<Item>, target: seq<byte>, i: nat): (bool, nat) {
    if items == [] then (false, 0)
    else if items[0].Free? then Where(items[1..], target, i + 1)
    else if ItemMatches(items[0], target) then (true, i + Size(items[0]) - 1)
    else Where(items[1..], target, i + Size(items[0]))
  }

  /** Opening by name finds the first item of the directory with that name, stored long or short. */
  lemma OpenFinds(items: seq<Item>, rest: seq<entry>, name: buffer, target: seq<byte>)
    requires forall it :: it in items ==> WellFormed(it)
    requires rest != [] ==> rest[0][0] == 0
    ensures FirstMatch(Listing(Layout(items) + rest, 0, name), target) == Where(items, target, 0)
  {
    hide Listing, Lists, Layout, FirstMatch, Where, WellFormed;
    DirectoryListed([], items, rest, name);
    assert [] + Layout(items) + rest == Layout(items) + rest;
    ListedFirst(Listing(Layout(items) + rest, 0, name), items, 0, target);
  }

  /** The directory has these items and after them, if anything, an end mark. */
  ghost predicate HasItems(dir: seq<entry>, items: seq<Item>, rest: seq<entry>) {
    && (forall it :: it in items ==> WellFormed(it))
    && dir == Layout(items) + rest && (rest != [] ==> rest[0][0] == 0)
  }

  /** The entry of the file itself, behind the pieces of its name. */
  function OwnEntry(it: Item): entry {
    match it
    case Free(e) => e
    case Short(e) => e
    case Long(_, _, file) => file
  }

  /** The number of the first item with the name, or the number of items. */
  function Chosen(items: seq<Item>, target: seq<byte>): (k: nat)
    ensures k <= |items|
    ensures k < |items| ==> !items[k].Free? && ItemMatches(items[k], target)
    ensures forall j :: 0 <= j < k ==> items[j].Free? || !ItemMatches(items[j], target)
  {
    if items == [] || (!items[0].Free? && ItemMatches(items[0], target)) then 0 else 1 + Chosen(items[1..], target)
  }

  lemma {:induction false} WhereChosen(items: seq<Item>, target: seq<byte>, i: nat)
    requires forall it :: it in items ==> WellFormed(it)
    ensures var w, k := Where(items, target, i), Chosen(items, target);
            && (w.0 <==> k < |items|)
            && (w.0 ==> i <= w.1 < i + |Layout(items)| && Layout(items)[w.1 - i] == OwnEntry(items[k]))
    decreases |items|
  {
    hide ItemMatches, WellFormed, EntriesOf, OwnEntry, Size, Layout;
    if items != [] {
      var it := items[0];
      OwnEntryLast(it);
      LayoutFirst(items);
      if it.Free? || !ItemMatches(it, target) {
        WhereChosen(items[1..], target, i + Size(it));
        Behind(EntriesOf(it), Layout(items[1..]));
      }
    }
  }

  lemma LayoutFirst(items: seq<Item>)
    requires items != [] && forall it :: it in items ==> WellFormed(it)
    ensures Layout(items) == EntriesOf(items[0]) + Layout(items[1..])
  {
  }

  lemma OwnEntryLast(it: Item)
    requires WellFormed(it)
    ensures |EntriesOf(it)| == Size(it) > 0 && EntriesOf(it)[Size(it) - 1] == OwnEntry(it)
    ensures it.Free? ==> Size(it) == 1
  {
  }

  lemma Behind(s: seq<entry>, t: seq<entry>)
    ensures forall j :: |s| <= j < |s| + |t| ==> (s + t)[j] == t[j - |s|]
  {
  }

  lemma OpenedEntry(items: seq<Item>, rest: seq<entry>, name: buffer, target: seq<byte>)
    requires forall it :: it in items ==> WellFormed(it)
    requires rest != [] ==> rest[0][0] == 0
    ensures var dir := Layout(items) + rest;
            var m, k := FirstMatch(Listing(dir, 0, name), target), Chosen(items, target);
            && (m.0 <==> k < |items|)
            && (m.0 ==> m.1 < |dir| && dir[m.1] == OwnEntry(items[k]))
  {
    hide *;
    OpenFinds(items, rest, name, target);
    WhereChosen(items, target, 0);
  }

  /** Opening by name in a directory of items finds the item with the fields it stores. */
  lemma OpenedItem(dir: seq<entry>, items: seq<Item>, rest: seq<entry>, name: buffer, target: seq<byte>)
    requires HasItems(dir, items, rest)
    ensures var m, k := FirstMatch(Listing(dir, 0, name), target), Chosen(items, target);
            && (m.0 <==> k < |items|)
            && (m.0 ==> m.1 < |dir|)
            && (m.0 ==> forall r :: OwnEntry(items[k]) == StoredEntry(r) ==> InfoOf(dir[m.1]) == r.Info())
  {
    hide Listing, FirstMatch, Chosen, OwnEntry, StoredEntry, InfoOf, Layout, ItemMatches;
    OpenedEntry(items, rest, name, target);
    forall r: Record
      ensures InfoOf(StoredEntry(r)) == r.Info()
    {
      InfoStored(r);
    }
  }

  lemma {:induction false} ListedFirst(listing: seq<(Outcome, nat)>, items: seq<Item>, i: nat, target: seq<byte>)
    requires Lists(listing, items, i)
    ensures FirstMatch(listing, target) == Where(items, target, i)
    decreases |items|
  {
    hide Matches, ItemMatches, Shows;
    if items != [] {
      if items[0].Free? {
        ListedFirst(listing, items[1..], i + 1, target);
      } else {
        ShownMatches(listing[0], items[0], i, target);
        ListedFirst(listing[1..], items[1..], i + Size(items[0]), target);
      }
    }
  }

  lemma ShownMatches(r: (Outcome, nat), it: Item, i: nat, target: seq<byte>)
    requires r.0.Found? && !it.Free? && Shows(r, it, i)
    ensures Matches(r.0, target) <==> ItemMatches(it, target)
    ensures r.1 == i + Size(it) - 1
  {
    hide ShortName, Flat, NoSpaces, SameIgnoringCase, UpToZero;
    match it
    case Short(e) =>
      ShortNameNonZero(e);
      Terminated(ShortName(e), r.0.name);
    case Long(_, _, _) =>
  }

  predicate NonZero(s: seq<byte>) {
    forall i :: 0 <= i < |s| ==> s[i] != 0
  }

  lemma {:induction false} TrimmedNonZero(s: seq<byte>)
    ensures NonZero(Trimmed(s))
  {
    if s != [] {
      TrimmedNonZero(s[1..]);
    }
  }

  lemma ShortNameNonZero(e: entry)
    ensures NonZero(ShortName(e))
  {
    TrimmedNonZero(e[0..8]);
    TrimmedNonZero(e[8..11]);
  }

  lemma {:induction false} Terminated(s: seq<byte>, t: seq<byte>)
    requires NonZero(s) && |s| < |t| && t[..|s| + 1] == s + [0]
    ensures UpToZero(t) == s
  {
    assert t[0] == (s + [0])[0];
    if s != [] {
      assert t[1..][..|s[1..]| + 1] == t[..|s| + 1][1..] == s[1..] + [0];
      Terminated(s[1..], t[1..]);
    }
  }
}
