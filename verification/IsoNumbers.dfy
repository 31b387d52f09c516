/** The answer image in plain numbers: what its records, descriptors, directories and plan are, without
    the functions that the builder and the reader share. */
module IsoNumbers {
  import opened Names
  import opened AppGraph
  import opened IsoFormat
  import opened IsoReader
  import opened IsoLayout
  import opened IsoPlan
  import opened IsoRecovery

  // ---------------------------------------------------------------- numbers and records

  /** `v` stands at `at` with the least byte first, and behind it with the greatest byte first. */
  ghost predicate InBothOrders(b: Bytes, at: nat, v: nat) {
    && at + 8 <= |b|
    && v == b[at] as int + 256 * b[at + 1] as int + 65536 * b[at + 2] as int + 16777216 * b[at + 3] as int
    && b[at + 4] == b[at + 3] && b[at + 5] == b[at + 2] && b[at + 6] == b[at + 1] && b[at + 7] == b[at]
  }

  lemma BothOrders(b: Bytes, at: nat, v: nat)
    requires v < U32 && At(b, at, Both32(v))
    ensures InBothOrders(b, at, v)
  {
    Digits32(v);
    var p := Both32(v);
    assert p == [v % 256, v / 256 % 256, v / 65536 % 256, v / 16777216,
                 v / 16777216, v / 65536 % 256, v / 256 % 256, v % 256];
    assert b[at] == p[0] && b[at + 1] == p[1] && b[at + 2] == p[2] && b[at + 3] == p[3];
    assert b[at + 4] == p[4] && b[at + 5] == p[5] && b[at + 6] == p[6] && b[at + 7] == p[7];
  }

  /** A directory record in numbers. */
  ghost predicate RecordInNumbers(r: Bytes, id: Bytes, extent: nat, length: nat, directory: bool) {
    && |r| % 2 == 0 && 33 + |id| <= |r| <= 34 + |id| && r[0] == |r| && r[1] == 0
    && InBothOrders(r, 2, extent) && InBothOrders(r, 10, length)
    && r[18..25] == [126, 1, 1, 0, 0, 0, 0] && r[25..28] == [if directory then 2 else 0, 0, 0]
    && r[28..32] == [1, 0, 0, 1] && r[32] == |id| && r[33..33 + |id|] == id
    && (33 + |id| < |r| ==> r[33 + |id|] == 0)
  }

  lemma FlagsMean(e: Entry)
    requires Recordable(e)
    ensures RecordHead(e)[1] == 0 && RecordHead(e)[25..28] == [if e.directory then 2 else 0, 0, 0]
  {
    var flags: Bytes := [if e.directory then 2 else 0, 0, 0];
    var before: Bytes := [33 + |e.id| + RecordPadding(e), 0] + Both32(e.extent) + Both32(e.length) + DIRECTORY_DATE;
    assert RecordHead(e) == before + flags + (Both16(1) + [|e.id|]);
    assert |before| == 25;
  }

  lemma RecordSlices(r: Bytes, id: Bytes)
    requires At(r, 18, DIRECTORY_DATE) && At(r, 28, Both16(1)) && At(r, 33, id)
    ensures r[18..25] == [126, 1, 1, 0, 0, 0, 0] && r[28..32] == [1, 0, 0, 1] && r[33..33 + |id|] == id
  {
    SliceReads(r, 0, 18, DIRECTORY_DATE);
    SliceReads(r, 0, 28, Both16(1));
    SliceReads(r, 0, 33, id);
    OnesAndSector();
  }

  lemma RecordFlags(e: Entry, r: Bytes)
    requires Recordable(e) && r == RecordBytes(e)
    ensures r[1] == 0 && r[25..28] == [if e.directory then 2 else 0, 0, 0]
  {
    FlagsMean(e);
    SameHead(r, RecordHead(e), e.id, Zeros(RecordPadding(e)));
  }

  lemma SameHead(r: Bytes, head: Bytes, id: Bytes, padding: Bytes)
    requires |head| == 33 && r == head + id + padding
    ensures r[1] == head[1] && r[25..28] == head[25..28]
  {
  }

  lemma RecordMeans(e: Entry)
    requires Recordable(e)
    ensures RecordInNumbers(RecordBytes(e), e.id, e.extent, e.length, e.directory)
  {
    var r := RecordBytes(e);
    RecordFields(e);
    BothOrders(r, 2, e.extent);
    BothOrders(r, 10, e.length);
    RecordSlices(r, e.id);
    RecordFlags(e, r);
  }

  // ---------------------------------------------------------------- volume descriptors

  /** Kind, standard identifier and version: sections 8.4.1 to 8.4.4 of ECMA-119. */
  ghost predicate KindInNumbers(d: Bytes, joliet: bool) {
    |d| == 2048 && d[0] == (if joliet then 2 else 1) && d[1..6] == [67, 68, 48, 48, 49] && d[6] == 1 && d[7] == 0
  }

  /** The number of sectors, the escape sequence of Joliet, one volume, and sectors of 2048 bytes. */
  ghost predicate SizesInNumbers(d: Bytes, joliet: bool, total: nat) {
    && |d| == 2048 && InBothOrders(d, 80, total) && d[88..91] == (if joliet then [37, 47, 69] else [0, 0, 0])
    && d[120..124] == [1, 0, 0, 1] && d[124..128] == [1, 0, 0, 1] && d[128..132] == [0, 8, 8, 0]
  }

  /** Size and places of the path tables, and the record of the root directory. */
  ghost predicate TablesInNumbers(d: Bytes, joliet: bool) {
    && |d| == 2048 && d[132..140] == [10, 0, 0, 0, 0, 0, 0, 10]
    && d[140..144] == [if joliet then 21 else 19, 0, 0, 0] && d[148..152] == [0, 0, 0, if joliet then 22 else 20]
    && RecordInNumbers(d[156..190], [0], if joliet then 24 else 23, 2048, true)
  }

  lemma KindMeans(d: Bytes, joliet: bool, total: nat)
    requires Identification(d, LayoutOf(joliet, total))
    ensures KindInNumbers(d, joliet)
  {
    SliceReads(d, 0, 1, CD001);
  }

  lemma SizesMean(d: Bytes, joliet: bool, total: nat)
    requires total < U32 && Sizes(d, LayoutOf(joliet, total))
    ensures SizesInNumbers(d, joliet, total)
  {
    BothOrders(d, 80, total);
    SliceReads(d, 0, 88, if joliet then UCS2_LEVEL_3 else IsoFormat.Zeros(3));
    OnesAndSector();
    SliceReads(d, 0, 120, Both16(1));
    SliceReads(d, 0, 124, Both16(1));
    SliceReads(d, 0, 128, Both16(SECTOR));
  }

  lemma OnesAndSector()
    ensures Both16(1) == [1, 0, 0, 1] && Both16(SECTOR) == [0, 8, 8, 0]
  {
  }

  lemma TableNumbers(joliet: bool)
    ensures Both32(PATH_TABLE_SIZE) == [10, 0, 0, 0, 0, 0, 0, 10]
    ensures Le32(LTable(joliet)) == [if joliet then 21 else 19, 0, 0, 0]
    ensures Be32(MTable(joliet)) == [0, 0, 0, if joliet then 22 else 20]
  {
  }

  lemma TablesMean(d: Bytes, joliet: bool, total: nat)
    requires total < U32 && Tables(d, LayoutOf(joliet, total))
    ensures TablesInNumbers(d, joliet)
  {
    TableNumbers(joliet);
    SliceReads(d, 0, 132, Both32(PATH_TABLE_SIZE));
    SliceReads(d, 0, 140, Le32(LTable(joliet)));
    SliceReads(d, 0, 148, Be32(MTable(joliet)));
    RootRecordMeans(d, RootEntry(0, RootExtent(joliet)));
  }

  lemma RootRecordMeans(d: Bytes, root: Entry)
    requires Recordable(root) && |root.id| == 1 && At(d, 156, RecordBytes(root))
    ensures RecordInNumbers(d[156..190], root.id, root.extent, root.length, root.directory)
  {
    RecordMeans(root);
    SliceReads(d, 0, 156, RecordBytes(root));
  }

  /** A text field: its characters and then blanks, in two bytes each where the volume is Joliet. */
  ghost predicate TextInNumbers(d: Bytes, joliet: bool, at: nat, size: nat, text: string) {
    at + size <= |d| && forall i :: 0 <= i < size ==> d[at + i] as int == TextByte(joliet, text, i)
  }

  function TextByte(joliet: bool, text: string, i: nat): int {
    var k := if joliet then i / 2 else i;
    if joliet && i % 2 == 0 then 0 else if k < |text| then text[k] as int else 32
  }

  lemma TextMeans(d: Bytes, joliet: bool, at: nat, size: nat, text: string)
    requires IsAscii(text) && |text| <= size && At(d, at, Identifier(joliet, text, size))
    ensures TextInNumbers(d, joliet, at, size, text)
  {
    var field := Identifier(joliet, text, size);
    forall i | 0 <= i < size ensures d[at + i] as int == TextByte(joliet, text, i) {
      assert d[at + i] == field[i];
      IdentifierByte(joliet, text, size, i);
    }
  }

  lemma IdentifierByte(joliet: bool, text: string, size: nat, i: nat)
    requires IsAscii(text) && |text| <= size && i < size
    ensures Identifier(joliet, text, size)[i] as int == TextByte(joliet, text, i)
  {
    if joliet {
      var characters, blanks := Utf16Be(text), Utf16Be(Spaces(size));
      PaddedByte(characters, blanks, size, i);
      WideByte(text, Spaces(size), i);
    } else {
      NarrowByte(text, size, i);
    }
  }

  lemma NarrowByte(text: string, size: nat, i: nat)
    requires IsAscii(text) && |text| <= size && i < size
    ensures Identifier(false, text, size)[i] as int == if i < |text| then text[i] as int else 32
  {
    var blanks := Ascii(Spaces(size - |text|));
    assert i >= |text| ==> (Ascii(text) + blanks)[i] == blanks[i - |text|];
  }

  lemma WideByte(text: string, blanks: string, i: nat)
    requires IsAscii(text) && IsAscii(blanks) && i < 2 * |text| + 2 * |blanks|
    requires forall j :: 0 <= j < |blanks| ==> blanks[j] == ' '
    ensures (if i < 2 * |text| then Utf16Be(text)[i] else Utf16Be(blanks)[i - 2 * |text|]) as int ==
            TextByte(true, text, i)
  {
    Halves(i, |text|);
    if i < 2 * |text| {
      Utf16Byte(text, i);
    } else {
      Utf16Byte(blanks, i - 2 * |text|);
    }
  }

  lemma Halves(i: nat, n: nat)
    ensures i / 2 < n <==> i < 2 * n
    ensures i >= 2 * n ==> (i - 2 * n) % 2 == i % 2
  {
  }

  lemma PaddedByte(characters: Bytes, blanks: Bytes, size: nat, i: nat)
    requires i < size <= |characters| + |blanks|
    ensures (characters + blanks)[..size][i] == if i < |characters| then characters[i] else blanks[i - |characters|]
  {
  }

  lemma Utf16Byte(s: string, i: nat)
    requires IsAscii(s) && i < 2 * |s|
    ensures Utf16Be(s)[i] as int == if i % 2 == 0 then 0 else s[i / 2] as int
  {
    assert i == 2 * (i / 2) + i % 2;
  }

  /** The system identifier, which is blank, and the label. */
  ghost predicate LabelInNumbers(d: Bytes, joliet: bool) {
    TextInNumbers(d, joliet, 8, 32, "") && TextInNumbers(d, joliet, 40, 32, "INFRAOPS_ANSWER")
  }

  /** The other identifier fields, all of them blank. */
  ghost predicate BlanksInNumbers(d: Bytes, joliet: bool) {
    && TextInNumbers(d, joliet, 190, 128, "") && TextInNumbers(d, joliet, 318, 128, "")
    && TextInNumbers(d, joliet, 446, 128, "") && TextInNumbers(d, joliet, 574, 128, "")
  }

  ghost predicate ShortBlanksInNumbers(d: Bytes, joliet: bool) {
    && TextInNumbers(d, joliet, 702, 37, "") && TextInNumbers(d, joliet, 739, 37, "")
    && TextInNumbers(d, joliet, 776, 37, "")
  }

  lemma BlankMeans(d: Bytes, joliet: bool, k: nat)
    requires k < 7 && Blank(d, joliet, 7)
    ensures TextInNumbers(d, joliet, BlankField(k).0, BlankField(k).1, "")
  {
    TextMeans(d, joliet, BlankField(k).0, BlankField(k).1, "");
  }

  lemma BlanksMean(d: Bytes, joliet: bool)
    requires Blank(d, joliet, 7)
    ensures BlanksInNumbers(d, joliet)
  {
    BlankMeans(d, joliet, 0);
    BlankMeans(d, joliet, 1);
    BlankMeans(d, joliet, 2);
    BlankMeans(d, joliet, 3);
  }

  lemma ShortBlanksMean(d: Bytes, joliet: bool)
    requires Blank(d, joliet, 7)
    ensures ShortBlanksInNumbers(d, joliet)
  {
    BlankMeans(d, joliet, 4);
    BlankMeans(d, joliet, 5);
    BlankMeans(d, joliet, 6);
  }

  lemma LabelMeans(d: Bytes, joliet: bool, total: nat)
    requires Identification(d, LayoutOf(joliet, total))
    ensures LabelInNumbers(d, joliet)
  {
    TextMeans(d, joliet, 8, 32, "");
    TextMeans(d, joliet, 40, 32, VOLUME_ID);
  }

  /** Created, modified and effective at midnight of 1 January 2026, never expiring. */
  ghost predicate DatesInNumbers(d: Bytes) {
    && |d| == 2048
    && d[813..830] == [50, 48, 50, 54, 48, 49, 48, 49, 48, 48, 48, 48, 48, 48, 48, 48, 0]
    && d[830..847] == d[813..830] && d[864..881] == d[813..830]
    && (forall i :: 847 <= i < 863 ==> d[i] == 48) && d[863] == 0 && d[881] == 1
  }

  /** Nothing in the unused fields. */
  ghost predicate UnusedInNumbers(d: Bytes) {
    && |d| == 2048
    && forall i :: 72 <= i < 80 || 91 <= i < 120 || 144 <= i < 148 || 152 <= i < 156 || 882 <= i < 2048 ==> d[i] == 0
  }

  lemma DatesMean()
    ensures VOLUME_DATE == [50, 48, 50, 54, 48, 49, 48, 49, 48, 48, 48, 48, 48, 48, 48, 48, 0]
    ensures |NO_DATE| == 17 && NO_DATE[16] == 0 && forall i :: 0 <= i < 16 ==> NO_DATE[i] == 48
  {
  }

  lemma TailMeans(d: Bytes)
    requires Dates(d)
    ensures DatesInNumbers(d)
  {
    DatesMean();
    var recorded := VOLUME_DATE;
    SliceReads(d, 0, 813, recorded);
    SliceReads(d, 0, 830, recorded);
    SliceReads(d, 0, 864, recorded);
    assert d[847 + 16] == NO_DATE[16];
    forall i | 847 <= i < 863 ensures d[i] == 48 {
      assert d[847 + (i - 847)] == NO_DATE[i - 847];
    }
  }

  lemma UnusedMeans(d: Bytes, joliet: bool, total: nat)
    requires total < U32 && IsDescriptor(d, LayoutOf(joliet, total))
    ensures UnusedInNumbers(d)
  {
  }

  // ---------------------------------------------------------------- the sectors before the directories

  function Sector(image: Bytes, k: nat): (r: Bytes)
    requires (k + 1) * 2048 <= |image|
    ensures |r| == 2048
  {
    image[k * 2048..(k + 1) * 2048]
  }

  /** These bytes and then zeros. */
  ghost predicate ZeroFilled(sector: Bytes, bytes: Bytes) {
    |bytes| <= |sector| && sector[..|bytes|] == bytes && forall i :: |bytes| <= i < |sector| ==> sector[i] == 0
  }

  ghost predicate FrontInNumbers(image: Bytes, total: nat) {
    && |image| >= 23 * 2048 && (forall i :: 0 <= i < 16 * 2048 ==> image[i] == 0)
    && DescriptorInNumbers(Sector(image, 16), false, total) && DescriptorInNumbers(Sector(image, 17), true, total)
    && ZeroFilled(Sector(image, 18), [255, 67, 68, 48, 48, 49, 1])
    && ZeroFilled(Sector(image, 19), [1, 0, 23, 0, 0, 0, 1, 0, 0, 0])
    && ZeroFilled(Sector(image, 20), [1, 0, 0, 0, 0, 23, 0, 1, 0, 0])
    && ZeroFilled(Sector(image, 21), [1, 0, 24, 0, 0, 0, 1, 0, 0, 0])
    && ZeroFilled(Sector(image, 22), [1, 0, 0, 0, 0, 24, 0, 1, 0, 0])
  }

  ghost predicate DescriptorInNumbers(d: Bytes, joliet: bool, total: nat) {
    && KindInNumbers(d, joliet) && SizesInNumbers(d, joliet, total) && TablesInNumbers(d, joliet)
    && LabelInNumbers(d, joliet) && BlanksInNumbers(d, joliet)
    && ShortBlanksInNumbers(d, joliet) && DatesInNumbers(d) && UnusedInNumbers(d)
  }

  lemma BlockIsFilled(image: Bytes, k: nat, bytes: Bytes)
    requires Block(image, k, 1, bytes)
    ensures (k + 1) * 2048 <= |image| && ZeroFilled(Sector(image, k), bytes)
  {
    var s := Sector(image, k);
    forall i | 0 <= i < |bytes| ensures s[i] == bytes[i] {
      assert s[i] == image[k * SECTOR + i];
    }
    forall i | |bytes| <= i < 2048 ensures s[i] == 0 {
      assert s[i] == image[k * SECTOR + i];
    }
  }

  lemma PathTablesMean()
    ensures PathTable(23, false) == [1, 0, 23, 0, 0, 0, 1, 0, 0, 0]
    ensures PathTable(23, true) == [1, 0, 0, 0, 0, 23, 0, 1, 0, 0]
    ensures PathTable(24, false) == [1, 0, 24, 0, 0, 0, 1, 0, 0, 0]
    ensures PathTable(24, true) == [1, 0, 0, 0, 0, 24, 0, 1, 0, 0]
  {
  }

  lemma DescriptorMeans(image: Bytes, k: nat, joliet: bool, total: nat)
    requires total < U32 && DescriptorIn(image, k, joliet, total)
    ensures (k + 1) * 2048 <= |image| && DescriptorInNumbers(Sector(image, k), joliet, total)
  {
    KindMeans(Sector(image, k), joliet, total);
    SizesMean(Sector(image, k), joliet, total);
    TablesMean(Sector(image, k), joliet, total);
    LabelMeans(Sector(image, k), joliet, total);
    BlanksMean(Sector(image, k), joliet);
    ShortBlanksMean(Sector(image, k), joliet);
    TailMeans(Sector(image, k));
    UnusedMeans(Sector(image, k), joliet, total);
  }

  lemma FrontMeans(image: Bytes, total: nat)
    requires total < U32 && Front(image, total)
    ensures FrontInNumbers(image, total)
  {
    DescriptorMeans(image, 16, false, total);
    DescriptorMeans(image, 17, true, total);
    PathTablesMean();
    BlockIsFilled(image, 18, TERMINATOR_BYTES);
    BlockIsFilled(image, 19, PathTable(23, false));
    BlockIsFilled(image, 20, PathTable(23, true));
    BlockIsFilled(image, 21, PathTable(24, false));
    BlockIsFilled(image, 22, PathTable(24, true));
    assert TERMINATOR_BYTES == [255, 67, 68, 48, 48, 49, 1];
  }

  // ---------------------------------------------------------------- names

  /** `NAME.EXT;1` in capital letters with `_` for `-`, or the exact name in two bytes a character. */
  ghost predicate IdInNumbers(joliet: bool, name: Name, id: Bytes) {
    if joliet then
      |id| == 2 * |name| && forall i :: 0 <= i < |name| ==> id[2 * i] == 0 && id[2 * i + 1] == name[i] as int
    else
      && |id| == |name| + 2 && id[|name|..] == [59, 49]
      && forall i :: 0 <= i < |name| ==>
           id[i] == if 'a' <= name[i] <= 'z' then name[i] as int - 32 else if name[i] == '-' then 95 else name[i] as int
  }

  lemma IdMeans(joliet: bool, name: Name)
    ensures IdInNumbers(joliet, name, Id(joliet, name))
  {
    if !joliet {
      assert Id(false, name)[|name|..] == [59, 49];
    }
  }

  /** The order of byte strings: the shorter of two that agree comes first, otherwise the first difference
      decides. */
  ghost predicate BytesInOrder(a: Bytes, b: Bytes) {
    a <= b || exists k: nat :: k < |a| && k < |b| && a[..k] == b[..k] && a[k] < b[k]
  }

  ghost predicate NamesInOrder(a: Name, b: Name) {
    a <= b || exists k: nat :: k < |a| && k < |b| && a[..k] == b[..k] && a[k] < b[k]
  }

  lemma SamePrefix(a: Bytes, b: Bytes, k: nat)
    requires k <= |a| && k <= |b|
    ensures Latin1(a)[..k] == Latin1(b)[..k] <==> a[..k] == b[..k]
  {
    assert Latin1(a)[..k] == Latin1(a[..k]) && Latin1(b)[..k] == Latin1(b[..k]);
    if Latin1(a[..k]) == Latin1(b[..k]) {
      Latin1Injective(a[..k], b[..k]);
    }
  }

  lemma BytesOrderMeans(a: Bytes, b: Bytes)
    ensures Le(Latin1(a), Latin1(b)) ==> BytesInOrder(a, b)
  {
    var s, t := Latin1(a), Latin1(b);
    LeMeans(s, t);
    if s <= t {
      SamePrefix(a, b, |a|);
      assert a[..|a|] == a && s[..|a|] == s && t[..|a|] == s;
    } else if k: nat :| k < |s| && k < |t| && s[..k] == t[..k] && s[k] < t[k] {
      SamePrefix(a, b, k);
      assert a[..k] == b[..k] && a[k] < b[k];
    }
  }

  /** Both keys of the order of directory records. */
  lemma BeforeMeans(joliet: bool, a: Name, b: Name)
    requires Before(ById(joliet), a, b)
    ensures BytesInOrder(Id(joliet, a), Id(joliet, b)) && (Id(joliet, a) == Id(joliet, b) ==> NamesInOrder(a, b))
  {
    BytesOrderMeans(Id(joliet, a), Id(joliet, b));
    LeMeans(a, b);
  }

  lemma NameOrderMeans(a: Name, b: Name)
    requires Before(ByName, a, b)
    ensures NamesInOrder(a, b)
  {
    AsciiIsLatin1(a);
    AsciiIsLatin1(b);
    LeMeans(a, b);
  }

  lemma AsciiIsLatin1(a: Name)
    ensures Latin1(Ascii(a)) == a
  {
  }

  // ---------------------------------------------------------------- the plan

  /** The sectors that the contents of a file take. */
  function Sectors(n: nat): nat { if n == 0 then 1 else (n + 2047) / 2048 }

  /** All names once. */
  ghost predicate AllNames(files: Files, s: seq<Name>) {
    (forall i, j :: 0 <= i < j < |s| ==> s[i] != s[j]) && forall n :: n in s <==> n in files
  }

  /** The names in order. */
  ghost predicate Alphabetical(s: seq<Name>) { forall i, j :: 0 <= i < j < |s| ==> NamesInOrder(s[i], s[j]) }

  /** Where the file before the one at position `i` ends; the first one starts in sector 25. */
  function EndBefore(files: Files, names: seq<Name>, extents: map<Name, nat>, i: nat): nat
    requires i <= |names| && forall n :: n in names ==> n in files && n in extents
  {
    if i == 0 then 25
    else
      var name := names[i - 1];
      assert name in names;
      extents[name] + Sectors(|files[name]|)
  }

  /** The files lie one behind the other, and the image ends behind the last. */
  ghost predicate OneBehindTheOther(files: Files, names: seq<Name>, extents: map<Name, nat>, total: nat) {
    && (forall n :: n in names ==> n in files && n in extents) && total == EndBefore(files, names, extents, |names|)
    && forall i :: 0 <= i < |names| ==> extents[names[i]] == EndBefore(files, names, extents, i)
  }

  ghost predicate PlacesInNumbers(files: Files, plan: Plan) {
    && AllNames(files, plan.names) && Alphabetical(plan.names) && plan.extents.Keys == files.Keys
    && OneBehindTheOther(files, plan.names, plan.extents, plan.total)
  }

  /** The records of a tree are sorted by identifier, and those of one identifier by name. */
  ghost predicate RecordsInOrder(files: Files, joliet: bool, s: seq<Name>) {
    && AllNames(files, s)
    && forall i, j :: 0 <= i < j < |s| ==>
         && BytesInOrder(Id(joliet, s[i]), Id(joliet, s[j]))
         && (Id(joliet, s[i]) == Id(joliet, s[j]) ==> NamesInOrder(s[i], s[j]))
  }

  lemma OrderMeans(files: Files, names: seq<Name>)
    requires IsListing(ByName, files, names)
    ensures AllNames(files, names) && Alphabetical(names)
  {
    forall i, j | 0 <= i < j < |names| ensures NamesInOrder(names[i], names[j]) {
      NameOrderMeans(names[i], names[j]);
    }
  }

  lemma EndIsStart(files: Files, names: seq<Name>, extents: map<Name, nat>, i: nat)
    requires Lists(files, names) && Placed(files, names, extents) && extents.Keys == files.Keys && i <= |names|
    ensures EndBefore(files, names, extents, i) == Start(files, names, i)
  {
    if i > 0 {
      StartNext(files, names, i - 1);
    }
  }

  lemma ExtentsMean(files: Files, names: seq<Name>, extents: map<Name, nat>)
    requires Lists(files, names) && Placed(files, names, extents) && extents.Keys == files.Keys
    ensures OneBehindTheOther(files, names, extents, Start(files, names, |names|))
  {
    EndIsStart(files, names, extents, |names|);
    forall i | 0 <= i < |names| ensures extents[names[i]] == EndBefore(files, names, extents, i) {
      EndIsStart(files, names, extents, i);
    }
  }

  lemma PlacesMean(files: Files, plan: Plan)
    requires IsPlan(files, plan)
    ensures PlacesInNumbers(files, plan)
  {
    PlanLists(files, plan, false);
    OrderMeans(files, plan.names);
    ExtentsMean(files, plan.names, plan.extents);
  }

  lemma RecordsMean(files: Files, plan: Plan, joliet: bool)
    requires IsPlan(files, plan)
    ensures RecordsInOrder(files, joliet, plan.Listing(joliet))
  {
    var s := plan.Listing(joliet);
    forall i, j | 0 <= i < j < |s|
      ensures BytesInOrder(Id(joliet, s[i]), Id(joliet, s[j]))
      ensures Id(joliet, s[i]) == Id(joliet, s[j]) ==> NamesInOrder(s[i], s[j])
    {
      BeforeMeans(joliet, s[i], s[j]);
    }
  }

  // ---------------------------------------------------------------- the whole image

  /** Descriptors and tables, the order of files and records, and each file in its place. */
  ghost predicate ImageInNumbers(image: Bytes, files: Files, plan: Plan) {
    && FrontInNumbers(image, plan.total) && PlacesInNumbers(files, plan)
    && RecordsInOrder(files, false, plan.primary) && RecordsInOrder(files, true, plan.joliet)
    && forall n :: n in files ==> ContentsInNumbers(image, plan.extents, n, files[n])
  }

  ghost predicate ContentsInNumbers(image: Bytes, extents: map<Name, nat>, name: Name, contents: Bytes) {
    && name in extents && extents[name] * 2048 + |contents| <= |image|
    && image[extents[name] * 2048..extents[name] * 2048 + |contents|] == contents
  }

  lemma ImageMeans(image: Bytes, files: Files, plan: Plan)
    requires IsPlan(files, plan) && Encodable(files) && IsImage(image, files, plan)
    ensures ImageInNumbers(image, files, plan)
  {
    EncodableIff(files, plan);
    FrontMeans(image, plan.total);
    PlacesMean(files, plan);
    RecordsMean(files, plan, false);
    RecordsMean(files, plan, true);
    forall n | n in files ensures ContentsInNumbers(image, plan.extents, n, files[n]) {
      ContentsInPlace(image, files, plan, n);
    }
  }

  /** The entry of a file, never that of a directory. */
  ghost predicate EntryInNumbers(e: Entry, joliet: bool, name: Name, extent: nat, length: nat) {
    IdInNumbers(joliet, name, e.id) && e.extent == extent && e.length == length && !e.directory
  }

  /** Whatever a reader finds in a root directory of any image is the entry of a file: the entries of the
      leading names of the tree, and of all of them where the directory fits its sector. */
  lemma EntriesMean(image: Bytes, files: Files, plan: Plan, joliet: bool)
    requires IsPlan(files, plan) && Encodable(files) && IsImage(image, files, plan)
    ensures ReadRoot(image, Descriptor(joliet)).Some?
    ensures var found, names := ReadRoot(image, Descriptor(joliet)).value, plan.Listing(joliet);
            && |found| <= |names| && (|found| == |names| <==> Fits(files, joliet))
            && forall i :: 0 <= i < |found| ==>
                 && names[i] in files && names[i] in plan.extents
                 && EntryInNumbers(found[i], joliet, names[i], plan.extents[names[i]], |files[names[i]]|)
  {
    var names, shown := plan.Listing(joliet), ShownBy(plan, joliet);
    RootShows(image, files, plan, joliet);
    ShownIsPrefix(joliet, names, ROOM);
    AllShownIff(files, plan, joliet);
    assert |shown| == |names| ==> shown == names;
    forall i | 0 <= i < |shown|
      ensures names[i] in files && names[i] in plan.extents
      ensures EntryInNumbers(FileEntry(files, plan.extents, joliet, names[i]), joliet, names[i],
                             plan.extents[names[i]], |files[names[i]]|)
    {
      assert shown[i] in shown && shown[i] == names[i];
      IdMeans(joliet, names[i]);
    }
  }
}
