/** What an answer image has to contain, byte by byte: its descriptors, directories and files. */
module IsoLayout {
  import opened Names
  import opened AppGraph
  import opened IsoFormat
  import opened IsoReader

  // ---------------------------------------------------------------- volume descriptors

  predicate IsAscii(s: string) { forall i :: 0 <= i < |s| ==> s[i] as int < 128 }

  function Ascii(s: string): (r: Bytes)
    requires IsAscii(s)
    ensures |r| == |s|
  {
    seq(|s|, i requires 0 <= i < |s| => s[i] as int)
  }

  /** UTF-16 in big-endian order, of ASCII text. */
  function Utf16Be(s: string): (r: Bytes)
    requires IsAscii(s)
    ensures |r| == 2 * |s| && forall i :: 0 <= i < |s| ==> r[2 * i] == 0 && r[2 * i + 1] == s[i] as int
  {
    seq(2 * |s|, i requires 0 <= i < 2 * |s| => if i % 2 == 0 then 0 else s[i / 2] as int)
  }

  function Spaces(n: nat): (r: string)
    ensures |r| == n && IsAscii(r)
  {
    seq(n, _ => ' ')
  }

  /** Text padded with blanks to a field of `size` bytes. */
  function Identifier(joliet: bool, text: string, size: nat): (r: Bytes)
    requires IsAscii(text) && |text| <= size
    ensures |r| == size
  {
    if joliet then (Utf16Be(text) + Utf16Be(Spaces(size)))[..size] else Ascii(text) + Ascii(Spaces(size - |text|))
  }

  const UCS2_LEVEL_3: Bytes := [0x25, 0x2F, 0x45]
  const VOLUME_ID := "INFRAOPS_ANSWER"
  function VolumeId(joliet: bool): Bytes { Identifier(joliet, VOLUME_ID, 32) }

  const VOLUME_DATE: Bytes := Ascii("2026010100000000") + [0]
  const NO_DATE: Bytes := Ascii("0000000000000000") + [0]

  predicate ZeroRange(b: Bytes, from: nat, to: nat) { to <= |b| && forall i :: from <= i < to ==> b[i] == 0 }

  datatype Layout = Layout(joliet: bool, sectors: nat, pathTableSize: nat, lTable: nat, mTable: nat, root: nat)

  predicate Small(l: Layout) {
    l.sectors < U32 && l.pathTableSize < U32 && l.lTable < U32 && l.mTable < U32 && l.root < U32
  }

  function RootEntry(id: Byte, extent: nat): Entry { Entry([id], extent, SECTOR, true) }

  /** Bytes 0 to 80 of a volume descriptor, as section 8.4 tabulates them. */
  ghost predicate Identification(d: Bytes, l: Layout) {
    && |d| == SECTOR && d[0] == (if l.joliet then 2 else 1) && At(d, 1, CD001) && d[6] == 1 && d[7] == 0
    && At(d, 8, Identifier(l.joliet, "", 32)) && At(d, 40, VolumeId(l.joliet)) && ZeroRange(d, 72, 80)
  }

  /** Bytes 80 to 132. */
  ghost predicate Sizes(d: Bytes, l: Layout)
    requires Small(l)
  {
    && |d| == SECTOR && At(d, 80, Both32(l.sectors))
    && At(d, 88, if l.joliet then UCS2_LEVEL_3 else Zeros(3)) && ZeroRange(d, 91, 120)
    && At(d, 120, Both16(1)) && At(d, 124, Both16(1)) && At(d, 128, Both16(SECTOR))
  }

  /** Bytes 132 to 190. */
  ghost predicate Tables(d: Bytes, l: Layout)
    requires Small(l)
  {
    && |d| == SECTOR && At(d, 132, Both32(l.pathTableSize)) && At(d, 140, Le32(l.lTable)) && ZeroRange(d, 144, 148)
    && At(d, 148, Be32(l.mTable)) && ZeroRange(d, 152, 156)
    && At(d, 156, RecordBytes(RootEntry(0, l.root)))
  }

  /** Start and size of the seven identifier fields that are left blank. */
  const BLANKS: seq<(nat, nat)> := [(190, 128), (318, 128), (446, 128), (574, 128), (702, 37), (739, 37), (776, 37)]

  function BlankField(k: nat): (nat, nat)
    requires k < 7
  {
    BLANKS[k]
  }

  /** The first `n` of them hold blanks. */
  ghost predicate Blank(d: Bytes, joliet: bool, n: nat) {
    |d| == SECTOR && n <= 7
    && forall k: nat :: k < n ==> At(d, BlankField(k).0, Identifier(joliet, "", BlankField(k).1))
  }

  ghost predicate Dates(d: Bytes) {
    && |d| == SECTOR && At(d, 813, VOLUME_DATE) && At(d, 830, VOLUME_DATE) && At(d, 847, NO_DATE)
    && At(d, 864, VOLUME_DATE) && d[881] == 1 && ZeroRange(d, 882, SECTOR)
  }

  /** Bytes 190 to 2048. */
  ghost predicate Texts(d: Bytes, l: Layout) { Blank(d, l.joliet, 7) && Dates(d) }

  ghost predicate IsDescriptor(d: Bytes, l: Layout)
    requires Small(l)
  {
    Identification(d, l) && Sizes(d, l) && Tables(d, l) && Texts(d, l)
  }

  // ---------------------------------------------------------------- names and their order

  type Name = s: string | IsAscii(s)

  type Files = map<Name, Bytes>

  function Upper(c: char): char
    requires c as int < 128
  {
    if 'a' <= c <= 'z' then (c as int - 32) as char else if c == '-' then '_' else c
  }

  /** `NAME.EXT;1` */
  function PrimaryId(name: Name): Bytes {
    seq(|name|, i requires 0 <= i < |name| => Upper(name[i]) as int) + [59, 49]
  }

  function Id(joliet: bool, name: Name): (r: Bytes)
    ensures |r| == if joliet then 2 * |name| else |name| + 2
  {
    if joliet then Utf16Be(name) else PrimaryId(name)
  }

  datatype Order = ByName | ById(joliet: bool)

  function Key(o: Order, name: Name): Bytes {
    match o
    case ByName => Ascii(name)
    case ById(joliet) => Id(joliet, name)
  }

  function Latin1(b: Bytes): (r: string)
    ensures |r| == |b| && forall i :: 0 <= i < |b| ==> r[i] == b[i] as char
  {
    seq(|b|, i requires 0 <= i < |b| => b[i] as char)
  }

  /** The order of the pairs of key and name; byte strings are ordered as strings of their codes. */
  predicate Before(o: Order, a: Name, b: Name) {
    Le(Latin1(Key(o, a)), Latin1(Key(o, b))) && (Key(o, a) == Key(o, b) ==> Le(a, b))
  }

  lemma Latin1Injective(a: Bytes, b: Bytes)
    requires Latin1(a) == Latin1(b)
    ensures a == b
  {
    forall i | 0 <= i < |a| ensures a[i] == b[i] {
      assert Latin1(a)[i] == Latin1(b)[i];
    }
  }

  lemma BeforeTotal(o: Order, a: Name, b: Name)
    ensures Before(o, a, b) || Before(o, b, a)
  {
    LeTotal(Latin1(Key(o, a)), Latin1(Key(o, b)));
    LeTotal(a, b);
    if Key(o, a) != Key(o, b) && Le(Latin1(Key(o, a)), Latin1(Key(o, b))) && Le(Latin1(Key(o, b)), Latin1(Key(o, a))) {
      LeAntisymmetric(Latin1(Key(o, a)), Latin1(Key(o, b)));
      Latin1Injective(Key(o, a), Key(o, b));
    }
  }

  lemma BeforeTransitive(o: Order, a: Name, b: Name, c: Name)
    requires Before(o, a, b) && Before(o, b, c)
    ensures Before(o, a, c)
  {
    var ka, kb, kc := Latin1(Key(o, a)), Latin1(Key(o, b)), Latin1(Key(o, c));
    LeTransitive(ka, kb, kc);
    if Key(o, a) == Key(o, c) {
      LeAntisymmetric(ka, kb);
      Latin1Injective(Key(o, a), Key(o, b));
      LeTransitive(a, b, c);
    }
  }

  ghost predicate SortedBy(o: Order, s: seq<Name>) {
    forall i, j :: 0 <= i < j < |s| ==> Before(o, s[i], s[j])
  }

  /** All names of the files, each once, in order. */
  ghost predicate IsListing(o: Order, files: Files, s: seq<Name>) {
    SortedBy(o, s) && Lists(files, s)
  }

  ghost predicate Lists(files: Files, s: seq<Name>) { Distinct(s) && forall n :: n in s <==> n in files }

  // ---------------------------------------------------------------- the image

  const PVD: nat := 16
  const SVD: nat := 17
  const TERMINATOR: nat := 18
  const PATH_TABLE_SIZE: nat := 10
  const FIRST_FILE: nat := 25

  /** Little-endian path table, big-endian path table and root directory of a tree. */
  function LTable(joliet: bool): nat { if joliet then 21 else 19 }
  function MTable(joliet: bool): nat { if joliet then 22 else 20 }
  function RootExtent(joliet: bool): nat { if joliet then 24 else 23 }

  /** The whole root directory: itself, its parent, the files. */
  function Directory(joliet: bool, entries: seq<Entry>): seq<Entry> {
    [RootEntry(0, RootExtent(joliet)), RootEntry(1, RootExtent(joliet))] + entries
  }

  function LayoutOf(joliet: bool, total: nat): Layout {
    Layout(joliet, total, PATH_TABLE_SIZE, LTable(joliet), MTable(joliet), RootExtent(joliet))
  }

  /** A path table with the root directory as its only record. */
  function PathTable(root: nat, bigEndian: bool): (r: Bytes)
    requires root < U32
    ensures |r| == PATH_TABLE_SIZE
  {
    [1, 0] + (if bigEndian then Be32(root) else Le32(root)) + (if bigEndian then Be16(1) else Le16(1)) + [0, 0]
  }

  const TERMINATOR_BYTES: Bytes := [255] + CD001 + [1]

  /** `payload` fills `span` sectors from `sector` on, with zeros behind it. */
  ghost predicate Block(image: Bytes, sector: nat, span: nat, payload: Bytes) {
    && (sector + span) * SECTOR <= |image| && |payload| <= span * SECTOR
    && At(image, sector * SECTOR, payload) && ZeroRange(image, sector * SECTOR + |payload|, (sector + span) * SECTOR)
  }

  ghost predicate DescriptorIn(image: Bytes, sector: nat, joliet: bool, total: nat)
    requires total < U32
  {
    HasSector(image, sector) && IsDescriptor(image[sector * SECTOR..(sector + 1) * SECTOR], LayoutOf(joliet, total))
  }

  ghost predicate PathTablesIn(image: Bytes, joliet: bool) {
    && Block(image, LTable(joliet), 1, PathTable(RootExtent(joliet), false))
    && Block(image, MTable(joliet), 1, PathTable(RootExtent(joliet), true))
  }

  /** Sectors 0 to 22. */
  ghost predicate Front(image: Bytes, total: nat)
    requires total < U32
  {
    && ZeroRange(image, 0, PVD * SECTOR) && DescriptorIn(image, PVD, false, total)
    && DescriptorIn(image, SVD, true, total)
    && Block(image, TERMINATOR, 1, TERMINATOR_BYTES) && PathTablesIn(image, false) && PathTablesIn(image, true)
  }
}
