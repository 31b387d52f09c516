/** Volume labels, and the answer medium: an image with two files that is not mistaken for
    installation media. */
module AnswerMedia {
  import opened Options
  import opened Text
  import opened IsoFormat
  import opened IsoReader
  import opened IsoLayout
  import opened IsoPlan
  import opened IsoImage
  import opened IsoRecovery

  // ---------------------------------------------------------------- labels

  /** Python's slice: bounds past the end are cut. */
  function Slice(b: Bytes, from: nat, to: nat): Bytes
    requires from <= to
  {
    b[if from <= |b| then from else |b|..if to <= |b| then to else |b|]
  }

  function DecodeAscii(b: Bytes): (r: string)
    ensures |r| == |b|
  {
    seq(|b|, i requires 0 <= i < |b| => if b[i] < 128 then b[i] as char else '\U{FFFD}')
  }

  /** The first descriptor is a primary one and reaches beyond the volume identifier. */
  predicate HasVolumeId(header: Bytes) {
    var at := PVD * SECTOR;
    |header| >= at + 72 && header[at] == 1 && At(header, at + 1, CD001)
  }

  function VolumeIdText(header: Bytes): string
    requires HasVolumeId(header)
  {
    DecodeAscii(header[PVD * SECTOR + 40..PVD * SECTOR + 72])
  }

  predicate AllSpace(s: string) { forall i :: 0 <= i < |s| ==> IsSpace(s[i]) }

  /** The label in the primary volume descriptor, if there is one. */
  function IsoVolumeLabel(header: Bytes): (r: Option<string>)
    ensures r.Some? ==> r.value != []
  {
    var descriptor := Slice(header, PVD * SECTOR, (PVD + 1) * SECTOR);
    if |descriptor| < 72 || descriptor[0] != 1 || descriptor[1..6] != CD001 then None
    else
      var volumeId := Strip(DecodeAscii(descriptor[40..72]));
      if volumeId == [] then None else Some(volumeId)
  }

  lemma SliceIsDescriptor(header: Bytes)
    ensures var d := Slice(header, PVD * SECTOR, (PVD + 1) * SECTOR);
            && (|d| >= 72 <==> |header| >= PVD * SECTOR + 72)
            && (d != [] ==> PVD * SECTOR + |d| <= |header|)
            && forall i :: 0 <= i < |d| ==> d[i] == header[PVD * SECTOR + i]
  {
  }

  lemma SamePart(d: Bytes, b: Bytes, at: nat, from: nat, to: nat)
    requires at + |d| <= |b| && (forall i :: 0 <= i < |d| ==> d[i] == b[at + i]) && from <= to <= |d|
    ensures d[from..to] == b[at + from..at + to]
  {
    forall i | 0 <= i < to - from ensures d[from..to][i] == b[at + from..at + to][i] {
      assert d[from + i] == b[at + (from + i)];
    }
  }

  lemma SliceHasVolumeId(header: Bytes)
    ensures var d := Slice(header, PVD * SECTOR, (PVD + 1) * SECTOR);
            && (|d| >= 72 && d[0] == 1 && d[1..6] == CD001 <==> HasVolumeId(header))
            && (HasVolumeId(header) ==> DecodeAscii(d[40..72]) == VolumeIdText(header))
  {
    SliceIsDescriptor(header);
    var d, at := Slice(header, PVD * SECTOR, (PVD + 1) * SECTOR), PVD * SECTOR;
    if |d| >= 72 {
      SamePart(d, header, at, 1, 6);
      SamePart(d, header, at, 40, 72);
      if At(header, at + 1, CD001) {
        forall i | 0 <= i < 5 ensures header[at + 1..at + 6][i] == CD001[i] {
          assert header[at + 1 + i] == CD001[i];
        }
      }
      if d[1..6] == CD001 {
        forall i | 0 <= i < 5 ensures header[at + 1 + i] == CD001[i] {
          assert d[1..6][i] == d[1 + i];
        }
      }
    }
  }

  /** There is a label exactly when a primary descriptor follows the system area and its identifier
      field is not blank; the label is that field without the white space at its ends. */
  lemma LabelIff(header: Bytes)
    ensures var text := IsoVolumeLabel(header);
            && (text.Some? <==> HasVolumeId(header) && !AllSpace(VolumeIdText(header)))
            && (text.Some? ==> IsTrim(text.value, VolumeIdText(header)))
  {
    SliceHasVolumeId(header);
    if HasVolumeId(header) {
      StripTrims(VolumeIdText(header));
      TrimIsEmptyIff(Strip(VolumeIdText(header)), VolumeIdText(header));
    }
  }

  predicate Trimmed(t: string) { t != [] && IsAscii(t) && !IsSpace(t[0]) && !IsSpace(t[|t| - 1]) }

  /** Blanks behind a label are dropped again. */
  lemma StripPadded(t: string, n: nat)
    requires Trimmed(t)
    ensures Strip(t + Spaces(n)) == t
  {
    assert LStrip(t + Spaces(n), IsSpace) == t + Spaces(n);
    DropSpaces(t, n);
  }

  lemma {:induction false} DropSpaces(t: string, n: nat)
    requires t != [] && !IsSpace(t[|t| - 1])
    ensures RStrip(t + Spaces(n), IsSpace) == t
  {
    var s := t + Spaces(n);
    if n == 0 {
      assert s == t;
    } else {
      DropSpaces(t, n - 1);
      assert s[..|s| - 1] == t + Spaces(n - 1);
    }
  }

  /** Whoever writes a label into a primary volume descriptor, padded as the standard asks, reads
      the same label back. */
  lemma LabelRoundTrip(header: Bytes, t: string)
    requires HasSector(header, PVD) && Trimmed(t) && |t| <= 32
    requires var at := PVD * SECTOR;
             header[at] == 1 && header[at + 1..at + 6] == CD001 && At(header, at + 40, Identifier(false, t, 32))
    ensures IsoVolumeLabel(header) == Some(t)
  {
    var at := PVD * SECTOR;
    assert HasVolumeId(header) by {
      forall i | 0 <= i < 5 ensures header[at + 1 + i] == CD001[i] {
        assert header[at + 1..at + 6][i] == header[at + 1 + i];
      }
    }
    SliceHasVolumeId(header);
    FieldText(header, t);
    DecodesTo(t, 32 - |t|);
    StripPadded(t, 32 - |t|);
  }

  lemma FieldText(header: Bytes, t: string)
    requires HasSector(header, PVD) && IsAscii(t) && |t| <= 32
             && At(header, PVD * SECTOR + 40, Identifier(false, t, 32))
    ensures header[PVD * SECTOR + 40..PVD * SECTOR + 72] == Identifier(false, t, 32)
  {
    var from := PVD * SECTOR + 40;
    var field := header[from..from + 32];
    forall i | 0 <= i < 32 ensures field[i] == Identifier(false, t, 32)[i] {
      assert field[i] == header[from + i];
    }
  }

  lemma DecodesTo(t: string, n: nat)
    requires IsAscii(t)
    ensures DecodeAscii(Ascii(t) + Ascii(Spaces(n))) == t + Spaces(n)
  {
  }

  // ---------------------------------------------------------------- classification

  datatype MediaKind = Server | Client | Unknown

  function UpperCase(s: string): (r: string)
    ensures |r| == |s|
  {
    seq(|s|, i requires 0 <= i < |s| => if 'a' <= s[i] <= 'z' then (s[i] as int - 32) as char else s[i])
  }

  /** `(?:^|_)SSS_` at position `i`. */
  predicate ServerMarkAt(s: string, i: nat)
    requires i + 4 <= |s|
  {
    s[i] == 'S' && s[i + 1] == 'S' && s[i + 2] == 'S' && s[i + 3] == '_' && (i == 0 || s[i - 1] == '_')
  }

  predicate HasServerMark(s: string) { exists i :: 0 <= i <= |s| - 4 && ServerMarkAt(s, i) }

  predicate HasClientPrefix(s: string) {
    "CCCOMA_" <= s || "CCOMA_" <= s || "CPBA_" <= s || "CPRA_" <= s || "CENA_" <= s || "CCSA_" <= s
  }

  predicate IsClientLabel(s: string) {
    HasClientPrefix(s) || ("J_" <= s && HasClientPrefix(s[2..])) || s == "ESD-ISO" || s == "ESD_ISO"
  }

  /** The label in capital letters and without white space at its ends. */
  function Normalized(volumeId: Option<string>): string {
    UpperCase(Strip(if volumeId.Some? then volumeId.value else ""))
  }

  function KindOf(s: string): MediaKind {
    if HasServerMark(s) then Server else if IsClientLabel(s) then Client else Unknown
  }

  function Classify(volumeId: Option<string>): MediaKind { KindOf(Normalized(volumeId)) }

  /** The label holds `SSS_`, at its beginning or behind a `_`. */
  ghost predicate ServerLabel(s: string) {
    exists before: string, after: string ::
      s == before + "SSS_" + after && (before == "" || before[|before| - 1] == '_')
  }

  /** One of the six prefixes, `J_` and one of them, or one of two labels as a whole. */
  ghost predicate ClientLabel(s: string) {
    || s == "ESD-ISO" || s == "ESD_ISO"
    || "CCCOMA_" <= s || "CCOMA_" <= s || "CPBA_" <= s || "CPRA_" <= s || "CENA_" <= s || "CCSA_" <= s
    || "J_CCCOMA_" <= s || "J_CCOMA_" <= s || "J_CPBA_" <= s || "J_CPRA_" <= s || "J_CENA_" <= s || "J_CCSA_" <= s
  }

  lemma ServerMarkMeans(s: string)
    ensures HasServerMark(s) <==> ServerLabel(s)
  {
    if i: nat :| i + 4 <= |s| && ServerMarkAt(s, i) {
      assert s == s[..i] + "SSS_" + s[i + 4..];
      assert s[..i] == "" || s[..i][|s[..i]| - 1] == '_';
    }
    if before: string, after: string :|
      s == before + "SSS_" + after && (before == "" || before[|before| - 1] == '_')
    {
      var i := |before|;
      assert s[i] == "SSS_"[0] && s[i + 1] == "SSS_"[1] && s[i + 2] == "SSS_"[2] && s[i + 3] == "SSS_"[3];
      assert i > 0 ==> s[i - 1] == before[i - 1];
      assert ServerMarkAt(s, i);
    }
  }

  lemma SecondPrefixMeans(s: string, p: string, q: string)
    ensures p <= s && q <= s[|p|..] <==> p + q <= s
  {
    if p <= s && q <= s[|p|..] {
      assert s == p + (q + s[|p|..][|q|..]);
      assert s == (p + q) + s[|p|..][|q|..];
    }
    if p + q <= s {
      assert s == (p + q) + s[|p| + |q|..] == p + (q + s[|p| + |q|..]);
      assert s[|p|..] == q + s[|p| + |q|..];
    }
  }

  lemma SecondMarksMean(s: string)
    ensures "J_" <= s && HasClientPrefix(s[2..]) <==>
            || "J_CCCOMA_" <= s || "J_CCOMA_" <= s || "J_CPBA_" <= s || "J_CPRA_" <= s || "J_CENA_" <= s
            || "J_CCSA_" <= s
  {
    SecondPrefixMeans(s, "J_", "CCCOMA_");
    SecondPrefixMeans(s, "J_", "CCOMA_");
    SecondPrefixMeans(s, "J_", "CPBA_");
    SecondPrefixMeans(s, "J_", "CPRA_");
    SecondPrefixMeans(s, "J_", "CENA_");
    SecondPrefixMeans(s, "J_", "CCSA_");
    assert "J_" + "CCCOMA_" == "J_CCCOMA_" && "J_" + "CCOMA_" == "J_CCOMA_" && "J_" + "CPBA_" == "J_CPBA_";
    assert "J_" + "CPRA_" == "J_CPRA_" && "J_" + "CENA_" == "J_CENA_" && "J_" + "CCSA_" == "J_CCSA_";
  }

  lemma ClientMarksMean(s: string)
    ensures IsClientLabel(s) <==> ClientLabel(s)
  {
    SecondMarksMean(s);
  }

  lemma KindMeans(s: string)
    ensures KindOf(s).Server? <==> ServerLabel(s)
    ensures KindOf(s).Client? <==> !ServerLabel(s) && ClientLabel(s)
  {
    ServerMarkMeans(s);
    ClientMarksMean(s);
  }

  /** What the two patterns say of a label. */
  lemma ClassifyMeans(volumeId: Option<string>)
    ensures Classify(volumeId).Server? <==> ServerLabel(Normalized(volumeId))
    ensures Classify(volumeId).Client? <==> !ServerLabel(Normalized(volumeId)) && ClientLabel(Normalized(volumeId))
  {
    KindMeans(Normalized(volumeId));
  }

  lemma DescriptorLabel(image: Bytes, total: nat)
    requires total < U32 && DescriptorIn(image, PVD, false, total)
    ensures IsoVolumeLabel(image) == Some(VOLUME_ID)
  {
    var at, d := PVD * SECTOR, image[PVD * SECTOR..(PVD + 1) * SECTOR];
    assert At(image, at, d);
    ReadsIdentification(image, at, d, LayoutOf(false, total));
    var from, field := PVD * SECTOR + 40, Identifier(false, VOLUME_ID, 32);
    var read := image[from..from + 32];
    forall i | 0 <= i < 32 ensures image[from + i] == field[i] {
      assert read[i] == image[from + i];
    }
    VolumeIdIsTrimmed();
    LabelRoundTrip(image, VOLUME_ID);
  }

  lemma VolumeIdIsTrimmed()
    ensures Trimmed(VOLUME_ID)
  {
  }

  /** No small letters, and the only `_` is the ninth character. */
  lemma VolumeIdCharacters(i: nat)
    requires i < |VOLUME_ID|
    ensures !('a' <= VOLUME_ID[i] <= 'z') && (VOLUME_ID[i] == '_' ==> i == 8)
  {
  }

  lemma AnswerLabelIsUnknown()
    ensures Classify(Some(VOLUME_ID)) == Unknown
  {
    VolumeIdIsTrimmed();
    StripPadded(VOLUME_ID, 0);
    assert VOLUME_ID + Spaces(0) == VOLUME_ID;
    var s := UpperCase(VOLUME_ID);
    forall i | 0 <= i < |s| ensures s[i] == VOLUME_ID[i] {
      VolumeIdCharacters(i);
    }
    assert s == VOLUME_ID;
    NoServerMark();
    assert s[0] == 'I';
  }

  lemma NoServerMark()
    ensures !HasServerMark(VOLUME_ID)
  {
    forall i: nat | i + 4 <= |VOLUME_ID| ensures !ServerMarkAt(VOLUME_ID, i) {
      VolumeIdCharacters(i + 3);
      assert VOLUME_ID[5] == 'O';
    }
  }

  /** The label of the image is the volume identifier, and the media check does not take the image
      for Windows installation media of either kind. */
  lemma AnswerImageLabel(image: Bytes, files: Files, plan: Plan)
    requires IsPlan(files, plan) && Encodable(files) && IsImage(image, files, plan)
    ensures IsoVolumeLabel(image) == Some(VOLUME_ID) && Classify(IsoVolumeLabel(image)) == Unknown
  {
    EncodableIff(files, plan);
    FrontParts(image, false, plan.total);
    DescriptorLabel(image, plan.total);
    AnswerLabelIsUnknown();
  }

  // ---------------------------------------------------------------- the medium with the two files

  const ANSWER_FILE_NAME: Name := "Autounattend.xml"
  const FIRST_LOGON_SCRIPT_NAME: Name := "InfraOps-FirstLogon.ps1"

  predicate SizesFit(xml: Bytes, script: Bytes) {
    |xml| < U32 && |script| < U32 && FIRST_FILE + Span(|xml|) + Span(|script|) < U32
  }

  /** What two files with short names need. */
  lemma TwoFiles(files: Files, a: Name, b: Name)
    requires files.Keys == {a, b} && a != b && |a| <= 110 && |b| <= 110
    ensures |files| == 2 && TotalSectors(files) == FIRST_FILE + Span(|files[a]|) + Span(|files[b]|)
    ensures Encodable(files) <==> SizesFit(files[a], files[b])
  {
    assert files.Keys == {a} + {b};
    SumAdd({a}, b, SpanOf(files));
    SumAdd({}, a, SpanOf(files));
    assert {} + {a} == {a};
  }

  ghost predicate ReadsBack(image: Bytes, name: Name, contents: Bytes) {
    forall joliet :: ReadFile(image, Descriptor(joliet), Id(joliet, name)) == Some(contents)
  }

  lemma DistinctIdsReadBack(image: Bytes, files: Files, plan: Plan, name: Name)
    requires IsPlan(files, plan) && Encodable(files) && IsImage(image, files, plan) && name in files
    requires Fits(files, false) && Fits(files, true)
    requires forall a, b :: Harmless(files, false, a, b)
    ensures ReadsBack(image, name, files[name])
  {
    PrimaryRecoversIff(image, files, plan);
    assert Recovers(image, files, false, name);
    JolietRecoversEveryFile(image, files, plan, name);
  }

  lemma TwoFilesHarmless(files: Files, a: Name, b: Name)
    requires files.Keys == {a, b} && Id(false, a) != Id(false, b)
    ensures forall x, y :: Harmless(files, false, x, y)
  {
    forall x, y ensures Harmless(files, false, x, y) {
      assert x in files ==> x == a || x == b;
      assert y in files ==> y == a || y == b;
    }
  }

  lemma AnswerNames()
    ensures |ANSWER_FILE_NAME| <= 110 && |FIRST_LOGON_SCRIPT_NAME| <= 110
    ensures Id(false, ANSWER_FILE_NAME) != Id(false, FIRST_LOGON_SCRIPT_NAME)
  {
    assert Id(false, ANSWER_FILE_NAME)[0] == 65 && Id(false, FIRST_LOGON_SCRIPT_NAME)[0] == 73;
  }

  /** An image with two files, which both trees give back. */
  ghost predicate HoldsPair(image: Bytes, a: Name, b: Name, x: Bytes, y: Bytes) {
    && ReadsBack(image, a, x) && ReadsBack(image, b, y) && IsoVolumeLabel(image) == Some(VOLUME_ID)
    && |image| == (FIRST_FILE + Span(|x|) + Span(|y|)) * SECTOR
  }

  method BuildPair(a: Name, b: Name, x: Bytes, y: Bytes) returns (image: Option<Bytes>)
    requires |a| <= 110 && |b| <= 110 && Id(false, a) != Id(false, b)
    ensures image.Some? <==> SizesFit(x, y)
    ensures image.Some? ==> HoldsPair(image.value, a, b, x, y)
  {
    var files := map[a := x, b := y];
    ghost var plan;
    image, plan := BuildAnswerIso(files);
    TwoFiles(files, a, b);
    if image.Some? {
      MediaReads(image.value, files, plan, a, b);
    }
  }

  /** `build_answer_media`: both files can be read back through both trees, and the image is refused
      only for sizes that its number fields cannot hold. */
  method BuildAnswerMedia(xml: Bytes, script: Bytes) returns (image: Option<Bytes>)
    ensures image.Some? <==> SizesFit(xml, script)
    ensures image.Some? <==> |xml| < 0x1_0000_0000 && |script| < 0x1_0000_0000
    ensures image.Some? ==> ReadsBack(image.value, "Autounattend.xml", xml)
    ensures image.Some? ==> ReadsBack(image.value, "InfraOps-FirstLogon.ps1", script)
    ensures image.Some? ==> IsoVolumeLabel(image.value) == Some("INFRAOPS_ANSWER")
    ensures image.Some? ==> |image.value| == (FIRST_FILE + Span(|xml|) + Span(|script|)) * SECTOR
  {
    AnswerNames();
    image := BuildPair(ANSWER_FILE_NAME, FIRST_LOGON_SCRIPT_NAME, xml, script);
  }

  lemma MediaReads(image: Bytes, files: Files, plan: Plan, a: Name, b: Name)
    requires files.Keys == {a, b} && a != b && |a| <= 110 && |b| <= 110 && Id(false, a) != Id(false, b)
    requires IsPlan(files, plan) && Encodable(files) && IsImage(image, files, plan)
    ensures HoldsPair(image, a, b, files[a], files[b])
  {
    TwoFiles(files, a, b);
    FewFilesFit(files, false);
    FewFilesFit(files, true);
    FittingLength(image, files, plan);
    TotalOfPlan(files, plan.names);
    AnswerImageLabel(image, files, plan);
    TwoFilesHarmless(files, a, b);
    DistinctIdsReadBack(image, files, plan, a);
    DistinctIdsReadBack(image, files, plan, b);
  }
}
