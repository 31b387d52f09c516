/** The answer-ISO builder: slices written into one buffer. */
module IsoBuilder {
  import opened IsoFormat
  import opened IsoReader
  import opened IsoLayout

  /** `buffer[at:at + len(payload)] = payload`. */
  method Put(buffer: array<Byte>, at: nat, payload: Bytes)
    requires at + |payload| <= buffer.Length
    modifies buffer
    ensures forall i :: 0 <= i < buffer.Length ==>
              buffer[i] == if at <= i < at + |payload| then payload[i - at] else old(buffer[i])
  {
    for k := 0 to |payload|
      invariant forall i :: 0 <= i < buffer.Length ==>
                  buffer[i] == if at <= i < at + k then payload[i - at] else old(buffer[i])
    {
      buffer[at + k] := payload[k];
    }
  }

  /** The fixed part of a record, its length byte still missing. */
  ghost predicate HeadFields(h: Bytes, e: Entry)
    requires Recordable(e)
  {
    && |h| == 33 && h[0] == 0 && h[1] == 0 && At(h, 2, Both32(e.extent)) && At(h, 10, Both32(e.length))
    && At(h, 18, DIRECTORY_DATE) && h[25] == (if e.directory then 2 else 0) && h[26] == 0 && h[27] == 0
    && At(h, 28, Both16(1)) && h[32] == |e.id|
  }

  lemma HeadIsRecordHead(h: Bytes, e: Entry, i: nat)
    requires Recordable(e) && HeadFields(h, e) && 1 <= i < 33
    ensures h[i] == RecordHead(e)[i]
  {
    assert i >= 2 && i < 10 ==> h[2 + (i - 2)] == Both32(e.extent)[i - 2];
    assert i >= 10 && i < 18 ==> h[10 + (i - 10)] == Both32(e.length)[i - 10];
    assert i >= 18 && i < 25 ==> h[18 + (i - 18)] == DIRECTORY_DATE[i - 18];
    assert i >= 28 && i < 32 ==> h[28 + (i - 28)] == Both16(1)[i - 28];
  }

  method RecordHeader(e: Entry) returns (h: Bytes)
    requires Recordable(e)
    ensures HeadFields(h, e)
  {
    var record := new Byte[33](_ => 0);
    Put(record, 2, Both32(e.extent));
    Put(record, 10, Both32(e.length));
    Put(record, 18, DIRECTORY_DATE);
    record[25] := if e.directory then 0x02 else 0x00;
    Put(record, 28, Both16(1));
    record[32] := |e.id|;
    h := record[..];
  }

  method DirectoryRecord(e: Entry) returns (r: Bytes)
    requires Recordable(e)
    ensures r == RecordBytes(e)
  {
    var h := RecordHeader(e);
    r := h + e.id;
    if |r| % 2 != 0 {
      r := r + [0];
    }
    r := r[0 := |r|];
    forall i | 0 <= i < |r| ensures r[i] == RecordBytes(e)[i] {
      if 1 <= i < 33 {
        HeadIsRecordHead(h, e, i);
      }
    }
  }

  // ---------------------------------------------------------------- volume descriptors

  method PutField(d: array<Byte>, at: nat, field: Bytes)
    requires at + |field| <= d.Length
    modifies d
    ensures At(d[..], at, field)
    ensures SameOn(old(d[..]), d[..], 0, at) && SameOn(old(d[..]), d[..], at + |field|, d.Length)
  {
    Put(d, at, field);
  }

  method PutText(d: array<Byte>, at: nat, joliet: bool, text: string, size: nat)
    requires IsAscii(text) && |text| <= size && at + size <= d.Length
    modifies d
    ensures At(d[..], at, Identifier(joliet, text, size))
    ensures SameOn(old(d[..]), d[..], 0, at) && SameOn(old(d[..]), d[..], at + size, d.Length)
  {
    PutField(d, at, Identifier(joliet, text, size));
  }

  method WriteIdentification(d: array<Byte>, l: Layout)
    requires d.Length == SECTOR && ZeroRange(d[..], 0, SECTOR)
    modifies d
    ensures Identification(d[..], l) && ZeroRange(d[..], 80, SECTOR)
  {
    d[0] := if l.joliet then 2 else 1;
    Put(d, 1, CD001);
    d[6] := 1;
    assert d[0] == (if l.joliet then 2 else 1) && At(d[..], 1, CD001) && d[6] == 1 && ZeroRange(d[..], 7, SECTOR);
    ghost var s1 := d[..];
    PutText(d, 8, l.joliet, "", 32);
    ghost var s2 := d[..];
    PutText(d, 40, l.joliet, VOLUME_ID, 32);
    AtKept(s1, s2, 0, 8, 1, CD001);
    AtKept(s2, d[..], 0, 40, 1, CD001);
    AtKept(s2, d[..], 0, 40, 8, Identifier(l.joliet, "", 32));
  }

  method WriteSizes(d: array<Byte>, l: Layout)
    requires d.Length == SECTOR && Small(l) && ZeroRange(d[..], 80, SECTOR)
    modifies d
    ensures Sizes(d[..], l) && ZeroRange(d[..], 132, SECTOR) && SameOn(old(d[..]), d[..], 0, 80)
  {
    Put(d, 80, Both32(l.sectors));
    if l.joliet {
      Put(d, 88, UCS2_LEVEL_3);
    }
    Put(d, 120, Both16(1));
    Put(d, 124, Both16(1));
    Put(d, 128, Both16(SECTOR));
  }

  method WriteTables(d: array<Byte>, l: Layout)
    requires d.Length == SECTOR && Small(l) && ZeroRange(d[..], 132, SECTOR)
    modifies d
    ensures Tables(d[..], l) && ZeroRange(d[..], 190, SECTOR) && SameOn(old(d[..]), d[..], 0, 132)
  {
    Put(d, 132, Both32(l.pathTableSize));
    Put(d, 140, Le32(l.lTable));
    Put(d, 148, Be32(l.mTable));
    var root := DirectoryRecord(RootEntry(0, l.root));
    Put(d, 156, root);
  }

  lemma BlankKept(b: Bytes, c: Bytes, joliet: bool, n: nat, to: nat)
    requires Blank(b, joliet, n) && SameOn(b, c, 0, to) && |c| == SECTOR
    requires forall k: nat :: k < n ==> BlankField(k).0 + BlankField(k).1 <= to
    ensures Blank(c, joliet, n)
  {
    forall k: nat | k < n ensures At(c, BlankField(k).0, Identifier(joliet, "", BlankField(k).1)) {
      AtKept(b, c, 0, to, BlankField(k).0, Identifier(joliet, "", BlankField(k).1));
    }
  }

  method WriteBlanks(d: array<Byte>, joliet: bool)
    requires d.Length == SECTOR && ZeroRange(d[..], 190, SECTOR)
    modifies d
    ensures Blank(d[..], joliet, 7) && ZeroRange(d[..], 813, SECTOR) && SameOn(old(d[..]), d[..], 0, 190)
  {
    for k: nat := 0 to 7
      invariant Blank(d[..], joliet, k)
      invariant ZeroRange(d[..], 813, SECTOR) && SameOn(old(d[..]), d[..], 0, 190)
    {
      var (start, size) := BlankField(k);
      ghost var before := d[..];
      PutText(d, start, joliet, "", size);
      BlankKept(before, d[..], joliet, k, start);
    }
  }

  method WriteDates(d: array<Byte>)
    requires d.Length == SECTOR && ZeroRange(d[..], 813, SECTOR)
    modifies d
    ensures Dates(d[..]) && SameOn(old(d[..]), d[..], 0, 813)
  {
    var recorded, never := VOLUME_DATE, NO_DATE;
    assert |recorded| == 17 && |never| == 17;
    PutField(d, 813, recorded);
    ghost var s1 := d[..];
    PutField(d, 830, recorded);
    ghost var s2 := d[..];
    PutField(d, 847, never);
    ghost var s3 := d[..];
    PutField(d, 864, recorded);
    d[881] := 1;
    AtKept(s1, d[..], 813, 830, 813, recorded);
    AtKept(s2, d[..], 830, 847, 830, recorded);
    AtKept(s3, d[..], 847, 864, 847, never);
  }

  method WriteTexts(d: array<Byte>, l: Layout)
    requires d.Length == SECTOR && ZeroRange(d[..], 190, SECTOR)
    modifies d
    ensures Texts(d[..], l) && SameOn(old(d[..]), d[..], 0, 190)
  {
    WriteBlanks(d, l.joliet);
    ghost var before := d[..];
    WriteDates(d);
    BlankKept(before, d[..], l.joliet, 7, 813);
  }

  lemma IdentificationKept(b: Bytes, c: Bytes, l: Layout)
    requires |c| == SECTOR && Identification(b, l) && SameOn(b, c, 0, 80)
    ensures Identification(c, l)
  {
  }

  lemma SizesKept(b: Bytes, c: Bytes, l: Layout)
    requires |c| == SECTOR && Small(l) && Sizes(b, l) && SameOn(b, c, 0, 132)
    ensures Sizes(c, l)
  {
  }

  lemma TablesKept(b: Bytes, c: Bytes, l: Layout)
    requires |c| == SECTOR && Small(l) && Tables(b, l) && SameOn(b, c, 0, 190)
    ensures Tables(c, l)
  {
  }

  method VolumeDescriptor(l: Layout) returns (d: Bytes)
    requires Small(l)
    ensures IsDescriptor(d, l)
  {
    var descriptor := new Byte[SECTOR](_ => 0);
    WriteIdentification(descriptor, l);
    ghost var d1 := descriptor[..];
    WriteSizes(descriptor, l);
    ghost var d2 := descriptor[..];
    WriteTables(descriptor, l);
    ghost var d3 := descriptor[..];
    WriteTexts(descriptor, l);
    d := descriptor[..];
    IdentificationKept(d1, d, l);
    SizesKept(d2, d, l);
    TablesKept(d3, d, l);
  }
}
