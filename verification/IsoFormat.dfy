/** The parts of ECMA-119 (ISO 9660) an answer image uses: numbers in both byte orders (7.2.3,
    7.3.3), directory records (9.1), and a reader that follows them. */
module IsoFormat {
  import opened Options

  type Byte = x: int | 0 <= x < 256

  type Bytes = seq<Byte>

  const SECTOR: nat := 2048
  const U16: nat := 0x1_0000
  const U32: nat := 0x1_0000_0000

  function Zeros(n: nat): (r: Bytes)
    ensures |r| == n && forall i :: 0 <= i < n ==> r[i] == 0
  {
    seq(n, _ => 0)
  }

  // ---------------------------------------------------------------- numbers

  function Le16(v: nat): Bytes
    requires v < U16
  {
    [v % 256, v / 256]
  }

  function Be16(v: nat): Bytes
    requires v < U16
  {
    [v / 256, v % 256]
  }

  function Le32(v: nat): Bytes
    requires v < U32
  {
    [v % 256, v / 256 % 256, v / 65536 % 256, v / 16777216]
  }

  function Be32(v: nat): Bytes
    requires v < U32
  {
    [v / 16777216, v / 65536 % 256, v / 256 % 256, v % 256]
  }

  function Both16(v: nat): Bytes
    requires v < U16
  {
    Le16(v) + Be16(v)
  }

  function Both32(v: nat): Bytes
    requires v < U32
  {
    Le32(v) + Be32(v)
  }

  function ReadLe32(b: Bytes, at: nat): nat
    requires at + 4 <= |b|
  {
    var b0: nat, b1: nat, b2: nat, b3: nat := b[at], b[at + 1], b[at + 2], b[at + 3];
    b0 + 256 * b1 + 65536 * b2 + 16777216 * b3
  }

  function ReadBe32(b: Bytes, at: nat): nat
    requires at + 4 <= |b|
  {
    var b0: nat, b1: nat, b2: nat, b3: nat := b[at + 3], b[at + 2], b[at + 1], b[at];
    b0 + 256 * b1 + 65536 * b2 + 16777216 * b3
  }

  function ReadLe16(b: Bytes, at: nat): nat
    requires at + 2 <= |b|
  {
    var b0: nat, b1: nat := b[at], b[at + 1];
    b0 + 256 * b1
  }

  function ReadBe16(b: Bytes, at: nat): nat
    requires at + 2 <= |b|
  {
    var b0: nat, b1: nat := b[at + 1], b[at];
    b0 + 256 * b1
  }

  /** A number recorded in both byte orders is readable only if the two agree. */
  function ReadBoth32(b: Bytes, at: nat): Option<nat>
    requires at + 8 <= |b|
  {
    if ReadLe32(b, at) == ReadBe32(b, at + 4) then Some(ReadLe32(b, at)) else None
  }

  function ReadBoth16(b: Bytes, at: nat): Option<nat>
    requires at + 4 <= |b|
  {
    if ReadLe16(b, at) == ReadBe16(b, at + 2) then Some(ReadLe16(b, at)) else None
  }

  /** `p` stands in `b` at `at`. */
  predicate At(b: Bytes, at: nat, p: Bytes) {
    at + |p| <= |b| && forall i :: 0 <= i < |p| ==> b[at + i] == p[i]
  }

  /** The same bytes from `from` up to `to`. */
  predicate SameOn(b: Bytes, c: Bytes, from: nat, to: nat) {
    to <= |b| && to <= |c| && forall i :: from <= i < to ==> b[i] == c[i]
  }

  lemma SameOnJoins(b: Bytes, c: Bytes, from: nat, mid: nat, to: nat)
    requires SameOn(b, c, from, mid) && SameOn(b, c, mid, to)
    ensures SameOn(b, c, from, to)
  {
  }

  lemma AtDetermines(b: Bytes, c: Bytes, at: nat, p: Bytes)
    requires At(b, at, p) && At(c, at, p)
    ensures SameOn(b, c, at, at + |p|)
  {
    forall i | at <= i < at + |p| ensures b[i] == c[i] {
      assert b[at + (i - at)] == p[i - at] && c[at + (i - at)] == p[i - at];
    }
  }

  /** What stands in a range that stays the same is kept. */
  lemma AtKept(b: Bytes, c: Bytes, from: nat, to: nat, at: nat, p: Bytes)
    requires SameOn(b, c, from, to) && from <= at && at + |p| <= to && At(b, at, p)
    ensures At(c, at, p)
  {
  }

  lemma Digits32(v: nat)
    requires v < U32
    ensures v == v % 256 + 256 * (v / 256 % 256) + 65536 * (v / 65536 % 256) + 16777216 * (v / 16777216)
  {
    assert v / 65536 == v / 256 / 256 && v / 16777216 == v / 65536 / 256;
  }

  lemma ReadsBoth32(b: Bytes, at: nat, v: nat)
    requires v < U32 && At(b, at, Both32(v))
    ensures ReadBoth32(b, at) == Some(v)
  {
    Digits32(v);
    var p := Both32(v);
    assert p == [v % 256, v / 256 % 256, v / 65536 % 256, v / 16777216,
                 v / 16777216, v / 65536 % 256, v / 256 % 256, v % 256];
    assert b[at] == p[0] && b[at + 1] == p[1] && b[at + 2] == p[2] && b[at + 3] == p[3];
    assert b[at + 4] == p[4] && b[at + 5] == p[5] && b[at + 6] == p[6] && b[at + 7] == p[7];
  }

  lemma ReadsLe32(b: Bytes, at: nat, v: nat)
    requires v < U32 && At(b, at, Le32(v))
    ensures ReadLe32(b, at) == v
  {
    Digits32(v);
    var p := Le32(v);
    assert b[at] == p[0] && b[at + 1] == p[1] && b[at + 2] == p[2] && b[at + 3] == p[3];
  }

  lemma ReadsBe32(b: Bytes, at: nat, v: nat)
    requires v < U32 && At(b, at, Be32(v))
    ensures ReadBe32(b, at) == v
  {
    Digits32(v);
    var p := Be32(v);
    assert b[at] == p[0] && b[at + 1] == p[1] && b[at + 2] == p[2] && b[at + 3] == p[3];
  }

  lemma ReadsBoth16(b: Bytes, at: nat, v: nat)
    requires v < U16 && At(b, at, Both16(v))
    ensures ReadBoth16(b, at) == Some(v)
  {
    var p := Both16(v);
    assert p == [v % 256, v / 256, v / 256, v % 256];
    assert b[at] == p[0] && b[at + 1] == p[1] && b[at + 2] == p[2] && b[at + 3] == p[3];
  }

  // ---------------------------------------------------------------- directory records

  datatype Entry = Entry(id: Bytes, extent: nat, length: nat, directory: bool)

  /** 1 January 2026, midnight, in the seven bytes of 9.1.5. */
  const DIRECTORY_DATE: Bytes := [126, 1, 1, 0, 0, 0, 0]

  /** Whether the length of the record, padding included, fits its own length byte. */
  predicate Recordable(e: Entry) { |e.id| <= 221 && e.extent < U32 && e.length < U32 }

  function RecordHead(e: Entry): (r: Bytes)
    requires Recordable(e)
    ensures |r| == 33
  {
    [33 + |e.id| + RecordPadding(e), 0] + Both32(e.extent) + Both32(e.length) + DIRECTORY_DATE
    + [if e.directory then 2 else 0, 0, 0] + Both16(1) + [|e.id|]
  }

  function RecordPadding(e: Entry): nat { if (33 + |e.id|) % 2 == 1 then 1 else 0 }

  /** The layout of a record as the standard tabulates it. */
  function RecordBytes(e: Entry): (r: Bytes)
    requires Recordable(e)
    ensures |r| == 33 + |e.id| + RecordPadding(e) && r[0] == |r| && |r| % 2 == 0
  {
    RecordHead(e) + e.id + Zeros(RecordPadding(e))
  }

  /** The record that starts at `at`, or nothing if it is malformed. */
  function ReadRecord(b: Bytes, at: nat): Option<Entry>
    requires at < |b|
  {
    var size, idSize: int := b[at], if at + 32 < |b| then b[at + 32] else 0;
    if size < 34 || size % 2 != 0 || at + size > |b| || idSize + 33 > size then None
    else
      var extent, length := ReadBoth32(b, at + 2), ReadBoth32(b, at + 10);
      if extent.None? || length.None? then None
      else Some(Entry(b[at + 33..at + 33 + idSize], extent.value, length.value, b[at + 25] == 2))
  }

  /** All records up to the first zero length byte or malformed record. */
  function ReadRecords(b: Bytes, at: nat): seq<Entry>
    decreases |b| - at
  {
    if at >= |b| || ReadRecord(b, at).None? then []
    else [ReadRecord(b, at).value] + ReadRecords(b, at + b[at])
  }

  lemma SubAt(b: Bytes, at: nat, p: Bytes, from: nat, q: Bytes)
    requires At(b, at, p) && At(p, from, q)
    ensures At(b, at + from, q)
  {
    forall i | 0 <= i < |q| ensures b[at + from + i] == q[i] {
      assert p[from + i] == q[i] && b[at + (from + i)] == p[from + i];
    }
  }

  lemma RecordFields(e: Entry)
    requires Recordable(e)
    ensures var r := RecordBytes(e);
            At(r, 2, Both32(e.extent)) && At(r, 10, Both32(e.length)) && At(r, 18, DIRECTORY_DATE)
            && r[25] == (if e.directory then 2 else 0) && At(r, 28, Both16(1)) && r[32] == |e.id| && At(r, 33, e.id)
  {
  }

  /** Reading a written record gives back the entry, wherever the record lies. */
  lemma RecordRoundTrip(e: Entry, b: Bytes, at: nat)
    requires Recordable(e) && At(b, at, RecordBytes(e))
    ensures at < |b| && ReadRecord(b, at) == Some(e) && b[at] as int == |RecordBytes(e)|
  {
    var r := RecordBytes(e);
    RecordFields(e);
    SubAt(b, at, r, 2, Both32(e.extent));
    SubAt(b, at, r, 10, Both32(e.length));
    SubAt(b, at, r, 33, e.id);
    ReadsBoth32(b, at + 2, e.extent);
    ReadsBoth32(b, at + 10, e.length);
    assert b[at + 0] == r[0] && b[at + 25] == r[25] && b[at + 32] == r[32];
    assert b[at + 33..at + 33 + |e.id|] == e.id;
  }

  // ---------------------------------------------------------------- directories

  predicate AllRecordable(es: seq<Entry>) { forall i :: 0 <= i < |es| ==> Recordable(es[i]) }

  function DirectoryBytes(es: seq<Entry>): Bytes
    requires AllRecordable(es)
  {
    if es == [] then [] else RecordBytes(es[0]) + DirectoryBytes(es[1..])
  }

  lemma ConcatAt(b: Bytes, at: nat, p: Bytes, q: Bytes)
    requires At(b, at, p + q)
    ensures At(b, at, p) && At(b, at + |p|, q)
  {
    SubAt(b, at, p + q, 0, p);
    SubAt(b, at, p + q, |p|, q);
  }

  lemma ReadNext(b: Bytes, at: nat, e: Entry, n: nat, rest: seq<Entry>)
    requires at < |b| && ReadRecord(b, at) == Some(e) && b[at] as int == n && ReadRecords(b, at + n) == rest
    ensures ReadRecords(b, at) == [e] + rest
  {
  }

  /** A directory lies at `at`, and a zero byte behind it. */
  ghost predicate DirectoryAt(b: Bytes, at: nat, es: seq<Entry>)
    requires AllRecordable(es)
  {
    At(b, at, DirectoryBytes(es)) && (at + |DirectoryBytes(es)| < |b| ==> b[at + |DirectoryBytes(es)|] == 0)
  }

  lemma FirstRecord(es: seq<Entry>, b: Bytes, at: nat) returns (next: nat)
    requires AllRecordable(es) && es != [] && DirectoryAt(b, at, es)
    ensures at < |b| && ReadRecord(b, at) == Some(es[0]) && at + b[at] as int == next
    ensures AllRecordable(es[1..]) && DirectoryAt(b, next, es[1..])
  {
    var r, rest := RecordBytes(es[0]), DirectoryBytes(es[1..]);
    ConcatAt(b, at, r, rest);
    RecordRoundTrip(es[0], b, at);
    next := at + |r|;
  }

  /** A reader finds exactly the records of a directory that is followed by a zero byte. */
  lemma {:induction false} DirectoryRoundTrip(es: seq<Entry>, b: Bytes, at: nat)
    requires AllRecordable(es) && DirectoryAt(b, at, es)
    ensures ReadRecords(b, at) == es
    decreases |es|
  {
    if es != [] {
      var next := FirstRecord(es, b, at);
      DirectoryRoundTrip(es[1..], b, next);
      ReadNext(b, at, es[0], next - at, es[1..]);
      assert es == [es[0]] + es[1..];
    }
  }

  /** The leading records that fit in `room` bytes. */
  function Whole(es: seq<Entry>, room: nat): seq<Entry>
    requires AllRecordable(es)
  {
    if es == [] || |RecordBytes(es[0])| > room then [] else [es[0]] + Whole(es[1..], room - |RecordBytes(es[0])|)
  }

  /** From `at` on there is nothing but the beginning of a directory. */
  ghost predicate CutAt(b: Bytes, at: nat, es: seq<Entry>)
    requires AllRecordable(es)
  {
    at <= |b| <= at + |DirectoryBytes(es)| && forall i :: 0 <= i < |b| - at ==> b[at + i] == DirectoryBytes(es)[i]
  }

  lemma FirstIsCut(es: seq<Entry>, b: Bytes, at: nat)
    requires AllRecordable(es) && es != [] && CutAt(b, at, es) && at < |b| < at + |RecordBytes(es[0])|
    ensures ReadRecords(b, at) == []
  {
    assert b[at + 0] == DirectoryBytes(es)[0] == RecordBytes(es[0])[0];
  }

  lemma FirstIsWhole(es: seq<Entry>, b: Bytes, at: nat)
    requires AllRecordable(es) && es != [] && CutAt(b, at, es) && at + |RecordBytes(es[0])| <= |b|
    ensures At(b, at, RecordBytes(es[0])) && AllRecordable(es[1..]) && CutAt(b, at + |RecordBytes(es[0])|, es[1..])
  {
    var r := RecordBytes(es[0]);
    forall i | 0 <= i < |r| ensures b[at + i] == r[i] {
      assert b[at + i] == DirectoryBytes(es)[i];
    }
    forall i | 0 <= i < |b| - at - |r| ensures b[at + |r| + i] == DirectoryBytes(es[1..])[i] {
      assert b[at + (|r| + i)] == DirectoryBytes(es)[|r| + i];
    }
  }

  lemma {:induction false} CutNext(es: seq<Entry>, b: Bytes, at: nat)
    requires AllRecordable(es) && es != [] && at + |RecordBytes(es[0])| <= |b| && At(b, at, RecordBytes(es[0]))
    requires ReadRecords(b, at + |RecordBytes(es[0])|) == Whole(es[1..], |b| - at - |RecordBytes(es[0])|)
    ensures ReadRecords(b, at) == Whole(es, |b| - at)
  {
    RecordRoundTrip(es[0], b, at);
    ReadNext(b, at, es[0], |RecordBytes(es[0])|, Whole(es[1..], |b| - at - |RecordBytes(es[0])|));
  }

  /** A reader of a directory that is cut off finds exactly the leading records that are there in full. */
  lemma {:induction false} CutRoundTrip(es: seq<Entry>, b: Bytes, at: nat)
    requires AllRecordable(es) && CutAt(b, at, es)
    ensures ReadRecords(b, at) == Whole(es, |b| - at)
    decreases |es|
  {
    if es != [] && at < |b| {
      var r := RecordBytes(es[0]);
      if at + |r| > |b| {
        FirstIsCut(es, b, at);
      } else {
        FirstIsWhole(es, b, at);
        CutRoundTrip(es[1..], b, at + |r|);
        CutNext(es, b, at);
      }
    }
  }

  /** What a reader finds in a directory was there in full: the records take no more room than the
      directory has. */
  lemma {:induction false} FoundRecordsFit(b: Bytes, at: nat)
    requires at <= |b|
    ensures AllRecordable(ReadRecords(b, at)) ==> |DirectoryBytes(ReadRecords(b, at))| <= |b| - at
    decreases |b| - at
  {
    if at < |b| && ReadRecord(b, at).Some? {
      var e, rest := ReadRecord(b, at).value, ReadRecords(b, at + b[at]);
      FoundRecordsFit(b, at + b[at]);
      if AllRecordable([e] + rest) {
        DirectoryOf(e, rest);
        FoundRecordFits(b, at);
      }
    }
  }

  lemma DirectoryOf(e: Entry, es: seq<Entry>)
    requires AllRecordable([e] + es)
    ensures Recordable(e) && AllRecordable(es) && DirectoryBytes([e] + es) == RecordBytes(e) + DirectoryBytes(es)
  {
    var all := [e] + es;
    assert all[0] == e && all[1..] == es;
    assert forall i :: 0 <= i < |es| ==> es[i] == all[i + 1];
  }

  lemma FoundRecordFits(b: Bytes, at: nat)
    requires at < |b| && ReadRecord(b, at).Some? && Recordable(ReadRecord(b, at).value)
    ensures |RecordBytes(ReadRecord(b, at).value)| <= b[at] as int
  {
  }
}
