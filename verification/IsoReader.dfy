/** A reader of ISO 9660 volumes: from a volume descriptor to its root directory and to the files. */
module IsoReader {
  import opened Options
  import opened IsoFormat

  datatype Volume = Volume(joliet: bool, volumeId: Bytes, sectors: nat, root: Entry)

  const CD001: Bytes := [67, 68, 48, 48, 49]

  predicate HasSector(image: Bytes, sector: nat) { (sector + 1) * SECTOR <= |image| }

  /** The root extent a path table records (section 9.4), or nothing if its one record is malformed. */
  function ReadPathTable(image: Bytes, sector: nat, bigEndian: bool): Option<nat>
    requires HasSector(image, sector)
  {
    var at := sector * SECTOR;
    var parent := if bigEndian then ReadBe16(image, at + 6) else ReadLe16(image, at + 6);
    if image[at] != 1 || image[at + 1] != 0 || image[at + 8] != 0 || image[at + 9] != 0 || parent != 1 then None
    else Some(if bigEndian then ReadBe32(image, at + 2) else ReadLe32(image, at + 2))
  }

  /** Both path tables of a descriptor, of ten bytes each, name the root extent. */
  predicate PathTablesAgree(image: Bytes, at: nat, root: nat)
    requires at + SECTOR <= |image|
  {
    var l, m := ReadLe32(image, at + 140), ReadBe32(image, at + 148);
    && ReadBoth32(image, at + 132) == Some(10) && HasSector(image, l) && HasSector(image, m)
    && ReadPathTable(image, l, false) == Some(root) && ReadPathTable(image, m, true) == Some(root)
  }

  function ReadVolume(image: Bytes, sector: nat): Option<Volume> {
    if !HasSector(image, sector) then None
    else
      var at := sector * SECTOR;
      var sectors, blocks, root := ReadBoth32(image, at + 80), ReadBoth16(image, at + 128), ReadRecord(image, at + 156);
      if image[at] !in {1, 2} || image[at + 1..at + 6] != CD001 || image[at + 6] != 1 then None
      else if sectors.None? || blocks != Some(SECTOR) || root.None? || !root.value.directory then None
      else if !PathTablesAgree(image, at, root.value.extent) then None
      else Some(Volume(image[at] == 2, image[at + 40..at + 72], sectors.value, root.value))
  }

  function ReadExtent(image: Bytes, extent: nat, length: nat): Option<Bytes> {
    if extent * SECTOR + length <= |image| then Some(image[extent * SECTOR..extent * SECTOR + length]) else None
  }

  /** The records of the root directory; the first two stand for the directory itself and its parent. */
  function ReadRoot(image: Bytes, descriptor: nat): Option<seq<Entry>> {
    var volume := ReadVolume(image, descriptor);
    if volume.None? then None
    else
      var root := volume.value.root;
      var bytes := ReadExtent(image, root.extent, root.length);
      if bytes.None? then None
      else
        var entries := ReadRecords(bytes.value, 0);
        if |entries| < 2 || entries[0] != root || entries[1] != root.(id := [1]) then None else Some(entries[2..])
  }

  /** The first entry of that identifier. */
  function Find(entries: seq<Entry>, id: Bytes): (r: Option<Entry>)
    ensures r.Some? ==> r.value in entries && r.value.id == id
    ensures r.None? ==> forall i :: 0 <= i < |entries| ==> entries[i].id != id
  {
    if entries == [] then None else if entries[0].id == id then Some(entries[0]) else Find(entries[1..], id)
  }

  /** The contents of a file, found through the volume descriptor in sector `descriptor`; the entry of a
      directory is not one of a file. */
  function ReadFile(image: Bytes, descriptor: nat, id: Bytes): Option<Bytes> {
    var entries := ReadRoot(image, descriptor);
    if entries.None? then None
    else
      var entry := Find(entries.value, id);
      if entry.None? || entry.value.directory then None
      else ReadExtent(image, entry.value.extent, entry.value.length)
  }
}
