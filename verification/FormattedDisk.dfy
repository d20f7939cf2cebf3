/** What is on a disk the media utility has formatted, in numbers: the loader's code, the fields
    of the boot sector, and what boot/boot.s then finds. */
module FormattedDisk {
  import opened Words
  import opened Drive
  import opened Header
  import opened Format
  import opened Directory
  import opened FindFileBoot
  import BootLoader
  import Cpu
  import LoadFile
  import Machine

  /** Byte `k` of the loader's file, 0 behind its end. */
  function FileByte(code: seq<byte>, k: nat): byte { if k < |code| then code[k] else 0 }

  /** The first 1024 bytes of the loader's file are in the first two sectors, but for the places of
      the signature, the partition entry, the header and the boot signatures. */
  lemma LoaderIsOnDisk(before: Disk, disk: Disk, code: seq<byte>, h: Header)
    requires h.sectorsPerCluster > 0 && Formatted(before, disk, code, h)
    ensures forall k :: 0 <= k < 0x1B6 || 0x1BD <= k < 0x1BF || 0x1CE <= k < 0x1FE ==> disk(0)[k] == FileByte(code, k)
    ensures forall k :: 0x64 <= k < 0x1FE ==> disk(1)[k] == FileByte(code, 512 + k)
  {
    forall k | 0x64 <= k < 0x1FE
      ensures disk(1)[k] == FileByte(code, 512 + k)
    {
      assert disk(1)[k] == CodeSector(code, 1)[k];
    }
  }

  /** The fields of the boot sector (section 3 of the Microsoft FAT specification): 512 bytes to a
      sector, 4 sectors to a cluster, 12 reserved sectors, two FATs, root at cluster 2, and so on. */
  ghost predicate IsFat32BootSector(s: Sector) {
    && LittleWord(s, 0x0B) == 512 && s[0x0D] == 4 && LittleWord(s, 0x0E) == 12 && s[0x10] == 2
    && LittleWord(s, 0x11) == 0 && LittleWord(s, 0x13) == 0 && s[0x15] == 0xF8 && LittleWord(s, 0x16) == 0
    && LittleDword(s, 0x1C) == 1 && LittleDword(s, 0x20) == 8388608 && LittleDword(s, 0x24) == 16385
    && LittleWord(s, 0x28) == 0 && LittleWord(s, 0x2A) == 0 && LittleDword(s, 0x2C) == 2
    && LittleWord(s, 0x30) == 1 && LittleWord(s, 0x32) == 6
    && LittleWord(s, 0x34) == 0 && LittleWord(s, 0x38) == 0 && LittleWord(s, 0x3C) == 0
    && s[0x40] == 0x80 && s[0x41] == 0 && s[0x42] == 0x29 && s[0x03..0x0B] == [32, 0, 0, 0, 0, 0, 0, 0]
  }

  /** "Sore-OS" and "FAT32", padded, and the four fields behind them that the loader uses: the
      first FAT's sector, the first cluster's, the scale and the mask. */
  ghost predicate HasNamesAndPlaces(s: Sector) {
    && s[0x47..0x52] == [83, 111, 114, 101, 45, 79, 83, 32, 32, 32, 32]
    && s[0x52..0x5A] == [70, 65, 84, 51, 50, 32, 32, 32]
    && LittleDword(s, 0x5A) == 13 && LittleDword(s, 0x5E) == 32783 && s[0x62] == 2 && s[0x63] == 3
  }

  lemma BuiltFields(geometry: DriveGeometry, volumeId: dword)
    ensures var h := BuiltHeader(geometry, volumeId);
            && h.bigSectorsPerFat == 16385 && h.fatLocation == 13 && h.clusterLocation == 32783
            && h.volumeLabel == [83, 111, 114, 101, 45, 79, 83, 32, 32, 32, 32]
  {
    assert VolumeLabel(SIGNATURE) == [83, 111, 114, 101, 45, 79, 83, 32, 32, 32, 32];
  }

  lemma BootSectorIsFat32(before: Disk, disk: Disk, code: seq<byte>, geometry: DriveGeometry, volumeId: dword)
    requires Formatted(before, disk, code, BuiltHeader(geometry, volumeId))
    ensures IsFat32BootSector(disk(1)) && HasNamesAndPlaces(disk(1))
    ensures LittleWord(disk(1), 0x18) == geometry.sectorsPerTrack && LittleWord(disk(1), 0x1A) == geometry.heads
    ensures LittleDword(disk(1), 0x43) == volumeId
    ensures disk(0)[0x1B6..0x1BD] == [83, 111, 114, 101, 45, 79, 83]
  {
    BuiltFields(geometry, volumeId);
    assert Decode(disk(1)) == BuiltHeader(geometry, volumeId);
    assert disk(0)[0x1B6..0x1BD] == SIGNATURE;
  }

  lemma EndOfBuilt(h: Header)
    requires h.bigTotalSectors == 8388608
    ensures EndSector(h) == 8388610 && AsByte(Quotient(EndSector(h), 16065)) == 10
    ensures AsByte(Remainder(Quotient(EndSector(h), 63), 255)) == 42 && AsByte(Remainder(EndSector(h), 63)) == 34
  {
    assert Quotient(8388610, 16065) == 522 && Quotient(8388610, 63) == 133152;
  }

  lemma EntryBytes(s: Sector, h: Header)
    requires HasPartition(s, h)
    ensures s[0x1C3] == AsByte(Quotient(EndSector(h), 16065)) && s[0x1C5] == AsByte(Remainder(EndSector(h), 63))
    ensures s[0x1C4] == AsByte(Remainder(Quotient(EndSector(h), 63), 255))
  {
  }

  /** The partition entry: not active, from the sector behind the first one, type 0x0C, the end in
      cylinders, heads and sectors as the code works it out, sectors 1 and 8388608. */
  lemma PartitionEntry(before: Disk, disk: Disk, code: seq<byte>, geometry: DriveGeometry, volumeId: dword)
    requires Formatted(before, disk, code, BuiltHeader(geometry, volumeId))
    ensures disk(0)[0x1BF..0x1C6] == [0, 0, 2, 0x0C, 10, 42, 34]
    ensures LittleDword(disk(0), 0x1C6) == 1 && LittleDword(disk(0), 0x1CA) == 8388608
    ensures disk(0)[0x1FE] == 0x55 && disk(0)[0x1FF] == 0xAA
  {
    var h, s := BuiltHeader(geometry, volumeId), disk(0);
    EndOfBuilt(h);
    EntryBytes(s, h);
    assert s[0x1BF..0x1C6] == [s[0x1BF], s[0x1C0], s[0x1C1], s[0x1C2], s[0x1C3], s[0x1C4], s[0x1C5]];
  }

  lemma FreeOfBuilt(h: Header)
    requires h.bigTotalSectors == 8388608 && h.sectorsPerCluster == 4
    ensures FreeClusters(h) == 2097151
  {
  }

  /** The free clusters, all but the root's, and where to look for the first. */
  lemma InformationSector(before: Disk, disk: Disk, code: seq<byte>, geometry: DriveGeometry, volumeId: dword)
    requires Formatted(before, disk, code, BuiltHeader(geometry, volumeId))
    ensures LittleDword(disk(2), 0x1E8) == 2097151 && LittleDword(disk(2), 0x1EC) == 2
    ensures LittleDword(disk(2), 0) == 0x4161_5252 && LittleDword(disk(2), 0x1E4) == 0x6141_7272
  {
    var h := BuiltHeader(geometry, volumeId);
    assert IsFsInfo(disk(2), h);
    FreeOfBuilt(h);
  }

  /** Both FATs begin with the two reserved entries and the end mark of the root, whose four
      sectors are empty; sectors 1 to 3 have a copy at 7 to 9. */
  lemma TablesAndBackup(before: Disk, disk: Disk, code: seq<byte>, geometry: DriveGeometry, volumeId: dword)
    requires Formatted(before, disk, code, BuiltHeader(geometry, volumeId))
    ensures disk(13) == disk(16398) && LittleDword(disk(13), 0) == 0x0FFF_FFF8
    ensures LittleDword(disk(13), 4) == 0xFFFF_FFFF && LittleDword(disk(13), 8) == 0x0FFF_FFFF
    ensures forall k :: 12 <= k < 512 ==> disk(13)[k] == 0
    ensures forall n: nat, k :: 32783 <= n < 32787 && 0 <= k < 512 ==> disk(n)[k] == 0
    ensures disk(7) == disk(1) && disk(8) == disk(2) && disk(9) == disk(3)
  {
    BuiltFields(geometry, volumeId);
  }

  // ------------------------------------------------------------------ what the loader finds

  lemma ParametersAreConsistent(before: Disk, disk: Disk, code: seq<byte>, geometry: DriveGeometry, volumeId: dword)
    requires Formatted(before, disk, code, BuiltHeader(geometry, volumeId))
    ensures var g := Machine.GeometryOf(disk(1));
            g == Machine.Geometry(13, 32783, 4, 2, 3) && Machine.Consistent(g)
  {
    BootSectorIsFat32(before, disk, code, geometry, volumeId);
    Cpu.Pow2Values(2);
  }

  lemma RootOnDisk(disk: Disk, g: Machine.Geometry)
    requires g == Machine.Geometry(13, 32783, 4, 2, 3) && disk(13) == FirstFatSector()
    requires forall n: nat :: 32783 <= n < 32787 ==> disk(n) == ZeroSector()
    ensures BootLoader.Loadable(disk, g, [2])
    ensures forall k :: 0 <= k < 2048 ==> LoadFile.Contents(disk, g, [2])[k] == 0
  {
    assert LoadFile.FatEntry(disk, 13, 2) == 0x0FFF_FFFF;
    ZeroSectors(disk, 32783, 4);
    assert LoadFile.Contents(disk, g, [2]) == Sectors(disk, 32783, 4) + LoadFile.Contents(disk, g, []);
  }

  /** On a formatted disk kernel_loader's requirements are met, and it finds no kernel. */
  lemma LoaderOnFormattedDisk(before: Disk, disk: Disk, code: seq<byte>, geometry: DriveGeometry, volumeId: dword,
                              key: seq<byte>)
    requires Formatted(before, disk, code, BuiltHeader(geometry, volumeId))
    ensures var g := Machine.GeometryOf(disk(1));
            && Machine.Consistent(g) && BootLoader.Loadable(disk, g, [2])
            && var recs := BootLoader.RootRecords(disk, g, [2]); Ends(recs, key) && RawFind(recs, key) == Missing
  {
    BuiltFields(geometry, volumeId);
    ParametersAreConsistent(before, disk, code, geometry, volumeId);
    var g := Machine.GeometryOf(disk(1));
    RootOnDisk(disk, g);
    var recs := BootLoader.RootRecords(disk, g, [2]);
    assert |recs| == 64 && recs[0][0] == LoadFile.Contents(disk, g, [2])[0];
  }
}
