/** The FAT32 boot sector: the writer of the media utility
    (_media_utility/src/FAT32.cpp) and the reader of the kernel (drivers/FAT32.c). */
module Header {
  import opened Words
  import opened Drive

  type Name8 = s: seq<byte> | |s| == 8 witness seq(8, _ => 32)
  type Name11 = s: seq<byte> | |s| == 11 witness seq(11, _ => 32)

  datatype Header = Header(
    oemName: Name8,
    bytesPerSector: word, sectorsPerCluster: byte, reservedSectors: word, numberOfFats: byte,
    rootEntries: word, totalSectors: word, mediaDescriptor: byte, sectorsPerFat: word,
    sectorsPerTrack: word, heads: word,
    hiddenSectors: dword, bigTotalSectors: dword, bigSectorsPerFat: dword,
    extFlags: word, fsVersion: word, rootDirStartCluster: dword, fsInfoSector: word, backupBootSector: word,
    reserved1: word, reserved2: word, reserved3: word,
    driveNumber: byte, reserved4: byte, signature: byte, volumeId: dword,
    volumeLabel: Name11, fatName: Name8,
    fatLocation: dword, clusterLocation: dword, scale: byte, mask: byte)

  /** readHeader: every field from its offset. */
  function Decode(s: Sector): Header {
    Header(s[0x03..0x0B],
           LittleWord(s, 0x0B), s[0x0D], LittleWord(s, 0x0E), s[0x10],
           LittleWord(s, 0x11), LittleWord(s, 0x13), s[0x15], LittleWord(s, 0x16),
           LittleWord(s, 0x18), LittleWord(s, 0x1A),
           LittleDword(s, 0x1C), LittleDword(s, 0x20), LittleDword(s, 0x24),
           LittleWord(s, 0x28), LittleWord(s, 0x2A), LittleDword(s, 0x2C), LittleWord(s, 0x30), LittleWord(s, 0x32),
           LittleWord(s, 0x34), LittleWord(s, 0x38), LittleWord(s, 0x3C),
           s[0x40], s[0x41], s[0x42], LittleDword(s, 0x43),
           s[0x47..0x52], s[0x52..0x5A],
           LittleDword(s, 0x5A), LittleDword(s, 0x5E), s[0x62], s[0x63])
  }

  /** `bytes` stand in `s` from `off` on. */
  ghost predicate Holds(s: seq<byte>, off: nat, bytes: seq<byte>) {
    && off + |bytes| <= |s|
    && forall k {:trigger bytes[k]} :: 0 <= k < |bytes| ==> s[off + k] == bytes[k]
  }

  // The fields by region, with the same offsets: what each part of the writer leaves.

  ghost predicate HasBpb(s: Sector, h: Header) {
    && s[0x00] == 0xEB && s[0x01] == 0x64 && s[0x02] == 0x90 && Holds(s, 0x03, h.oemName)
    && LittleWord(s, 0x0B) == h.bytesPerSector && s[0x0D] == h.sectorsPerCluster
    && LittleWord(s, 0x0E) == h.reservedSectors && s[0x10] == h.numberOfFats
    && LittleWord(s, 0x11) == h.rootEntries && LittleWord(s, 0x13) == h.totalSectors
    && s[0x15] == h.mediaDescriptor && LittleWord(s, 0x16) == h.sectorsPerFat
  }

  ghost predicate HasSizes(s: Sector, h: Header) {
    && LittleWord(s, 0x18) == h.sectorsPerTrack && LittleWord(s, 0x1A) == h.heads
    && LittleDword(s, 0x1C) == h.hiddenSectors && LittleDword(s, 0x20) == h.bigTotalSectors
    && LittleDword(s, 0x24) == h.bigSectorsPerFat && LittleWord(s, 0x28) == h.extFlags
    && LittleWord(s, 0x2A) == h.fsVersion && LittleDword(s, 0x2C) == h.rootDirStartCluster
  }

  ghost predicate HasExtras(s: Sector, h: Header) {
    && LittleWord(s, 0x30) == h.fsInfoSector && LittleWord(s, 0x32) == h.backupBootSector
    && LittleWord(s, 0x34) == h.reserved1 && LittleWord(s, 0x38) == h.reserved2 && LittleWord(s, 0x3C) == h.reserved3
    && s[0x40] == h.driveNumber && s[0x41] == h.reserved4 && s[0x42] == h.signature
    && LittleDword(s, 0x43) == h.volumeId
  }

  ghost predicate HasNames(s: Sector, h: Header) {
    Holds(s, 0x47, h.volumeLabel) && Holds(s, 0x52, h.fatName)
  }

  ghost predicate HasPlaces(s: Sector, h: Header) {
    && LittleDword(s, 0x5A) == h.fatLocation && LittleDword(s, 0x5E) == h.clusterLocation
    && s[0x62] == h.scale && s[0x63] == h.mask && s[0x1FE] == 0x55 && s[0x1FF] == 0xAA
  }

  /** The 512 bytes of `data` from `at` on. */
  function SectorIn(data: seq<byte>, at: nat): (s: Sector)
    requires at + SECTOR <= |data|
  {
    data[at..at + SECTOR]
  }

  /** Nothing outside `[from, to)` has changed. */
  ghost predicate OnlyWithin(before: seq<byte>, after: seq<byte>, from: nat, to: nat) {
    && |before| == |after|
    && forall k {:trigger after[k]} :: 0 <= k < |after| && !(from <= k < to) ==> after[k] == before[k]
  }

  method StoreWord(data: array<byte>, at: nat, w: word)
    requires at + 2 <= data.Length
    modifies data
    ensures LittleWord(data[..], at) == w && OnlyWithin(old(data[..]), data[..], at, at + 2)
  {
    data[at] := w % 0x100;
    data[at + 1] := w / 0x100;
  }

  method StoreDword(data: array<byte>, at: nat, d: dword)
    requires at + 4 <= data.Length
    modifies data
    ensures LittleDword(data[..], at) == d && OnlyWithin(old(data[..]), data[..], at, at + 4)
  {
    data[at] := d % 0x100;
    data[at + 1] := d / 0x100 % 0x100;
    data[at + 2] := d / 0x1_0000 % 0x100;
    data[at + 3] := d / 0x100_0000;
  }

  method StoreBytes(data: array<byte>, at: nat, bytes: seq<byte>)
    requires at + |bytes| <= data.Length
    modifies data
    ensures Holds(data[..], at, bytes) && OnlyWithin(old(data[..]), data[..], at, at + |bytes|)
  {
    ghost var before := data[..];
    for i := 0 to |bytes|
      invariant forall k {:trigger bytes[k]} :: 0 <= k < i ==> data[at + k] == bytes[k]
      invariant forall k :: 0 <= k < data.Length && !(at <= k < at + i) ==> data[k] == before[k]
    {
      data[at + i] := bytes[i];
    }
  }

  method WriteBpb(data: array<byte>, at: nat, h: Header)
    requires at + SECTOR <= data.Length
    modifies data
    ensures HasBpb(SectorIn(data[..], at), h) && OnlyWithin(old(data[..]), data[..], at, at + 0x18)
  {
    data[at + 0x00] := 0xEB;
    data[at + 0x01] := 0x64;
    data[at + 0x02] := 0x90;
    StoreBytes(data, at + 0x03, h.oemName);
    StoreWord(data, at + 0x0B, h.bytesPerSector);
    data[at + 0x0D] := h.sectorsPerCluster;
    StoreWord(data, at + 0x0E, h.reservedSectors);
    data[at + 0x10] := h.numberOfFats;
    StoreWord(data, at + 0x11, h.rootEntries);
    StoreWord(data, at + 0x13, h.totalSectors);
    data[at + 0x15] := h.mediaDescriptor;
    StoreWord(data, at + 0x16, h.sectorsPerFat);
  }

  method WriteSizes(data: array<byte>, at: nat, h: Header)
    requires at + SECTOR <= data.Length
    modifies data
    ensures HasSizes(SectorIn(data[..], at), h) && OnlyWithin(old(data[..]), data[..], at + 0x18, at + 0x30)
  {
    StoreWord(data, at + 0x18, h.sectorsPerTrack);
    StoreWord(data, at + 0x1A, h.heads);
    StoreDword(data, at + 0x1C, h.hiddenSectors);
    StoreDword(data, at + 0x20, h.bigTotalSectors);
    StoreDword(data, at + 0x24, h.bigSectorsPerFat);
    StoreWord(data, at + 0x28, h.extFlags);
    StoreWord(data, at + 0x2A, h.fsVersion);
    StoreDword(data, at + 0x2C, h.rootDirStartCluster);
  }

  method WriteExtras(data: array<byte>, at: nat, h: Header)
    requires at + SECTOR <= data.Length
    modifies data
    ensures HasExtras(SectorIn(data[..], at), h)
    ensures forall k :: 0 <= k < data.Length
                        && (!(at + 0x30 <= k < at + 0x47) || k - at in {0x36, 0x37, 0x3A, 0x3B, 0x3E, 0x3F})
              ==> data[k] == old(data[k])
  {
    StoreWord(data, at + 0x30, h.fsInfoSector);
    StoreWord(data, at + 0x32, h.backupBootSector);
    StoreWord(data, at + 0x34, h.reserved1);
    StoreWord(data, at + 0x38, h.reserved2);
    StoreWord(data, at + 0x3C, h.reserved3);
    data[at + 0x40] := h.driveNumber;
    data[at + 0x41] := h.reserved4;
    data[at + 0x42] := h.signature;
    StoreDword(data, at + 0x43, h.volumeId);
  }

  method WriteNames(data: array<byte>, at: nat, h: Header)
    requires at + SECTOR <= data.Length
    modifies data
    ensures HasNames(SectorIn(data[..], at), h) && OnlyWithin(old(data[..]), data[..], at + 0x47, at + 0x5A)
  {
    StoreBytes(data, at + 0x47, h.volumeLabel);
    StoreBytes(data, at + 0x52, h.fatName);
  }

  method WritePlaces(data: array<byte>, at: nat, h: Header)
    requires at + SECTOR <= data.Length
    modifies data
    ensures HasPlaces(SectorIn(data[..], at), h)
    ensures forall k :: 0 <= k < data.Length && !(at + 0x5A <= k < at + 0x64) && k != at + 0x1FE && k != at + 0x1FF
              ==> data[k] == old(data[k])
  {
    StoreDword(data, at + 0x5A, h.fatLocation);
    StoreDword(data, at + 0x5E, h.clusterLocation);
    data[at + 0x62] := h.scale;
    data[at + 0x63] := h.mask;
    data[at + 0x1FE] := 0x55;
    data[at + 0x1FF] := 0xAA;
  }

  /** Bytes of the sector the writer leaves alone: the boot code, and the gaps
      between the reserved words. */
  predicate Untouched(k: int) {
    0x64 <= k < 0x1FE || k in {0x36, 0x37, 0x3A, 0x3B, 0x3E, 0x3F}
  }

  /** What the writer leaves in a sector that held `before`. */
  ghost predicate IsWritten(before: Sector, after: Sector, h: Header) {
    && Decode(after) == h
    && after[0x00] == 0xEB && after[0x01] == 0x64 && after[0x02] == 0x90 && after[0x1FE] == 0x55 && after[0x1FF] == 0xAA
    && forall k :: 0 <= k < SECTOR && Untouched(k) ==> after[k] == before[k]
  }

  lemma RegionsMakeHeader(s: Sector, h: Header)
    requires HasBpb(s, h) && HasSizes(s, h) && HasExtras(s, h) && HasNames(s, h) && HasPlaces(s, h)
    ensures Decode(s) == h
  {
    assert s[0x03..0x0B] == h.oemName;
    assert s[0x47..0x52] == h.volumeLabel;
    assert s[0x52..0x5A] == h.fatName;
  }

  lemma RegionKept(before: Sector, after: Sector, h: Header, n: nat)
    requires n <= SECTOR && forall k :: 0 <= k < n ==> after[k] == before[k]
    ensures n >= 0x18 && HasBpb(before, h) ==> HasBpb(after, h)
    ensures n >= 0x30 && HasSizes(before, h) ==> HasSizes(after, h)
    ensures n >= 0x47 && HasExtras(before, h) ==> HasExtras(after, h)
    ensures n >= 0x5A && HasNames(before, h) ==> HasNames(after, h)
  {
  }

  /** The fields of the BIOS parameter block, 0x00 to 0x2F. */
  method WriteFront(data: array<byte>, at: nat, h: Header)
    requires at + SECTOR <= data.Length
    modifies data
    ensures HasBpb(SectorIn(data[..], at), h) && HasSizes(SectorIn(data[..], at), h)
    ensures OnlyWithin(old(data[..]), data[..], at, at + 0x30)
  {
    WriteBpb(data, at, h);
    ghost var s1 := SectorIn(data[..], at);
    WriteSizes(data, at, h);
    RegionKept(s1, SectorIn(data[..], at), h, 0x18);
  }

  /** writeBinary. */
  method WriteBinary(data: array<byte>, at: nat, h: Header)
    requires at + SECTOR <= data.Length
    modifies data
    ensures IsWritten(SectorIn(old(data[..]), at), SectorIn(data[..], at), h)
    ensures OnlyWithin(old(data[..]), data[..], at, at + SECTOR)
  {
    WriteFront(data, at, h);
    ghost var s2 := SectorIn(data[..], at);
    WriteExtras(data, at, h);
    ghost var s3 := SectorIn(data[..], at);
    RegionKept(s2, s3, h, 0x30);
    WriteNames(data, at, h);
    ghost var s4 := SectorIn(data[..], at);
    RegionKept(s3, s4, h, 0x47);
    WritePlaces(data, at, h);
    ghost var s5 := SectorIn(data[..], at);
    RegionKept(s4, s5, h, 0x5A);
    RegionsMakeHeader(s5, h);
  }

  /** struct FAT32_HEADER, filled in field by field. */
  class FatHeader {
    var fields: Header

    constructor (fields: Header)
      ensures this.fields == fields
    {
      this.fields := fields;
    }

    /** memcpy from the buffer. */
    method Bytes(buffer: array<byte>, at: nat, n: nat) returns (bytes: seq<byte>)
      requires at + n <= buffer.Length
      ensures bytes == buffer[at..at + n]
    {
      bytes := [];
      for i := 0 to n
        invariant bytes == buffer[at..at + i]
      {
        bytes := bytes + [buffer[at + i]];
      }
    }

    method ReadBpb(buffer: array<byte>)
      requires buffer.Length == SECTOR
      modifies this
      ensures var s := buffer[..];
              fields == old(fields).(
                oemName := s[0x03..0x0B], bytesPerSector := LittleWord(s, 0x0B), sectorsPerCluster := s[0x0D],
                reservedSectors := LittleWord(s, 0x0E), numberOfFats := s[0x10], rootEntries := LittleWord(s, 0x11),
                totalSectors := LittleWord(s, 0x13), mediaDescriptor := s[0x15], sectorsPerFat := LittleWord(s, 0x16))
    {
      var oem := Bytes(buffer, 0x03, 8);
      fields := fields.(oemName := oem);
      fields := fields.(bytesPerSector := LittleWord(buffer[..], 0x0B));
      fields := fields.(sectorsPerCluster := buffer[0x0D]);
      fields := fields.(reservedSectors := LittleWord(buffer[..], 0x0E));
      fields := fields.(numberOfFats := buffer[0x10]);
      fields := fields.(rootEntries := LittleWord(buffer[..], 0x11));
      fields := fields.(totalSectors := LittleWord(buffer[..], 0x13));
      fields := fields.(mediaDescriptor := buffer[0x15]);
      fields := fields.(sectorsPerFat := LittleWord(buffer[..], 0x16));
    }

    method ReadSizes(buffer: array<byte>)
      requires buffer.Length == SECTOR
      modifies this
      ensures var s := buffer[..];
              fields == old(fields).(
                sectorsPerTrack := LittleWord(s, 0x18), heads := LittleWord(s, 0x1A),
                hiddenSectors := LittleDword(s, 0x1C),
                bigTotalSectors := LittleDword(s, 0x20), bigSectorsPerFat := LittleDword(s, 0x24),
                extFlags := LittleWord(s, 0x28), fsVersion := LittleWord(s, 0x2A),
                rootDirStartCluster := LittleDword(s, 0x2C))
    {
      fields := fields.(sectorsPerTrack := LittleWord(buffer[..], 0x18));
      fields := fields.(heads := LittleWord(buffer[..], 0x1A));
      fields := fields.(hiddenSectors := LittleDword(buffer[..], 0x1C));
      fields := fields.(bigTotalSectors := LittleDword(buffer[..], 0x20));
      fields := fields.(bigSectorsPerFat := LittleDword(buffer[..], 0x24));
      fields := fields.(extFlags := LittleWord(buffer[..], 0x28));
      fields := fields.(fsVersion := LittleWord(buffer[..], 0x2A));
      fields := fields.(rootDirStartCluster := LittleDword(buffer[..], 0x2C));
    }

    method ReadExtras(buffer: array<byte>)
      requires buffer.Length == SECTOR
      modifies this
      ensures var s := buffer[..];
              fields == old(fields).(
                fsInfoSector := LittleWord(s, 0x30), backupBootSector := LittleWord(s, 0x32),
                reserved1 := LittleWord(s, 0x34),
                reserved2 := LittleWord(s, 0x38), reserved3 := LittleWord(s, 0x3C), driveNumber := s[0x40],
                reserved4 := s[0x41], signature := s[0x42], volumeId := LittleDword(s, 0x43))
    {
      fields := fields.(fsInfoSector := LittleWord(buffer[..], 0x30));
      fields := fields.(backupBootSector := LittleWord(buffer[..], 0x32));
      fields := fields.(reserved1 := LittleWord(buffer[..], 0x34));
      fields := fields.(reserved2 := LittleWord(buffer[..], 0x38));
      fields := fields.(reserved3 := LittleWord(buffer[..], 0x3C));
      fields := fields.(driveNumber := buffer[0x40]);
      fields := fields.(reserved4 := buffer[0x41]);
      fields := fields.(signature := buffer[0x42]);
      fields := fields.(volumeId := LittleDword(buffer[..], 0x43));
    }

    method ReadPlaces(buffer: array<byte>)
      requires buffer.Length == SECTOR
      modifies this
      ensures var s := buffer[..];
              fields == old(fields).(
                volumeLabel := s[0x47..0x52], fatName := s[0x52..0x5A], fatLocation := LittleDword(s, 0x5A),
                clusterLocation := LittleDword(s, 0x5E), scale := s[0x62], mask := s[0x63])
    {
      var volume := Bytes(buffer, 0x47, 11);
      fields := fields.(volumeLabel := volume);
      var fat := Bytes(buffer, 0x52, 8);
      fields := fields.(fatName := fat);
      fields := fields.(fatLocation := LittleDword(buffer[..], 0x5A));
      fields := fields.(clusterLocation := LittleDword(buffer[..], 0x5E));
      fields := fields.(scale := buffer[0x62]);
      fields := fields.(mask := buffer[0x63]);
    }

    /** readHeader. */
    method ReadHeader(buffer: array<byte>)
      requires buffer.Length == SECTOR
      modifies this
      ensures fields == Decode(buffer[..])
    {
      ReadBpb(buffer);
      ReadSizes(buffer);
      ReadExtras(buffer);
      ReadPlaces(buffer);
    }
  }
}
