/** The media utility (_media_utility/src/Format.cpp and FAT32.cpp): the thirteen
    sectors it assembles, the FATs and the root it clears, and what the kernel then mounts. */
module Format {
  import opened Words
  import opened Drive
  import opened Header
  import opened Layout

  datatype Option<T> = None | Some(value: T)

  /** What the drive says about itself. */
  datatype DriveGeometry = DriveGeometry(heads: word, sectorsPerTrack: word)

  const IMAGE := 6656
  const BOOT_CODE := 1024
  const SIGNATURE_AT := 0x1B6
  const BUILT_SECTORS := 8388608

  /** "Sore-OS" */
  const SIGNATURE: seq<byte> := [83, 111, 114, 101, 45, 79, 83]

  // ---------------------------------------------------------------------- the header

  /** A volume name is cut off after 11 bytes, or padded with spaces. */
  function VolumeLabel(name: seq<byte>): Name11 {
    seq(11, i requires i >= 0 => if i < |name| then name[i] else SPACE)
  }

  /** setVolumeName; `name` are the bytes before the terminator. */
  method SetVolumeName(hdr: FatHeader, name: seq<byte>)
    requires 0 !in name
    modifies hdr
    ensures hdr.fields == old(hdr.fields).(volumeLabel := VolumeLabel(name))
  {
    ghost var before := hdr.fields;
    var end := false;
    for idx := 0 to 11
      invariant end <==> idx > |name|
      invariant hdr.fields == before.(volumeLabel := hdr.fields.volumeLabel)
      invariant forall k :: 0 <= k < idx ==> hdr.fields.volumeLabel[k] == VolumeLabel(name)[k]
    {
      if !end && (name + [0])[idx] == 0 {
        end := true;
      }
      hdr.fields := hdr.fields.(volumeLabel := hdr.fields.volumeLabel[idx := if end then SPACE else name[idx]]);
    }
    assert hdr.fields.volumeLabel == VolumeLabel(name);
  }

  /** setPartitionSize. */
  method SetSize(hdr: FatHeader, sectors: nat)
    requires sectors < 0x8000_0000 && hdr.fields.sectorsPerCluster > 0
    modifies hdr
    ensures hdr.fields == SetPartitionSize(old(hdr.fields), sectors)
  {
    FatFits(sectors, hdr.fields.sectorsPerCluster);
    hdr.fields := hdr.fields.(bigTotalSectors := sectors);
    hdr.fields := hdr.fields.(bigSectorsPerFat := sectors / hdr.fields.sectorsPerCluster / 128 + 1);
    hdr.fields := hdr.fields.(fatLocation := 1 + hdr.fields.reservedSectors as int);
    hdr.fields := hdr.fields.(clusterLocation := hdr.fields.fatLocation + 2 * hdr.fields.bigSectorsPerFat);
  }

  /** The header before anything is filled in: FAT32.h's initial values. */
  function NewHeader(): Header {
    Header([SPACE, 0, 0, 0, 0, 0, 0, 0],
           512, 4, 12, 2, 0, 0, 0xF8, 0, 0, 0, 0, 0, 0, 0, 0, 2, 1, 6, 0, 0, 0,
           0x80, 0, 0x29, 0,
           [SPACE, 0, 0, 0, 0, 0, 0, 0, 0, 0, 0], [70, 65, 84, 51, 50, SPACE, SPACE, SPACE],
           0, 0, 2, 3)
  }

  /** The header that ends up on the disk. */
  function BuiltHeader(geometry: DriveGeometry, volumeId: dword): (h: Header)
    ensures LaidOut(h, BUILT_SECTORS)
    ensures h.sectorsPerCluster == 4 && h.bytesPerSector == SECTOR && h.rootDirStartCluster == 2
  {
    SetPartitionSize(NewHeader().(volumeLabel := VolumeLabel(SIGNATURE)), BUILT_SECTORS)
      .(heads := geometry.heads, sectorsPerTrack := geometry.sectorsPerTrack, volumeId := volumeId, hiddenSectors := 1)
  }

  // ------------------------------------------------------------------ the boot area

  /** Byte `k` of sector `n` of the boot loader's file, as far as it goes. */
  function CodeByte(code: seq<byte>, n: nat, k: nat): byte {
    if SECTOR * n + k < BOOT_CODE && SECTOR * n + k < |code| then code[SECTOR * n + k] else 0
  }

  /** Sector `n` of the boot loader. */
  function CodeSector(code: seq<byte>, n: nat): Sector {
    seq(SECTOR, k requires 0 <= k < SECTOR => CodeByte(code, n, k))
  }

  method ReadBootLoader(file: Option<seq<byte>>, data: array<byte>) returns (result: int)
    requires data.Length == IMAGE && forall k :: 0 <= k < IMAGE ==> data[k] == 0
    modifies data
    ensures result == if file.Some? then 0 else -1
    ensures file.Some? ==> forall k :: 0 <= k < IMAGE ==> data[k] == CodeByte(file.value, 0, k)
  {
    if file.None? {
      return -1;
    }
    var code := file.value;
    var n := if |code| < BOOT_CODE then |code| else BOOT_CODE;
    for i := 0 to n
      invariant forall k :: 0 <= k < IMAGE ==> data[k] == if k < i then CodeByte(code, 0, k) else 0
    {
      data[i] := code[i];
    }
    return 0;
  }

  /** Division and remainder in C, which round towards zero. */
  function Quotient(a: int, b: nat): int
    requires b > 0
  {
    if a >= 0 then a / b else -((-a) / b)
  }

  function Remainder(a: int, b: nat): int
    requires b > 0
  {
    if a >= 0 then a % b else -((-a) % b)
  }

  lemma RoundsTowardsZero(a: int, b: nat)
    requires b > 0
    ensures Quotient(a, b) * b + Remainder(a, b) == a && -(b as int) < Remainder(a, b) < b
    ensures if a >= 0 then Remainder(a, b) >= 0 else Remainder(a, b) <= 0
  {
    if a < 0 {
      var q, r := (-a) / b, (-a) % b;
      assert q * b + r == -a;
      assert (-q) * b == -(q * b);
    }
  }

  function AsByte(x: int): byte { x % 0x100 }

  /** An `int`: from 2^31 - 2 sectors on it is negative. */
  function EndSector(h: Header): int32 { Signed(h.bigTotalSectors as int + 2) }

  /** The partition table's first entry: a FAT32 partition from sector 1 on. */
  ghost predicate HasPartition(s: seq<byte>, h: Header)
    requires |s| >= SECTOR
  {
    && s[0x1BF] == 0 && s[0x1C0] == 0 && s[0x1C1] == 2 && s[0x1C2] == 0x0C
    && s[0x1C3] == AsByte(Quotient(EndSector(h), 16065))
    && s[0x1C4] == AsByte(Remainder(Quotient(EndSector(h), 63), 255))
    && s[0x1C5] == AsByte(Remainder(EndSector(h), 63))
    && LittleDword(s, 0x1C6) == 1 && LittleDword(s, 0x1CA) == h.bigTotalSectors
    && s[0x1FE] == 0x55 && s[0x1FF] == 0xAA
  }

  method AddPartition(h: Header, data: array<byte>)
    requires data.Length >= SECTOR
    modifies data
    ensures HasPartition(data[..], h)
    ensures forall k :: 0 <= k < data.Length && !(0x1BF <= k < 0x1CE) && k != 0x1FE && k != 0x1FF
              ==> data[k] == old(data[k])
  {
    var endSector := EndSector(h);
    data[0x1BF] := 0x00;
    data[0x1C0] := 0x00;
    data[0x1C1] := 0x02;
    data[0x1C2] := 0x0C;
    data[0x1C3] := AsByte(Quotient(endSector, 16065));
    data[0x1C4] := AsByte(Remainder(Quotient(endSector, 63), 255));
    data[0x1C5] := AsByte(Remainder(endSector, 63));
    StoreDword(data, 0x1C6, 0x01);
    StoreDword(data, 0x1CA, h.bigTotalSectors);
    data[0x1FE] := 0x55;
    data[0x1FF] := 0xAA;
  }

  /** addSignature. */
  method AddSignature(data: array<byte>, idx: nat, sig: seq<byte>)
    requires idx + |sig| <= data.Length
    modifies data
    ensures Holds(data[..], idx, sig) && OnlyWithin(old(data[..]), data[..], idx, idx + |sig|)
  {
    StoreBytes(data, idx, sig);
  }

  ghost predicate HasSignatures(s: Sector) {
    && LittleDword(s, 0x000) == 0x41615252 && LittleDword(s, 0x1E4) == 0x61417272
    && s[0x1FE] == 0x55 && s[0x1FF] == 0xAA
  }

  function FreeClusters(h: Header): dword
    requires h.sectorsPerCluster > 0
  {
    (h.bigTotalSectors / h.sectorsPerCluster - 1) % 0x1_0000_0000
  }

  /** A file system information sector (section 5 of the Microsoft FAT specification). */
  ghost predicate IsFsInfo(s: Sector, h: Header)
    requires h.sectorsPerCluster > 0
  {
    && HasSignatures(s) && LittleDword(s, 0x1E8) == FreeClusters(h) && LittleDword(s, 0x1EC) == 2
    && forall k :: 4 <= k < 0x1E4 || 0x1F0 <= k < 0x1FE ==> s[k] == 0
  }

  method AddCounts(h: Header, data: array<byte>, at: nat)
    requires at + SECTOR <= data.Length && h.sectorsPerCluster > 0
    requires forall k :: at + 0x1EC <= k < at + 0x1F0 ==> data[k] == 0
    modifies data
    ensures LittleDword(SectorIn(data[..], at), 0x1E8) == FreeClusters(h)
            && LittleDword(SectorIn(data[..], at), 0x1EC) == 2
    ensures OnlyWithin(old(data[..]), data[..], at + 0x1E8, at + 0x1ED)
  {
    StoreDword(data, at + 0x1E8, FreeClusters(h));
    data[at + 0x1EC] := 0x02;
  }

  /** Four bytes at `at`. */
  method StoreFour(data: array<byte>, at: nat, b0: byte, b1: byte, b2: byte, b3: byte)
    requires at + 4 <= data.Length
    modifies data
    ensures LittleDword(data[..], at)
            == b0 as int + 0x100 * (b1 as int) + 0x1_0000 * (b2 as int) + 0x100_0000 * (b3 as int)
    ensures OnlyWithin(old(data[..]), data[..], at, at + 4)
  {
    data[at] := b0;
    data[at + 1] := b1;
    data[at + 2] := b2;
    data[at + 3] := b3;
  }

  method AddMarks(data: array<byte>, at: nat)
    requires at + SECTOR <= data.Length
    modifies data
    ensures HasSignatures(SectorIn(data[..], at))
    ensures forall k :: 0 <= k < data.Length && !(at <= k < at + 4) && !(at + 0x1E4 <= k < at + 0x1E8)
                        && k != at + 0x1FE && k != at + 0x1FF
              ==> data[k] == old(data[k])
  {
    StoreFour(data, at, 0x52, 0x52, 0x61, 0x41);
    StoreFour(data, at + 0x1E4, 0x72, 0x72, 0x41, 0x61);
    data[at + 0x1FE] := 0x55;
    data[at + 0x1FF] := 0xAA;
  }

  /** addFSInfo, on a cleared sector. */
  method AddFsInfo(h: Header, data: array<byte>, at: nat)
    requires at + SECTOR <= data.Length && h.sectorsPerCluster > 0
    requires forall k :: at <= k < at + SECTOR ==> data[k] == 0
    modifies data
    ensures IsFsInfo(SectorIn(data[..], at), h) && OnlyWithin(old(data[..]), data[..], at, at + SECTOR)
  {
    AddMarks(data, at);
    AddCounts(h, data, at);
  }

  /** The master boot record: the loader's code, the signature and the partition. */
  ghost predicate IsMbr(s: Sector, code: seq<byte>, h: Header) {
    && HasPartition(s, h) && Holds(s, SIGNATURE_AT, SIGNATURE)
    && forall k :: 0 <= k < SIGNATURE_AT || 0x1BD <= k < 0x1BF || 0x1CE <= k < 0x1FE ==> s[k] == CodeByte(code, 0, k)
  }

  /** A sector with nothing in it but the boot signature. */
  ghost predicate IsTrailer(s: Sector) {
    s[0x1FE] == 0x55 && s[0x1FF] == 0xAA && forall k :: 0 <= k < 0x1FE ==> s[k] == 0
  }

  /** addFileSystem, with the time of day as the volume number. */
  method AddFileSystem(hdr: FatHeader, hiddenSectors: dword, volumeId: dword, data: array<byte>, at: nat)
    requires at + 3 * SECTOR <= data.Length && hdr.fields.sectorsPerCluster > 0
    requires forall k :: at + SECTOR <= k < at + 3 * SECTOR ==> data[k] == 0
    modifies hdr, data
    ensures hdr.fields == old(hdr.fields).(volumeId := volumeId, hiddenSectors := hiddenSectors)
    ensures IsWritten(SectorIn(old(data[..]), at), SectorIn(data[..], at), hdr.fields)
    ensures IsFsInfo(SectorIn(data[..], at + SECTOR), hdr.fields) && IsTrailer(SectorIn(data[..], at + 2 * SECTOR))
    ensures OnlyWithin(old(data[..]), data[..], at, at + 3 * SECTOR)
  {
    hdr.fields := hdr.fields.(volumeId := volumeId);
    hdr.fields := hdr.fields.(hiddenSectors := hiddenSectors);
    WriteVolume(hdr.fields, data, at);
  }

  /** The three sectors of a file system. */
  method WriteVolume(h: Header, data: array<byte>, at: nat)
    requires at + 3 * SECTOR <= data.Length && h.sectorsPerCluster > 0
    requires forall k :: at + SECTOR <= k < at + 3 * SECTOR ==> data[k] == 0
    modifies data
    ensures IsWritten(SectorIn(old(data[..]), at), SectorIn(data[..], at), h)
    ensures IsFsInfo(SectorIn(data[..], at + SECTOR), h) && IsTrailer(SectorIn(data[..], at + 2 * SECTOR))
    ensures OnlyWithin(old(data[..]), data[..], at, at + 3 * SECTOR)
  {
    WriteBinary(data, at, h);
    ghost var s1 := SectorIn(data[..], at);
    AddFsInfo(h, data, at + SECTOR);
    assert SectorIn(data[..], at) == s1;
    ghost var s2 := SectorIn(data[..], at + SECTOR);
    data[at + 1534] := 0x55;
    data[at + 1535] := 0xAA;
    assert SectorIn(data[..], at) == s1 && SectorIn(data[..], at + SECTOR) == s2;
  }

  /** The four sectors the utility makes. */
  ghost predicate HasFour(mbr: Sector, boot: Sector, info: Sector, trailer: Sector, code: seq<byte>, h: Header)
    requires h.sectorsPerCluster > 0
  {
    IsMbr(mbr, code, h) && IsWritten(CodeSector(code, 1), boot, h) && IsFsInfo(info, h) && IsTrailer(trailer)
  }

  ghost predicate HasFirstFour(data: seq<byte>, code: seq<byte>, h: Header)
    requires |data| == IMAGE && h.sectorsPerCluster > 0
  {
    HasFour(SectorIn(data, 0), SectorIn(data, SECTOR), SectorIn(data, 2 * SECTOR), SectorIn(data, 3 * SECTOR), code, h)
  }

  ghost predicate HasBackup(data: seq<byte>)
    requires |data| == IMAGE
  {
    && (forall k :: 7 * SECTOR <= k < 10 * SECTOR ==> data[k] == data[k - 6 * SECTOR])
    && forall k :: 4 * SECTOR <= k < 7 * SECTOR || 10 * SECTOR <= k < IMAGE ==> data[k] == 0
  }

  lemma SameSectors(a: seq<byte>, b: seq<byte>)
    requires |a| == |b| == IMAGE && OnlyWithin(a, b, 7 * SECTOR, 10 * SECTOR)
    ensures SectorIn(a, 0) == SectorIn(b, 0) && SectorIn(a, SECTOR) == SectorIn(b, SECTOR)
    ensures SectorIn(a, 2 * SECTOR) == SectorIn(b, 2 * SECTOR) && SectorIn(a, 3 * SECTOR) == SectorIn(b, 3 * SECTOR)
  {
  }

  /** The backup of the file system's three sectors. */
  method CopyBackup(data: array<byte>)
    requires data.Length == IMAGE && forall k :: 4 * SECTOR <= k < IMAGE ==> data[k] == 0
    modifies data
    ensures HasBackup(data[..])
    ensures SectorIn(data[..], 0) == old(SectorIn(data[..], 0))
    ensures SectorIn(data[..], SECTOR) == old(SectorIn(data[..], SECTOR))
    ensures SectorIn(data[..], 2 * SECTOR) == old(SectorIn(data[..], 2 * SECTOR))
    ensures SectorIn(data[..], 3 * SECTOR) == old(SectorIn(data[..], 3 * SECTOR))
  {
    ghost var before := data[..];
    for i := 0 to 3 * SECTOR
      invariant forall k :: 7 * SECTOR <= k < 7 * SECTOR + i ==> data[k] == before[k - 6 * SECTOR]
      invariant forall k :: 0 <= k < IMAGE && !(7 * SECTOR <= k < 7 * SECTOR + i) ==> data[k] == before[k]
    {
      data[7 * SECTOR + i] := data[SECTOR + i];
    }
    SameSectors(before, data[..]);
  }

  /** The master boot record, around the loader's code. */
  method AddMbr(header: Header, data: array<byte>, ghost code: seq<byte>)
    requires data.Length == IMAGE
    requires forall k :: 0 <= k < IMAGE ==> data[k] == CodeByte(code, 0, k)
    modifies data
    ensures IsMbr(SectorIn(data[..], 0), code, header)
    ensures SectorIn(data[..], SECTOR) == CodeSector(code, 1)
    ensures forall k :: 2 * SECTOR <= k < IMAGE ==> data[k] == 0
  {
    AddPartition(header, data);
    AddSignature(data, SIGNATURE_AT, SIGNATURE);
    forall k | 0 <= k < SECTOR
      ensures data[SECTOR + k] == CodeByte(code, 1, k)
    {
      assert CodeByte(code, 0, SECTOR + k) == CodeByte(code, 1, k);
    }
  }

  lemma MbrKept(s: Sector, code: seq<byte>, header: Header, h: Header)
    requires IsMbr(s, code, header) && h.bigTotalSectors == header.bigTotalSectors
    ensures IsMbr(s, code, h)
  {
  }

  /** The file system's three sectors, and their backup. */
  method AddFileSystems(hdr: FatHeader, volumeId: dword, data: array<byte>)
    requires data.Length == IMAGE && hdr.fields.sectorsPerCluster > 0
    requires forall k :: 2 * SECTOR <= k < IMAGE ==> data[k] == 0
    modifies hdr, data
    ensures hdr.fields == old(hdr.fields).(volumeId := volumeId, hiddenSectors := 1)
    ensures IsWritten(SectorIn(old(data[..]), SECTOR), SectorIn(data[..], SECTOR), hdr.fields)
    ensures IsFsInfo(SectorIn(data[..], 2 * SECTOR), hdr.fields) && IsTrailer(SectorIn(data[..], 3 * SECTOR))
    ensures HasBackup(data[..]) && SectorIn(data[..], 0) == SectorIn(old(data[..]), 0)
  {
    AddFileSystem(hdr, 1, volumeId, data, SECTOR);
    assert SectorIn(data[..], 0) == SectorIn(old(data[..]), 0);
    CopyBackup(data);
  }

  /** The boot area, from the loader's code on. */
  method MakeImage(hdr: FatHeader, volumeId: dword, data: array<byte>, ghost code: seq<byte>)
    requires data.Length == IMAGE && hdr.fields.sectorsPerCluster > 0
    requires forall k :: 0 <= k < IMAGE ==> data[k] == CodeByte(code, 0, k)
    modifies hdr, data
    ensures hdr.fields == old(hdr.fields).(volumeId := volumeId, hiddenSectors := 1)
    ensures HasFirstFour(data[..], code, hdr.fields) && HasBackup(data[..])
  {
    ghost var header := hdr.fields;
    AddMbr(hdr.fields, data, code);
    AddFileSystems(hdr, volumeId, data);
    MbrKept(SectorIn(data[..], 0), code, header, hdr.fields);
  }

  // ------------------------------------------------------------------------ the disk

  /** The first sector of an empty FAT: two reserved entries, and the root's one cluster. */
  function FirstFatSector(): Sector {
    [0xF8, 0xFF, 0xFF, 0x0F, 0xFF, 0xFF, 0xFF, 0xFF, 0xFF, 0xFF, 0xFF, 0x0F] + seq(500, _ => 0)
  }

  /** The regions clearStorage writes to follow one another behind the boot area. */
  predicate Apart(h: Header) {
    && BOOT_SECTORS <= h.fatLocation && h.bigSectorsPerFat > 0
    && h.fatLocation + h.bigSectorsPerFat < h.clusterLocation < 0x8000_0000
  }

  function SecondFat(h: Header): nat { h.fatLocation + h.bigSectorsPerFat }

  /** The sectors formatting may write to. */
  predicate InUse(h: Header, n: nat) {
    n < BOOT_SECTORS || n == h.fatLocation || n == SecondFat(h) || h.clusterLocation <= n < h.clusterLocation + 4
  }

  ghost predicate Cleared(disk: Disk, h: Header) {
    && disk(h.fatLocation) == FirstFatSector() && disk(SecondFat(h)) == FirstFatSector()
    && forall n: nat :: h.clusterLocation <= n < h.clusterLocation + 4 ==> disk(n) == ZeroSector()
  }

  /** writePhysicalDrive. */
  method WritePhysicalDrive(drive: Drive, lba: nat, data: seq<byte>, accepted: bool) returns (result: int)
    requires |data| % SECTOR == 0
    modifies drive`disk
    ensures result == if accepted then 0 else -1
    ensures forall n: nat ::
              drive.disk(n) == if accepted then Written(old(drive.disk), lba, data, n) else old(drive.disk)(n)
  {
    if !accepted {
      return -1;
    }
    drive.Write(lba, data);
    return 0;
  }

  /** The first sector of both FATs. */
  method ClearFats(drive: Drive, h: Header, accepts: nat -> bool) returns (result: int)
    requires Apart(h)
    modifies drive`disk
    ensures result == if accepts(1) && accepts(2) then 0 else -1
    ensures result == 0 ==>
              drive.disk(h.fatLocation) == FirstFatSector() && drive.disk(SecondFat(h)) == FirstFatSector()
    ensures forall n: nat :: n != h.fatLocation && n != SecondFat(h) ==> drive.disk(n) == old(drive.disk)(n)
  {
    var fat := new byte[512](_ => 0);
    StoreDword(fat, 0x00, 0x0FFF_FFF8);
    StoreDword(fat, 0x04, 0xFFFF_FFFF);
    StoreDword(fat, 0x08, 0x0FFF_FFFF);
    IsFirstFat(fat[..]);
    result := WritePhysicalDrive(drive, h.fatLocation, fat[..], accepts(1));
    if result != 0 {
      return -1;
    }
    result := WritePhysicalDrive(drive, SecondFat(h), fat[..], accepts(2));
  }

  lemma ZeroCluster(root: seq<byte>)
    requires |root| == 2048 && forall k :: 0 <= k < 2048 ==> root[k] == 0
    ensures forall disk: Disk, lba: nat, n: nat :: lba <= n < lba + 4 ==> Written(disk, lba, root, n) == ZeroSector()
    ensures forall disk: Disk, lba: nat, n: nat :: !(lba <= n < lba + 4) ==> Written(disk, lba, root, n) == disk(n)
  {
    forall disk: Disk, lba: nat, n: nat | lba <= n < lba + 4
      ensures Written(disk, lba, root, n) == ZeroSector()
    {
      assert root[SECTOR * (n - lba)..SECTOR * (n - lba) + SECTOR] == ZeroSector();
    }
  }

  /** clearStorage; `accepts` says which writes the drive accepts. */
  method ClearStorage(drive: Drive, h: Header, accepts: nat -> bool) returns (result: int)
    requires Apart(h)
    modifies drive`disk
    ensures result == if accepts(1) && accepts(2) && accepts(3) then 0 else -1
    ensures result == 0 ==> Cleared(drive.disk, h)
    ensures forall n: nat :: n < BOOT_SECTORS || !InUse(h, n) ==> drive.disk(n) == old(drive.disk)(n)
  {
    var root := new byte[2048](_ => 0);
    result := ClearFats(drive, h, accepts);
    if result != 0 {
      return -1;
    }
    ZeroCluster(root[..]);
    result := WritePhysicalDrive(drive, h.clusterLocation, root[..], accepts(3));
  }

  lemma IsFirstFat(s: Sector)
    requires LittleDword(s, 0) == 0x0FFF_FFF8 && LittleDword(s, 4) == 0xFFFF_FFFF && LittleDword(s, 8) == 0x0FFF_FFFF
    requires forall k :: 12 <= k < SECTOR ==> s[k] == 0
    ensures s == FirstFatSector() && s[0..512] == s
  {
  }

  /** The thirteen sectors are on the disk. */
  ghost predicate Carries(disk: Disk, data: seq<byte>)
    requires |data| == IMAGE
  {
    forall n: nat :: n < BOOT_SECTORS ==> disk(n) == SectorIn(data, SECTOR * n)
  }

  /** Sectors 1 to 3 again at 7 to 9, and nothing in the others. */
  ghost predicate HasSpareSectors(disk: Disk) {
    && (forall n: nat :: 7 <= n < 10 ==> disk(n) == disk(n - 6))
    && forall n: nat :: 4 <= n < 7 || 10 <= n < BOOT_SECTORS ==> disk(n) == ZeroSector()
  }

  lemma SpareSectors(data: seq<byte>, disk: Disk)
    requires |data| == IMAGE && HasBackup(data) && Carries(disk, data)
    ensures HasSpareSectors(disk)
  {
    forall n: nat | 7 <= n < 10
      ensures disk(n) == disk(n - 6)
    {
      assert SectorIn(data, SECTOR * n) == SectorIn(data, SECTOR * (n - 6));
    }
    forall n: nat | 4 <= n < 7 || 10 <= n < BOOT_SECTORS
      ensures disk(n) == ZeroSector()
    {
      assert SectorIn(data, SECTOR * n) == ZeroSector();
    }
  }

  /** A disk the utility has formatted. */
  ghost predicate Formatted(before: Disk, after: Disk, code: seq<byte>, h: Header)
    requires h.sectorsPerCluster > 0
  {
    && HasFour(after(0), after(1), after(2), after(3), code, h) && HasSpareSectors(after)
    && Cleared(after, h) && forall n: nat :: !InUse(h, n) ==> after(n) == before(n)
  }

  /** build, given what the drive says about itself, the loader's file, whether the volumes
      could be locked, the time, and which writes the drive accepts. */
  method Build(drive: Drive, geometry: Option<DriveGeometry>, code: Option<seq<byte>>, locked: bool, volumeId: dword,
               accepts: nat -> bool)
    returns (result: int)
    modifies drive`disk
    ensures result == if geometry.Some? && code.Some? && locked && accepts(0) && accepts(1) && accepts(2) && accepts(3)
                      then 0 else -1
    ensures result == 0 ==> Formatted(old(drive.disk), drive.disk, code.value, BuiltHeader(geometry.value, volumeId))
    ensures geometry.None? || code.None? || !locked || !accepts(0) ==>
            forall n: nat :: drive.disk(n) == old(drive.disk)(n)
  {
    var data := new byte[IMAGE](_ => 0);
    var diskpart := new FatHeader(NewHeader());
    SetVolumeName(diskpart, SIGNATURE);
    SetSize(diskpart, BUILT_SECTORS);
    if geometry.None? {
      return -1;
    }
    diskpart.fields := diskpart.fields.(heads := geometry.value.heads);
    diskpart.fields := diskpart.fields.(sectorsPerTrack := geometry.value.sectorsPerTrack);
    result := ReadBootLoader(code, data);
    if result == -1 {
      return -1;
    }
    MakeImage(diskpart, volumeId, data, code.value);
    result := Install(drive, diskpart.fields, data[..], code.value, locked, accepts);
  }

  /** build from the locking of the volumes on. */
  method Install(drive: Drive, h: Header, data: seq<byte>, ghost code: seq<byte>, locked: bool, accepts: nat -> bool)
    returns (result: int)
    requires Apart(h) && h.sectorsPerCluster > 0 && |data| == IMAGE && HasFirstFour(data, code, h) && HasBackup(data)
    modifies drive`disk
    ensures result == if locked && accepts(0) && accepts(1) && accepts(2) && accepts(3) then 0 else -1
    ensures result == 0 ==> Formatted(old(drive.disk), drive.disk, code, h)
    ensures !locked || !accepts(0) ==> forall n: nat :: drive.disk(n) == old(drive.disk)(n)
  {
    if !locked {
      return -1;
    }
    result := WriteAll(drive, h, data, accepts);
    if result == 0 {
      SpareSectors(data, drive.disk);
    }
  }

  /** The two last steps of build. */
  method WriteAll(drive: Drive, h: Header, data: seq<byte>, accepts: nat -> bool) returns (result: int)
    requires Apart(h) && |data| == IMAGE
    modifies drive`disk
    ensures result == if accepts(0) && accepts(1) && accepts(2) && accepts(3) then 0 else -1
    ensures result == 0 ==> Carries(drive.disk, data) && Cleared(drive.disk, h)
    ensures forall n: nat :: !accepts(0) || !InUse(h, n) ==> drive.disk(n) == old(drive.disk)(n)
  {
    result := WritePhysicalDrive(drive, 0, data, accepts(0));
    if result != 0 {
      return -1;
    }
    result := ClearStorage(drive, h, accepts);
  }

  /** safetyCheck: -1 for a failed read, -2 when the drive has not been formatted by the utility. */
  method SafetyCheck(drive: Drive, index: nat, str: seq<byte>) returns (result: int)
    requires index + |str| <= SECTOR && 0 !in str
    modifies drive`trace
    ensures drive.trace == old(drive.trace) + [0]
    ensures result == if drive.bad(|old(drive.trace)|) then -1 else if Holds(drive.disk(0), index, str) then 0 else -2
  {
    var sector := new byte[512];
    var ok := drive.Read(0, sector, 0);
    if !ok {
      return -1;
    }
    assert sector[..] == drive.disk(0);
    var i := 0;
    while i < |str|
      invariant 0 <= i <= |str|
      invariant forall k {:trigger str[k]} :: 0 <= k < i ==> drive.disk(0)[index + k] == str[k]
    {
      if str[i] != sector[index + i] {
        return -2;
      }
      i := i + 1;
    }
    return 0;
  }
}
