/** Where the media utility puts things on a disk: setPartitionSize of
    _media_utility/src/FAT32.cpp, and why nothing overlaps. */
module Layout {
  import opened Header
  import opened ClusterAddress
  import FatWalk

  /** The boot sector, the reserved sectors and their backup: sectors 0 to 12. */
  const BOOT_SECTORS := 13

  /** Sectors in a cluster. */
  predicate UsualClusterSize(n: nat) { n in {1, 2, 4, 8} }

  function SetPartitionSize(h: Header, sectors: nat): Header
    requires sectors < 0x8000_0000 && h.sectorsPerCluster > 0
  {
    FatFits(sectors, h.sectorsPerCluster);
    var perFat := sectors / h.sectorsPerCluster / 128 + 1;
    var fat := 1 + h.reservedSectors;
    h.(bigTotalSectors := sectors, bigSectorsPerFat := perFat, fatLocation := fat, clusterLocation := fat + 2 * perFat)
  }

  lemma FatFits(sectors: nat, perCluster: nat)
    requires perCluster > 0 && sectors < 0x8000_0000
    ensures 0 <= sectors / perCluster / 128 <= 0x100_0000
  {
  }

  /** A header as setPartitionSize leaves it, with the reserved sectors of the boot code. */
  ghost predicate LaidOut(h: Header, sectors: nat) {
    && sectors < 0x8000_0000 && UsualClusterSize(h.sectorsPerCluster) && h.reservedSectors == 12
    && h == SetPartitionSize(h, sectors)
  }

  /** The first sector of a cluster. */
  function ClusterStart(h: Header, cluster: int): int {
    h.clusterLocation + (cluster - 2) * h.sectorsPerCluster
  }

  /** A cluster that lies inside the partition, whose first sector is sector 1. */
  ghost predicate IsDataCluster(h: Header, cluster: int) {
    2 <= cluster && ClusterStart(h, cluster) + h.sectorsPerCluster <= 1 + h.bigTotalSectors
  }

  lemma ScaleByUsual(k: int, n: nat)
    requires UsualClusterSize(n)
    ensures k * n == (if n == 1 then k else if n == 2 then 2 * k else if n == 4 then 4 * k else 8 * k)
  {
  }

  /** Boot sectors and both FATs follow one another, every data cluster lies behind them
      and has its entry inside the first FAT. */
  lemma RegionsFollow(h: Header, sectors: nat, c: int)
    requires LaidOut(h, sectors) && IsDataCluster(h, c)
    ensures BOOT_SECTORS == h.fatLocation
    ensures h.fatLocation + h.bigSectorsPerFat + h.bigSectorsPerFat == h.clusterLocation <= ClusterStart(h, c)
    ensures 0 <= c / 128 < h.bigSectorsPerFat
  {
    ScaleByUsual(c - 2, h.sectorsPerCluster);
    EntryInsideFat(h, sectors, c);
  }

  /** The FATs are as short as they can be but for one sector: without the last one, all entries
      would belong to clusters of the partition. */
  lemma NoSpareFatSector(h: Header, sectors: nat)
    requires LaidOut(h, sectors)
    ensures 128 * (h.bigSectorsPerFat - 1) * h.sectorsPerCluster <= h.bigTotalSectors == sectors
  {
    var n, k := h.sectorsPerCluster, sectors / h.sectorsPerCluster / 128;
    ScaleByUsual(128 * k, n);
    if n == 1 {
    } else if n == 2 {
    } else if n == 4 {
    } else {
    }
  }

  /** Two clusters share no sector. */
  lemma NothingOverlaps(h: Header, sectors: nat, c: int, d: int)
    requires LaidOut(h, sectors) && IsDataCluster(h, c) && IsDataCluster(h, d) && c != d
    ensures ClusterStart(h, c) + h.sectorsPerCluster <= ClusterStart(h, d)
            || ClusterStart(h, d) + h.sectorsPerCluster <= ClusterStart(h, c)
  {
    ScaleByUsual(c - 2, h.sectorsPerCluster);
    ScaleByUsual(d - 2, h.sectorsPerCluster);
  }

  lemma EntryInsideFat(h: Header, sectors: nat, c: int)
    requires LaidOut(h, sectors) && IsDataCluster(h, c)
    ensures 0 <= c / 128 < h.bigSectorsPerFat
  {
    ScaleByUsual(c - 2, h.sectorsPerCluster);
    var n := h.sectorsPerCluster;
    if n == 1 {
    } else if n == 2 {
    } else if n == 4 {
    } else {
    }
  }

  /** The 32-bit arithmetic of loader and kernel does not wrap on a data cluster. */
  lemma ClusterLbaIsStart(h: Header, sectors: nat, c: int)
    requires LaidOut(h, sectors) && IsDataCluster(h, c)
    ensures ClusterLba(h.clusterLocation, c, h.sectorsPerCluster) == ClusterStart(h, c)
  {
    ScaleByUsual(c - 2, h.sectorsPerCluster);
  }

  /** Every sector of the partition survives readSector's three address bytes exactly
      when the partition has fewer than 2^24 sectors. */
  lemma ThreeBytesSufficeIff(sectors: nat)
    requires sectors > 0
    ensures (forall lba :: 1 <= lba < 1 + sectors ==> FatWalk.DeviceLba(lba) == lba) <==> sectors < 0x100_0000
  {
    if sectors >= 0x100_0000 {
      assert FatWalk.DeviceLba(0x100_0000) == 0;
    }
  }
}
