/** Boot loader and kernel on the same disk: find_file against findFile, load_file against
    traverseFAT and load_Cluster. */
module Agreement {
  import opened Words
  import opened Drive
  import opened Header
  import opened ClusterAddress
  import Cpu
  import opened ShortName
  import opened Directory
  import opened Volume
  import opened FindFileBoot
  import FatWalk
  import Machine
  import LoadFile

  // -------------------------------------------------------------- finding a file

  predicate HasRawName(r: Record, key: seq<byte>) { r[..NAME] == key }

  predicate LongHasRawName(item: Item, key: seq<byte>)
    requires item.File?
  {
    exists k :: 0 <= k < |item.longs| && HasRawName(item.longs[k], key)
  }

  /** A record of the item has the raw name. */
  predicate RawTouched(item: Item, key: seq<byte>) {
    if item.Gap? then HasRawName(item.rec, key) else LongHasRawName(item, key) || HasRawName(item.short, key)
  }

  /** The raw search comes to the short record. */
  predicate Straight(item: Item, key: seq<byte>) {
    item.File? && HasRawName(item.short, key) && !LongHasRawName(item, key)
  }

  /** The item can make one of the two searches stop, if both look for the same name. */
  predicate Touched(item: Item, key: CString) { RawTouched(item, key) || HasName(item, key) }

  /** The first item with a property, or -1. */
  function First(items: seq<Item>, p: Item -> bool): (n: int)
    ensures n == -1 <==> forall k :: 0 <= k < |items| ==> !p(items[k])
    ensures n != -1 ==> 0 <= n < |items| && p(items[n]) && forall k :: 0 <= k < n ==> !p(items[k])
  {
    if items == [] then -1
    else if p(items[0]) then 0
    else
      var n := First(items[1..], p);
      assert forall k :: 1 <= k < |items| ==> items[k] == items[1..][k - 1];
      if n == -1 then -1 else n + 1
  }

  function FirstRaw(items: seq<Item>, key: seq<byte>): (n: int)
    ensures n == -1 <==> forall k :: 0 <= k < |items| ==> !RawTouched(items[k], key)
    ensures n != -1 ==>
              0 <= n < |items| && RawTouched(items[n], key) && forall k :: 0 <= k < n ==> !RawTouched(items[k], key)
  {
    First(items, item => RawTouched(item, key))
  }

  function FirstTouched(items: seq<Item>, key: CString): (n: int)
    ensures n == -1 <==> forall k :: 0 <= k < |items| ==> !Touched(items[k], key)
    ensures n != -1 ==> 0 <= n < |items| && Touched(items[n], key) && forall k :: 0 <= k < n ==> !Touched(items[k], key)
  {
    First(items, item => Touched(item, key))
  }

  lemma FullName(r: Record, key: CString)
    requires |key| == NAME
    ensures ShortNameOf(r) == key <==> HasRawName(r, key)
  {
    if HasRawName(r, key) {
      CStrOf(key, []);
      assert key + [] == key;
    }
  }

  /** One of the records has the raw name. */
  predicate AnyRaw(longs: seq<Record>, key: seq<byte>) {
    longs != [] && (HasRawName(longs[0], key) || AnyRaw(longs[1..], key))
  }

  lemma {:induction false} AnyRawIff(longs: seq<Record>, key: seq<byte>)
    ensures AnyRaw(longs, key) <==> exists k :: 0 <= k < |longs| && HasRawName(longs[k], key)
  {
    if longs != [] {
      AnyRawIff(longs[1..], key);
      assert forall k :: 1 <= k < |longs| ==> longs[k] == longs[1..][k - 1];
      assert forall k :: 0 <= k < |longs[1..]| ==> longs[1..][k] == longs[k + 1];
    }
  }

  lemma {:induction false} RawRun(longs: seq<Record>, after: seq<Record>, key: seq<byte>)
    requires |longs| <= 8 && LongRun(longs)
    ensures if AnyRaw(longs, key)
            then RawFind(longs + after, key).Found? && IsLong(RawFind(longs + after, key).rec)
            else RawFind(longs + after, key) == RawFind(after, key)
  {
    if longs == [] {
      assert longs + after == after;
    } else {
      assert (longs + after)[1..] == longs[1..] + after;
      RawRun(longs[1..], after, key);
    }
  }

  /** What the raw search makes of an item. */
  lemma RawItem(item: Item, after: seq<Record>, key: seq<byte>)
    requires WellFormed(item)
    ensures item.File? && LongHasRawName(item, key) ==>
              RawFind(RecordsOf(item) + after, key).Found? && IsLong(RawFind(RecordsOf(item) + after, key).rec)
    ensures item.File? && !LongHasRawName(item, key) ==>
              RawFind(RecordsOf(item) + after, key)
                  == if HasRawName(item.short, key) then Found(item.short) else RawFind(after, key)
    ensures item.Gap? ==>
              RawFind(RecordsOf(item) + after, key)
                  == if HasRawName(item.rec, key) then Found(item.rec) else RawFind(after, key)
  {
    match item
    case Gap(rec) =>
      assert ([rec] + after)[1..] == after;
    case File(longs, short) =>
      AnyRawIff(longs, key);
      RawRun(longs, [short] + after, key);
      assert longs + ([short] + after) == RecordsOf(item) + after;
      assert ([short] + after)[1..] == after;
  }

  /** What find_file finds in a directory: the short record of the first item with a record
      of that raw name, or, where it comes to another record first, that one. */
  lemma {:induction false} RawSeesItems(recs: seq<Record>, items: seq<Item>, key: seq<byte>)
    requires IsDirectoryOf(recs, items)
    ensures var n, f := FirstRaw(items, key), RawFind(recs, key);
            if n == -1 then f == Missing
            else if Straight(items[n], key) then f == Found(items[n].short)
            else f.Found? && (IsLong(f.rec) || IsDeleted(f.rec))
    decreases |items|
  {
    if items != [] {
      var item, rest := items[0], recs[|RecordsOf(items[0])|..];
      DirectoryTail(recs, items);
      assert WellFormed(item);
      RawSeesItems(rest, items[1..], key);
      RawItem(item, rest, key);
      FirstRawStep(items, key);
    }
  }

  lemma FirstRawStep(items: seq<Item>, key: seq<byte>)
    requires items != []
    ensures var n, m := FirstRaw(items, key), FirstRaw(items[1..], key);
            if RawTouched(items[0], key) then n == 0
            else if m == -1 then n == -1 else n == m + 1 && items[n] == items[1..][m]
  {
  }

  /** For every well-formed directory and every raw name without zeros: find_file, given that
      name, and findFile, given it as a file name, find the same record or both none if and
      only if neither has anything to find, or find_file comes to a short record first and
      the first file bearing the name findFile makes of it has that record. */
  lemma SearchesAgreeIff(recs: seq<Record>, items: seq<Item>, key: CString)
    requires IsDirectoryOf(recs, items) && |key| == NAME
    ensures InBounds(recs, Initial())
    ensures var n, m := FirstRaw(items, key), FirstNamed(items, SearchKey(key));
            RawFind(recs, key) == Find(recs, Initial(), SearchKey(key))
            <==> if n == -1 then m == -1
                 else Straight(items[n], key) && m != -1 && items[m].short == items[n].short
  {
    RawSeesItems(recs, items, key);
    ScanSeesItems(recs, items, Initial(), SearchKey(key));
    var m := FirstNamed(items, SearchKey(key));
    if m != -1 {
      assert WellFormed(items[m]);
    }
  }

  /** The first item touched at all is the first one with a record of the name, or the
      first one that bears it. */
  lemma FirstOfBoth(items: seq<Item>, key: CString)
    ensures var t, n, m := FirstTouched(items, key), FirstRaw(items, key), FirstNamed(items, key);
            && (t == -1 <==> n == -1 && m == -1)
            && (t != -1 ==> if RawTouched(items[t], key) then t == n else t == m && (n == -1 || t < n))
            && (t != -1 ==> if HasName(items[t], key) then t == m else t == n)
  {
    var t, n, m := FirstTouched(items, key), FirstRaw(items, key), FirstNamed(items, key);
    if n != -1 {
      assert Touched(items[n], key);
    }
    if m != -1 {
      assert Touched(items[m], key);
    }
  }

  /** For a name getShortName refuses, as almost all raw names are: exactly if the first item
      with anything to match is a file that matches by its short record. */
  lemma RefusedNamesAgreeIff(recs: seq<Record>, items: seq<Item>, key: CString)
    requires IsDirectoryOf(recs, items) && |key| == NAME && KindOf(key).Refused?
    ensures InBounds(recs, Initial())
    ensures var t := FirstTouched(items, key);
            RawFind(recs, key) == Find(recs, Initial(), SearchKey(key)) <==> t == -1 || Straight(items[t], key)
  {
    SearchesAgreeIff(recs, items, key);
    FirstOfBoth(items, key);
    var t := FirstTouched(items, key);
    if t != -1 && items[t].File? {
      FullName(items[t].short, key);
    }
  }

  /** Long-name records whose first character has a zero upper byte, as all names in the
      first 256 characters have. */
  ghost predicate PlainLongs(item: Item) {
    item.File? ==> forall k :: 0 <= k < |item.longs| ==> item.longs[k][2] == 0
  }

  /** Ordinary directories: names of one-byte characters, none of them the raw name itself. */
  lemma OrdinaryDirectoriesAgree(recs: seq<Record>, items: seq<Item>, key: CString)
    requires IsDirectoryOf(recs, items) && |key| == NAME && key[0] != DELETED && KindOf(key).Refused?
    requires forall k :: 0 <= k < |items| ==> PlainLongs(items[k]) && (items[k].File? ==> LongNameOf(items[k]) != key)
    ensures InBounds(recs, Initial()) && RawFind(recs, key) == Find(recs, Initial(), SearchKey(key))
  {
    RefusedNamesAgreeIff(recs, items, key);
    var t := FirstTouched(items, key);
    if t != -1 {
      var item := items[t];
      assert WellFormed(item) && PlainLongs(item) && Touched(item, key);
      if item.File? {
        FullName(item.short, key);
        assert forall k :: 0 <= k < |item.longs| ==> item.longs[k][..NAME][2] != key[2];
      }
    }
  }

  /** A directory where they differ: one file whose long name is the raw name. Only findFile
      finds it. */
  lemma LongNameIsRawName(key: CString, other: Record)
    requires |key| == NAME && KindOf(key).Refused? && !HasRawName(other, key)
    requires !IsEnd(other) && !IsDeleted(other) && !IsLong(other)
    ensures var recs, items := EncodeLong(key, 0) + [other], [File(EncodeLong(key, 0), other)];
            && IsDirectoryOf(recs, items) && InBounds(recs, Initial())
            && RawFind(recs, key) == Missing && Find(recs, Initial(), SearchKey(key)) == Found(other)
  {
    var file := File(EncodeLong(key, 0), other);
    var recs, items := EncodeLong(key, 0) + [other], [file];
    LongNameRoundTrip(key, 0, other);
    assert Flatten(items) == RecordsOf(file) + Flatten(items[1..]) == recs;
    RawSeesItems(recs, items, key);
    ScanSeesItems(recs, items, Initial(), key);
    OwnFragment(key);
  }

  /** The one fragment of an eleven-byte name has a zero among its first bytes. */
  lemma OwnFragment(key: CString)
    requires |key| == NAME
    ensures |EncodeLong(key, 0)| == 1 && !HasRawName(EncodeLong(key, 0)[0], key)
  {
    assert EncodeLong(key, 0) == [Fragment(key, 1, 0)] + EncodeFrom(key, 0, 0);
    assert Fragment(key, 1, 0)[..NAME][2] == 0;
  }

  /** Another: one file with a raw name getShortName accepts. Only find_file finds it. */
  lemma AcceptedRawNameIsMissed(r: Record, key: CString)
    requires |key| == NAME && !KindOf(key).Refused? && HasRawName(r, key) && !IsEnd(r) && !IsDeleted(r) && !IsLong(r)
    ensures IsDirectoryOf([r], [File([], r)]) && InBounds([r], Initial())
    ensures RawFind([r], key) == Found(r) && Find([r], Initial(), SearchKey(key)) == Missing
  {
    var items := [File([], r)];
    assert Flatten(items) == RecordsOf(items[0]) + Flatten(items[1..]) == [r];
    ScanSeesItems([r], items, Initial(), SearchKey(key));
    FullName(r, key);
    KeyIsNotAcceptedName(key);
  }

  /** %dx:%ax after find_file. */
  function LoaderCluster(r: Record): dword { Long(LittleWord(r, 0x14), LittleWord(r, 0x1A)) }

  /** For the same record the start clusters agree, except that the kernel takes 0 for the root. */
  lemma StartClustersAgreeIff(h: Header, r: Record)
    ensures Signed(LoaderCluster(r)) == StartCluster(h, r) <==> ClusterOf(r) != 0 || Signed(h.rootDirStartCluster) == 0
  {
    assert LoaderCluster(r) == LittleWord(r, 0x14) * 0x1_0000 + LittleWord(r, 0x1A);
    assert Signed(LoaderCluster(r)) == ClusterOf(r);
  }

  // -------------------------------------------------------------- following a chain

  /** The boot sector says the same to both. */
  ghost predicate SameVolume(g: Machine.Geometry, h: Header) {
    g.fatBase == h.fatLocation && g.clusterBase == h.clusterLocation && g.sectorsPerCluster == h.sectorsPerCluster
  }

  lemma BothReadTheHeader(s: Sector)
    ensures SameVolume(Machine.GeometryOf(s), Decode(s))
  {
  }

  /** The sectors the loader asks for, for this cluster, are within three bytes. */
  ghost predicate InReach(g: Machine.Geometry, c: dword) {
    && (g.fatBase + c / 128) % 0x1_0000_0000 < 0x100_0000
    && ClusterLba(g.clusterBase, c, g.sectorsPerCluster) < 0x100_0000
  }

  function AsInts(chain: seq<dword>): (s: seq<int32>)
    ensures |s| == |chain|
  {
    if chain == [] then [] else [Signed(chain[0])] + AsInts(chain[1..])
  }

  lemma SmallRemainder(x: int)
    requires x % 0x1_0000_0000 < 0x100_0000
    ensures x % 0x100_0000 == x % 0x1_0000_0000
  {
    var q, r := x / 0x1_0000_0000, x % 0x1_0000_0000;
    SameRemainder(x, r, 0x100 * q);
  }

  lemma SameRemainder(a: int, b: int, n: int)
    requires a == b + n * 0x100_0000
    ensures a % 0x100_0000 == b % 0x100_0000
  {
    Cpu.DivModUnique(a, 0x100_0000, b / 0x100_0000 + n, b % 0x100_0000);
  }

  /** Entry and FAT sector of a cluster number that is negative as an `int`. */
  lemma SignedEntry(c: dword)
    requires c >= 0x8000_0000
    ensures Signed(c) / 128 == c / 128 - 0x200_0000 && Signed(c) % 128 == c % 128
  {
    assert Signed(c) == c - 0x1_0000_0000;
    Cpu.DivModUnique(Signed(c), 128, c / 128 - 0x200_0000, c % 128);
  }

  /** The FAT sector of a cluster is the same, signed or not. */
  lemma SameFatSector(fatBase: dword, c: dword)
    requires (fatBase + c / 128) % 0x1_0000_0000 < 0x100_0000
    ensures FatWalk.DeviceLba(fatBase + Signed(c) / 128) == (fatBase + c / 128) % 0x1_0000_0000
    ensures Signed(c) % 128 == c % 128
  {
    var x := c / 128;
    SmallRemainder(fatBase + x);
    if c >= 0x8000_0000 {
      SignedEntry(c);
      SameRemainder(fatBase + x, fatBase + x - 0x200_0000, 2);
    } else {
      SignedIsIdentity(c);
    }
  }

  /** Both take the same entry for the successor. */
  lemma SameSuccessor(disk: Disk, fatBase: dword, c: dword)
    requires (fatBase + c / 128) % 0x1_0000_0000 < 0x100_0000
    ensures FatWalk.PlainNext(disk, fatBase, Signed(c)) == Signed(LoadFile.FatEntry(disk, fatBase, c))
  {
    SameFatSector(fatBase, c);
  }

  /** 32-bit arithmetic does not tell a cluster number from its signed value. */
  lemma SignedClusterLba(base: dword, c: dword, n: nat)
    ensures ClusterLba(base, Signed(c), n) == ClusterLba(base, c, n)
  {
    if c >= 0x8000_0000 {
      var s := Signed(c);
      assert (c - 2) * n == (s - 2) * n + (c - s) * n;
      SameModulo(base + (c - 2) * n, base + (s - 2) * n, n);
    }
  }

  lemma SameCluster(g: Machine.Geometry, h: Header, c: dword)
    requires SameVolume(g, h) && InReach(g, c)
    ensures DeviceSector(h, Signed(c)) == ClusterLba(g.clusterBase, c, g.sectorsPerCluster)
  {
    SignedClusterLba(g.clusterBase, c, g.sectorsPerCluster);
  }

  /** The kernel's walk is the loader's chain, with the end mark behind it where there is room. */
  lemma {:induction false} WalkIsChain(disk: Disk, g: Machine.Geometry, chain: seq<dword>, room: nat)
    requires LoadFile.ChainOnDisk(disk, g.fatBase, chain) && |chain| <= room && chain[0] != END_OF_CHAIN
    requires forall k :: 0 <= k < |chain| ==> InReach(g, chain[k])
    ensures FatWalk.PlainWalk(disk, g.fatBase, Signed(chain[0]), room)
            == AsInts(chain) + if |chain| < room then [END_OF_CHAIN] else []
    decreases |chain|
  {
    var c := chain[0];
    SameSuccessor(disk, g.fatBase, c);
    NotTheEnd(c);
    if |chain| > 1 {
      WalkIsChain(disk, g, chain[1..], room - 1);
    } else if room > 1 {
      assert FatWalk.PlainWalk(disk, g.fatBase, END_OF_CHAIN, room - 1) == [END_OF_CHAIN];
    }
  }

  lemma NotTheEnd(c: dword)
    ensures Signed(c) == END_OF_CHAIN <==> c == END_OF_CHAIN
  {
  }

  /** The data sectors the loader reads for a chain, without the FAT's. */
  function DataReads(g: Machine.Geometry, chain: seq<dword>): seq<nat> {
    if chain == [] then []
    else Range(ClusterLba(g.clusterBase, chain[0], g.sectorsPerCluster), g.sectorsPerCluster) + DataReads(g, chain[1..])
  }

  /** What is left of a list of sectors when after every `n` of them one is dropped. */
  function WithoutFat(lbas: seq<nat>, n: nat): seq<nat> {
    if |lbas| <= n then lbas else lbas[..n] + WithoutFat(lbas[n + 1..], n)
  }

  /** After the sectors of every cluster the loader reads one sector of the FAT, and no other. */
  lemma {:induction false} DataReadsAreReads(g: Machine.Geometry, chain: seq<dword>)
    ensures WithoutFat(LoadFile.Reads(g, chain), g.sectorsPerCluster) == DataReads(g, chain)
  {
    if chain != [] {
      var n, lbas := g.sectorsPerCluster, LoadFile.Reads(g, chain);
      assert lbas[n + 1..] == LoadFile.Reads(g, chain[1..]);
      DataReadsAreReads(g, chain[1..]);
    }
  }

  /** The first cluster of both. */
  lemma FirstCluster(disk: Disk, g: Machine.Geometry, h: Header, c: dword, after: seq<int32>)
    requires SameVolume(g, h) && InReach(g, c) && c != END_OF_CHAIN
    ensures FileBytes(disk, h, [Signed(c)] + after)
            == Sectors(disk, ClusterLba(g.clusterBase, c, g.sectorsPerCluster), g.sectorsPerCluster)
               + FileBytes(disk, h, after)
    ensures KernelReads(h, [Signed(c)] + after)
            == Range(ClusterLba(g.clusterBase, c, g.sectorsPerCluster), g.sectorsPerCluster) + KernelReads(h, after)
  {
    NotTheEnd(c);
    SameCluster(g, h, c);
    assert ([Signed(c)] + after)[1..] == after;
  }

  lemma AsIntsFirst(chain: seq<dword>, rest: seq<int32>)
    requires chain != []
    ensures AsInts(chain) + rest == [Signed(chain[0])] + (AsInts(chain[1..]) + rest)
  {
  }

  /** Cluster for cluster, kernel and loader read the same sectors and get the same bytes. */
  lemma {:induction false} SameClusters(disk: Disk, g: Machine.Geometry, h: Header, chain: seq<dword>, rest: seq<int32>)
    requires SameVolume(g, h) && (rest == [] || rest[0] == END_OF_CHAIN)
    requires forall k :: 0 <= k < |chain| ==> InReach(g, chain[k]) && chain[k] != END_OF_CHAIN
    ensures FileBytes(disk, h, AsInts(chain) + rest) == LoadFile.Contents(disk, g, chain)
    ensures KernelReads(h, AsInts(chain) + rest) == DataReads(g, chain)
  {
    if chain == [] {
      assert AsInts(chain) + rest == rest;
    } else {
      SameClusters(disk, g, h, chain[1..], rest);
      AsIntsFirst(chain, rest);
      FirstCluster(disk, g, h, chain[0], AsInts(chain[1..]) + rest);
    }
  }

  lemma {:induction false} NoEndInside(disk: Disk, fatBase: dword, chain: seq<dword>)
    requires LoadFile.ChainOnDisk(disk, fatBase, chain) && chain[0] != END_OF_CHAIN
    ensures forall k :: 0 <= k < |chain| ==> chain[k] != END_OF_CHAIN
  {
    if |chain| > 1 {
      NoEndInside(disk, fatBase, chain[1..]);
      assert forall k :: 1 <= k < |chain| ==> chain[k] == chain[1..][k - 1];
    }
  }

  /** For every chain of at most eight clusters within reach: the kernel's walk from its
      first cluster names the same data sectors in the same order as the loader reads, and
      the file printed is the file loaded. */
  lemma LoaderAndKernelAgree(disk: Disk, g: Machine.Geometry, h: Header, chain: seq<dword>)
    requires SameVolume(g, h) && LoadFile.ChainOnDisk(disk, g.fatBase, chain)
    requires |chain| <= 8 && chain[0] != END_OF_CHAIN
    requires forall k :: 0 <= k < |chain| ==> InReach(g, chain[k])
    ensures var walk := FatWalk.PlainWalk(disk, h.fatLocation, Signed(chain[0]), 8);
            FileBytes(disk, h, walk) == LoadFile.Contents(disk, g, chain) && KernelReads(h, walk) == DataReads(g, chain)
  {
    WalkIsChain(disk, g, chain, 8);
    NoEndInside(disk, g.fatBase, chain);
    var rest := if |chain| < 8 then [END_OF_CHAIN] else [];
    SameClusters(disk, g, h, chain, rest);
  }

  /** traverseFAT from `start` and load_Cluster on what that yields: the sectors and the bytes
      are those of the plain walk. */
  lemma KernelFollows(disk: Disk, v: Volume, start: int32, before: Clusters, size: int32)
    returns (w: FatWalk.Walk, clusters: Clusters, printed: Volume)
    requires FitsBuffer(v.header) && FatWalk.Good(disk, v.header.fatLocation, v.cache)
    requires FatWalk.Coherent(disk, v.header.fatLocation, v.cache) || FatWalk.Askable(start)
    ensures w == Traversal(disk, FatWalk.Never(), v, start) && w.ok && clusters == Filled(before, w.clusters)
    ensures printed == PrintChain(disk, FatWalk.Never(), AfterWalk(v, w), clusters, size)
    ensures var walk := FatWalk.PlainWalk(disk, v.header.fatLocation, start, 8);
            && printed.trace == w.trace + KernelReads(v.header, walk)
            && FileBytes(disk, v.header, clusters) == FileBytes(disk, v.header, walk)
  {
    w := Traversal(disk, FatWalk.Never(), v, start);
    clusters := Filled(before, w.clusters);
    printed := PrintChain(disk, FatWalk.Never(), AfterWalk(v, w), clusters, size);
    FatWalk.WalkIsPlain(disk, FatWalk.Never(), v.header.fatLocation, v.cache, start, 8, v.trace);
    FatWalk.WalkFailsIffReadFails(disk, FatWalk.Never(), v.header.fatLocation, v.cache, start, 8, v.trace);
    FilledBytes(disk, v.header, before, start);
    PrintReads(disk, FatWalk.Never(), AfterWalk(v, w), clusters, size);
  }

  /** The same of the operations themselves. The loader runs load_file on the chain; the kernel
      runs traverseFAT on its first cluster and load_Cluster on what that yields. Leaving out
      the loader's FAT sectors, both have asked the drive for the same sectors in the same
      order, and the bytes in the loader's memory are those the kernel prints from. */
  lemma OperationsAgree(disk: Disk, g: Machine.Geometry, chain: seq<dword>, bx: nat, mem: Machine.Memory,
                        trace: seq<nat>, v: Volume, before: Clusters, size: int32)
    returns (loaded: Reading, end: nat, w: FatWalk.Walk, clusters: Clusters, printed: Volume)
    requires SameVolume(g, v.header) && LoadFile.ChainOnDisk(disk, g.fatBase, chain)
    requires |chain| <= 8 && chain[0] != END_OF_CHAIN && forall k :: 0 <= k < |chain| ==> InReach(g, chain[k])
    requires Machine.FAT_PAGE + SECTOR <= bx && bx + LoadFile.Span(|chain|, Machine.ClusterBytes(g)) <= Machine.MEMORY
    requires FitsBuffer(v.header) && FatWalk.Good(disk, v.header.fatLocation, v.cache)
    requires FatWalk.Coherent(disk, v.header.fatLocation, v.cache) || FatWalk.Askable(Signed(chain[0]))
    ensures loaded == LoadFile.LoadChain(LoadFile.TurnOf(disk, FatWalk.Never(), g), Machine.ClusterBytes(g), chain, bx,
                                         mem, trace)
    ensures w == Traversal(disk, FatWalk.Never(), v, Signed(chain[0])) && clusters == Filled(before, w.clusters)
    ensures printed == PrintChain(disk, FatWalk.Never(), AfterWalk(v, w), clusters, size)
    ensures loaded.ok && w.ok
    ensures loaded.trace == trace + LoadFile.Reads(g, chain)
    ensures printed.trace == w.trace + WithoutFat(LoadFile.Reads(g, chain), g.sectorsPerCluster)
    ensures bx <= end == bx + LoadFile.Span(|chain|, Machine.ClusterBytes(g)) <= |loaded.buffer|
    ensures loaded.buffer[bx..end] == FileBytes(disk, v.header, clusters)
  {
    loaded, end := LoadFile.LoadFileLoadsChain(disk, FatWalk.Never(), g, chain, bx, mem, trace);
    DataReadsAreReads(g, chain);
    w, clusters, printed := KernelFollows(disk, v, Signed(chain[0]), before, size);
    LoaderAndKernelAgree(disk, g, v.header, chain);
  }
}
