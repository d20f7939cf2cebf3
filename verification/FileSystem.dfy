/** drivers/filesys.c: the kernel's file system, as it changes its globals and buffers. */
module FileSystem {
  import opened Words
  import opened Drive
  import opened Header
  import opened FatWalk
  import opened ClusterAddress
  import opened ShortName
  import opened Directory
  import opened Volume

  const FTYPE_DIRECTORY := 1
  const FTYPE_FILE := 2

  /** struct File of drivers/file.h. */
  class File {
    var ftype: int
    var size: int32
    const clusters: array<int32>

    constructor ()
      ensures clusters.Length == 8 && fresh(clusters)
    {
      clusters := new int32[8](_ => 0);
      ftype, size := 0, 0;
    }
  }

  class FileSystem {
    const drive: Drive
    const fileSys: FatHeader
    var fatSecIdx: int
    const fatBuffer: array<byte>
    var clusterSecIdx: int
    const clusterBuffer: array<byte>
    const currentDir: File
    var dirClusterIndex: int
    /** The characters handed to the screen. */
    var printed: seq<byte>

    ghost predicate Valid() {
      && fatBuffer.Length == SECTOR && clusterBuffer.Length == 2048 && fatBuffer != clusterBuffer
      && currentDir.clusters.Length == 8
    }

    ghost function FatCache(): Cache
      requires Valid()
      reads this, fatBuffer
    {
      Cache(fatSecIdx, fatBuffer[..])
    }

    /** The state as a value. */
    ghost function View(): Volume
      requires Valid()
      reads this, fileSys, fatBuffer, clusterBuffer, currentDir.clusters, drive
    {
      Volume(fileSys.fields, FatCache(), clusterSecIdx, clusterBuffer[..],
             currentDir.clusters[..], dirClusterIndex, printed, drive.trace)
    }

    constructor (drive: Drive, header: Header)
      ensures Valid() && this.drive == drive && fileSys.fields == header && fresh(fileSys)
      ensures FatCache() == Cold() && dirClusterIndex == -1 && printed == []
      ensures fresh(fatBuffer) && fresh(clusterBuffer) && fresh(currentDir) && fresh(currentDir.clusters)
    {
      this.drive := drive;
      fileSys := new FatHeader(header);
      fatSecIdx, clusterSecIdx, dirClusterIndex, printed := -1, -1, -1, [];
      fatBuffer := new byte[512](_ => 0);
      clusterBuffer := new byte[2048](_ => 0);
      currentDir := new File();
      new;
      assert fatBuffer[..] == Cold().bytes;
    }

    /** readSector: three bytes of the sector number reach the drive. */
    method ReadSector(sectors: nat, lba: int, buffer: array<byte>) returns (ok: bool)
      requires SECTOR * sectors <= buffer.Length
      modifies drive`trace, buffer
      ensures Reading(buffer[..], ok, drive.trace)
              == ReadRun(drive.disk, drive.bad, DeviceLba(lba), sectors, old(buffer[..]), 0, old(drive.trace))
    {
      var address := lba % 0x100 + 0x100 * (lba / 0x100 % 0x100) + 0x1_0000 * (lba / 0x1_0000 % 0x100);
      ThreeBytes(lba);
      ok := drive.ReadMany(address, sectors, buffer, 0);
    }

    /** load_FATSect. */
    method LoadFatSect(offset: int) returns (ok: bool)
      requires Valid()
      modifies this`fatSecIdx, fatBuffer, drive`trace
      ensures Fetched(ok, FatCache(), drive.trace)
              == Load(drive.disk, drive.bad, fileSys.fields.fatLocation, old(FatCache()), offset, old(drive.trace))
    {
      OneSector(drive.disk, drive.bad, DeviceLba(fileSys.fields.fatLocation + offset), fatBuffer[..], drive.trace);
      ok := ReadSector(1, fileSys.fields.fatLocation + offset, fatBuffer);
      if ok {
        fatSecIdx := offset;
      }
    }

    /** load_Cluster. */
    method LoadCluster(index: int32) returns (ok: bool)
      requires Valid() && FitsBuffer(fileSys.fields)
      modifies this`clusterSecIdx, clusterBuffer, drive`trace
      ensures Outcome(ok, View()) == WithCluster(drive.disk, drive.bad, old(View()), index)
    {
      var h := fileSys.fields;
      ok := ReadSector(h.sectorsPerCluster, ClusterLba(h.clusterLocation, index, h.sectorsPerCluster), clusterBuffer);
      if ok {
        clusterSecIdx := index;
      }
    }

    /** One turn of traverseFAT's loop: the successor of a cluster. */
    method NextCluster(cluster: int32) returns (ok: bool, next: int32)
      requires Valid()
      modifies this`fatSecIdx, fatBuffer, drive`trace
      ensures var f := Fetch(drive.disk, drive.bad, fileSys.fields.fatLocation, old(FatCache()), cluster / 128,
                             old(drive.trace));
              Fetched(ok, FatCache(), drive.trace) == f && (ok ==> next == EntryOf(f.cache, cluster))
    {
      var fatOffset := cluster / 128;
      ok, next := true, 0;
      if fatOffset != fatSecIdx {
        ok := LoadFatSect(fatOffset);
      }
      if ok {
        next := Signed(LittleDword(fatBuffer[..], cluster % 128 * 4));
      }
    }

    ghost function WalkFrom(cluster: int32, room: nat): Walk
      requires Valid() && room > 0
      reads this, fileSys, fatBuffer, drive
    {
      CachedWalk(drive.disk, drive.bad, fileSys.fields.fatLocation, FatCache(), cluster, room, drive.trace)
    }

    /** The same, as a step of a walk. */
    method WalkOn(cluster: int32, ghost room: nat) returns (ok: bool, next: int32)
      requires Valid() && cluster != END_OF_CHAIN && room > 1
      modifies this`fatSecIdx, fatBuffer, drive`trace
      ensures old(WalkFrom(cluster, room))
              == if ok then Continued([cluster], WalkFrom(next, room - 1))
                 else Walk(false, [cluster], FatCache(), drive.trace)
    {
      ok, next := NextCluster(cluster);
    }

    /** The walk `w` so far: `done`, and the cluster in front of index `i`. */
    ghost predicate Walking(clusters: array<int32>, i: nat, before: Clusters, done: seq<int32>, w: Walk)
      requires Valid()
      reads this, fileSys, fatBuffer, drive, clusters
    {
      && clusters.Length == 8 && 1 <= i <= 8 && |done| == i - 1
      && clusters[..] == Filled(before, done + [clusters[i - 1]])
      && Continued(done, WalkFrom(clusters[i - 1], 9 - i)) == w
    }

    /** One turn of traverseFAT's loop. */
    method WalkTurn(clusters: array<int32>, i: nat, ghost before: Clusters, ghost done: seq<int32>, ghost w: Walk)
      returns (ok: bool)
      requires Valid() && Walking(clusters, i, before, done, w) && i < 8 && clusters[i - 1] != END_OF_CHAIN
      modifies this`fatSecIdx, fatBuffer, clusters, drive`trace
      ensures if ok then Walking(clusters, i + 1, before, done + [old(clusters[i - 1])], w)
              else Traversed(false, FatCache(), drive.trace, before, clusters[..], w)
    {
      var next;
      ok, next := WalkOn(clusters[i - 1], 9 - i);
      if ok {
        ghost var rest := WalkFrom(next, 8 - i);
        ContinuedTwice(done, clusters[i - 1], rest);
        FilledOneMore(before, done + [clusters[i - 1]], next);
        clusters[i] := next;
        assert WalkFrom(next, 8 - i) == rest;
      }
    }

    /** traverseFAT. */
    method TraverseFat(startCluster: int32, clusters: array<int32>) returns (ok: bool)
      requires Valid() && clusters.Length == 8
      modifies this`fatSecIdx, fatBuffer, clusters, drive`trace
      ensures Traversed(ok, FatCache(), drive.trace, old(clusters[..]), clusters[..], old(WalkFrom(startCluster, 8)))
    {
      ghost var w, before, done := WalkFrom(startCluster, 8), clusters[..], [];
      ContinuedNothing(w);
      FilledOneMore(before, [], startCluster);
      clusters[0] := startCluster;
      var i := 1;
      ok := true;
      while i < 8
        invariant Walking(clusters, i, before, done, w)
        modifies this`fatSecIdx, fatBuffer, clusters, drive`trace
      {
        if clusters[i - 1] == END_OF_CHAIN {
          break;
        }
        ghost var cluster := clusters[i - 1];
        ok := WalkTurn(clusters, i, before, done, w);
        if !ok {
          return;
        }
        i, done := i + 1, done + [cluster];
      }
    }

    /** openDirectory. */
    method OpenDirectory(directory: File) returns (ok: bool)
      requires Valid() && FitsBuffer(fileSys.fields) && directory.clusters.Length == 8
      modifies this`clusterSecIdx, this`dirClusterIndex, clusterBuffer, drive`trace
      ensures Outcome(ok, View()) == Opened(drive.disk, drive.bad, old(View()), old(directory.clusters[0]))
    {
      ok := LoadCluster(directory.clusters[0]);
      if ok {
        dirClusterIndex := 0;
      }
    }

    /** The header, from sector 1. */
    method LoadHeader() returns (ok: bool)
      requires Valid()
      modifies fileSys, drive`trace
      ensures Outcome(ok, View()) == WithHeader(drive.disk, drive.bad, old(View()))
    {
      var buffer := new byte[512];
      OneSector(drive.disk, drive.bad, 1, buffer[..], drive.trace);
      ok := ReadSector(1, 1, buffer);
      if ok {
        fileSys.ReadHeader(buffer);
      }
    }

    /** loadFileSystem behind the reading of the header. */
    method OpenRoot() returns (ok: bool)
      requires Valid() && FitsBuffer(fileSys.fields)
      modifies this`fatSecIdx, this`clusterSecIdx, this`dirClusterIndex, fatBuffer, clusterBuffer,
               currentDir.clusters, drive`trace
      ensures Outcome(ok, View()) == WalkRoot(drive.disk, drive.bad, old(View()))
    {
      ghost var v, w := View(), WalkFrom(Signed(fileSys.fields.rootDirStartCluster), 8);
      ok := TraverseFat(Signed(fileSys.fields.rootDirStartCluster), currentDir.clusters);
      assert View() == AfterWalk(v, w).(dir := Filled(v.dir, w.clusters));
      if ok {
        ok := OpenDirectory(currentDir);
      }
    }

    /** loadFileSystem, on a drive that identifies itself. */
    method LoadFileSystem() returns (ok: bool)
      requires Valid() && FitsBuffer(Decode(drive.disk(1)))
      modifies this, fileSys, fatBuffer, clusterBuffer, currentDir.clusters, drive`trace
      ensures Outcome(ok, View()) == Mount(drive.disk, drive.bad, old(View()))
    {
      ok := LoadHeader();
      if ok {
        ok := OpenRoot();
      }
    }

    /** The beginning of findFile and listFiles. */
    method LoadDirectory() returns (ok: bool)
      requires Valid() && FitsBuffer(fileSys.fields)
      modifies this`clusterSecIdx, clusterBuffer, drive`trace
      ensures Outcome(ok, View()) == Ready(drive.disk, drive.bad, old(View()))
    {
      ok := true;
      if dirClusterIndex != 0 {
        ok := LoadCluster(currentDir.clusters[0]);
      }
    }

    /** At the end of the cluster there is no next one to load. */
    ghost predicate NoClusterFollows()
      requires Valid()
      reads this, currentDir.clusters
    {
      -1 <= dirClusterIndex < 7 && currentDir.clusters[dirClusterIndex + 1] == END_OF_CHAIN
    }

    ghost function RecordAt(at: nat): Record
      requires Valid() && at + RECORD <= 2048
      reads this, clusterBuffer
    {
      clusterBuffer[at..at + RECORD]
    }

    /** A long-name record: its number is checked and its characters go to their place. */
    method TakeLong(at: nat, idx: int, longName: array<byte>) returns (ok: bool, idx': int)
      requires Valid() && at + RECORD <= 2048 && longName.Length == 105 && longName != clusterBuffer
      requires var p, r := Pending(idx, longName[..]), RecordAt(at); Fits(p, r) ==> 1 <= Expected(p, r) <= 8
      modifies longName
      ensures var p, r := old(Pending(idx, longName[..])), RecordAt(at);
              ok == Fits(p, r) && (ok ==> Pending(idx', longName[..]) == TakeFragment(p, r))
    {
      idx' := idx;
      if clusterBuffer[at] / 0x10 == 4 {
        idx' := clusterBuffer[at] % 0x10;
      }
      ok := clusterBuffer[at] % 0x10 == idx';
      if ok {
        idx' := idx' - 1;
        CopyChars(at, idx', longName);
      }
    }

    method CopyChars(at: nat, idx: nat, longName: array<byte>)
      requires Valid() && at + RECORD <= 2048 && longName.Length == 105 && longName != clusterBuffer && idx < 8
      modifies longName
      ensures longName[..] == PlaceFragment(old(longName[..]), idx, LongChars(RecordAt(at)))
    {
      ghost var before, r := longName[..], RecordAt(at);
      var base := idx * 13;
      for i := 0 to 13
        invariant forall k :: base <= k < base + i ==> longName[k] == LongChar(r, k - base)
        invariant forall k :: 0 <= k < 105 && !(base <= k < base + i) ==> longName[k] == before[k]
      {
        var bytePos := at + CharOffset(i);
        assert r[CharOffset(i)] == clusterBuffer[bytePos] && r[CharOffset(i) + 1] == clusterBuffer[bytePos + 1];
        longName[base + i] := if clusterBuffer[bytePos + 1] == 0 then clusterBuffer[bytePos] else 0;
      }
    }

    method ResetName(longName: array<byte>)
      requires longName.Length == 105
      modifies longName
      ensures longName[..] == NoName()
    {
      for i := 0 to 105
        invariant forall k :: 0 <= k < i ==> longName[k] == 0
      {
        longName[i] := 0;
      }
    }

    /** The name to look for: the short name, or the name itself. */
    method SearchName(filename: CString) returns (name: CString)
      requires |filename| <= LONGEST_NAME
      ensures name == SearchKey(filename)
    {
      var buffer := new byte[105];
      var short := GetShortName(filename, buffer);
      if short {
        name := CStr(buffer[..12]);
      } else {
        name := filename;
      }
    }

    /** One record of findFile's loop. */
    method SearchRecord(at: nat, idx: int, longName: array<byte>, name: CString, ghost after: seq<Record>)
      returns (verdict: Verdict, idx': int)
      requires Valid() && at + RECORD <= 2048 && longName.Length == 105 && longName != clusterBuffer
      requires InBounds([RecordAt(at)] + after, Pending(idx, longName[..]))
      modifies longName
      ensures SearchGoesOn(RecordAt(at), after, old(Pending(idx, longName[..])), Pending(idx', longName[..]), name,
                           verdict)
    {
      assert ([RecordAt(at)] + after)[1..] == after;
      idx' := idx;
      if clusterBuffer[at] == 0 {
        return Stop, idx;
      }
      verdict := Pass;
      if clusterBuffer[at] != DELETED {
        if clusterBuffer[at + 0x0B] % 0x10 == 0x0F {
          var ok;
          ok, idx' := TakeLong(at, idx, longName);
          verdict := if ok then Pass else Stop;
        } else {
          var shortName := CStr(clusterBuffer[at..at + 11]);
          assert RecordAt(at)[..11] == clusterBuffer[at..at + 11];
          if shortName == name || (CStr(longName[..]) != [] && CStr(longName[..]) == name) {
            return Match, idx;
          }
          ResetName(longName);
        }
      }
    }

    /** One turn of findFile's loop. */
    method SearchTurn(at: nat, idx: int, longName: array<byte>, name: CString, ghost recs: seq<Record>, ghost k: nat)
      returns (verdict: Verdict, idx': int)
      requires Valid() && at + RECORD <= 2048 && longName.Length == 105 && longName != clusterBuffer
      requires Searching(recs, k, Pending(idx, longName[..]), name) && recs[k] == RecordAt(at)
      modifies longName
      ensures SearchAdvanced(recs, k, Pending(idx', longName[..]), name, verdict)
    {
      ghost var p := Pending(idx, longName[..]);
      verdict, idx' := SearchRecord(at, idx, longName, name, recs[k + 1..]);
      SearchAdvances(recs, k, p, Pending(idx', longName[..]), name, verdict);
    }

    /** findFile's loop over the buffered cluster; there is never a next one to load. */
    method SearchCluster(name: CString) returns (found: bool, at: nat)
      requires Valid() && Scannable(fileSys.fields) && StaysInside(View())
      ensures found ==> at + RECORD <= 2048
      ensures Find(DirectoryRecords(View()), Initial(), name) == if found then Found(RecordAt(at)) else Missing
    {
      var longName := new byte[105](_ => 0);
      var idx := 0;
      var end := fileSys.fields.sectorsPerCluster * fileSys.fields.bytesPerSector;
      ghost var recs, k, last := DirectoryRecords(View()), 0, NoClusterFollows();
      at := 0;
      assert longName[..] == NoName() && [recs[0]] + recs[1..] == recs;
      while true
        invariant at == RECORD * k && end == RECORD * |recs| && Searching(recs, k, Pending(idx, longName[..]), name)
        modifies longName
        decreases |recs| - k
      {
        RecordIs(clusterBuffer[..], fileSys.fields.sectorsPerCluster, k);
        var verdict;
        verdict, idx := SearchTurn(at, idx, longName, name, recs, k);
        if verdict.Stop? {
          return false, 0;
        } else if verdict.Match? {
          return true, at;
        }
        at, k := at + RECORD, k + 1;
        if at == end {
          assert last;
          return false, 0;
        }
      }
    }

    method ReadRecord(at: nat) returns (cluster: int32, ftype: int, size: int32)
      requires Valid() && at + RECORD <= 2048
      ensures cluster == StartCluster(fileSys.fields, RecordAt(at)) && Describes(ftype, size, RecordAt(at))
    {
      var record := clusterBuffer[at..at + RECORD];
      cluster := Signed(LittleWord(record, 0x14) * 0x1_0000 + LittleWord(record, 0x1A));
      if cluster == 0 {
        cluster := Signed(fileSys.fields.rootDirStartCluster);
      }
      ftype := if record[0x0B] / 0x10 % 2 == 1 then FTYPE_DIRECTORY else FTYPE_FILE;
      size := Signed(LittleDword(record, 0x1C));
    }

    /** findFile's answer: the file's type, size and clusters. */
    method FillFile(at: nat, file: File)
      requires Valid() && at + RECORD <= 2048 && file.clusters.Length == 8 && file.clusters != currentDir.clusters
      modifies file, file.clusters, this`fatSecIdx, fatBuffer, drive`trace
      ensures var r := old(RecordAt(at));
              var w := old(Traversal(drive.disk, drive.bad, View(), StartCluster(fileSys.fields, r)));
              && View() == AfterWalk(old(View()), w)
              && Describes(file.ftype, file.size, r) && file.clusters[..] == Filled(old(file.clusters[..]), w.clusters)
    {
      var cluster, ftype, size := ReadRecord(at);
      file.ftype := ftype;
      file.size := size;
      var _ := TraverseFat(cluster, file.clusters);
    }

    /** findFile: 0 and the first file that bears the name, or -1. A failed walk along the
        file's chain is not reported. */
    method FindFile(filename: CString, file: File) returns (result: int)
      requires Valid() && Scannable(fileSys.fields) && file.clusters.Length == 8 && file.clusters != currentDir.clusters
      requires var o := Ready(drive.disk, drive.bad, View());
               |filename| <= LONGEST_NAME && o.ok ==> StaysInside(o.volume)
      modifies file, file.clusters, this`fatSecIdx, this`clusterSecIdx, fatBuffer, clusterBuffer, drive`trace
      ensures var s := old(SearchFor(drive.disk, drive.bad, View(), filename));
              match s.lookup
              case Missing => result == -1 && View() == s.volume && unchanged(file) && unchanged(file.clusters)
              case Found(r) =>
                var w := Traversal(drive.disk, drive.bad, s.volume, StartCluster(s.volume.header, r));
                && result == 0 && View() == AfterWalk(s.volume, w)
                && Describes(file.ftype, file.size, r)
                && file.clusters[..] == Filled(old(file.clusters[..]), w.clusters)
    {
      if |filename| > LONGEST_NAME {
        return -1;
      }
      var name := SearchName(filename);
      var ok := LoadDirectory();
      if !ok {
        return -1;
      }
      var found, at := SearchCluster(name);
      if !found {
        return -1;
      }
      FillFile(at, file);
      return 0;
    }

    /** The long name if there is one, or else the short name. */
    method PrintName(at: nat, ghost idx: int, longName: array<byte>)
      requires Valid() && at + RECORD <= 2048 && longName.Length == 105
      modifies this`printed
      ensures printed == old(printed) + Shown(RecordAt(at), Pending(idx, longName[..])) + [NEWLINE]
    {
      var shortName := CStr(clusterBuffer[at..at + 11]);
      assert RecordAt(at)[..11] == clusterBuffer[at..at + 11];
      var name := if CStr(longName[..]) == [] then shortName else CStr(longName[..]);
      printed := printed + name;
      printed := printed + [NEWLINE];
    }

    /** One record of listFiles' loop. */
    method ListRecord(at: nat, idx: int, longName: array<byte>, ghost after: seq<Record>)
      returns (verdict: Verdict, idx': int)
      requires Valid() && at + RECORD <= 2048 && longName.Length == 105 && longName != clusterBuffer
      requires InBounds([RecordAt(at)] + after, Pending(idx, longName[..]))
      modifies longName, this`printed
      ensures ListingGoesOn(RecordAt(at), after, old(Pending(idx, longName[..])), Pending(idx', longName[..]),
                            old(printed), printed, verdict)
    {
      assert ([RecordAt(at)] + after)[1..] == after;
      idx' := idx;
      if clusterBuffer[at] == 0 {
        return Stop, idx;
      }
      verdict := Pass;
      if clusterBuffer[at] != DELETED {
        if clusterBuffer[at + 0x0B] % 0x10 == 0x0F {
          var ok;
          ok, idx' := TakeLong(at, idx, longName);
          verdict := if ok then Pass else Stop;
        } else {
          AssociateLine(printed, Shown(RecordAt(at), Pending(idx, longName[..])),
                        Listing(after, Pending(idx, NoName())));
          PrintName(at, idx, longName);
          ResetName(longName);
        }
      }
    }

    /** One turn of listFiles' loop. */
    method ListTurn(at: nat, idx: int, longName: array<byte>, ghost recs: seq<Record>, ghost k: nat,
                    ghost all: seq<byte>)
      returns (verdict: Verdict, idx': int)
      requires Valid() && at + RECORD <= 2048 && longName.Length == 105 && longName != clusterBuffer
      requires ListingSoFar(recs, k, Pending(idx, longName[..]), printed, all) && recs[k] == RecordAt(at)
      modifies longName, this`printed
      ensures ListingAdvanced(recs, k, Pending(idx', longName[..]), printed, all, verdict)
    {
      ghost var p, before := Pending(idx, longName[..]), printed;
      verdict, idx' := ListRecord(at, idx, longName, recs[k + 1..]);
      ListingAdvances(recs, k, p, Pending(idx', longName[..]), before, printed, all, verdict);
    }

    /** listFiles' loop over the buffered cluster. */
    method ListCluster()
      requires Valid() && Scannable(fileSys.fields) && StaysInside(View())
      modifies this`printed
      ensures printed == old(printed) + Listing(old(DirectoryRecords(View())), Initial())
    {
      var longName := new byte[105](_ => 0);
      var idx, at := 0, 0;
      var end := fileSys.fields.sectorsPerCluster * fileSys.fields.bytesPerSector;
      ghost var recs, k, last := DirectoryRecords(View()), 0, NoClusterFollows();
      ghost var all := printed + Listing(recs, Initial());
      assert longName[..] == NoName() && [recs[0]] + recs[1..] == recs;
      while true
        invariant at == RECORD * k && end == RECORD * |recs|
                  && ListingSoFar(recs, k, Pending(idx, longName[..]), printed, all)
        modifies longName, this`printed
        decreases |recs| - k
      {
        RecordIs(clusterBuffer[..], fileSys.fields.sectorsPerCluster, k);
        var verdict;
        verdict, idx := ListTurn(at, idx, longName, recs, k, all);
        if verdict.Stop? {
          return;
        }
        at, k := at + RECORD, k + 1;
        if at == end {
          assert last;
          return;
        }
      }
    }

    /** listFiles. */
    method ListFiles()
      requires Valid() && Scannable(fileSys.fields)
      requires var o := Ready(drive.disk, drive.bad, View()); o.ok ==> StaysInside(o.volume)
      modifies this`clusterSecIdx, this`printed, clusterBuffer, drive`trace
      ensures View() == Listed(drive.disk, drive.bad, old(View()))
    {
      var ok := LoadDirectory();
      if ok {
        ListCluster();
      }
    }

    /** printStr, on the cluster buffer. */
    method PrintBuffer(size: int32)
      requires Valid() && size <= 2048
      modifies this`printed
      ensures View() == old(View()).(printed := old(printed) + clusterBuffer[..Chunk(size)])
    {
      var i := 0;
      while i < size
        invariant 0 <= i <= Chunk(size)
        invariant printed == old(printed) + clusterBuffer[..i]
        modifies this`printed
      {
        printed := printed + [clusterBuffer[i]];
        i := i + 1;
      }
    }

    /** One cluster of a file. */
    method PrintNext(index: int32, size: int32)
      requires Valid() && FitsBuffer(fileSys.fields)
      modifies this`clusterSecIdx, this`printed, clusterBuffer, drive`trace
      ensures View() == PrintCluster(drive.disk, drive.bad, old(View()), index, size)
    {
      var _ := LoadCluster(index);
      PrintBuffer(if size > 2048 then 2048 else size);
    }

    /** One turn of printFile's loop, with the clusters `rest` still to print. */
    method PrintTurn(index: int32, size: int32, ghost rest: seq<int32>) returns (size': int32)
      requires Valid() && FitsBuffer(fileSys.fields) && rest != [] && rest[0] == index && index != END_OF_CHAIN
      modifies this`clusterSecIdx, this`printed, clusterBuffer, drive`trace
      ensures PrintChain(drive.disk, drive.bad, View(), rest[1..], size')
              == PrintChain(drive.disk, drive.bad, old(View()), rest, size)
    {
      PrintNext(index, size);
      size' := Signed(size as int - 2048);
    }

    /** printFile. */
    method PrintFile(file: File)
      requires Valid() && FitsBuffer(fileSys.fields) && file.clusters.Length == 8
      modifies this`clusterSecIdx, this`dirClusterIndex, this`printed, clusterBuffer, drive`trace
      ensures View()
              == PrintChain(drive.disk, drive.bad, old(View()).(dirIdx := -1), old(file.clusters[..]), old(file.size))
    {
      var size := file.size;
      dirClusterIndex := -1;
      ghost var rest, all := file.clusters[..], PrintChain(drive.disk, drive.bad, View(), file.clusters[..], size);
      var i := 0;
      while i < 8 && file.clusters[i] != END_OF_CHAIN
        invariant i + |rest| == 8 && forall k :: 0 <= k < |rest| ==> rest[k] == file.clusters[i + k]
        invariant PrintChain(drive.disk, drive.bad, View(), rest, size) == all
        modifies this`clusterSecIdx, this`printed, clusterBuffer, drive`trace
      {
        size := PrintTurn(file.clusters[i], size, rest);
        i, rest := i + 1, rest[1..];
      }
    }
  }

  /** The search has come to record `k` and has met no zero record. */
  ghost predicate Searching(recs: seq<Record>, k: nat, p: Pending, name: CString) {
    && k < |recs| && InBounds(recs, Initial()) && InBounds([recs[k]] + recs[k + 1..], p)
    && Find([recs[k]] + recs[k + 1..], p, name) == Find(recs, Initial(), name)
    && forall j :: 0 <= j < k ==> !IsEnd(recs[j])
  }

  /** The same after record `k`. */
  ghost predicate SearchAdvanced(recs: seq<Record>, k: nat, q: Pending, name: CString, verdict: Verdict)
    requires k < |recs| && InBounds(recs, Initial())
  {
    match verdict
    case Stop => Find(recs, Initial(), name) == Missing
    case Match => Find(recs, Initial(), name) == Found(recs[k])
    case Pass =>
      if k + 1 < |recs| then Searching(recs, k + 1, q, name)
      else Find(recs, Initial(), name) == Missing && forall j :: 0 <= j < |recs| ==> !IsEnd(recs[j])
  }

  lemma SearchAdvances(recs: seq<Record>, k: nat, p: Pending, q: Pending, name: CString, verdict: Verdict)
    requires Searching(recs, k, p, name) && SearchGoesOn(recs[k], recs[k + 1..], p, q, name, verdict)
    ensures SearchAdvanced(recs, k, q, name, verdict)
  {
    if k + 1 < |recs| {
      assert [recs[k + 1]] + recs[k + 2..] == recs[k + 1..];
    }
  }

  /** The type and size findFile reads from a record. */
  ghost predicate Describes(ftype: int, size: int32, r: Record) {
    ftype == (if IsDirectory(r) then 1 else 2) && size == SizeOf(r)
  }

  ghost predicate ListingGoesOn(r: Record, after: seq<Record>, p: Pending, q: Pending, before: seq<byte>,
                                now: seq<byte>, verdict: Verdict)
    requires InBounds([r] + after, p)
  {
    match verdict
    case Stop => now == before + Listing([r] + after, p)
    case Match => false
    case Pass => !IsEnd(r) && InBounds(after, q) && now + Listing(after, q) == before + Listing([r] + after, p)
  }

  /** The listing has come to record `k` and has met no zero record. */
  ghost predicate ListingSoFar(recs: seq<Record>, k: nat, p: Pending, now: seq<byte>, all: seq<byte>) {
    && k < |recs| && InBounds([recs[k]] + recs[k + 1..], p)
    && now + Listing([recs[k]] + recs[k + 1..], p) == all
    && forall j :: 0 <= j < k ==> !IsEnd(recs[j])
  }

  /** The same after record `k`. */
  ghost predicate ListingAdvanced(recs: seq<Record>, k: nat, q: Pending, now: seq<byte>, all: seq<byte>,
                                  verdict: Verdict) {
    match verdict
    case Stop => now == all
    case Match => false
    case Pass =>
      if k + 1 < |recs| then ListingSoFar(recs, k + 1, q, now, all)
      else now == all && forall j :: 0 <= j < |recs| ==> !IsEnd(recs[j])
  }

  lemma ListingAdvances(recs: seq<Record>, k: nat, p: Pending, q: Pending, before: seq<byte>, now: seq<byte>,
                        all: seq<byte>, verdict: Verdict)
    requires ListingSoFar(recs, k, p, before, all) && ListingGoesOn(recs[k], recs[k + 1..], p, q, before, now, verdict)
    ensures ListingAdvanced(recs, k, q, now, all, verdict)
  {
    if k + 1 < |recs| {
      assert [recs[k + 1]] + recs[k + 2..] == recs[k + 1..];
    }
  }

  /** What becomes of a scan at a record. */
  datatype Verdict = Stop | Match | Pass

  ghost predicate SearchGoesOn(r: Record, after: seq<Record>, p: Pending, q: Pending, name: CString, verdict: Verdict)
    requires InBounds([r] + after, p)
  {
    match verdict
    case Stop => Find([r] + after, p, name) == Missing
    case Match => Find([r] + after, p, name) == Found(r)
    case Pass => !IsEnd(r) && InBounds(after, q) && Find([r] + after, p, name) == Find(after, q, name)
  }

  /** A walk that continues a list of clusters. */
  function Continued(done: seq<int32>, w: Walk): Walk { w.(clusters := done + w.clusters) }

  lemma ContinuedNothing(w: Walk)
    ensures Continued([], w) == w
  {
    assert [] + w.clusters == w.clusters;
  }

  lemma ContinuedTwice(done: seq<int32>, cluster: int32, w: Walk)
    ensures Continued(done, Continued([cluster], w)) == Continued(done + [cluster], w)
  {
    assert done + ([cluster] + w.clusters) == done + [cluster] + w.clusters;
  }

  lemma FilledOneMore(before: Clusters, start: seq<int32>, next: int32)
    requires |start| < 8
    ensures Filled(before, start)[|start| := next] == Filled(before, start + [next])
    ensures start == [] ==> Filled(before, start) == before && start + [next] == [next]
  {
  }

  /** What a walk leaves in the cache, the drive and the array of clusters. */
  ghost predicate Traversed(ok: bool, cache: Cache, trace: seq<nat>, before: Clusters, after: Clusters, w: Walk)
    requires |w.clusters| <= 8
  {
    ok == w.ok && cache == w.cache && trace == w.trace && after == Filled(before, w.clusters)
  }

  lemma AssociateLine(before: seq<byte>, name: seq<byte>, after: seq<byte>)
    ensures before + (name + [NEWLINE] + after) == before + name + [NEWLINE] + after
  {
  }

  lemma RecordIs(buffer: ClusterBuffer, sectors: nat, k: nat)
    requires sectors <= 4 && k < 16 * sectors
    ensures Records(buffer[..SECTOR * sectors])[k] == buffer[RECORD * k..RECORD * k + RECORD]
  {
  }

  lemma ThreeBytes(lba: int)
    ensures lba % 0x100 + 0x100 * (lba / 0x100 % 0x100) + 0x1_0000 * (lba / 0x1_0000 % 0x100) == DeviceLba(lba)
  {
    var q := lba / 0x100;
    assert lba / 0x1_0000 == q / 0x100;
    assert lba == 0x100_0000 * (q / 0x100 / 0x100) + 0x1_0000 * (q / 0x100 % 0x100) + 0x100 * (q % 0x100) + lba % 0x100;
  }

  lemma OneSector(disk: Disk, bad: nat -> bool, lba: nat, buffer: Sector, trace: seq<nat>)
    ensures ReadRun(disk, bad, lba, 1, buffer, 0, trace)
            == Reading(if bad(|trace|) then buffer else disk(lba), !bad(|trace|), trace + [lba])
  {
    assert Splice(buffer, 0, disk(lba)) == disk(lba);
  }
}
