/** Directory records with long file names: the scan findFile and listFiles of
    drivers/filesys.c make over a cluster of them, and the list of files it amounts to. */
module Directory {
  import opened Words
  import opened Drive
  import opened ShortName

  const RECORD := 32
  const DELETED: byte := 0xE5

  type Record = r: seq<byte> | |r| == 32 witness seq(32, _ => 0)

  type LongBuffer = b: seq<byte> | |b| == 105 witness seq(105, _ => 0)

  /** The 32-byte records of a cluster. */
  function Records(cluster: seq<byte>): (recs: seq<Record>)
    ensures |recs| == |cluster| / RECORD
  {
    seq(|cluster| / RECORD, i requires 0 <= i < |cluster| / RECORD => cluster[RECORD * i..RECORD * i + RECORD])
  }

  predicate IsEnd(r: Record) { r[0] == 0 }

  predicate IsDeleted(r: Record) { r[0] == DELETED }

  predicate IsLong(r: Record) { r[0x0B] % 0x10 == 0x0F }

  /** Where the characters of a long-name fragment lie: LFN_idxs. */
  function CharOffset(i: nat): (at: nat)
    requires i < 13
    ensures at + 1 < RECORD
  {
    if i < 5 then 1 + 2 * i else if i < 11 then 14 + 2 * (i - 5) else 28 + 2 * (i - 11)
  }

  /** A character with a non-zero upper byte counts as the end of the name. */
  function LongChar(r: Record, i: nat): byte
    requires i < 13
  {
    if r[CharOffset(i) + 1] == 0 then r[CharOffset(i)] else 0
  }

  function LongChars(r: Record): (s: seq<byte>)
    ensures |s| == 13
  {
    seq(13, i requires 0 <= i < 13 => LongChar(r, i))
  }

  function ShortNameOf(r: Record): CString { CStr(r[..11]) }

  function ClusterOf(r: Record): int32 { Signed(LittleWord(r, 0x14) * 0x1_0000 + LittleWord(r, 0x1A)) }

  function SizeOf(r: Record): int32 { Signed(LittleDword(r, 0x1C)) }

  predicate IsDirectory(r: Record) { r[0x0B] / 0x10 % 2 == 1 }

  // --------------------------------------------------------------------------- the scan

  /** LongFileNameIdx and longName between two records. */
  datatype Pending = Pending(idx: int, name: LongBuffer)

  function NoName(): LongBuffer { seq(105, _ => 0) }

  function Initial(): Pending { Pending(0, NoName()) }

  /** The index a long-name record is expected to carry. */
  function Expected(p: Pending, r: Record): int {
    if r[0] / 0x10 == 4 then r[0] % 0x10 else p.idx
  }

  predicate Fits(p: Pending, r: Record) { r[0] % 0x10 == Expected(p, r) }

  /** A fragment goes to its place in the name buffer. */
  function PlaceFragment(b: LongBuffer, idx: nat, chars: seq<byte>): LongBuffer
    requires idx < 8 && |chars| == 13
  {
    b[..13 * idx] + chars + b[13 * idx + 13..]
  }

  function TakeFragment(p: Pending, r: Record): Pending
    requires 1 <= Expected(p, r) <= 8
  {
    Pending(Expected(p, r) - 1, PlaceFragment(p.name, Expected(p, r) - 1, LongChars(r)))
  }

  /** After a file record the name starts afresh. */
  function Afresh(p: Pending): Pending { p.(name := NoName()) }

  /** No fragment the scan comes to lies outside the name buffer. */
  predicate InBounds(recs: seq<Record>, p: Pending) {
    if recs == [] || IsEnd(recs[0]) then true
    else if IsDeleted(recs[0]) then InBounds(recs[1..], p)
    else if IsLong(recs[0]) then
      Fits(p, recs[0]) ==> 1 <= Expected(p, recs[0]) <= 8 && InBounds(recs[1..], TakeFragment(p, recs[0]))
    else InBounds(recs[1..], Afresh(p))
  }

  predicate Bears(r: Record, p: Pending, key: CString) {
    ShortNameOf(r) == key || (CStr(p.name) != [] && CStr(p.name) == key)
  }

  datatype Lookup = Missing | Found(rec: Record)

  /** findFile's loop: the record that bears the name. */
  function Find(recs: seq<Record>, p: Pending, key: CString): Lookup
    requires InBounds(recs, p)
  {
    if recs == [] || IsEnd(recs[0]) then Missing
    else if IsDeleted(recs[0]) then Find(recs[1..], p, key)
    else if IsLong(recs[0]) then
      if Fits(p, recs[0]) then Find(recs[1..], TakeFragment(p, recs[0]), key) else Missing
    else if Bears(recs[0], p, key) then Found(recs[0])
    else Find(recs[1..], Afresh(p), key)
  }

  /** The name listFiles prints for a record. */
  function Shown(r: Record, p: Pending): CString {
    if CStr(p.name) == [] then ShortNameOf(r) else CStr(p.name)
  }

  /** listFiles' loop: the characters printed. */
  function Listing(recs: seq<Record>, p: Pending): seq<byte>
    requires InBounds(recs, p)
  {
    if recs == [] || IsEnd(recs[0]) then []
    else if IsDeleted(recs[0]) then Listing(recs[1..], p)
    else if IsLong(recs[0]) then
      if Fits(p, recs[0]) then Listing(recs[1..], TakeFragment(p, recs[0])) else []
    else Shown(recs[0], p) + [NEWLINE] + Listing(recs[1..], Afresh(p))
  }

  // -------------------------------------------------------------- well-formed directories

  /** A deleted record, or a file: its long-name records, last fragment first, and its
      short record directly behind them. */
  datatype Item = Gap(rec: Record) | File(longs: seq<Record>, short: Record)

  ghost predicate WellFormed(item: Item) {
    match item
    case Gap(rec) => IsDeleted(rec)
    case File(longs, short) =>
      && |longs| <= 8 && LongRun(longs)
      && (longs != [] ==> longs[0][0] / 0x10 == 4)
      && !IsEnd(short) && !IsDeleted(short) && !IsLong(short)
  }

  /** Fragments numbered downwards to 1. */
  ghost predicate LongRun(longs: seq<Record>) {
    longs != [] ==>
      IsLong(longs[0]) && !IsDeleted(longs[0]) && longs[0][0] % 0x10 == |longs| && LongRun(longs[1..])
  }

  function RecordsOf(item: Item): seq<Record> {
    match item
    case Gap(rec) => [rec]
    case File(longs, short) => longs + [short]
  }

  function Flatten(items: seq<Item>): seq<Record> {
    if items == [] then [] else RecordsOf(items[0]) + Flatten(items[1..])
  }

  /** A directory: its items, and behind them nothing or a zero record. */
  ghost predicate IsDirectoryOf(recs: seq<Record>, items: seq<Item>) {
    && (forall k :: 0 <= k < |items| ==> WellFormed(items[k]))
    && Flatten(items) <= recs
    && (|recs| == |Flatten(items)| || IsEnd(recs[|Flatten(items)|]))
  }

  /** The fragments in order: the one numbered 1 is last in the run and first in the name. */
  function Assemble(longs: seq<Record>): (s: seq<byte>)
    ensures |s| == 13 * |longs|
  {
    if longs == [] then [] else Assemble(longs[1..]) + LongChars(longs[0])
  }

  function LongNameOf(item: Item): CString
    requires item.File?
  {
    CStr(Assemble(item.longs))
  }

  /** The names a file answers to. */
  predicate HasName(item: Item, name: CString) {
    item.File? && (ShortNameOf(item.short) == name || (LongNameOf(item) != [] && LongNameOf(item) == name))
  }

  /** The name a file is listed under. */
  function ListedAs(item: Item): CString
    requires item.File?
  {
    if LongNameOf(item) == [] then ShortNameOf(item.short) else LongNameOf(item)
  }

  /** The first file that bears the name, or -1. */
  function FirstNamed(items: seq<Item>, name: CString): (n: int)
    ensures n == -1 <==> forall k :: 0 <= k < |items| ==> !HasName(items[k], name)
    ensures n != -1 ==> 0 <= n < |items| && HasName(items[n], name)
    ensures n != -1 ==> forall k :: 0 <= k < n ==> !HasName(items[k], name)
  {
    if items == [] then -1
    else if HasName(items[0], name) then 0
    else
      var n := FirstNamed(items[1..], name);
      assert forall k :: 1 <= k < |items| ==> items[k] == items[1..][k - 1];
      if n == -1 then -1 else n + 1
  }

  function Names(items: seq<Item>): seq<byte> {
    if items == [] then []
    else (if items[0].File? then ListedAs(items[0]) + [NEWLINE] else []) + Names(items[1..])
  }

  // ---------------------------------------------------- the scan sees the list of files

  lemma {:induction false} CStrIgnoresZeros(s: seq<byte>, zeros: seq<byte>)
    requires forall k :: 0 <= k < |zeros| ==> zeros[k] == 0
    ensures CStr(s + zeros) == CStr(s)
  {
    if s == [] {
      assert s + zeros == zeros;
    } else {
      assert (s + zeros)[1..] == s[1..] + zeros;
      CStrIgnoresZeros(s[1..], zeros);
    }
  }

  /** The state after a run of long-name records. */
  function AfterRun(p: Pending, longs: seq<Record>): Pending
    requires |longs| <= 8
  {
    if longs == [] then p else Pending(0, Assemble(longs) + p.name[13 * |longs|..])
  }

  lemma TakeFirst(p: Pending, longs: seq<Record>)
    requires longs != [] && |longs| <= 8 && LongRun(longs)
    requires longs[0][0] / 0x10 == 4 || p.idx == |longs|
    ensures Fits(p, longs[0]) && Expected(p, longs[0]) == |longs|
    ensures AfterRun(TakeFragment(p, longs[0]), longs[1..]) == AfterRun(p, longs)
  {
    var m, chars := |longs|, LongChars(longs[0]);
    var q := TakeFragment(p, longs[0]);
    assert q.name[13 * (m - 1)..] == chars + p.name[13 * m..];
    if m > 1 {
      assert Assemble(longs) + p.name[13 * m..] == Assemble(longs[1..]) + (chars + p.name[13 * m..]);
    } else {
      assert Assemble(longs) == chars;
      assert q.name == chars + p.name[13..];
    }
  }

  /** One record of a run. */
  lemma LongScans(r: Record, after: seq<Record>, p: Pending)
    requires IsLong(r) && !IsDeleted(r) && !IsEnd(r) && Fits(p, r) && 1 <= Expected(p, r) <= 8
    requires InBounds(after, TakeFragment(p, r))
    ensures InBounds([r] + after, p)
    ensures forall key: CString :: Find([r] + after, p, key) == Find(after, TakeFragment(p, r), key)
    ensures Listing([r] + after, p) == Listing(after, TakeFragment(p, r))
  {
    assert ([r] + after)[1..] == after;
  }

  lemma Regroup(longs: seq<Record>, after: seq<Record>)
    requires longs != []
    ensures [longs[0]] + (longs[1..] + after) == longs + after
  {
  }

  /** A run leaves its assembled name in the buffer, whatever is looked for. */
  lemma {:induction false} RunScans(longs: seq<Record>, after: seq<Record>, p: Pending, key: CString)
    requires |longs| <= 8 && LongRun(longs)
    requires longs != [] ==> longs[0][0] / 0x10 == 4 || p.idx == |longs|
    requires InBounds(after, AfterRun(p, longs))
    ensures InBounds(longs + after, p)
    ensures Find(longs + after, p, key) == Find(after, AfterRun(p, longs), key)
    ensures Listing(longs + after, p) == Listing(after, AfterRun(p, longs))
  {
    if longs == [] {
      assert longs + after == after;
    } else {
      TakeFirst(p, longs);
      RunScans(longs[1..], after, TakeFragment(p, longs[0]), key);
      LongScans(longs[0], longs[1..] + after, p);
      Regroup(longs, after);
    }
  }

  lemma RunName(item: Item, p: Pending)
    requires item.File? && |item.longs| <= 8 && p.name == NoName()
    ensures CStr(AfterRun(p, item.longs).name) == LongNameOf(item)
  {
    CStrIgnoresZeros(Assemble(item.longs), p.name[13 * |item.longs|..]);
    assert p.name == [] + p.name;
    CStrIgnoresZeros([], p.name);
  }

  /** What is pending behind an item. */
  function Behind(p: Pending, item: Item): Pending
    requires item.File? ==> |item.longs| <= 8
  {
    if item.Gap? then p else Afresh(AfterRun(p, item.longs))
  }

  /** The scan passes an item: it stops at a file that has the name, and prints one line. */
  lemma ItemScans(item: Item, after: seq<Record>, p: Pending, key: CString)
    requires WellFormed(item) && p.name == NoName() && InBounds(after, Behind(p, item))
    ensures InBounds(RecordsOf(item) + after, p)
    ensures Find(RecordsOf(item) + after, p, key)
            == if HasName(item, key) then Found(item.short) else Find(after, Behind(p, item), key)
    ensures Listing(RecordsOf(item) + after, p)
            == (if item.File? then ListedAs(item) + [NEWLINE] else []) + Listing(after, Behind(p, item))
  {
    match item
    case Gap(rec) =>
      assert ([rec] + after)[1..] == after;
    case File(longs, short) =>
      assert ([short] + after)[1..] == after;
      RunName(item, p);
      RunScans(longs, [short] + after, p, key);
      assert RecordsOf(item) + after == longs + ([short] + after);
  }

  lemma Split<T>(a: seq<T>, b: seq<T>, s: seq<T>)
    requires a + b <= s
    ensures var rest := s[|a|..];
            && s == a + rest && b <= rest && |rest| - |b| == |s| - |a + b|
            && (|rest| > |b| ==> rest[|b|] == s[|a + b|])
  {
    assert s[..|a|] == (a + b)[..|a|] == a;
    assert s[|a|..][..|b|] == (a + b)[|a|..] == b;
  }

  lemma DirectoryTail(recs: seq<Record>, items: seq<Item>)
    requires IsDirectoryOf(recs, items) && items != []
    ensures var rest := recs[|RecordsOf(items[0])|..];
            recs == RecordsOf(items[0]) + rest && IsDirectoryOf(rest, items[1..])
  {
    Split(RecordsOf(items[0]), Flatten(items[1..]), recs);
  }

  /** On every well-formed directory: no fragment leaves the name buffer, the search finds
      the first file that bears the name and misses exactly when there is none, and the
      listing is the list of the files' names. */
  lemma {:induction false} ScanSeesItems(recs: seq<Record>, items: seq<Item>, p: Pending, key: CString)
    requires IsDirectoryOf(recs, items) && p.name == NoName()
    ensures InBounds(recs, p)
    ensures var n := FirstNamed(items, key);
            Find(recs, p, key) == if n == -1 then Missing else Found(items[n].short)
    ensures Listing(recs, p) == Names(items)
    decreases |items|
  {
    if items != [] {
      var item, rest := items[0], recs[|RecordsOf(items[0])|..];
      DirectoryTail(recs, items);
      assert WellFormed(item);
      ScanSeesItems(rest, items[1..], Behind(p, item), key);
      ItemScans(item, rest, p, key);
    }
  }

  // ------------------------------------------------------------------ malformed runs

  /** A fragment that does not begin a run and has another number than the one expected: both
      scans end, whatever follows. */
  lemma BrokenRunEndsScan(r: Record, after: seq<Record>, p: Pending, key: CString)
    requires r[0] != 0 && r[0] != 0xE5 && r[0x0B] % 0x10 == 0x0F
    requires r[0] / 0x10 != 4 && r[0] % 0x10 != p.idx
    ensures InBounds([r] + after, p) && Find([r] + after, p, key) == Missing && Listing([r] + after, p) == []
  {
  }

  /** At the beginning of a directory that is any fragment but the first of a run. */
  lemma UnannouncedFragmentEndsScan(r: Record, after: seq<Record>, key: CString)
    requires r[0] != 0 && r[0] != 0xE5 && r[0x0B] % 0x10 == 0x0F
    requires r[0] / 0x10 != 4 && r[0] % 0x10 != 0
    ensures InBounds([r] + after, Initial()) && Find([r] + after, Initial(), key) == Missing
    ensures Listing([r] + after, Initial()) == []
  {
    BrokenRunEndsScan(r, after, Initial(), key);
  }

  /** Fragments numbered downwards from `m`, the last one not number 1. */
  ghost predicate Orphans(longs: seq<Record>, m: nat) {
    longs != [] ==>
      && longs[0][0] != 0 && longs[0][0] != 0xE5 && longs[0][0x0B] % 0x10 == 0x0F && longs[0][0] % 0x10 == m
      && 2 <= m <= 8 && Orphans(longs[1..], m - 1)
  }

  ghost predicate BlankUpTo(b: LongBuffer, n: int) { forall k :: 0 <= k < n && k < 105 ==> b[k] == 0 }

  lemma {:induction false} OrphansScan(longs: seq<Record>, m: nat, short: Record, after: seq<Record>, p: Pending,
                                       key: CString)
    requires 1 <= m <= 8 && Orphans(longs, m) && |longs| < m && ((longs != [] && longs[0][0] / 0x10 == 4) || p.idx == m)
    requires BlankUpTo(p.name, 13 * m)
    requires !IsEnd(short) && !IsDeleted(short) && !IsLong(short)
    requires InBounds(after, Pending(m - |longs|, NoName()))
    ensures InBounds(longs + ([short] + after), p)
    ensures Find(longs + ([short] + after), p, key)
            == if ShortNameOf(short) == key then Found(short) else Find(after, Pending(m - |longs|, NoName()), key)
    ensures Listing(longs + ([short] + after), p)
            == ShortNameOf(short) + [NEWLINE] + Listing(after, Pending(m - |longs|, NoName()))
    decreases |longs|
  {
    var rest := [short] + after;
    if longs == [] {
      assert longs + rest == rest && rest[1..] == after;
      assert p.name[0] == 0;
    } else {
      var q := TakeFragment(p, longs[0]);
      assert BlankUpTo(q.name, 13 * (m - 1));
      OrphansScan(longs[1..], m - 1, short, after, q, key);
      LongScans(longs[0], longs[1..] + rest, p);
      Regroup(longs, rest);
    }
  }

  /** A file behind a run whose last fragments are missing is found and listed under its short
      name alone, and the scan expects the missing number next. */
  lemma OrphansAreIgnored(longs: seq<Record>, m: nat, short: Record, after: seq<Record>, p: Pending, key: CString)
    requires longs != [] && Orphans(longs, m) && |longs| < m && longs[0][0] / 0x10 == 4 && p.name == NoName()
    requires !IsEnd(short) && !IsDeleted(short) && !IsLong(short)
    requires InBounds(after, Pending(m - |longs|, NoName()))
    ensures InBounds(longs + ([short] + after), p)
    ensures Find(longs + ([short] + after), p, key)
            == if ShortNameOf(short) == key then Found(short) else Find(after, Pending(m - |longs|, NoName()), key)
    ensures Listing(longs + ([short] + after), p)
            == ShortNameOf(short) + [NEWLINE] + Listing(after, Pending(m - |longs|, NoName()))
  {
    OrphansScan(longs, m, short, after, p, key);
  }

  // ------------------------------------------------------------- writing a long name

  /** Two bytes per character: the name, a zero character behind it where there is room,
      then 0xFFFF (section 7 of the Microsoft FAT specification). */
  function UnitLow(name: CString, i: nat): byte {
    if i < |name| then name[i] else if i == |name| then 0 else 0xFF
  }

  function UnitHigh(name: CString, i: nat): byte {
    if i <= |name| then 0 else 0xFF
  }

  /** Which character a byte of a record belongs to, or none. */
  function CharAt(at: nat): int {
    if 1 <= at < 11 then (at - 1) / 2
    else if 14 <= at < 26 then 5 + (at - 14) / 2
    else if 28 <= at < 32 then 11 + (at - 28) / 2
    else -1
  }

  function IsUpperHalf(at: nat): bool { if at < 11 then at % 2 == 0 else at % 2 == 1 }

  function Fragments(name: CString): nat { (|name| + 12) / 13 }

  /** Byte `at` of the record with number `j` of a name. */
  function FragmentByte(name: CString, j: nat, checksum: byte, at: nat): byte
    requires 1 <= j <= 8 && at < RECORD
  {
    if at == 0 then j + (if j == Fragments(name) then 0x40 else 0)
    else if at == 0x0B then 0x0F
    else if at == 0x0D then checksum
    else if CharAt(at) < 0 then 0
    else if IsUpperHalf(at) then UnitHigh(name, 13 * (j - 1) + CharAt(at))
    else UnitLow(name, 13 * (j - 1) + CharAt(at))
  }

  function Fragment(name: CString, j: nat, checksum: byte): Record
    requires 1 <= j <= 8
  {
    seq(RECORD, at requires 0 <= at < RECORD => FragmentByte(name, j, checksum, at))
  }

  /** Records j down to 1. */
  function EncodeFrom(name: CString, j: nat, checksum: byte): (longs: seq<Record>)
    requires j <= 8
    ensures |longs| == j
  {
    if j == 0 then [] else [Fragment(name, j, checksum)] + EncodeFrom(name, j - 1, checksum)
  }

  function EncodeLong(name: CString, checksum: byte): seq<Record>
    requires |name| <= 104
  {
    EncodeFrom(name, Fragments(name), checksum)
  }

  /** The first `n` bytes of a name that zeros follow. */
  function ZeroPadded(name: CString, n: nat): (s: seq<byte>)
    ensures |s| == n
  {
    seq(n, i requires i >= 0 => if i < |name| then name[i] else 0)
  }

  lemma FragmentChars(name: CString, j: nat, checksum: byte)
    requires 1 <= j <= 8
    ensures ZeroPadded(name, 13 * (j - 1)) + LongChars(Fragment(name, j, checksum)) == ZeroPadded(name, 13 * j)
  {
    var r := Fragment(name, j, checksum);
    forall i | 0 <= i < 13
      ensures LongChar(r, i) == if 13 * (j - 1) + i < |name| then name[13 * (j - 1) + i] else 0
    {
      var at := CharOffset(i);
      assert CharAt(at) == i && CharAt(at + 1) == i && !IsUpperHalf(at) && IsUpperHalf(at + 1);
    }
  }

  lemma {:induction false} EncodedRun(name: CString, j: nat, checksum: byte)
    requires j <= 8
    ensures LongRun(EncodeFrom(name, j, checksum))
    ensures Assemble(EncodeFrom(name, j, checksum)) == ZeroPadded(name, 13 * j)
  {
    if j > 0 {
      EncodedRun(name, j - 1, checksum);
      FragmentChars(name, j, checksum);
      var all := EncodeFrom(name, j, checksum);
      assert all[1..] == EncodeFrom(name, j - 1, checksum);
    }
  }

  /** Round trip: every name of 1 to 104 bytes, written as long-name records, is a
      well-formed run, and the scan assembles exactly that name. */
  lemma LongNameRoundTrip(name: CString, checksum: byte, short: Record)
    requires 1 <= |name| <= 104 && !IsEnd(short) && !IsDeleted(short) && !IsLong(short)
    ensures WellFormed(File(EncodeLong(name, checksum), short))
    ensures LongNameOf(File(EncodeLong(name, checksum), short)) == name
  {
    var k := Fragments(name);
    EncodedRun(name, k, checksum);
    assert ZeroPadded(name, 13 * k) == name + seq(13 * k - |name|, _ => 0);
    CStrOf(name, seq(13 * k - |name|, _ => 0));
  }

  /** Character for character, any record: the units of two bytes lie at these places; one above
      255 ends the name. */
  lemma FragmentUnits(r: Record, i: nat)
    requires i < 13
    ensures var unit := LittleWord(r, [1, 3, 5, 7, 9, 14, 16, 18, 20, 22, 24, 28, 30][i]);
            LongChars(r)[i] == if unit < 256 then unit else 0
  {
  }

  // ------------------------------------------------------------ writing a short record

  /** Byte `n` of a number, lowest first. */
  function ByteOf(x: dword, n: nat): byte
    requires n < 4
  {
    var half := if n < 2 then x % 0x1_0000 else x / 0x1_0000;
    if n % 2 == 0 then half % 0x100 else half / 0x100
  }

  /** Name, attributes, first cluster and size in a record of 32 bytes (section 6 of the
      Microsoft FAT specification); nothing in the other fields. */
  function EncodeShort(name: seq<byte>, attributes: byte, cluster: dword, size: dword): Record
    requires |name| == 11
  {
    name + [attributes] + seq(8, _ => 0) + [ByteOf(cluster, 2), ByteOf(cluster, 3)] + seq(4, _ => 0)
      + [ByteOf(cluster, 0), ByteOf(cluster, 1), ByteOf(size, 0), ByteOf(size, 1), ByteOf(size, 2), ByteOf(size, 3)]
  }

  lemma BytesMakeWord(half: int)
    requires 0 <= half < 0x1_0000
    ensures half % 0x100 + 0x100 * (half / 0x100) == half
  {
  }

  /** The two words of a number. */
  lemma BytesMakeWords(x: dword)
    ensures ByteOf(x, 0) as int + 0x100 * (ByteOf(x, 1) as int) == x % 0x1_0000
    ensures ByteOf(x, 2) as int + 0x100 * (ByteOf(x, 3) as int) == x / 0x1_0000
  {
    BytesMakeWord(x % 0x1_0000);
    BytesMakeWord(x / 0x1_0000);
  }

  lemma ShortFields(name: seq<byte>, attributes: byte, cluster: dword, size: dword)
    requires |name| == 11
    ensures var r := EncodeShort(name, attributes, cluster, size);
            && r[..11] == name && r[0] == name[0] && r[0x0B] == attributes
            && LittleWord(r, 0x14) == ByteOf(cluster, 2) as int + 0x100 * (ByteOf(cluster, 3) as int)
            && LittleWord(r, 0x1A) == ByteOf(cluster, 0) as int + 0x100 * (ByteOf(cluster, 1) as int)
            && LittleWord(r, 0x1C) == ByteOf(size, 0) as int + 0x100 * (ByteOf(size, 1) as int)
            && LittleWord(r, 0x1E) == ByteOf(size, 2) as int + 0x100 * (ByteOf(size, 3) as int)
  {
  }

  lemma WordsMakeNumber(x: dword)
    ensures x / 0x1_0000 * 0x1_0000 + x % 0x1_0000 == x
  {
  }

  lemma DirectoryBit(attributes: byte)
    ensures attributes / 0x10 % 2 == 1 <==> attributes % 32 >= 16
  {
  }

  /** Round trip: what the scans take from a short record is what was written. */
  lemma ShortRecordRoundTrip(name: seq<byte>, attributes: byte, cluster: dword, size: dword) returns (r: Record)
    requires |name| == 11
    ensures r == EncodeShort(name, attributes, cluster, size)
    ensures ShortNameOf(r) == CStr(name) && ClusterOf(r) == Signed(cluster) && SizeOf(r) == Signed(size)
    ensures (IsDirectory(r) <==> attributes % 32 >= 16) && (IsLong(r) <==> attributes % 16 == 15)
    ensures (IsEnd(r) <==> name[0] == 0) && (IsDeleted(r) <==> name[0] == 0xE5)
  {
    r := EncodeShort(name, attributes, cluster, size);
    ShortFields(name, attributes, cluster, size);
    DirectoryBit(attributes);
    BytesMakeWords(cluster);
    BytesMakeWords(size);
    WordsMakeNumber(cluster);
    WordsMakeNumber(size);
    assert LittleDword(r, 0x1C) == size;
  }

  /** A record whose first byte is 0xE5 is passed over, and one whose first byte is 0 ends the scan. */
  lemma MarkedRecords(r: Record, after: seq<Record>, p: Pending, key: CString)
    requires r[0] == 0xE5 || r[0] == 0
    requires r[0] == 0xE5 ==> InBounds(after, p)
    ensures InBounds([r] + after, p)
    ensures Find([r] + after, p, key) == if r[0] == 0 then Missing else Find(after, p, key)
    ensures Listing([r] + after, p) == if r[0] == 0 then [] else Listing(after, p)
  {
    assert ([r] + after)[1..] == after;
  }

  // ------------------------------------------------------------- listing and lookup

  /** A short name as it stands in a legal record: no zeros, and a dot only with padding.
      getShortName refuses all of these. */
  predicate LegalShort(r: Record) {
    0 !in r[..11] && (DOT in r[..11] ==> SPACE in r[..11])
  }

  lemma LegalShortIsRefused(r: Record)
    requires LegalShort(r)
    ensures ShortNameOf(r) == r[..11] && KindOf(ShortNameOf(r)).Refused?
  {
    var raw := r[..11];
    CStrOf(raw, []);
    assert raw + [] == raw;
    if DOT in raw {
      var i :| 0 <= i < 11 && raw[i] == SPACE;
      assert !CaseOk(raw);
    } else {
      NoDotsIff(raw);
    }
  }

  /** A name getShortName accepts is never itself what findFile looks for. */
  lemma KeyIsNotAcceptedName(name: CString)
    ensures SearchKey(name) == name <==> KindOf(name).Refused?
  {
    if KindOf(name).WithExtension? {
      KeyWithExtension(name);
      assert |SearchKey(name)| < |name|;
    } else if !KindOf(name).Refused? {
      KeyWithoutExtension(name);
      assert |SearchKey(name)| == 11 && |name| <= 8;
    }
  }

  /** For every file: it answers to the name it is listed under if and only if getShortName
      refuses that name, or makes of it the very name in the short record. */
  lemma AnswersToListedNameIff(file: Item)
    requires file.File?
    ensures var name := ListedAs(file);
            HasName(file, SearchKey(name)) <==> KindOf(name).Refused? || ShortNameOf(file.short) == SearchKey(name)
  {
    KeyIsNotAcceptedName(ListedAs(file));
  }

  /** Every name the listing shows that its own file answers to is found, and at the first
      file that bears the name looked for. */
  lemma ListedIsFound(items: seq<Item>, n: nat)
    requires n < |items| && items[n].File?
    requires var name := ListedAs(items[n]); KindOf(name).Refused? || ShortNameOf(items[n].short) == SearchKey(name)
    ensures var key := SearchKey(ListedAs(items[n]));
            var f := FirstNamed(items, key);
            0 <= f <= n && HasName(items[f], key) && forall k :: 0 <= k < f ==> !HasName(items[k], key)
  {
    AnswersToListedNameIff(items[n]);
  }

  /** The exception, exactly: a file listed under a long name that getShortName accepts
      answers to it if and only if its short record is the directory form of that name
      (and never when there is an extension to the name, short records having no zeros). */
  lemma AcceptedLongNameIsFoundIff(file: Item)
    requires file.File? && LegalShort(file.short) && LongNameOf(file) != [] && !KindOf(LongNameOf(file)).Refused?
    ensures var name := LongNameOf(file);
            HasName(file, SearchKey(name))
            <==> !KindOf(name).WithExtension? && ShortNameOf(file.short) == Directory83(name)
  {
    var name := LongNameOf(file);
    LegalShortIsRefused(file.short);
    if KindOf(name).WithExtension? {
      KeyWithExtension(name);
      assert |SearchKey(name)| < |name|;
    } else {
      KeyWithoutExtension(name);
      assert |SearchKey(name)| == 11 && |name| <= 8;
    }
  }
}
