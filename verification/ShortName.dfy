/** getShortName of drivers/filesys.c: the 11-byte directory name for a file name,
    what it is meant to be, and exactly when it is that. */
module ShortName {
  import opened Words

  const DOT: byte := 46

  /** A C string: the bytes before the terminator. */
  type CString = s: seq<byte> | 0 !in s witness []

  /** The C string a buffer holds: its bytes up to the first zero. */
  function CStr(buffer: seq<byte>): (s: CString)
    ensures |s| <= |buffer| && s == buffer[..|s|]
    ensures |s| < |buffer| ==> buffer[|s|] == 0
  {
    if buffer == [] || buffer[0] == 0 then [] else [buffer[0]] + CStr(buffer[1..])
  }

  lemma {:induction false} CStrOf(name: CString, rest: seq<byte>)
    requires rest == [] || rest[0] == 0
    ensures CStr(name + rest) == name
  {
    if name == [] {
      assert name + rest == rest;
    } else {
      assert (name + rest)[1..] == name[1..] + rest;
      CStrOf(name[1..], rest);
    }
  }

  predicate IsUpper(c: byte) { 65 <= c <= 90 }

  function Dots(name: seq<byte>): nat {
    if name == [] then 0 else Dots(name[..|name| - 1]) + if name[|name| - 1] == DOT then 1 else 0
  }

  function LastDot(name: seq<byte>): (i: nat)
    ensures Dots(name) > 0 ==> i < |name| && name[i] == DOT
  {
    if name == [] then 0 else if name[|name| - 1] == DOT then |name| - 1 else LastDot(name[..|name| - 1])
  }

  predicate CaseOk(name: seq<byte>) {
    forall i :: 0 <= i < |name| ==> name[i] == DOT || IsUpper(name[i])
  }

  /** The four ways to accept a name, in the order they are tried, and the refusal. */
  datatype Kind = Current | Parent | Plain | WithExtension | Refused

  function KindOf(name: CString): Kind {
    if |name| == 1 && Dots(name) == 1 then Current
    else if |name| == 2 && Dots(name) == 2 then Parent
    else if CaseOk(name) && Dots(name) == 0 && |name| <= 8 then Plain
    else if CaseOk(name) && Dots(name) == 1 && 0 < LastDot(name) <= 9 && |name| - LastDot(name) <= 3 then WithExtension
    else Refused
  }

  function Spaces(n: nat): (s: seq<byte>)
    ensures |s| == n
  {
    seq(n, _ => SPACE)
  }

  /** `s` with `data` written over its beginning. */
  function Over(s: seq<byte>, data: seq<byte>): (r: seq<byte>)
    requires |data| <= |s|
    ensures |r| == |s|
  {
    data + s[|data|..]
  }

  /** The twelve bytes of the buffer afterwards. */
  function ShortBuffer(name: CString): (b: seq<byte>)
    ensures |b| == 12
  {
    var blank := Spaces(11) + [0];
    match KindOf(name)
    case Current => Over(blank, [DOT])
    case Parent => Over(blank, [DOT, DOT])
    case Plain => Over(blank, name)
    case WithExtension =>
      var dot := LastDot(name);
      Over(Over(blank, name[..dot - 1]), (name + [0])[dot + 1..])
    case Refused => blank
  }

  /** libc memcpy to the start of the buffer. */
  method CopyTo(buffer: array<byte>, data: seq<byte>)
    requires |data| <= 12 <= buffer.Length
    modifies buffer
    ensures buffer[..12] == Over(old(buffer[..12]), data) && buffer[12..] == old(buffer[12..])
  {
    ghost var before := buffer[..];
    for i := 0 to |data|
      invariant forall k :: 0 <= k < i ==> buffer[k] == data[k]
      invariant forall k :: i <= k < buffer.Length ==> buffer[k] == before[k]
    {
      buffer[i] := data[i];
    }
  }

  method BlankBuffer(buffer: array<byte>)
    requires 12 <= buffer.Length
    modifies buffer
    ensures buffer[..12] == Spaces(11) + [0] && buffer[12..] == old(buffer[12..])
  {
    ghost var before := buffer[..];
    for k := 0 to 11
      invariant forall j :: 0 <= j < k ==> buffer[j] == SPACE
      invariant forall j :: k <= j < buffer.Length ==> buffer[j] == before[j]
    {
      buffer[k] := SPACE;
    }
    buffer[11] := 0;
  }

  lemma CaseOkSnoc(name: seq<byte>, i: nat)
    requires i < |name|
    ensures CaseOk(name[..i + 1]) <==> CaseOk(name[..i]) && (name[i] == DOT || IsUpper(name[i]))
  {
    var longer, shorter := name[..i + 1], name[..i];
    assert longer[i] == name[i];
    assert forall j :: 0 <= j < i ==> longer[j] == shorter[j];
  }

  /** Position and number of dots, and whether all other characters are capitals. */
  method ScanName(filename: CString) returns (dotIdx: nat, dotCount: nat, caseOk: bool)
    ensures dotCount == Dots(filename) && (dotCount > 0 ==> dotIdx == LastDot(filename))
    ensures caseOk <==> CaseOk(filename)
  {
    dotIdx, dotCount, caseOk := 0, 0, true;
    var i := 0;
    while i < |filename|
      invariant 0 <= i <= |filename|
      invariant dotCount == Dots(filename[..i]) && (dotCount > 0 ==> dotIdx == LastDot(filename[..i]))
      invariant caseOk <==> CaseOk(filename[..i])
    {
      CaseOkSnoc(filename, i);
      assert filename[..i + 1][..i] == filename[..i];
      if filename[i] == DOT {
        dotCount := dotCount + 1;
        dotIdx := i;
      } else if filename[i] < 65 || filename[i] > 90 {
        caseOk := false;
      }
      i := i + 1;
    }
    assert filename[..|filename|] == filename;
  }

  // ------------------------------------------------------------- which names it accepts

  lemma {:induction false} NoDotsIff(name: seq<byte>)
    ensures Dots(name) == 0 <==> DOT !in name
  {
    if name != [] {
      var before := name[..|name| - 1];
      NoDotsIff(before);
      assert name == before + [name[|name| - 1]];
    }
  }

  lemma {:induction false} OneDotIff(name: seq<byte>, d: nat)
    requires d < |name|
    ensures Dots(name) == 1 && LastDot(name) == d
            <==> name[d] == DOT && forall i :: 0 <= i < |name| && i != d ==> name[i] != DOT
  {
    var before := name[..|name| - 1];
    assert forall i :: 0 <= i < |before| ==> before[i] == name[i];
    NoDotsIff(before);
    if d < |before| {
      OneDotIff(before, d);
    }
  }

  /** All bytes are capitals, A to Z. */
  predicate Capitals(s: seq<byte>) { forall i :: 0 <= i < |s| ==> 65 <= s[i] <= 90 }

  /** The base name before the dot at `d`, of at most nine capitals, and at most two behind it. */
  predicate SplitsAt(name: seq<byte>, d: nat) {
    1 <= d <= 9 && d < |name| <= d + 3 && name[d] == 46 && Capitals(name[..d]) && Capitals(name[d + 1..])
  }

  lemma PlainIff(name: CString)
    ensures KindOf(name).Plain? <==> |name| <= 8 && Capitals(name)
  {
    NoDotsIff(name);
  }

  lemma ExtensionIff(name: CString, d: nat)
    ensures KindOf(name).WithExtension? && LastDot(name) == d <==> SplitsAt(name, d)
  {
    if d < |name| {
      OneDotIff(name, d);
      assert Capitals(name[..d]) <==> forall i :: 0 <= i < d ==> 65 <= name[i] <= 90 by {
        assert forall i :: 0 <= i < d ==> name[..d][i] == name[i];
      }
      assert Capitals(name[d + 1..]) <==> forall i :: d < i < |name| ==> 65 <= name[i] <= 90 by {
        assert forall i :: d < i < |name| ==> name[i] == name[d + 1..][i - d - 1];
      }
    }
  }

  lemma DotNamesIff(name: CString)
    ensures KindOf(name).Current? <==> name == [46]
    ensures KindOf(name).Parent? <==> name == [46, 46]
  {
    if |name| == 1 {
      assert name[..0] == [] && Dots(name) == if name[0] == DOT then 1 else 0;
    } else if |name| == 2 {
      assert name[..1][..0] == [] && Dots(name[..1]) == if name[0] == DOT then 1 else 0;
    }
  }

  /** Exactly these names are accepted: the dot entries, up to eight capitals, and one to nine
      capitals, a dot and at most two capitals more. */
  lemma AcceptedIff(name: CString)
    ensures !KindOf(name).Refused?
            <==> name == [46] || name == [46, 46] || (|name| <= 8 && Capitals(name)) || exists d :: SplitsAt(name, d)
  {
    DotNamesIff(name);
    PlainIff(name);
    ExtensionIff(name, LastDot(name));
    forall d
      ensures SplitsAt(name, d) ==> KindOf(name).WithExtension?
    {
      ExtensionIff(name, d);
    }
  }

  /** What the buffer holds for a name that is accepted without an extension. */
  lemma CapitalsArePadded(name: CString)
    requires |name| <= 8 && Capitals(name)
    ensures ShortBuffer(name) == name + seq(11 - |name|, _ => 32) + [0]
  {
    PlainIff(name);
  }

  /** And with one, which lies over the beginning of the base name. */
  lemma ExtensionOverBase(name: CString, d: nat)
    requires SplitsAt(name, d)
    ensures forall k :: 0 <= k < 12 ==>
              ShortBuffer(name)[k] == if k < |name| - d - 1 then name[d + 1 + k]
                                      else if k == |name| - d - 1 || k == 11 then 0
                                      else if k < d - 1 then name[k] else 32
  {
    ExtensionIff(name, d);
  }

  method GetShortName(filename: CString, buffer: array<byte>) returns (ok: bool)
    requires buffer.Length >= 12
    modifies buffer
    ensures buffer[..12] == ShortBuffer(filename) && buffer[12..] == old(buffer[12..])
    ensures ok <==> !KindOf(filename).Refused?
    ensures |filename| <= 8 && Capitals(filename) ==>
              ok && buffer[..12] == filename + seq(11 - |filename|, _ => 32) + [0]
    ensures ok <==> (filename == [46] || filename == [46, 46] || (|filename| <= 8 && Capitals(filename))
                     || exists d :: SplitsAt(filename, d))
  {
    AcceptedIff(filename);
    if |filename| <= 8 && Capitals(filename) {
      CapitalsArePadded(filename);
    }
    var len := |filename|;
    var dotIdx, dotCount, caseOk := ScanName(filename);
    BlankBuffer(buffer);

    ok := true;
    if len == 1 && dotCount == 1 {
      CopyTo(buffer, [DOT]);
    } else if len == 2 && dotCount == 2 {
      CopyTo(buffer, [DOT, DOT]);
    } else if caseOk && dotCount == 0 && len <= 8 {
      CopyTo(buffer, filename);
    } else if caseOk && dotCount == 1 && dotIdx > 0 && dotIdx <= 9 && len - dotIdx <= 3 {
      CopyTo(buffer, filename[..dotIdx - 1]);
      CopyTo(buffer, (filename + [0])[dotIdx + 1..]);
    } else {
      ok := false;
    }
  }

  // --------------------------------------------------------------- what it should be

  /** A base name and an extension in the eleven bytes of a directory record
      (section 6.1 of the Microsoft FAT specification): each padded with spaces. */
  function EightThree(base: seq<byte>, ext: seq<byte>): (r: seq<byte>)
    requires |base| <= 8 && |ext| <= 3
    ensures |r| == 11
  {
    base + Spaces(8 - |base|) + ext + Spaces(3 - |ext|)
  }

  /** The directory form of an accepted name; the dot entries stand for themselves. */
  function Directory83(name: CString): seq<byte> {
    match KindOf(name)
    case Current => EightThree([DOT], [])
    case Parent => EightThree([DOT, DOT], [])
    case Plain => EightThree(name, [])
    case WithExtension =>
      if LastDot(name) <= 8 then EightThree(name[..LastDot(name)], name[LastDot(name) + 1..])
      else name[..LastDot(name)] + name[LastDot(name) + 1..]
    case Refused => name
  }

  /** The name findFile looks for. */
  function SearchKey(name: CString): CString {
    if KindOf(name).Refused? then name else CStr(ShortBuffer(name))
  }

  /** A name that no extension has to be split off: the buffer holds the eleven bytes
      of the directory form. */
  lemma KeyWithoutExtension(name: CString)
    requires !KindOf(name).Refused? && !KindOf(name).WithExtension?
    ensures SearchKey(name) == Directory83(name)
  {
    DotNamesIff(name);
    var d := Directory83(name);
    assert ShortBuffer(name) == d + [0];
    assert 0 !in d;
    CStrOf(d, [0]);
  }

  /** An accepted extension is copied, with the terminator, over the beginning of the
      buffer: what is then looked for is the extension alone. */
  lemma KeyWithExtension(name: CString)
    requires KindOf(name).WithExtension?
    ensures SearchKey(name) == name[LastDot(name) + 1..]
  {
    var ext := name[LastDot(name) + 1..];
    var b := ShortBuffer(name);
    assert 0 !in ext;
    assert b == ext + [0] + b[|ext| + 1..];
    assert b == ext + ([0] + b[|ext| + 1..]);
    CStrOf(ext, [0] + b[|ext| + 1..]);
  }

  /** For every accepted name: findFile looks for its directory form exactly when the
      extension branch has not been taken. */
  lemma KeyIsDirectoryFormIff(name: CString)
    requires !KindOf(name).Refused?
    ensures SearchKey(name) == Directory83(name) <==> !KindOf(name).WithExtension?
  {
    if KindOf(name).WithExtension? {
      KeyWithExtension(name);
      assert |SearchKey(name)| <= 2 < |Directory83(name)|;
    } else {
      KeyWithoutExtension(name);
    }
  }
}
