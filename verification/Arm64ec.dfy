/**
 The ARM64EC image audit of scripts/verify_graphics_api.py: `arm64ec_image_evidence`
 and the header checks of `inspect_build`. References are the Microsoft PE Format
 specification, sections "Section Table", "The .edata Section (Image Only)" and "The
 Load Configuration Structure (Image Only)", and the other parser, `PeInspect`.
 */
module Arm64ec {
  import opened Bytes
  import Pe = PeInspect

  const MEGABYTE: nat := 1024 * 1024

  datatype Evidence = Chpe(version: nat, codeMapEntries: nat) | ForwarderOnly(forwarders: nat)

  // ---------------------------------------------------------------- sections and RVAs

  datatype Section = Section(address: nat, virtualSize: nat, rawSize: nat, rawOffset: nat, flags: nat)

  datatype Image = Image(file: seq<Byte>, imageSize: nat, headersSize: nat, sections: seq<Section>)

  function SectionAt(f: seq<Byte>, at: nat): Section
    requires at + 40 <= |f|
  {
    Section(U32(f, at + 12), U32(f, at + 8), U32(f, at + 16), U32(f, at + 20), U32(f, at + 36))
  }

  predicate Fits(s: Section, imageSize: nat, fileSize: nat) {
    && s.address + s.virtualSize <= imageSize && s.address + s.rawSize <= imageSize
    && s.rawOffset + s.rawSize <= fileSize
  }

  /** Marked as code or as executable. */
  predicate Executable(s: Section) {
    s.flags / 0x20 % 2 == 1 || s.flags / 0x2000_0000 % 2 == 1
  }

  predicate ValidImage(img: Image) {
    && img.headersSize <= |img.file| && img.headersSize <= img.imageSize
    && forall i :: 0 <= i < |img.sections| ==> Fits(img.sections[i], img.imageSize, |img.file|)
  }

  /** File offsets at which some section holds all of `[rva, rva + count)`. */
  function SectionCandidates(sections: seq<Section>, rva: int, count: int): seq<int> {
    if sections == [] then []
    else
      var s := sections[0];
      (if s.address <= rva && rva - s.address + count <= s.rawSize then [s.rawOffset + rva - s.address] else [])
      + SectionCandidates(sections[1..], rva, count)
  }

  function Candidates(img: Image, rva: int, count: int): seq<int> {
    (if rva + count <= img.headersSize then [rva] else []) + SectionCandidates(img.sections, rva, count)
  }

  /** `rva_offset`: the one place of the file that holds the range, if there is exactly one. */
  function RvaOffset(img: Image, rva: int, count: int): Option<int> {
    if rva <= 0 || count <= 0 || rva >= img.imageSize || count > img.imageSize - rva then None
    else if |Candidates(img, rva, count)| != 1 then None
    else Some(Candidates(img, rva, count)[0])
  }

  /** Who holds a range: the headers, which are number -1, or section `h`. */
  predicate Holds(img: Image, h: int, rva: int, count: int) {
    if h == -1 then rva + count <= img.headersSize
    else 0 <= h < |img.sections| && SectionHolds(img.sections[h], rva, count)
  }

  predicate SectionHolds(s: Section, rva: int, count: int) {
    s.address <= rva && rva - s.address + count <= s.rawSize
  }

  function OffsetIn(img: Image, h: int, rva: int): int
    requires h == -1 || 0 <= h < |img.sections|
  {
    if h == -1 then rva else img.sections[h].rawOffset + rva - img.sections[h].address
  }

  ghost predicate OnlyHolder(img: Image, h: int, rva: int, count: int) {
    Holds(img, h, rva, count) && forall g :: Holds(img, g, rva, count) ==> g == h
  }

  lemma {:induction false} NoCandidate(sections: seq<Section>, rva: int, count: int)
    requires forall i :: 0 <= i < |sections| ==> !SectionHolds(sections[i], rva, count)
    ensures SectionCandidates(sections, rva, count) == []
  {
    if sections != [] {
      assert forall i :: 0 <= i < |sections[1..]| ==> sections[1..][i] == sections[i + 1];
      NoCandidate(sections[1..], rva, count);
    }
  }

  lemma {:induction false} SomeCandidate(sections: seq<Section>, rva: int, count: int, i: nat)
    requires i < |sections| && SectionHolds(sections[i], rva, count)
    ensures |SectionCandidates(sections, rva, count)| >= 1
  {
    if i > 0 { SomeCandidate(sections[1..], rva, count, i - 1); }
  }

  lemma {:induction false} TwoCandidates(sections: seq<Section>, rva: int, count: int, i: nat, j: nat)
    requires i < j < |sections| && SectionHolds(sections[i], rva, count) && SectionHolds(sections[j], rva, count)
    ensures |SectionCandidates(sections, rva, count)| >= 2
  {
    if i == 0 {
      SomeCandidate(sections[1..], rva, count, j - 1);
    } else {
      TwoCandidates(sections[1..], rva, count, i - 1, j - 1);
    }
  }

  lemma {:induction false} OneCandidate(sections: seq<Section>, rva: int, count: int, i: nat)
    requires i < |sections| && SectionHolds(sections[i], rva, count)
    requires forall j :: 0 <= j < |sections| && j != i ==> !SectionHolds(sections[j], rva, count)
    ensures SectionCandidates(sections, rva, count) == [sections[i].rawOffset + rva - sections[i].address]
  {
    assert forall j :: 0 <= j < |sections[1..]| ==> sections[1..][j] == sections[j + 1];
    if i == 0 {
      NoCandidate(sections[1..], rva, count);
    } else {
      OneCandidate(sections[1..], rva, count, i - 1);
    }
  }

  lemma OnlyHolderIsCandidate(img: Image, rva: int, count: int, h: int)
    requires OnlyHolder(img, h, rva, count)
    ensures Candidates(img, rva, count) == [OffsetIn(img, h, rva)]
  {
    hide SectionCandidates, SectionHolds;
    forall j | 0 <= j < |img.sections| && j != h ensures !SectionHolds(img.sections[j], rva, count) {
      assert !Holds(img, j, rva, count);
    }
    if h == -1 {
      NoCandidate(img.sections, rva, count);
    } else {
      assert !Holds(img, -1, rva, count);
      OneCandidate(img.sections, rva, count, h);
    }
  }

  lemma TwoHolders(img: Image, rva: int, count: int, g: int, h: int)
    requires Holds(img, g, rva, count) && Holds(img, h, rva, count) && g < h
    ensures |Candidates(img, rva, count)| >= 2
  {
    hide SectionCandidates, SectionHolds;
    if g == -1 {
      SomeCandidate(img.sections, rva, count, h);
    } else {
      TwoCandidates(img.sections, rva, count, g, h);
    }
  }

  /** A range with one candidate has one holder. */
  lemma CandidateHasHolder(img: Image, rva: int, count: int) returns (h: int)
    requires |Candidates(img, rva, count)| == 1
    ensures OnlyHolder(img, h, rva, count)
  {
    h := SomeHolder(img, rva, count);
    hide Candidates, Holds;
    forall g ensures Holds(img, g, rva, count) ==> g == h {
      if Holds(img, g, rva, count) && g < h { TwoHolders(img, rva, count, g, h); }
      if Holds(img, g, rva, count) && h < g { TwoHolders(img, rva, count, h, g); }
    }
  }

  lemma SomeHolder(img: Image, rva: int, count: int) returns (h: int)
    requires |Candidates(img, rva, count)| >= 1
    ensures Holds(img, h, rva, count)
  {
    hide SectionCandidates, SectionHolds;
    h := -1;
    if i :| 0 <= i < |img.sections| && SectionHolds(img.sections[i], rva, count) {
      h := i;
    } else {
      NoCandidate(img.sections, rva, count);
    }
  }

  /** `rva_offset` gives the place of the range within the one holder it has, and fails when it has none or several. */
  lemma RvaOffsetExactly(img: Image, rva: int, count: int)
    ensures RvaOffset(img, rva, count).Some? <==>
              0 < rva && 0 < count && rva + count <= img.imageSize && exists h :: OnlyHolder(img, h, rva, count)
    ensures forall h :: RvaOffset(img, rva, count).Some? && Holds(img, h, rva, count) ==>
              RvaOffset(img, rva, count).value == OffsetIn(img, h, rva)
  {
    hide Holds, Candidates;
    if |Candidates(img, rva, count)| == 1 {
      var h := CandidateHasHolder(img, rva, count);
      OnlyHolderIsCandidate(img, rva, count, h);
    } else if h :| OnlyHolder(img, h, rva, count) {
      OnlyHolderIsCandidate(img, rva, count, h);
    }
  }

  lemma {:induction false} SectionCandidateInFile(sections: seq<Section>, rva: int, count: int, off: int, fileSize: nat)
    requires forall i :: 0 <= i < |sections| ==> sections[i].rawOffset + sections[i].rawSize <= fileSize
    requires count > 0 && off in SectionCandidates(sections, rva, count)
    ensures 0 <= off && off + count <= fileSize
  {
    if off in SectionCandidates(sections[1..], rva, count) {
      SectionCandidateInFile(sections[1..], rva, count, off, fileSize);
    }
  }

  /** What `rva_offset` accepts lies in the file, so reading it there cannot be refused. */
  lemma RvaOffsetInFile(img: Image, rva: int, count: int)
    requires ValidImage(img) && RvaOffset(img, rva, count).Some?
    ensures 0 <= RvaOffset(img, rva, count).value && RvaOffset(img, rva, count).value + count <= |img.file|
  {
    var off := RvaOffset(img, rva, count).value;
    assert off in Candidates(img, rva, count);
    if off in SectionCandidates(img.sections, rva, count) {
      SectionCandidateInFile(img.sections, rva, count, off, |img.file|);
    }
  }

  lemma {:induction false} SectionHoldsPart(sections: seq<Section>, rva: int, count: int, r: int, c: int, off: int)
    requires rva <= r && r + c <= rva + count
    requires off in SectionCandidates(sections, rva, count)
    ensures off + (r - rva) in SectionCandidates(sections, r, c)
  {
    if off in SectionCandidates(sections[1..], rva, count) {
      SectionHoldsPart(sections[1..], rva, count, r, c, off);
    }
  }

  /** A part of a range maps where the range does, when both map at all. */
  lemma PartMapsAlong(img: Image, rva: int, count: int, r: int, c: int)
    requires RvaOffset(img, rva, count).Some? && RvaOffset(img, r, c).Some?
    requires rva <= r && r + c <= rva + count
    ensures RvaOffset(img, r, c).value == RvaOffset(img, rva, count).value + (r - rva)
  {
    var off := RvaOffset(img, rva, count).value;
    assert off in Candidates(img, rva, count);
    if off in SectionCandidates(img.sections, rva, count) {
      SectionHoldsPart(img.sections, rva, count, r, c, off);
    }
    assert off + (r - rva) in Candidates(img, r, c);
  }

  /** The section loop. */
  method ReadSections(f: seq<Byte>, table: nat, n: nat, imageSize: nat)
    returns (ok: bool, sections: seq<Section>, executable: bool)
    requires table + 40 * n <= |f|
    ensures |SectionTable(f, table, n)| == n
    ensures ok <==> forall i :: 0 <= i < n ==> Fits(SectionTable(f, table, n)[i], imageSize, |f|)
    ensures ok ==> sections == SectionTable(f, table, n) && (executable <==> HasCode(sections))
  {
    hide Executable, SectionAt, HasCode;
    ghost var all := SectionTable(f, table, n);
    sections, executable := [], false;
    HasNoCode();
    for i := 0 to n
      invariant sections == all[..i]
      invariant forall j :: 0 <= j < i ==> Fits(all[j], imageSize, |f|)
      invariant executable <==> HasCode(sections)
    {
      var s := SectionAt(f, table + 40 * i);
      assert s == all[i];
      var largest := if s.virtualSize > s.rawSize then s.virtualSize else s.rawSize;
      if s.address + largest > imageSize || s.rawOffset + s.rawSize > |f| { return false, sections, executable; }
      HasCodeSnoc(sections, s);
      sections := sections + [s];
      executable := executable || Executable(s);
    }
    return true, sections, executable;
  }

  lemma HasNoCode()
    ensures !HasCode([])
  {}

  predicate HasCode(sections: seq<Section>) {
    exists i :: 0 <= i < |sections| && Executable(sections[i])
  }

  lemma HasCodeSnoc(sections: seq<Section>, s: Section)
    ensures HasCode(sections + [s]) <==> HasCode(sections) || Executable(s)
  {
    hide Executable;
    assert (sections + [s])[|sections|] == s;
    assert forall i :: 0 <= i < |sections| ==> (sections + [s])[i] == sections[i];
  }

  function SectionTable(f: seq<Byte>, table: nat, n: nat): (sections: seq<Section>)
    requires table + 40 * n <= |f|
    ensures |sections| == n
    ensures forall i :: 0 <= i < n ==> sections[i] == SectionAt(f, table + 40 * i)
  {
    seq(n, i requires 0 <= i < n => SectionAt(f, table + 40 * i))
  }

  // ---------------------------------------------------------------- the export directory

  /** The export directory of an image, cached as read from its mapping. */
  datatype Exports = Exports(img: Image, rva: nat, bytes: seq<Byte>)

  predicate ValidExports(ex: Exports) {
    && ValidImage(ex.img) && |ex.bytes| >= 40
    && RvaOffset(ex.img, ex.rva, |ex.bytes|).Some?
    && var off := RvaOffset(ex.img, ex.rva, |ex.bytes|).value;
       0 <= off && off + |ex.bytes| <= |ex.img.file| && ex.bytes == ex.img.file[off..off + |ex.bytes|]
  }

  /** `export_bytes`. */
  function ExportBytes(ex: Exports, rva: int, count: int): (r: Option<seq<Byte>>)
    ensures r.Some? ==> |r.value| == count
  {
    if count <= 0 || rva < ex.rva || rva - ex.rva + count > |ex.bytes| then None
    else if RvaOffset(ex.img, rva, count).None? then None
    else Some(ex.bytes[rva - ex.rva..rva - ex.rva + count])
  }

  /** The cached slice is the bytes of the file at the range's own mapping. */
  lemma ExportBytesFromFile(ex: Exports, rva: int, count: int)
    requires ValidExports(ex) && ExportBytes(ex, rva, count).Some?
    ensures var off := RvaOffset(ex.img, rva, count).value;
            0 <= off && off + count <= |ex.img.file|
                && ExportBytes(ex, rva, count).value == ex.img.file[off..off + count]
  {
    RvaOffsetInFile(ex.img, rva, count);
    PartMapsAlong(ex.img, ex.rva, |ex.bytes|, rva, count);
    var all := RvaOffset(ex.img, ex.rva, |ex.bytes|).value;
    SliceOfSlice(ex.img.file, all, |ex.bytes|, rva - ex.rva, count);
  }

  /** Index of the first NUL in `[i, end)`, or `end`. */
  function FindNul(b: seq<Byte>, i: nat, end: nat): (k: nat)
    requires i <= end <= |b|
    ensures i <= k <= end
    decreases end - i
  {
    if i == end || b[i] == 0 then i else FindNul(b, i + 1, end)
  }

  /** `export_string`: NUL-terminated within 1024 bytes, printable, not empty. */
  function ExportString(ex: Exports, rva: int): Option<seq<Byte>> {
    if ExportBytes(ex, rva, 1).None? then None
    else
      var start := rva - ex.rva;
      var limit := if start + 1024 < |ex.bytes| then start + 1024 else |ex.bytes|;
      var end := FindNul(ex.bytes, start, limit);
      if end == limit || end == start || !Printable(ex.bytes[start..end]) then None
      else Some(ex.bytes[start..end])
  }

  lemma {:induction false} FindNulStops(b: seq<Byte>, i: nat, end: nat)
    requires i <= end <= |b|
    ensures FindNul(b, i, end) < end ==> b[FindNul(b, i, end)] == 0
    decreases end - i
  {
    if i < end && b[i] != 0 { FindNulStops(b, i + 1, end); }
  }

  /**
   Only the first byte of a string is checked, but that is enough for the string as a
   whole: with its NUL it is the bytes of the file at its own, unambiguous mapping.
   */
  lemma ExportStringFromFile(ex: Exports, rva: int)
    requires ValidExports(ex) && ExportString(ex, rva).Some?
    ensures var s := ExportString(ex, rva).value;
            && RvaOffset(ex.img, rva, |s| + 1).Some?
            && var off := RvaOffset(ex.img, rva, |s| + 1).value;
               0 <= off && off + |s| + 1 <= |ex.img.file| && ex.img.file[off..off + |s| + 1] == s + [0]
  {
    StringInDirectory(ex, rva);
    hide ExportString, RvaOffset, ValidExports, OnlyHolder, InFile;
    var s := ExportString(ex, rva).value;
    var c := DirectoryHolder(ex);
    LongerHasOneHolder(ex, c, rva, |s| + 1);
    ExportBytesFromFile(ex, rva, |s| + 1);
  }

  /** The string and its NUL stand in the cached directory. */
  lemma StringInDirectory(ex: Exports, rva: int)
    requires ExportString(ex, rva).Some?
    ensures var s, start := ExportString(ex, rva).value, rva - ex.rva;
            && ExportBytes(ex, rva, 1).Some? && 0 <= start && start + |s| + 1 <= |ex.bytes|
            && ex.bytes[start..start + |s| + 1] == s + [0]
  {
    hide RvaOffset, Printable;
    var start := rva - ex.rva;
    var limit := if start + 1024 < |ex.bytes| then start + 1024 else |ex.bytes|;
    FindNulStops(ex.bytes, start, limit);
  }

  /** The one holder of the whole export directory. */
  lemma DirectoryHolder(ex: Exports) returns (c: int)
    requires ValidExports(ex)
    ensures 0 < ex.rva && ex.rva + |ex.bytes| <= ex.img.imageSize && OnlyHolder(ex.img, c, ex.rva, |ex.bytes|)
  {
    hide RvaOffset, Holds;
    RvaOffsetExactly(ex.img, ex.rva, |ex.bytes|);
    c :| OnlyHolder(ex.img, c, ex.rva, |ex.bytes|);
  }

  /** If the first byte of a range has one holder, so has the range. */
  lemma LongerHasOneHolder(ex: Exports, c: int, rva: int, count: int)
    requires OnlyHolder(ex.img, c, ex.rva, |ex.bytes|) && 0 < ex.rva && ex.rva + |ex.bytes| <= ex.img.imageSize
    requires ExportBytes(ex, rva, 1).Some? && 1 <= count && rva - ex.rva + count <= |ex.bytes|
    ensures OnlyHolder(ex.img, c, rva, count) && RvaOffset(ex.img, rva, count).Some?
        && ExportBytes(ex, rva, count).Some?
  {
    hide RvaOffset;
    RvaOffsetExactly(ex.img, rva, 1);
    RvaOffsetExactly(ex.img, rva, count);
    assert Holds(ex.img, c, rva, 1) && Holds(ex.img, c, rva, count);
    var h :| OnlyHolder(ex.img, h, rva, 1);
    forall g ensures Holds(ex.img, g, rva, count) ==> g == c {
      assert Holds(ex.img, g, rva, count) ==> Holds(ex.img, g, rva, 1);
    }
  }

  /** Section `i` begins inside the `n` bytes after `rva`. */
  predicate BeginsWithin(img: Image, i: int, rva: int, n: nat) {
    0 <= i < |img.sections| && img.sections[i].rawSize > 0 && rva < img.sections[i].address <= rva + n
  }

  /**
   Every single byte of a string is unambiguous, as the comment of `export_bytes` asks of
   every subrange, if and only if no section begins inside the string.
   */
  lemma ExportStringBytesExactly(ex: Exports, rva: int)
    requires ValidExports(ex) && ExportString(ex, rva).Some?
    ensures var s := ExportString(ex, rva).value;
            (forall p :: rva <= p <= rva + |s| ==> RvaOffset(ex.img, p, 1).Some?) <==>
              forall i :: !BeginsWithin(ex.img, i, rva, |s|)
  {
    var s := ExportString(ex, rva).value;
    var c := DirectoryHolder(ex);
    LongerHasOneHolder(ex, c, rva, |s| + 1);
    LongerHasOneHolder(ex, c, rva, 1);
    hide ExportString, RvaOffset, ExportBytes, OnlyHolder;
    forall i | BeginsWithin(ex.img, i, rva, |s|) ensures RvaOffset(ex.img, ex.img.sections[i].address, 1).None? {
      SectionShadows(ex.img, c, rva, |s|, i);
    }
    if forall i :: !BeginsWithin(ex.img, i, rva, |s|) {
      forall p | rva <= p <= rva + |s| ensures RvaOffset(ex.img, p, 1).Some? { NothingShadows(ex.img, c, rva, |s|, p); }
    }
  }

  lemma SectionShadows(img: Image, c: int, rva: int, n: nat, i: int)
    requires OnlyHolder(img, c, rva, 1) && Holds(img, c, rva, n + 1) && BeginsWithin(img, i, rva, n)
    ensures RvaOffset(img, img.sections[i].address, 1).None?
  {
    hide RvaOffset;
    var a := img.sections[i].address;
    RvaOffsetExactly(img, a, 1);
    assert Holds(img, i, a, 1) && Holds(img, c, a, 1) && !Holds(img, i, rva, 1);
  }

  lemma NothingShadows(img: Image, c: int, rva: int, n: nat, p: int)
    requires OnlyHolder(img, c, rva, 1) && Holds(img, c, rva, n + 1) && 0 < rva && rva + n < img.imageSize
    requires rva <= p <= rva + n && forall i :: !BeginsWithin(img, i, rva, n)
    ensures RvaOffset(img, p, 1).Some?
  {
    hide RvaOffset;
    RvaOffsetExactly(img, p, 1);
    forall g ensures Holds(img, g, p, 1) ==> g == c {
      assert !BeginsWithin(img, g, rva, n);
      assert Holds(img, g, p, 1) ==> Holds(img, g, rva, 1);
    }
    assert OnlyHolder(img, c, p, 1);
  }

  predicate Printable(s: seq<Byte>) {
    forall i :: 0 <= i < |s| ==> 33 <= s[i] <= 126
  }

  // ---------------------------------------------------------------- forwarder strings

  const DOT: Byte := 0x2E
  const HASH: Byte := 0x23

  predicate Digit(b: Byte) { 0x30 <= b <= 0x39 }

  predicate NameByte(b: Byte) {
    Digit(b) || 0x41 <= b <= 0x5A || 0x61 <= b <= 0x7A || b == 0x5F || b == 0x2B || b == DOT || b == 0x2D
  }

  predicate IsName(s: seq<Byte>) {
    s != [] && forall i :: 0 <= i < |s| ==> NameByte(s[i])
  }

  function Decimal(s: seq<Byte>): int {
    if s == [] then 0 else 10 * Decimal(s[..|s| - 1]) + (s[|s| - 1] as int - 0x30)
  }

  predicate IsSymbol(s: seq<Byte>) {
    && s != []
    && (s[0] == HASH ==>
          && 2 <= |s| <= 6 && (forall i :: 1 <= i < |s| ==> Digit(s[i]))
          && 1 <= Decimal(s[1..]) <= 65535)
  }

  /** `module.symbol`, split at the last dot. */
  predicate IsForwarder(s: seq<Byte>) {
    exists d :: 0 <= d < |s| && s[d] == DOT && DOT !in s[d + 1..]
             && IsName(s[..d]) && !TwoDots(s[..d]) && IsSymbol(s[d + 1..])
  }

  predicate TwoDots(s: seq<Byte>) {
    exists i :: 0 <= i && i + 1 < |s| && s[i] == DOT && s[i + 1] == DOT
  }

  /** The position of the last dot of `s`, or -1. */
  function LastDot(s: seq<Byte>): (d: int)
    ensures -1 <= d < |s|
    ensures d >= 0 ==> s[d] == DOT
    ensures forall i :: d < i < |s| ==> s[i] != DOT
  {
    if s == [] then -1 else if s[|s| - 1] == DOT then |s| - 1 else LastDot(s[..|s| - 1])
  }

  /** The test on one forwarded name, after `rpartition`. */
  predicate ForwarderOk(s: seq<Byte>) {
    var d := LastDot(s);
    d >= 0 && IsSymbol(s[d + 1..]) && IsName(s[..d]) && !TwoDots(s[..d])
  }

  lemma ForwarderExactly(s: seq<Byte>)
    ensures ForwarderOk(s) <==> IsForwarder(s)
  {
    var d := LastDot(s);
    assert d >= 0 ==> DOT !in s[d + 1..];
    forall e | 0 <= e < |s| && s[e] == DOT && DOT !in s[e + 1..] ensures e == d {
      assert forall i :: e < i < |s| ==> s[i] == s[e + 1..][i - e - 1];
    }
  }

  // ---------------------------------------------------------------- forwarder-only images

  function FunctionCount(ex: Exports): nat requires |ex.bytes| >= 40 { U32(ex.bytes, 20) }

  function NameCount(ex: Exports): nat requires |ex.bytes| >= 40 { U32(ex.bytes, 24) }

  function Functions(ex: Exports): Option<seq<Byte>> requires |ex.bytes| >= 40 {
    ExportBytes(ex, U32(ex.bytes, 28), 4 * FunctionCount(ex))
  }

  function Names(ex: Exports): Option<seq<Byte>> requires |ex.bytes| >= 40 {
    ExportBytes(ex, U32(ex.bytes, 32), 4 * NameCount(ex))
  }

  function Ordinals(ex: Exports): Option<seq<Byte>> requires |ex.bytes| >= 40 {
    ExportBytes(ex, U32(ex.bytes, 36), 2 * NameCount(ex))
  }

  /** The entry is empty, or names a forwarder inside the directory. */
  predicate EntryOk(ex: Exports, rva: int) {
    rva == 0 || (ExportString(ex, rva).Some? && IsForwarder(ExportString(ex, rva).value))
  }

  predicate NameOk(ex: Exports, functions: seq<Byte>, rva: int, ordinal: nat) {
    ExportString(ex, rva).Some? && 4 * ordinal + 4 <= |functions| && U32(functions, 4 * ordinal) != 0
  }

  /** Every export is a forwarder, there is one, and every name belongs to one. */
  ghost predicate PureForwarders(ex: Exports)
    requires |ex.bytes| >= 40
  {
    && 1 <= FunctionCount(ex) <= 65536 && NameCount(ex) <= FunctionCount(ex)
    && U32(ex.bytes, 16) + FunctionCount(ex) <= 0x1_0000_0000
    && ExportString(ex, U32(ex.bytes, 12)).Some? && IsName(ExportString(ex, U32(ex.bytes, 12)).value)
    && Functions(ex).Some?
    && (forall i :: 0 <= i < FunctionCount(ex) ==> EntryOk(ex, U32(Functions(ex).value, 4 * i)))
    && Count(Functions(ex).value, FunctionCount(ex)) > 0
    && (NameCount(ex) > 0 ==>
          && Names(ex).Some? && Ordinals(ex).Some?
          && forall i :: 0 <= i < NameCount(ex) ==>
               NameOk(ex, Functions(ex).value, U32(Names(ex).value, 4 * i), U16(Ordinals(ex).value, 2 * i)))
  }

  /** How many of the first `n` entries are not empty. */
  function Count(functions: seq<Byte>, n: nat): nat
    requires 4 * n <= |functions|
  {
    if n == 0 then 0 else Count(functions, n - 1) + (if U32(functions, 4 * (n - 1)) != 0 then 1 else 0)
  }

  /** The loop over the function table. */
  method CountForwarders(ex: Exports, functions: seq<Byte>, n: nat) returns (ok: bool, forwarders: nat)
    requires 4 * n == |functions|
    ensures ok <==> forall i :: 0 <= i < n ==> EntryOk(ex, U32(functions, 4 * i))
    ensures ok ==> forwarders == Count(functions, n)
  {
    hide ExportString, IsForwarder, U32;
    forwarders := 0;
    for i := 0 to n
      invariant forall j :: 0 <= j < i ==> EntryOk(ex, U32(functions, 4 * j))
      invariant forwarders == Count(functions, i)
    {
      var rva := U32(functions, 4 * i);
      if rva == 0 { continue; }
      var text := ExportString(ex, rva);
      if text.Some? { ForwarderExactly(text.value); }
      if text.None? || !ForwarderOk(text.value) { return false, forwarders; }
      forwarders := forwarders + 1;
    }
    return true, forwarders;
  }

  /** The loop over the named exports. */
  method CheckNames(ex: Exports, functions: seq<Byte>, names: seq<Byte>, ordinals: seq<Byte>, n: nat) returns (ok: bool)
    requires |functions| % 4 == 0 && |names| == 4 * n && |ordinals| == 2 * n
    ensures ok <==> forall i :: 0 <= i < n ==> NameOk(ex, functions, U32(names, 4 * i), U16(ordinals, 2 * i))
  {
    for i := 0 to n
      invariant forall j :: 0 <= j < i ==> NameOk(ex, functions, U32(names, 4 * j), U16(ordinals, 2 * j))
    {
      var ordinal := U16(ordinals, 2 * i);
      var ok' := CheckName(ex, functions, U32(names, 4 * i), ordinal);
      if !ok' { return false; }
    }
    return true;
  }

  method CheckName(ex: Exports, functions: seq<Byte>, rva: int, ordinal: nat) returns (ok: bool)
    requires |functions| % 4 == 0
    ensures ok <==> NameOk(ex, functions, rva, ordinal)
  {
    if ExportString(ex, rva).None? { return false; }
    if ordinal >= |functions| / 4 || U32(functions, 4 * ordinal) == 0 { return false; }
    return true;
  }

  /** The export directory the optional header points to, as the audit reads it. */
  function ExportsOf(img: Image, o: seq<Byte>): (r: Option<Exports>)
    requires ValidImage(img) && |o| >= 200
    ensures r.Some? ==> ValidExports(r.value)
  {
    var rva, size := U32(o, 112), U32(o, 116);
    if !(40 <= size <= MEGABYTE) || RvaOffset(img, rva, size).None? then None
    else
      RvaOffsetInFile(img, rva, size);
      var off := RvaOffset(img, rva, size).value;
      Some(Exports(img, rva, img.file[off..off + size]))
  }

  /** No code, no entry point: the three words of the optional header that would name some are zero. */
  predicate NoEntry(o: seq<Byte>)
    requires |o| >= 200
  {
    U32(o, 4) == 0 && U32(o, 16) == 0 && U32(o, 20) == 0
  }

  predicate Inert(o: seq<Byte>, i: nat)
    requires 112 + 8 * i + 8 <= |o|
  {
    i in {0, 2, 4, 6} || (U32(o, 112 + 8 * i) == 0 && U32(o, 112 + 8 * i + 4) == 0)
  }

  ghost predicate InertDirectories(o: seq<Byte>, n: nat)
    requires 112 + 8 * n <= |o|
  {
    forall i :: 0 <= i < n ==> Inert(o, i)
  }

  method CheckDirectories(o: seq<Byte>, n: nat) returns (ok: bool)
    requires 112 + 8 * n <= |o|
    ensures ok <==> InertDirectories(o, n)
  {
    hide U32;
    for i := 0 to n
      invariant InertDirectories(o, i)
    {
      if !Inert(o, i) { return false; }
    }
    return true;
  }

  ghost function ForwarderEvidence(img: Image, o: seq<Byte>, directories: nat): Option<Evidence>
    requires ValidImage(img) && |o| >= 200 && 112 + 8 * directories <= |o|
  {
    if HasCode(img.sections) || !NoEntry(o) || !InertDirectories(o, directories) then None
    else
      var ex := ExportsOf(img, o);
      if ex.None? || !PureForwarders(ex.value) then None
      else Some(ForwarderOnly(Count(Functions(ex.value).value, FunctionCount(ex.value))))
  }

  method FindForwarders(img: Image, executable: bool, o: seq<Byte>, directories: nat) returns (r: Option<Evidence>)
    requires ValidImage(img) && |o| >= 200 && 112 + 8 * directories <= |o| && (executable <==> HasCode(img.sections))
    ensures r == ForwarderEvidence(img, o, directories)
  {
    hide HasCode, ExportString, ExportBytes, EntryOk, NameOk, Inert;
    if executable || !NoEntry(o) { return None; }
    var inert := CheckDirectories(o, directories);
    if !inert { return None; }
    var found := ExportsOf(img, o);
    if found.None? { return None; }
    r := AuditExports(found.value);
  }

  method AuditExports(ex: Exports) returns (r: Option<Evidence>)
    requires |ex.bytes| >= 40
    ensures r == if PureForwarders(ex) then Some(ForwarderOnly(Count(Functions(ex).value, FunctionCount(ex)))) else None
  {
    hide ExportString, ExportBytes, EntryOk, NameOk, IsName, U16, Count;
    var functionCount, nameCount := FunctionCount(ex), NameCount(ex);
    if !(1 <= functionCount <= 65536) || nameCount > functionCount
       || U32(ex.bytes, 16) + functionCount > 0x1_0000_0000 {
      return None;
    }
    var name := ExportString(ex, U32(ex.bytes, 12));
    if name.None? || !IsName(name.value) { return None; }
    var functions := Functions(ex);
    if functions.None? { return None; }
    var ok, forwarders := CountForwarders(ex, functions.value, functionCount);
    if !ok || forwarders == 0 { return None; }
    if nameCount > 0 {
      var names, ordinals := Names(ex), Ordinals(ex);
      if names.None? || ordinals.None? { return None; }
      ok := CheckNames(ex, functions.value, names.value, ordinals.value, nameCount);
      if !ok { return None; }
    }
    return Some(ForwarderOnly(forwarders));
  }

  // ---------------------------------------------------------------- CHPE images

  /** `b` is what the file holds of the range at `rva`, which is mapped without ambiguity. */
  ghost predicate Mapped(img: Image, rva: int, b: seq<Byte>) {
    && 0 < rva && 0 < |b| && rva + |b| <= img.imageSize
    && exists h :: OnlyHolder(img, h, rva, |b|) && InFile(img, OffsetIn(img, h, rva), b)
  }

  predicate InFile(img: Image, off: int, b: seq<Byte>) {
    0 <= off && off + |b| <= |img.file| && img.file[off..off + |b|] == b
  }

  /**
   A CHPE image, from the structures of the load configuration: a mapped configuration
   that declares its size, in it the address of mapped metadata of a known version, and
   in that a code map that is mapped if it is not empty.
   */
  ghost predicate IsChpe(img: Image, o: seq<Byte>, config: seq<Byte>, metadata: seq<Byte>)
    requires |o| >= 200
  {
    && Mapped(img, U32(o, 192), config) && |config| == U32(o, 196)
    && 208 <= |config| <= 4096 && 208 <= U32(config, 0) <= |config|
    && Mapped(img, U64(config, 200) - U64(o, 24), metadata) && |metadata| == 12
    && 1 <= U32(metadata, 0) <= 2 && U32(metadata, 8) <= MEGABYTE
    && (U32(metadata, 8) > 0 ==>
        exists codeMap :: Mapped(img, U32(metadata, 4), codeMap) && |codeMap| == 8 * U32(metadata, 8))
  }

  ghost predicate HasChpe(img: Image, o: seq<Byte>, version: nat, entries: nat)
    requires |o| >= 200
  {
    exists config, metadata ::
      IsChpe(img, o, config, metadata) && U32(metadata, 0) == version && U32(metadata, 8) == entries
  }

  ghost predicate Maps(img: Image, rva: int, count: int) {
    exists b :: Mapped(img, rva, b) && |b| == count
  }

  /** `read_at` of what `rva_offset` returns: the mapped bytes, when there are any. */
  method ReadMapped(img: Image, rva: int, count: int) returns (r: Option<seq<Byte>>)
    requires ValidImage(img)
    ensures r.Some? ==> |r.value| == count && Mapped(img, rva, r.value)
    ensures r.Some? <==> Maps(img, rva, count)
  {
    hide RvaOffset, OnlyHolder, Holds, OffsetIn;
    RvaOffsetExactly(img, rva, count);
    var off := RvaOffset(img, rva, count);
    if off.None? { return None; }
    RvaOffsetInFile(img, rva, count);
    HolderGives(img, rva, count);
    var b := img.file[off.value..off.value + count];
    assert InFile(img, off.value, b);
    return Some(b);
  }

  lemma HolderGives(img: Image, rva: int, count: int)
    requires RvaOffset(img, rva, count).Some?
    ensures exists h :: OnlyHolder(img, h, rva, count) && OffsetIn(img, h, rva) == RvaOffset(img, rva, count).value
  {
    hide RvaOffset, Holds;
    RvaOffsetExactly(img, rva, count);
    var h :| OnlyHolder(img, h, rva, count);
    HolderInRange(img, h, rva, count);
  }

  lemma HolderInRange(img: Image, h: int, rva: int, count: int)
    requires Holds(img, h, rva, count)
    ensures h == -1 || 0 <= h < |img.sections|
  {}

  /** There is one such string of bytes. */
  lemma MappedOnce(img: Image, rva: int, b: seq<Byte>, c: seq<Byte>)
    requires Mapped(img, rva, b) && Mapped(img, rva, c) && |b| == |c|
    ensures b == c
  {
    hide SectionHolds;
    var h :| OnlyHolder(img, h, rva, |b|) && InFile(img, OffsetIn(img, h, rva), b);
    var g :| OnlyHolder(img, g, rva, |c|) && InFile(img, OffsetIn(img, g, rva), c);
    assert Holds(img, g, rva, |b|);
  }

  /** The load configuration of `arm64ec_image_evidence`. */
  method FindChpe(img: Image, o: seq<Byte>) returns (r: Option<Evidence>)
    requires ValidImage(img) && |o| >= 200
    ensures r.Some? ==> r.value.Chpe?
    ensures forall version, entries :: r == Some(Chpe(version, entries)) <==> HasChpe(img, o, version, entries)
  {
    hide Mapped, U32, U64, ValidImage;
    var rva, size := U32(o, 192), U32(o, 196);
    if !(208 <= size <= 4096) { return None; }
    var config := ReadMapped(img, rva, size);
    if config.None? { return None; }
    var declared := U32(config.value, 0);
    if !(208 <= declared <= size) { OneConfig(img, o, config.value); return None; }
    var metadata := ReadMapped(img, U64(config.value, 200) - U64(o, 24), 12);
    if metadata.None? { OneConfig(img, o, config.value); return None; }
    OneChpe(img, o, config.value, metadata.value);
    var version, codeMap, entries := U32(metadata.value, 0), U32(metadata.value, 4), U32(metadata.value, 8);
    if !(version == 1 || version == 2) || entries > MEGABYTE { return None; }
    if entries > 0 {
      var table := ReadMapped(img, codeMap, 8 * entries);
      if table.None? { return None; }
    }
    assert IsChpe(img, o, config.value, metadata.value);
    return Some(Chpe(version, entries));
  }

  lemma OneConfig(img: Image, o: seq<Byte>, config: seq<Byte>)
    requires |o| >= 200 && Mapped(img, U32(o, 192), config) && |config| == U32(o, 196)
    ensures forall c, m :: IsChpe(img, o, c, m) ==> c == config
  {
    hide Mapped, U32, U64;
    forall c, m | IsChpe(img, o, c, m) ensures c == config { MappedOnce(img, U32(o, 192), c, config); }
  }

  /** Configuration and metadata are determined by the image. */
  lemma OneChpe(img: Image, o: seq<Byte>, config: seq<Byte>, metadata: seq<Byte>)
    requires |o| >= 200 && Mapped(img, U32(o, 192), config) && |config| == U32(o, 196) >= 208
    requires Mapped(img, U64(config, 200) - U64(o, 24), metadata) && |metadata| == 12
    ensures forall c, m :: IsChpe(img, o, c, m) ==> c == config && m == metadata
  {
    hide Mapped, U32, U64;
    OneConfig(img, o, config);
    forall c, m | IsChpe(img, o, c, m) ensures m == metadata {
      MappedOnce(img, U64(config, 200) - U64(o, 24), m, metadata);
    }
  }

  // ---------------------------------------------------------------- the whole image

  /** The header checks of `arm64ec_image_evidence`. */
  predicate HeadersOk(f: seq<Byte>) {
    && Pe.HasCoff(f)
    && 1 <= Pe.SectionCount(f) <= 96 && 200 <= Pe.OptionalSize(f) <= 4096
    && Pe.TableAt(f) <= |f|
    && var o := OptionalOf(f);
       && U16(o, 0) == 0x20B
       && 11 <= U32(o, 108) <= (|o| - 112) / 8
       && Pe.TableAt(f) + 40 * Pe.SectionCount(f) <= U32(o, 60)
       && U32(o, 60) <= |f| && U32(o, 60) <= U32(o, 56)
  }

  function OptionalOf(f: seq<Byte>): (o: seq<Byte>)
    requires Pe.HasCoff(f) && Pe.TableAt(f) <= |f|
    ensures |o| == Pe.OptionalSize(f)
  {
    f[Pe.OptionalAt(f)..Pe.TableAt(f)]
  }

  function ImageOf(f: seq<Byte>): Image
    requires HeadersOk(f)
  {
    Image(f, U32(OptionalOf(f), 56), U32(OptionalOf(f), 60), SectionTable(f, Pe.TableAt(f), Pe.SectionCount(f)))
  }

  /** What kind of arm64ec image `f` is, if it is one. */
  ghost predicate IsEvidence(f: seq<Byte>, e: Evidence) {
    && HeadersOk(f) && ValidImage(ImageOf(f))
    && var o := OptionalOf(f);
       if U32(o, 192) == 0 && U32(o, 196) == 0 then ForwarderEvidence(ImageOf(f), o, U32(o, 108)) == Some(e)
       else e.Chpe? && HasChpe(ImageOf(f), o, e.version, e.codeMapEntries)
  }

  /** `read_at`. */
  method ReadAt(f: seq<Byte>, offset: nat, count: nat) returns (r: Option<seq<Byte>>)
    ensures r == if offset + count <= |f| then Some(f[offset..offset + count]) else None
  {
    if offset > |f| || count > |f| - offset { return None; }
    return Some(f[offset..offset + count]);
  }

  /** The header checks of `arm64ec_image_evidence`, on the bytes it is handed. */
  method ReadHeaders(f: seq<Byte>, pe: nat, coff: seq<Byte>) returns (ok: bool, o: seq<Byte>)
    requires Pe.HasCoff(f) && pe == Pe.PeAt(f) && coff == f[pe..pe + 24]
    ensures ok <==> HeadersOk(f)
    ensures ok ==> o == OptionalOf(f)
  {
    hide U16, U32;
    Pe.CoffFields(f, coff);
    o := [];
    var count, size := U16(coff, 6), U16(coff, 20);
    if !(1 <= count <= 96) || !(200 <= size <= 4096) { return false, o; }
    var read := ReadAt(f, pe + 24, size);
    if read.None? { return false, o; }
    o := read.value;
    if U16(o, 0) != 0x20B { return false, o; }
    var directories := U32(o, 108);
    if !(11 <= directories <= (size - 112) / 8) { return false, o; }
    var imageSize, headersSize := U32(o, 56), U32(o, 60);
    var smaller := if |f| < imageSize then |f| else imageSize;
    return pe + 24 + size + 40 * count <= headersSize <= smaller, o;
  }

  /** `arm64ec_image_evidence`. */
  method ImageEvidence(f: seq<Byte>, pe: nat, coff: seq<Byte>) returns (r: Option<Evidence>)
    requires Pe.HasCoff(f) && pe == Pe.PeAt(f) && coff == f[pe..pe + 24]
    ensures forall e :: r == Some(e) <==> IsEvidence(f, e)
  {
    hide Executable, SectionAt, ForwarderEvidence, HasChpe, Fits, HasCode, SectionTable, U16, U32, Pe.HasCoff,
      OptionalOf;
    var ok, o := ReadHeaders(f, pe, coff);
    if !ok { return None; }
    Pe.CoffFields(f, coff);
    var sections, executable;
    ok, sections, executable := ReadSections(f, pe + 24 + |o|, U16(coff, 6), U32(o, 56));
    if !ok { return None; }
    var img := Image(f, U32(o, 56), U32(o, 60), sections);
    if U32(o, 192) == 0 && U32(o, 196) == 0 {
      r := FindForwarders(img, executable, o, U32(o, 108));
    } else {
      r := FindChpe(img, o);
    }
  }

  /** An image is of one kind only. */
  lemma OneEvidence(f: seq<Byte>, a: Evidence, b: Evidence)
    requires IsEvidence(f, a) && IsEvidence(f, b)
    ensures a == b
  {
    var o, img := OptionalOf(f), ImageOf(f);
    assert |o| >= 200;
    hide ForwarderEvidence, Mapped, U64, U32, HeadersOk, ValidImage, ImageOf, OptionalOf;
    if !(U32(o, 192) == 0 && U32(o, 196) == 0) {
      var c, m :| IsChpe(img, o, c, m) && U32(m, 0) == a.version && U32(m, 8) == a.codeMapEntries;
      OneChpe(img, o, c, m);
    }
  }

  /** What `inspect_build` accepts for the arm64ec architecture. */
  ghost predicate AcceptsArm64ec(f: seq<Byte>) {
    && Pe.HasCoff(f) && Pe.PeAt(f) <= MEGABYTE
    && Pe.Machine(f) in {0x8664, 0xAA64}
    && Pe.Characteristics(f) / 0x2000 % 2 == 1
    && exists e :: IsEvidence(f, e) && (Pe.Machine(f) == 0xAA64 ==> e.ForwarderOnly?)
  }

  /** The checks of `inspect_build` on one target built for arm64ec. */
  method InspectBuild(f: seq<Byte>) returns (r: Option<Evidence>)
    ensures r.Some? <==> AcceptsArm64ec(f)
    ensures r.Some? ==> IsEvidence(f, r.value)
  {
    hide IsEvidence;
    if |f| < 64 || f[..2] != [0x4D, 0x5A] { return None; }
    var offset := U32(f, 60);
    if offset < 64 || offset > MEGABYTE { return None; }
    if offset + 24 > |f| || f[offset..offset + 4] != [0x50, 0x45, 0, 0] { return None; }
    var machine := U16(f, offset + 4);
    if machine !in {0x8664, 0xAA64} { return None; }
    if U16(f, offset + 22) / 0x2000 % 2 == 0 { return None; }
    r := ImageEvidence(f, offset, f[offset..offset + 24]);
    if r.Some? && machine == 0xAA64 && !r.value.ForwarderOnly? { return None; }
  }

  /**
   The two parsers agree: an image accepted as arm64ec passes the preflight of the app,
   which reports the same machine and section count, PE32+ and a DLL; a forwarder-only
   image has no entry point and is not managed.
   */
  lemma ParsersAgree(f: seq<Byte>, e: Evidence)
    requires AcceptsArm64ec(f) && IsEvidence(f, e)
    ensures Pe.Accepts(f)
    ensures var info := Pe.InfoOf(f);
            && info.machine == Pe.Machine(f) && info.machine in {0x8664, 0xAA64}
            && info.sections == |ImageOf(f).sections| && info.imageSize == ImageOf(f).imageSize
            && info.pe32Plus && info.isDll
            && (info.machine == 0xAA64 ==> e.ForwarderOnly?)
            && (e.ForwarderOnly? ==> info.entryRva == 0 && !info.managed)
  {
    HeadersAgree(f);
    if e.ForwarderOnly? { ForwardersAgree(f, e); }
    var e' :| IsEvidence(f, e') && (Pe.Machine(f) == 0xAA64 ==> e'.ForwarderOnly?);
    OneEvidence(f, e, e');
    hide IsEvidence, Pe.Consistent;
  }

  lemma HeadersAgree(f: seq<Byte>)
    requires HeadersOk(f) && Pe.Machine(f) in {0x8664, 0xAA64}
    ensures Pe.Accepts(f) && Pe.Optional(f) == OptionalOf(f)
    ensures Pe.Magic(Pe.Optional(f)) == 0x20B
  {}

  lemma ForwardersAgree(f: seq<Byte>, e: Evidence)
    requires HeadersOk(f) && Pe.Accepts(f) && Pe.Optional(f) == OptionalOf(f)
    requires IsEvidence(f, e) && e.ForwarderOnly?
    ensures Pe.InfoOf(f).entryRva == 0 && !Pe.InfoOf(f).managed
  {
    hide PureForwarders, ValidImage, HasCode;
    var o := OptionalOf(f);
    if U32(o, 108) > 14 { assert Inert(o, 14); }
  }
}
