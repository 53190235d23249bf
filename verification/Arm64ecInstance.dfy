/**
 A whole file for scripts/verify_graphics_api.py: a code-free forwarder of 416 bytes. It
 is accepted as arm64ec, and its second section begins inside its one forwarder string.
 */
module Arm64ecInstance {
  import opened Bytes
  import opened Arm64ec
  import Pe = PeInspect

  /** The bytes that are not zero. */
  function ByteAt(i: int): Byte {
    match i
    case 0 => 0x4D     // DOS header
    case 1 => 0x5A
    case 60 => 64
    case 64 => 0x50    // COFF header: AMD64, two sections, an optional header of 200 bytes, a DLL
    case 65 => 0x45
    case 68 => 0x64
    case 69 => 0x86
    case 70 => 2
    case 84 => 200
    case 87 => 0x20
    case 88 => 0x0B    // optional header: PE32+, image size 0x2000, headers 368, 11 directories
    case 89 => 0x02
    case 145 => 0x20
    case 148 => 0x70
    case 149 => 0x01
    case 196 => 11
    case 201 => 0x10   // exports: 48 bytes at 0x1000
    case 204 => 48
    case 296 => 48     // first section: 48 bytes at 0x1000, in the file at 368
    case 301 => 0x10
    case 304 => 48
    case 308 => 0x70
    case 309 => 0x01
    case 336 => 1      // second section: one byte at 0x102D, in the file at 0
    case 340 => 0x2D
    case 341 => 0x10
    case 344 => 1
    case 380 => 0x2C   // export directory: module name at 0x102C, one function at 0x1028
    case 381 => 0x10
    case 388 => 1
    case 396 => 0x28
    case 397 => 0x10
    case 408 => 0x2C   // the function is the forwarder at 0x102C
    case 409 => 0x10
    case 412 => 0x41   // "A.B"
    case 413 => 0x2E
    case 414 => 0x42
    case _ => 0
  }

  function FileBytes(): (f: seq<Byte>)
    ensures |f| == 416 && forall i :: 0 <= i < 416 ==> f[i] == ByteAt(i)
  {
    seq(416, i => ByteAt(i))
  }

  const FIRST: Section := Section(0x1000, 48, 48, 368, 0)
  const SECOND: Section := Section(0x102D, 1, 1, 0, 0)
  const FORWARDER: seq<Byte> := [0x41, 0x2E, 0x42]

  function TheImage(): Image {
    Image(FileBytes(), 0x2000, 368, [FIRST, SECOND])
  }

  function TheExports(): Exports {
    Exports(TheImage(), 0x1000, FileBytes()[368..416])
  }

  // ---------------------------------------------------------------- headers

  /** A field of the file, from its bytes. */
  lemma Word(i: nat)
    requires i + 4 <= 416
    ensures U16(FileBytes(), i) == ByteAt(i) + 0x100 * ByteAt(i + 1)
    ensures U32(FileBytes(), i)
        == ByteAt(i) + 0x100 * ByteAt(i + 1) + 0x1_0000 * ByteAt(i + 2) + 0x100_0000 * ByteAt(i + 3)
  {
    hide ByteAt;
  }

  lemma CoffOfFile()
    ensures var f := FileBytes();
            && Pe.HasCoff(f) && Pe.PeAt(f) == 64
            && Pe.Machine(f) == 0x8664 && Pe.SectionCount(f) == 2
            && Pe.OptionalSize(f) == 200 && Pe.Characteristics(f) == 0x2000
  {
    hide U16, U32;
    var f := FileBytes();
    assert f[64..68] == [0x50, 0x45, 0, 0];
    Word(60);
    Word(68);
    Word(70);
    Word(84);
    Word(86);
  }

  lemma WindowOfFile()
    ensures Pe.HasCoff(FileBytes()) && Pe.TableAt(FileBytes()) == 288 && |OptionalOf(FileBytes())| == 200
    ensures forall i :: 0 <= i && i + 2 <= 200 ==> U16(OptionalOf(FileBytes()), i) == U16(FileBytes(), 88 + i)
    ensures forall i :: 0 <= i && i + 4 <= 200 ==> U32(OptionalOf(FileBytes()), i) == U32(FileBytes(), 88 + i)
  {
    hide ByteAt, U16, U32;
    CoffOfFile();
    hide Pe.HasCoff;
    var f, o := FileBytes(), OptionalOf(FileBytes());
    assert o[..200] == f[88..288];
    FieldsInWindow(f, o, 88, 200);
  }

  /** The fields of the optional header that the audit looks at. */
  lemma OptionalOfFile()
    ensures var f := FileBytes();
            && Pe.HasCoff(f) && Pe.TableAt(f) == 288
            && var o := OptionalOf(f);
               && |o| == 200 && U16(o, 0) == 0x20B
               && U32(o, 56) == 0x2000 && U32(o, 60) == 368 && U32(o, 108) == 11
               && U32(o, 112) == 0x1000 && U32(o, 116) == 48
               && U32(o, 192) == 0 && U32(o, 196) == 0
  {
    hide U16, U32, OptionalOf, Pe.HasCoff, Pe.TableAt, FileBytes;
    WindowOfFile();
    Word(88);
    Word(144);
    Word(148);
    Word(196);
    Word(200);
    Word(204);
    Word(280);
    Word(284);
  }

  lemma InertOfFile()
    ensures Pe.HasCoff(FileBytes()) && Pe.TableAt(FileBytes()) == 288
    ensures var o := OptionalOf(FileBytes()); |o| == 200 && NoEntry(o) && InertDirectories(o, 11)
  {
    hide U16, U32, OptionalOf, Pe.HasCoff, Pe.TableAt, FileBytes;
    WindowOfFile();
    Word(92);
    Word(104);
    Word(108);
    forall i | 0 <= i < 11 ensures Inert(OptionalOf(FileBytes()), i) {
      if i > 0 {
        Word(88 + (112 + 8 * i));
        Word(88 + (112 + 8 * i + 4));
        NothingBetween();
        hide ByteAt;
      }
    }
  }

  lemma NothingBetween()
    ensures forall i :: 205 <= i < 296 ==> ByteAt(i) == 0
  {}

  lemma FirstOfFile()
    ensures SectionAt(FileBytes(), 288) == FIRST
  {
    hide U32, U16, FileBytes;
    Word(296);
    Word(300);
    Word(304);
    Word(308);
    Word(324);
  }

  lemma SecondOfFile()
    ensures SectionAt(FileBytes(), 328) == SECOND
  {
    hide U32, U16, FileBytes;
    Word(336);
    Word(340);
    Word(344);
    Word(348);
    Word(364);
  }

  lemma ImageOfFile()
    ensures var f := FileBytes();
            HeadersOk(f) && ImageOf(f) == TheImage() && ValidImage(TheImage()) && !HasCode(TheImage().sections)
  {
    hide ByteAt, U32, U16, SectionAt;
    OptionalOfFile();
    CoffOfFile();
    FirstOfFile();
    SecondOfFile();
    hide Pe.HasCoff, OptionalOf;
    assert SectionTable(FileBytes(), 288, 2) == [FIRST, SECOND];
  }

  // ---------------------------------------------------------------- mappings

  lemma CandidatesOfFile(rva: int, count: int)
    requires rva >= 0x1000 && count > 0
    ensures Candidates(TheImage(), rva, count) ==
            (if rva - 0x1000 + count <= 48 then [368 + rva - 0x1000] else [])
            + (if 0x102D <= rva && rva - 0x102D + count <= 1 then [rva - 0x102D] else [])
  {
    var two := [FIRST, SECOND];
    assert two[1..] == [SECOND] && [SECOND][1..] == [];
    assert SectionCandidates([], rva, count) == [];
    assert SectionCandidates([SECOND], rva, count) ==
           if 0x102D <= rva && rva - 0x102D + count <= 1 then [rva - 0x102D] else [];
  }

  lemma MapsOfFile()
    ensures var img := TheImage();
            && RvaOffset(img, 0x1000, 48) == Some(368) && RvaOffset(img, 0x1028, 4).Some?
            && RvaOffset(img, 0x102C, 1).Some? && RvaOffset(img, 0x102D, 1) == None
  {
    hide Candidates;
    CandidatesOfFile(0x1000, 48);
    CandidatesOfFile(0x1028, 4);
    CandidatesOfFile(0x102C, 1);
    CandidatesOfFile(0x102D, 1);
  }

  // ---------------------------------------------------------------- exports

  lemma ExportFields()
    ensures var b := FileBytes()[368..416];
            && |b| == 48 && U32(b, 12) == 0x102C && U32(b, 16) == 0 && U32(b, 20) == 1 && U32(b, 24) == 0
            && U32(b, 28) == 0x1028 && U32(b, 40) == 0x102C
            && b[44] == 0x41 && b[45] == 0x2E && b[46] == 0x42 && b[47] == 0
  {
    hide U16, U32;
    var f := FileBytes();
    var b := f[368..416];
    assert b[..48] == f[368..416];
    FieldsInWindow(f, b, 368, 48);
    Word(380);
    Word(384);
    Word(388);
    Word(392);
    Word(396);
    Word(408);
  }

  lemma StringOfFile()
    ensures ExportString(TheExports(), 0x102C) == Some(FORWARDER)
  {
    hide RvaOffset, ByteAt, U32;
    var b := FileBytes()[368..416];
    MapsOfFile();
    ExportFields();
    hide FileBytes;
    assert b[44..47] == FORWARDER;
    assert FindNul(b, 47, 48) == 47 && FindNul(b, 46, 48) == 47 && FindNul(b, 45, 48) == 47 && FindNul(b, 44, 48) == 47;
    assert ExportBytes(TheExports(), 0x102C, 1).Some?;
  }

  lemma ForwarderIsOne()
    ensures IsForwarder(FORWARDER) && IsName(FORWARDER)
  {
    var s := FORWARDER;
    assert s[1] == DOT && s[1 + 1..] == [0x42] && s[..1] == [0x41];
  }

  lemma PureOfFile()
    ensures var ex := TheExports();
            |ex.bytes| >= 40 && PureForwarders(ex) && Count(Functions(ex).value, FunctionCount(ex)) == 1
  {
    hide RvaOffset, ByteAt, ExportString, IsForwarder, IsName, U16, U32;
    var ex := TheExports();
    ExportFields();
    StringOfFile();
    ForwarderIsOne();
    MapsOfFile();
    hide FileBytes, TheImage;
    var functions := Functions(ex).value;
    assert functions[..4] == ex.bytes[40..44];
    FieldsInWindow(ex.bytes, functions, 40, 4);
    assert U32(functions, 0) == 0x102C;
    assert Count(functions, 0) == 0;
  }

  // ---------------------------------------------------------------- the audit of the file

  /** The file is accepted, as a forwarder with one export. */
  lemma FileIsAccepted()
    ensures IsEvidence(FileBytes(), ForwarderOnly(1)) && AcceptsArm64ec(FileBytes())
  {
    hide ByteAt, HeadersOk, ValidImage, InertDirectories, PureForwarders, HasCode, ExportsOf, Count, Functions, U32,
      U16, NoEntry, FileBytes, TheImage, TheExports, Pe.HasCoff, OptionalOf;
    ExportsOfFile();
    ImageOfFile();
    OptionalOfFile();
    InertOfFile();
    CoffOfFile();
    PureOfFile();
    assert IsEvidence(FileBytes(), ForwarderOnly(1));
  }

  lemma ExportsOfFile()
    ensures HeadersOk(FileBytes()) && ValidImage(TheImage()) && |OptionalOf(FileBytes())| >= 200
    ensures ExportsOf(TheImage(), OptionalOf(FileBytes())) == Some(TheExports())
  {
    hide ByteAt, HeadersOk, RvaOffset, ValidImage, U32, U16, OptionalOf, Pe.HasCoff;
    ImageOfFile();
    OptionalOfFile();
    MapsOfFile();
  }

  /**
   The audit accepts a file with an ambiguous byte: the forwarder string of its one
   export, read through an unambiguous mapping, has a byte that a second section holds too.
   */
  lemma SectionInsideString()
    ensures var f := FileBytes();
            && AcceptsArm64ec(f) && HeadersOk(f) && ImageOf(f) == TheImage() && ValidImage(ImageOf(f))
            && ExportsOf(ImageOf(f), OptionalOf(f)) == Some(TheExports())
            && ExportString(TheExports(), 0x102C) == Some(FORWARDER)
            && BeginsWithin(ImageOf(f), 1, 0x102C, |FORWARDER|) && RvaOffset(ImageOf(f), 0x102D, 1) == None
  {
    hide ByteAt, HeadersOk, ValidImage, RvaOffset, ExportString, ExportsOf, AcceptsArm64ec, OptionalOf, ImageOf;
    FileIsAccepted();
    ImageOfFile();
    ExportsOfFile();
    StringOfFile();
    MapsOfFile();
  }
}
