/**
 The PE header preflight of app/JuicePEInspect.c.

 `Accepts` and `InfoOf` state, field by field and straight from the file, what the
 Microsoft PE Format specification asks of the headers this code reads. The code
 itself works from three small buffers filled by one of two readers, one of them a
 descriptor whose reads may be short, interrupted or fail.
 */
module PeInspect {
  import opened Bytes

  const MAX_SECTIONS: nat := 96
  const CLR_DIRECTORY: nat := 14

  datatype PeInfo = PeInfo(machine: nat, subsystem: nat, sections: nat, entryRva: nat, imageSize: nat,
                           pe32Plus: bool, isDll: bool, managed: bool)

  const ZEROED: PeInfo := PeInfo(0, 0, 0, 0, 0, false, false, false)

  // ---------------------------------------------------------------- the headers of a file

  predicate HasDos(f: seq<Byte>) {
    |f| >= 64 && f[0] == 0x4D && f[1] == 0x5A
  }

  function PeAt(f: seq<Byte>): nat
    requires |f| >= 64
  {
    U32(f, 60)
  }

  predicate HasCoff(f: seq<Byte>) {
    && HasDos(f)
    && 64 <= PeAt(f) && PeAt(f) + 24 <= |f|
    && f[PeAt(f)..PeAt(f) + 4] == [0x50, 0x45, 0, 0]
  }

  function Machine(f: seq<Byte>): nat requires HasCoff(f) { U16(f, PeAt(f) + 4) }

  function SectionCount(f: seq<Byte>): nat requires HasCoff(f) { U16(f, PeAt(f) + 6) }

  function OptionalSize(f: seq<Byte>): nat requires HasCoff(f) { U16(f, PeAt(f) + 20) }

  function Characteristics(f: seq<Byte>): nat requires HasCoff(f) { U16(f, PeAt(f) + 22) }

  function OptionalAt(f: seq<Byte>): nat requires HasCoff(f) { PeAt(f) + 24 }

  function TableAt(f: seq<Byte>): nat requires HasCoff(f) { OptionalAt(f) + OptionalSize(f) }

  predicate HasTables(f: seq<Byte>) {
    && HasCoff(f)
    && 1 <= SectionCount(f) <= MAX_SECTIONS && OptionalSize(f) >= 96
    && TableAt(f) + 40 * SectionCount(f) <= |f|
  }

  /** The optional header of the file. */
  function Optional(f: seq<Byte>): (o: seq<Byte>)
    requires HasTables(f)
    ensures |o| == OptionalSize(f) >= 96
  {
    f[OptionalAt(f)..OptionalAt(f) + OptionalSize(f)]
  }

  // ---------------------------------------------------------------- optional headers

  function Magic(o: seq<Byte>): nat requires |o| >= 96 { U16(o, 0) }

  function DirectoryOffset(o: seq<Byte>): nat requires |o| >= 96 { if Magic(o) == 0x20B then 112 else 96 }

  predicate IsOptional(o: seq<Byte>) {
    |o| >= 96 && (Magic(o) == 0x10B || Magic(o) == 0x20B) && |o| >= DirectoryOffset(o)
  }

  function ImageSize(o: seq<Byte>): nat requires IsOptional(o) { U32(o, 56) }

  function HeadersSize(o: seq<Byte>): nat requires IsOptional(o) { U32(o, 60) }

  function DirectoryCount(o: seq<Byte>): nat requires IsOptional(o) { U32(o, DirectoryOffset(o) - 4) }

  /** A machine of one word size with an optional header of the other. */
  predicate WrongWidth(machine: nat, plus: bool) {
    (machine == 0x14C && plus) || (machine in {0x8664, 0xAA64, 0xA641, 0xA64E} && !plus)
  }

  /** The optional header agrees with a file of `size` bytes whose section table ends at `tableEnd`. */
  predicate Consistent(o: seq<Byte>, machine: nat, tableEnd: nat, size: nat) {
    && IsOptional(o)
    && !WrongWidth(machine, Magic(o) == 0x20B)
    && tableEnd <= HeadersSize(o) <= size
    && 0 < ImageSize(o) && HeadersSize(o) <= ImageSize(o)
    && DirectoryOffset(o) + 8 * DirectoryCount(o) <= |o|
  }

  /** The CLR header directory, when the image has one: its address and size are both set. */
  predicate Managed(o: seq<Byte>)
    requires IsOptional(o) && DirectoryOffset(o) + 8 * DirectoryCount(o) <= |o|
  {
    DirectoryCount(o) > CLR_DIRECTORY &&
    var entry := DirectoryOffset(o) + 8 * CLR_DIRECTORY;
    U32(o, entry) != 0 && U32(o, entry + 4) != 0
  }

  predicate Accepts(f: seq<Byte>) {
    HasTables(f) && Consistent(Optional(f), Machine(f), TableAt(f) + 40 * SectionCount(f), |f|)
  }

  function InfoOf(f: seq<Byte>): PeInfo
    requires Accepts(f)
  {
    var o := Optional(f);
    PeInfo(Machine(f), U16(o, 68), SectionCount(f), U32(o, 16), ImageSize(o),
           Magic(o) == 0x20B, Characteristics(f) / 0x2000 % 2 == 1, Managed(o))
  }

  // ---------------------------------------------------------------- readers

  /** What one `pread` does: at most `n + 1` bytes, an interruption, or an error. */
  datatype Pread = Short(n: nat) | Interrupted | IoError

  predicate Healthy(script: seq<Pread>) {
    IoError !in script
  }

  /** `range`. */
  predicate Range(offset: nat, count: nat, size: nat) {
    offset <= size && count <= size - offset
  }

  /** The context of a reader: bytes in memory, or a descriptor on an unchanging file. */
  class Source {
    const file: seq<Byte>
    const inMemory: bool
    var script: seq<Pread>   // how the next calls of `pread` behave; past its end they read in full
    ghost var reach: nat     // one past the last byte any read asked for

    constructor (file: seq<Byte>, inMemory: bool, script: seq<Pread>)
      ensures this.file == file && this.inMemory == inMemory && this.script == script && reach == 0
    {
      this.file, this.inMemory, this.script, reach := file, inMemory, script, 0;
    }

    method Pread(offset: nat, count: nat) returns (r: Pread, data: seq<Byte>)
      requires count > 0
      modifies this`script
      ensures Healthy(old(script)) ==> Healthy(script) && r != IoError
      ensures r.Short? ==> r.n == |data| <= count
      ensures r.Short? && data == [] ==> offset >= |file|
      ensures r.Short? && data != [] ==> offset + |data| <= |file| && data == file[offset..offset + |data|]
      ensures r == Interrupted ==> |script| < |old(script)|
      ensures |script| <= |old(script)|
    {
      var behaviour := Short(count);
      if script != [] { behaviour, script := script[0], script[1..]; }
      data := [];
      if !behaviour.Short? { return behaviour, data; }
      var n := behaviour.n + 1;
      if n > count { n := count; }
      var left := if offset <= |file| then |file| - offset else 0;
      if n > left { n := left; }
      if n > 0 { data := file[offset..offset + n]; }
      return Short(n), data;
    }

    /** `memory_read` and `fd_read`. */
    method ReadAt(offset: nat, out: array<Byte>, count: nat) returns (ok: bool)
      requires 0 < count <= out.Length
      modifies this, out
      ensures inMemory || Healthy(old(script)) ==> (ok <==> offset + count <= |file|)
      ensures ok ==> offset + count <= |file| && out[..count] == file[offset..offset + count]
      ensures out[count..] == old(out[count..])
      ensures Healthy(old(script)) ==> Healthy(script)
      ensures reach == if offset + count > old(reach) then offset + count else old(reach)
    {
      if offset + count > reach { reach := offset + count; }
      if inMemory {
        if !Range(offset, count, |file|) { return false; }
        forall j | 0 <= j < count { out[j] := file[offset + j]; }
        return true;
      }
      var done := 0;
      while done < count
        invariant done <= count
        invariant done > 0 ==> offset + done <= |file|
        invariant forall j :: 0 <= j < done ==> out[j] == file[offset + j]
        invariant forall j :: count <= j < out.Length ==> out[j] == old(out[j])
        invariant Healthy(old(script)) ==> Healthy(script)
        invariant reach == if offset + count > old(reach) then offset + count else old(reach)
        decreases count - done, |script|
      {
        var r, data := Pread(offset + done, count - done);
        if r == Interrupted { continue; }
        if r == IoError { return false; }
        if |data| == 0 { return false; }
        forall j | 0 <= j < |data| { out[done + j] := data[j]; }
        done := done + |data|;
      }
      return true;
    }
  }
  // ---------------------------------------------------------------- inspect

  /** The caller's `JuicePEInfo`. */
  class InfoCell {
    var info: PeInfo

    constructor ()
    {
      info := ZEROED;
    }
  }

  /** The source reads nothing outside the file, and fails only when told to. */
  twostate predicate Read(s: Source)
    reads s
  {
    && (Healthy(old(s.script)) ==> Healthy(s.script))
    && (old(s.reach) <= |s.file| ==> s.reach <= |s.file|)
  }

  /** First and second read: the DOS header and the COFF header. */
  method ReadCoff(s: Source, size: nat) returns (ok: bool, pe: nat, coff: seq<Byte>)
    requires size == |s.file|
    modifies s
    ensures Read(s)
    ensures ok ==> HasCoff(s.file) && pe == PeAt(s.file) && coff == s.file[pe..pe + 24]
    ensures s.inMemory || Healthy(old(s.script)) ==> (ok <==> HasCoff(s.file))
  {
    hide U16, U32;
    pe, coff := 0, [];
    var dos := new Byte[64];
    if !Range(0, 64, size) { return false, pe, coff; }
    var read := s.ReadAt(0, dos, 64);
    if !read { return false, pe, coff; }
    FieldsInWindow(s.file, dos[..], 0, 64);
    assert dos[0] == dos[..64][0] && dos[1] == dos[..64][1];
    if dos[0] != 0x4D || dos[1] != 0x5A { return false, pe, coff; }
    pe := U32(dos[..], 60);
    if pe < 64 || !Range(pe, 24, size) { return false, pe, coff; }
    var buffer := new Byte[24];
    read := s.ReadAt(pe, buffer, 24);
    if !read { return false, pe, coff; }
    coff := buffer[..24];
    SliceOfSlice(s.file, pe, 24, 0, 4);
    return coff[..4] == [0x50, 0x45, 0, 0], pe, coff;
  }

  /** Third read: as much of the optional header as the 240-byte buffer holds. */
  method ReadOptional(s: Source, size: nat, pe: nat, coff: seq<Byte>) returns (ok: bool, opt: seq<Byte>)
    requires size == |s.file| && HasCoff(s.file) && pe == PeAt(s.file) && coff == s.file[pe..pe + 24]
    modifies s
    ensures Read(s)
    ensures ok ==> HasTables(s.file) && IsWindow(Optional(s.file), opt)
    ensures s.inMemory || Healthy(old(s.script)) ==> (ok <==> HasTables(s.file))
  {
    CoffFields(s.file, coff);
    var sections, optSize := U16(coff, 6), U16(coff, 20);
    var optional := pe + 24;
    var table := optional + optSize;
    opt := [];
    if sections == 0 || sections > MAX_SECTIONS || optSize < 96
       || !Range(optional, optSize, size) || !Range(table, 40 * sections, size) {
      return false, opt;
    }
    var readSize := if optSize < 240 then optSize else 240;
    var buffer := new Byte[240](_ => 0);
    ok := s.ReadAt(optional, buffer, readSize);
    opt := buffer[..];
    assert opt[..readSize] == buffer[..readSize];
    SliceOfSlice(s.file, optional, optSize, 0, readSize);
  }

  lemma CoffFields(f: seq<Byte>, coff: seq<Byte>)
    requires HasCoff(f) && coff == f[PeAt(f)..PeAt(f) + 24]
    ensures U16(coff, 4) == Machine(f) && U16(coff, 6) == SectionCount(f)
    ensures U16(coff, 20) == OptionalSize(f) && U16(coff, 22) == Characteristics(f)
  {
    FieldsInWindow(f, coff, PeAt(f), 24);
  }

  /** What the zero-filled buffer holds of the optional header. */
  ghost predicate IsWindow(o: seq<Byte>, opt: seq<Byte>) {
    var n := if |o| < 240 then |o| else 240;
    |opt| == 240 && opt[..n] == o[..n]
  }

  /** Every field looked at was read from the file, those of the last directory included. */
  lemma OptionalFields(o: seq<Byte>, opt: seq<Byte>)
    requires |o| >= 96 && IsWindow(o, opt)
    ensures U16(opt, 0) == U16(o, 0) && U16(opt, 68) == U16(o, 68) && U32(opt, 16) == U32(o, 16)
    ensures U32(opt, 56) == U32(o, 56) && U32(opt, 60) == U32(o, 60) && U32(opt, 92) == U32(o, 92)
    ensures |o| >= 112 ==> U32(opt, 108) == U32(o, 108)
    ensures |o| >= 216 ==> U32(opt, 208) == U32(o, 208) && U32(opt, 212) == U32(o, 212)
    ensures |o| >= 232 ==> U32(opt, 224) == U32(o, 224) && U32(opt, 228) == U32(o, 228)
  {
    FieldsInWindow(o, opt, 0, if |o| < 240 then |o| else 240);
  }

  /** The checks on the buffered headers. */
  method Judge(ghost o: seq<Byte>, machine: nat, tableEnd: nat, size: nat, optSize: nat, opt: seq<Byte>)
    returns (ok: bool, directories: nat, directoryOffset: nat)
    requires |o| == optSize >= 96 && IsWindow(o, opt)
    ensures ok <==> Consistent(o, machine, tableEnd, size)
    ensures ok ==> directories == DirectoryCount(o) && directoryOffset == DirectoryOffset(o)
  {
    OptionalFields(o, opt);
    directories := 0;
    var magic := U16(opt, 0);
    directoryOffset := if magic == 0x20B then 112 else 96;
    if magic != 0x10B && magic != 0x20B { return false, directories, directoryOffset; }
    var plus := magic == 0x20B;
    if optSize < directoryOffset { return false, directories, directoryOffset; }
    if (machine == 0x14C && plus)
       || ((machine == 0x8664 || machine == 0xAA64 || machine == 0xA641 || machine == 0xA64E) && !plus) {
      return false, directories, directoryOffset;
    }
    var headers, image := U32(opt, 60), U32(opt, 56);
    if headers < tableEnd || headers > size || image == 0 || image < headers {
      return false, directories, directoryOffset;
    }
    directories := U32(opt, directoryOffset - 4);
    if directories > (optSize - directoryOffset) / 8 { return false, directories, directoryOffset; }
    return true, directories, directoryOffset;
  }

  /** `inspect`. */
  method Inspect(s: Source, size: nat, out: InfoCell) returns (ok: bool)
    requires size == |s.file|
    modifies s, out
    ensures Read(s)
    ensures ok ==> Accepts(s.file) && out.info == InfoOf(s.file)
    ensures !ok ==> out.info == ZEROED
    ensures s.inMemory || Healthy(old(s.script)) ==> (ok <==> Accepts(s.file))
  {
    hide Healthy, U16, U32, HasCoff;
    out.info := ZEROED;
    var pe, coff, opt;
    ok, pe, coff := ReadCoff(s, size);
    if !ok { return; }
    ok, opt := ReadOptional(s, size, pe, coff);
    if !ok { return; }
    CoffFields(s.file, coff);
    ghost var o := Optional(s.file);
    var machine, sections, optSize, flags := U16(coff, 4), U16(coff, 6), U16(coff, 20), U16(coff, 22);
    var directories, directoryOffset;
    ok, directories, directoryOffset := Judge(o, machine, pe + 24 + optSize + 40 * sections, size, optSize, opt);
    if !ok { return; }
    OptionalFields(o, opt);
    var managed := false;
    if directories > CLR_DIRECTORY {
      var clr := directoryOffset + 8 * CLR_DIRECTORY;
      managed := U32(opt, clr) != 0 && U32(opt, clr + 4) != 0;
    }
    out.info := PeInfo(machine, U16(opt, 68), sections, U32(opt, 16), U32(opt, 56),
                       U16(opt, 0) == 0x20B, flags / 0x2000 % 2 == 1, managed);
  }

  /** `JuicePEInspectBytes`. */
  method InspectBytes(bytes: seq<Byte>, out: InfoCell) returns (ok: bool)
    modifies out
    ensures ok <==> Accepts(bytes)
    ensures out.info == if ok then InfoOf(bytes) else ZEROED
  {
    var s := new Source(bytes, true, []);
    ok := Inspect(s, |bytes|, out);
    assert s.reach <= |bytes|;
  }

  /**
   `JuicePEInspectFD` on a file that does not change: without read errors the verdict
   and the information are those of its bytes, whatever the fragmentation; with them
   it is that or a failure, never something else. No read leaves the file.
   */
  method InspectFD(file: seq<Byte>, statOk: bool, regular: bool, script: seq<Pread>, out: InfoCell)
    returns (ok: bool, ghost reach: nat)
    modifies out
    ensures ok ==> Accepts(file) && statOk && regular
    ensures statOk && regular && Healthy(script) && Accepts(file) ==> ok
    ensures out.info == if ok then InfoOf(file) else ZEROED
    ensures reach <= |file|
  {
    reach := 0;
    out.info := ZEROED;
    if !statOk { return false, reach; }
    if !regular { return false, reach; }
    var s := new Source(file, false, script);
    ok := Inspect(s, |file|, out);
    reach := s.reach;
  }
}
