# Juice: verified models of the app and build-script cores

Juice runs Wine on iOS. Beside the Wine port it holds a number of small algorithms of
its own. This project models them in Dafny and proves, for every input and every run,
what they are for.

| file | what it models |
|---|---|
| `Utf8Stream.dfy` | the UTF-8 sanitizer and the pump that feeds it the output of the child process |
| `JitState.dfy` | the JIT hand-off protocol, over whole runs of deliveries |
| `JitAck.dfy` | the constant-memory matcher for the acknowledgement line |
| `ProfilePolicy.dfy` | the recognizer of DLL override texts |
| `PeInspect.dfy` | the PE preflight of the app, from memory and from a descriptor |
| `Arm64ec.dfy`, `Arm64ecInstance.dfy` | the ARM64EC audit of the build scripts, its agreement with the preflight, and a file it accepts |
| `DylibPaths.dfy`, `DylibBundle.dfy` | the Mach-O dependency rewriter: one command, one file, a directory, a second run |
| `ReleaseDelta.dfy` | creating and applying a release delta |
| `PackIncbins.dfy` | collapsing resource slices into one blob |
| `Utf16.dfy` | surrogate-safe chunking of typed text |
| `StreamIO.dfy` | exact transfer over sockets and pipes under a fragmenting kernel |
| `AsyncWriter.dfy` | the ordered writer on top of it: queue, deadlines, framing |
| `Bytes.dfy` | byte strings, little-endian fields, optional values |

`dafny verify dfyconfig.toml` checks everything.

## How the models are made

- Bytes are integers from 0 to 255; file offsets, sizes and times are unbounded integers.
  Every sum the C code forms is taken in 64 bits from 16- and 32-bit fields, or stays
  within a buffer, so no wrap-around is involved.
- State that the source updates in place is a class (`JitState.Session`, `JitAck.Matcher`,
  `DylibPaths.AliasTable`, `DylibBundle.Directory`, `ReleaseDelta.Root`, `PeInspect.Source`,
  `AsyncWriter.Writer`). Output buffers are arrays.
- The kernel is either a class that chooses freely (`StreamIO.Kernel`) or a script of
  short reads, interruptions and errors (`PeInspect.Pread`); a theorem about any choice or
  any script is a theorem about every kernel.
- SHA-256 is a digest without collisions and zstd a coding whose decoder undoes its
  encoder; both are parameters of the delta model. So is what an entry does whose path
  leads through a symbolic link: it may act anywhere or fail, as long as it leaves a file
  system and a deletion creates nothing. Python's `sorted` is its specification.
- An assembly text is read one statement a line, and a string literal to its closing quote.
- A regular expression is its result where it scans a file (`PackIncbins.Match`, with the
  facts that a match begins a line and ends with one) and a predicate on characters where
  it matches a short string.

## What was found

- Applying a release delta to its own base does not always work, although the script
  calls the delta content-exact. `ReleaseDelta.RoundTrip` gives the exact condition: it
  works if and only if no base member lies above a target member, no target member is a
  directory of the base, and no file to be rewritten has its `.juice-delta` temporary name
  taken in the base. Otherwise applying fails. `ReleaseDelta.FileToDirectoryFails` is an
  instance: a file that became a directory.
- A second run of the dylib script on its own output does not always leave it alone.
  `DylibBundle.Directory.PatchTwice` gives the exact condition, over the whole directory
  and all aliases of the first run: no dependency whose base name is an issued alias reads
  anything but `@loader_path/` and that alias, with room for it. `DylibBundle.ClashHappens`
  is an instance: one library needs alias `j0`, and another, which needs none,
  depends on `/usr/lib/j0`.
- An alias can capture a dependency that the run left alone: one that read
  `@loader_path/j0` and named nothing in the directory then finds the copy
  (`DylibBundle.CaptureHappens`). Among names that lead from `@loader_path` straight to an
  entry, with any empty or dot components, exactly those that spell an issued alias are
  captured (`DylibBundle.UntouchedKeepsItsMeaning`, `DylibBundle.OtherSpelling`).
- The prefix that `JuiceUTF8CompletePrefix` returns is not always the largest one without
  an incomplete trailing character, as its header promises: `E2 82` of `E2 82 E2` is itself
  incomplete (`Utf8Stream.TruncatedBeforeTail`). It is exactly when nothing is held back or
  no truncated character stands directly before what is held back
  (`Utf8Stream.CompletePrefixExactly`). Streaming is exact all the same.
- `export_bytes` asks for an unambiguous mapping "even for a subrange", but of a string
  only the first byte is checked. The string as a whole is unambiguous all the same
  (`Arm64ec.ExportStringFromFile`); its single bytes are exactly when no section begins
  inside it (`Arm64ec.ExportStringBytesExactly`). `Arm64ecInstance.SectionInsideString` is
  a file of 416 bytes that is accepted although one does.
- A packet that fails does not always shut its socket down, although the header of the
  writer says so of time-outs and partial writes: it does exactly when nobody cancelled the
  writer before the failure is handled (`AsyncWriter.Writer.RunJob`).

## Model

| member | source | states |
|---|---|---|
| Utf8Stream.Scalar | app/JuiceUTF8Stream.c:4-21 | the loop classifies the head of a buffer as the grammar of section 4 of RFC 3629 does: the width of its UTF8-char, incomplete when some continuation would make one, malformed when none would |
| Utf8Stream.CharLenIsUnique | app/JuiceUTF8Stream.c:4-21 | no UTF8-char is a prefix of another, so the width is determined |
| Utf8Stream.IncompleteShape | app/JuiceUTF8Stream.c:9-20 | the byte patterns treated as incomplete are exactly the proper prefixes of UTF8-chars |
| Utf8Stream.CompletePrefix | app/JuiceUTF8Stream.c:22-29 | looking at the last three bytes finds the start of the one incomplete tail, or the end |
| Utf8Stream.IncompleteTailIsCut | app/JuiceUTF8Stream.c:22-29 | an incomplete tail is unique, at most three bytes, and no character before it reaches into it |
| Utf8Stream.PrefixLenIsCut | app/JuiceUTF8Stream.h:5-6 | what is held back is at most three bytes and incomplete; what is released does not depend on bytes to come |
| Utf8Stream.CompletePrefixExactly | app/JuiceUTF8Stream.h:5-6 | the prefix is the largest without an incomplete trailing character if and only if nothing is held back or no truncated character stands directly before the tail held back |
| Utf8Stream.TruncatedBeforeTail | app/JuiceUTF8Stream.c:22-29 | `E2 82 E2`: the prefix `E2 82` is itself incomplete, and the promised one is empty |
| Utf8Stream.Sanitize | app/JuiceUTF8Stream.c:30-47 | bytes written plus the meaning of the unconsumed input is the meaning of the input; stops only at the end or when the next character does not fit; writes nothing beyond |
| Utf8Stream.SanitizedIsProjection | app/JuiceUTF8Stream.c:30-47 | the result is always in the UTF8-octets grammar, the identity exactly on texts of the grammar, and idempotent |
| Utf8Stream.TextIsUnchanged | app/JuiceUTF8Stream.c:40 | text of the grammar passes through unchanged |
| Utf8Stream.SanitizedIsText | app/JuiceUTF8Stream.c:36-44 | whatever the input, the output is text of the grammar |
| Utf8Stream.SanitizedLength | app/JuiceLaunchHardening.m:94-98 | at most three output bytes per input byte |
| Utf8Stream.WithinCapacity | app/JuiceUTF8Stream.c:38-39 | everything is consumed exactly when the capacity holds the whole result |
| Utf8Stream.WithinSplits | app/JuiceUTF8Stream.c:36-46 | stopping early loses nothing, and progress is made exactly when the first character fits |
| Utf8Stream.DrainIsWhole | app/JuiceUTF8Stream.c:33-46 | resuming at `consumed` over any list of buffers keeps within each, concatenates to the whole result, and with buffers of four bytes or more finishes |
| Utf8Stream.CutLaw | app/JuiceUTF8Stream.c:22-47 | sanitizing both sides of a cut separately is sanitizing the whole, whatever follows |
| Utf8Stream.PiecewiseIsWhole | app/JuiceUTF8Stream.c:22-47 | however a stream is cut into chunks, sanitizing complete prefixes and carrying tails gives the sanitized stream |
| Utf8Stream.NewlineIsCut | app/JuiceLaunchHardening.m:111-113 | the end of a line is always a safe cut |
| Utf8Stream.DecodeOutput | app/JuiceLaunchHardening.m:89-101 | a buffer of three times the length never truncates |
| Utf8Stream.ConsumeOutput | app/JuiceLaunchHardening.m:103-126 | lines, flushed overlong lines and the remainder, appended in order, are the sanitized output of the child however reads fragment it; no piece spans two lines, and one that stops short of the end of its line is the last or about 64 KiB |
| Utf8Stream.TakeLines | app/JuiceLaunchHardening.m:110-114 | the finished lines, one piece each, and the beginning of the next |
| JitState.Session.Transition | app/JuiceJITState.h:26-62 | one delivery, in terms of the observations the phase stands for |
| JitState.Session.Receive | app/JuiceStikDebugJIT.m:251-272 | one event at the coordinator: a resume whose signal fails ends the session |
| JitState.Session.Deliver | app/JuiceStikDebugJIT.m:251-272 | a whole run of events with signals that may fail: the final state and the actions |
| JitState.SignalFailed | app/JuiceStikDebugJIT.m:261-267 | a resume that cannot be signalled stops the child there and fails for good; before it nothing differs, after it nothing happens |
| JitState.ReadyWithSignals | app/JuiceStikDebugJIT.m:251-272 | ready exactly when the plain protocol is and no resume failed |
| JitState.WaitingRun | app/JuiceJITState.h:39-61 | while a session is pending its state is a function of which observations were made, not of their order |
| JitState.RunOutcome | app/JuiceJITState.h:26-62 | for every run: when exactly it ends ready, cancelled, failed or pending, read off its deliveries |
| JitState.ReadyExactly | app/JuiceJITState.h:49-55 | undisturbed, ready exactly when a foreground step came at or after all three observations |
| JitState.ActionExactly | app/JuiceJITState.h:33-37 | for every run and step: when exactly the step resumes or stops the child |
| JitState.RunSafety | app/JuiceJITState.h:29-61 | at most one resume, nothing after a stop, no action on a child not owned, and the conditions of a resume |
| JitState.TerminalAbsorbs | app/JuiceJITState.h:30-31 | ready, cancelled and failed sessions never change or act again |
| JitState.NeverReadyLate | app/JuiceJITState.h:35-37 | from any state, no delivery at or past the deadline makes a session ready |
| JitAck.Matcher.Init | app/JuiceJITAck.h:15-26 | accepts exactly printable markers of 1 to 127 bytes |
| JitAck.Matcher.Take | app/JuiceJITAck.h:37-52 | one byte: the three fields keep tracking the unfinished line, and completion is the end of a marker line |
| JitAck.Matcher.Feed | app/JuiceJITAck.h:32-54 | true exactly when the chunk ends a marker line, standing after the first; a null chunk spoils the line; an unset matcher finds nothing |
| JitAck.Matcher.FeedUntilFound | app/JuiceStikDebugJIT.m:383-395 | the first chunk to return true holds the LF of the first line of the whole stream that is the marker or the marker and a CR; if there is no such line, none does |
| JitAck.LastLineIsLast | app/JuiceJITAck.h:28-31 | the unfinished line is the suffix after the last LF |
| JitAck.FirstAckStands | app/JuiceJITAck.h:28-31 | what was found in the chunks so far is the first acknowledgement of the whole stream |
| ProfilePolicy.SkipSpaces | app/JuiceProfilePolicy.c:8 | skips exactly the leading spaces |
| ProfilePolicy.ModuleList | app/JuiceProfilePolicy.c:15-23 | the first inner loop takes the modules of an entry and loses no text of the grammar |
| ProfilePolicy.OrderList | app/JuiceProfilePolicy.c:24-41 | the second inner loop takes its orders, likewise |
| ProfilePolicy.DLLOverridesValid | app/JuiceProfilePolicy.c:9-45 | true exactly for the empty text and the texts of at most 4096 characters that some list of well-formed entries, with any spacing, renders to |
| ProfilePolicy.EntriesExactly | app/JuiceProfilePolicy.c:14-43 | the recognizer and the grammar accept the same texts |
| ProfilePolicy.EntriesSound | app/JuiceProfilePolicy.c:14-43 | an accepted text is the rendering of a list of entries, which is constructed |
| ProfilePolicy.EntriesComplete | app/JuiceProfilePolicy.c:14-43 | every rendering of well-formed entries is accepted |
| ProfilePolicy.OrdersSound | app/JuiceProfilePolicy.c:25-41 | accepted orders are at most two, of distinct class |
| ProfilePolicy.OrdersComplete | app/JuiceProfilePolicy.c:25-41 | zero, one or two orders of distinct class are accepted |
| PeInspect.Source.ReadAt | app/JuicePEInspect.c:54-82 | both readers: without errors success is exactly being inside the file, and success delivers exactly those bytes under any fragmentation |
| PeInspect.ReadCoff | app/JuicePEInspect.c:17-24 | finds the COFF header exactly when the DOS and PE signatures and bounds are right |
| PeInspect.ReadOptional | app/JuicePEInspect.c:25-32 | goes on exactly when the section count, optional size and table bounds are right |
| PeInspect.OptionalFields | app/JuicePEInspect.c:30-48 | every field looked at, the CLR directory included, comes from bytes actually read |
| PeInspect.Judge | app/JuicePEInspect.c:33-43 | accepts exactly the optional headers consistent with machine, table and file |
| PeInspect.Inspect | app/JuicePEInspect.c:13-52 | accepts exactly the well-formed images, reports their fields, zeroes the information on failure |
| PeInspect.InspectBytes | app/JuicePEInspect.c:61-69 | the same on bytes in memory |
| PeInspect.InspectFD | app/JuicePEInspect.c:83-91 | on an unchanging file the same verdict and information as on its bytes; with read errors that or a failure; no read leaves the file |
| Arm64ec.ReadSections | scripts/verify_graphics_api.py:154-162 | accepts exactly tables whose sections all fit, and tells whether any holds code |
| Arm64ec.RvaOffsetInFile | scripts/verify_graphics_api.py:164-172 | an accepted range lies wholly inside the file, so reading it cannot be refused |
| Arm64ec.RvaOffsetExactly | scripts/verify_graphics_api.py:164-172 | a range maps exactly when it lies in the image and one holder, the headers or a section, has all of it; it maps to its place there |
| Arm64ec.PartMapsAlong | scripts/verify_graphics_api.py:164-172 | a part of a mapped range that maps at all maps where the range does |
| Arm64ec.ExportBytesFromFile | scripts/verify_graphics_api.py:188-194 | a slice of the cached export directory is the file's bytes at the slice's own unique mapping |
| Arm64ec.ExportStringFromFile | scripts/verify_graphics_api.py:196-202 | an accepted string with its NUL is the file's bytes at its own unambiguous mapping, though only its first byte is checked |
| Arm64ec.ExportStringBytesExactly | scripts/verify_graphics_api.py:191-202 | each of its bytes is unambiguous if and only if no section begins inside the string |
| Arm64ec.ForwarderExactly | scripts/verify_graphics_api.py:215-219 | the test after `rpartition` is being `module.symbol` split at the last dot |
| Arm64ec.CountForwarders | scripts/verify_graphics_api.py:210-222 | passes exactly when every function entry is empty or a forwarder, and counts the forwarders |
| Arm64ec.CheckNames | scripts/verify_graphics_api.py:223-229 | passes exactly when every name is a string and its ordinal has a forwarder |
| Arm64ec.CheckDirectories | scripts/verify_graphics_api.py:179-184 | passes exactly when every directory but exports, resources, signatures and debug is empty |
| Arm64ec.AuditExports | scripts/verify_graphics_api.py:204-230 | the export audit: evidence exactly for directories of pure forwarders |
| Arm64ec.FindForwarders | scripts/verify_graphics_api.py:175-230 | forwarder-only evidence exactly for images without code, entry point or active directory whose exports are pure forwarders |
| Arm64ec.ReadMapped | scripts/verify_graphics_api.py:124-172 | the bytes of a range, exactly when it has one holder in the image |
| Arm64ec.FindChpe | scripts/verify_graphics_api.py:231-244 | CHPE evidence exactly when there are a mapped configuration, mapped metadata it points to and a mapped code map of the described shapes |
| Arm64ec.ReadHeaders | scripts/verify_graphics_api.py:133-151 | goes on exactly when the headers meet the conditions stated on the file |
| Arm64ec.ImageEvidence | scripts/verify_graphics_api.py:116-244 | the evidence is exactly what headers, sections, load configuration and exports establish |
| Arm64ec.OneEvidence | scripts/verify_graphics_api.py:173-244 | an image is of one kind only, with one version and count |
| Arm64ec.InspectBuild | scripts/verify_graphics_api.py:252-277 | accepts exactly the images with evidence, native ARM64 only as forwarders |
| Arm64ec.ParsersAgree | scripts/verify_graphics_api.py:254-277 | an image accepted as arm64ec passes the app's preflight with the same machine and section count, PE32+ and DLL; forwarder-only forces entry 0 and not managed |
| Arm64ecInstance.FileIsAccepted | scripts/verify_graphics_api.py:116-277 | a file of 416 bytes that the whole audit accepts as a forwarder with one export |
| Arm64ecInstance.SectionInsideString | scripts/verify_graphics_api.py:191-202 | the forwarder string of that file has a byte with two mappings |
| DylibPaths.BaseNameOfLoaderPath | scripts/patch-bundled-dylib-paths.py:142-151 | the base name of a rewritten path is the name it was made from |
| DylibPaths.CStringOfArea | scripts/patch-bundled-dylib-paths.py:50-65 | reading back a replaced string gives the string |
| DylibPaths.AliasInjective | scripts/patch-bundled-dylib-paths.py:79-84 | different indices give different aliases |
| DylibPaths.FreshAlias | scripts/patch-bundled-dylib-paths.py:79-84 | the search for a free alias ends, at the first name of the row that is not reserved |
| DylibPaths.FreeAliasExactly | scripts/patch-bundled-dylib-paths.py:79-84 | there is just one such alias, so the number a library gets is determined |
| DylibPaths.AliasTable.Get | scripts/patch-bundled-dylib-paths.py:74-87 | aliases are injective, stable and never an original name; the table after a request is a function of the table before |
| DylibPaths.PatchCommand | scripts/patch-bundled-dylib-paths.py:123-164 | one load command: the aliases after it, refused exactly when malformed or too tight, left alone, or renamed to what is wanted |
| DylibPaths.RenamedCommand | scripts/patch-bundled-dylib-paths.py:159-160 | renaming changes the name and neither kind, size nor name offset |
| DylibPaths.PatchOne | scripts/patch-bundled-dylib-paths.py:107-168 | same length, same walk, only name areas of dependencies change, each to the wanted name; zero changes exactly when all were right already; whether it gets through and which aliases it issues is a function of the file and the table |
| DylibPaths.CommandsKeys | scripts/patch-bundled-dylib-paths.py:148-156 | the commands of a file issue aliases for exactly the libraries whose names do not fit |
| DylibPaths.PatchedStays | scripts/patch-bundled-dylib-paths.py:206-210 | a patched file stays right as later files add aliases |
| DylibBundle.WalkUnique | scripts/patch-bundled-dylib-paths.py:121-127 | a file has one walk of a given length |
| DylibBundle.WalkKept | scripts/patch-bundled-dylib-paths.py:121-164 | patching keeps the walk |
| DylibBundle.SecondLook | scripts/patch-bundled-dylib-paths.py:144-160 | after the first run a name is settled for the second exactly when it does not clash with an alias |
| DylibBundle.SecondRunExactly | scripts/patch-bundled-dylib-paths.py:107-168 | whatever aliases a second run would use, it leaves a patched file alone if and only if none of its dependencies clashes with an alias of the first |
| DylibBundle.PatchedIsNotRefused | scripts/patch-bundled-dylib-paths.py:117-160 | with the aliases issued, no file both has a patched form and a cause of refusal |
| DylibBundle.PlanFails | scripts/patch-bundled-dylib-paths.py:117-156 | a run without a plan has a refused file: a truncated header, a malformed command, or an alias that does not fit |
| DylibBundle.AliasedExactly | scripts/patch-bundled-dylib-paths.py:146-156 | a library gets an alias exactly when some dependency on it has no room for its name, whatever the order of files |
| DylibBundle.OrderDecidesAliases | scripts/patch-bundled-dylib-paths.py:74-87 | exchanging two requests changes the table exactly when they are for two different libraries, both new to it |
| DylibBundle.Directory.PatchFiles | scripts/patch-bundled-dylib-paths.py:202-210 | gets through exactly when the plan of the directory exists, issues its aliases, patches every regular file and leaves the rest |
| DylibBundle.Directory.MaterializeLinks | scripts/patch-bundled-dylib-paths.py:171-191 | every link becomes a copy of the file its links lead to, exactly when every link leads to one; otherwise nothing changes |
| DylibBundle.Directory.MaterializeAliases | scripts/patch-bundled-dylib-paths.py:89-104 | every alias becomes a copy of its target, exactly when none is a folder; neither check of the method can fail |
| DylibBundle.Directory.Patch | scripts/patch-bundled-dylib-paths.py:194-218 | what the whole run leaves in the directory and with which aliases; it succeeds exactly when the directory, in the order of its files, is feasible |
| DylibBundle.Directory.PatchTwice | scripts/patch-bundled-dylib-paths.py:194-218 | a second run over the output gets through and leaves every entry alone if and only if no dependency clashes with an alias of the whole first run |
| DylibBundle.ClashHappens | scripts/patch-bundled-dylib-paths.py:144-160 | a directory of two libraries whose first run gets through and whose second is not quiet |
| DylibBundle.DependencyFindsItsLibrary | scripts/patch-bundled-dylib-paths.py:194-218 | every dependency on a library of the directory names a regular file there holding the patched bytes of the library it named before |
| DylibBundle.UntouchedKeepsItsMeaning | scripts/patch-bundled-dylib-paths.py:145-158 | a dependency on a library elsewhere keeps its name, and still leads to no entry of the directory if and only if it spells no path to an issued alias, empty and dot components included |
| DylibBundle.CaptureHappens | scripts/patch-bundled-dylib-paths.py:145-158 | a directory in which `@loader_path/j0` named nothing before the run and names an alias after it |
| DylibBundle.OtherSpelling | scripts/patch-bundled-dylib-paths.py:142-151 | a slash more is another spelling of the same entry |
| ReleaseDelta.TempComesLater | scripts/juice-release-delta.py:56-57 | in sorted order nothing before a member is, or lies under, its temporary file |
| ReleaseDelta.CreateDelta | scripts/juice-release-delta.py:47-87 | the manifest: an entry for each changed member in order, then the deletions |
| ReleaseDelta.Root.ApplyOne | scripts/juice-release-delta.py:108-136 | the effect of one entry, or its failure; through a symbolic link it may do anything |
| ReleaseDelta.Root.ApplyDelta | scripts/juice-release-delta.py:97-139 | all entries and the final tree checksum |
| ReleaseDelta.EntryExactly | scripts/juice-release-delta.py:107-136 | an entry succeeds exactly when the base leaves room for its member, and updates just that member |
| ReleaseDelta.ChangesApply | scripts/juice-release-delta.py:56-82 | the changes run through exactly when there is room for each |
| ReleaseDelta.NeverThroughALink | scripts/juice-release-delta.py:107-139 | whatever writing through a link of the base does, the final checksum fails: the link is deleted last, with all that lies below |
| ReleaseDelta.RoundTrip | scripts/juice-release-delta.py:47-139 | applying a delta to its base yields exactly the target's members if and only if the trees are compatible, and fails otherwise |
| ReleaseDelta.FileToDirectoryFails | scripts/juice-release-delta.py:116 | the failing family has members: a file replaced by a directory |
| PackIncbins.ReadEscaped | toolchain/juice-pack-incbins.py:91 | every quoted path, newlines included, reads back as the path |
| PackIncbins.SetLineDefines | toolchain/juice-pack-incbins.py:123-126 | a `.set` line defines its symbol and no other |
| PackIncbins.ReadSetLine | toolchain/juice-pack-incbins.py:123-126 | a `.set` line reads back as its symbol and offset |
| PackIncbins.Align | toolchain/juice-pack-incbins.py:99-101 | fewer than four bytes of padding, to a word |
| PackIncbins.ReadSlice | toolchain/juice-pack-incbins.py:108-115 | succeeds exactly when the whole slice is there |
| PackIncbins.PackedGrows | toolchain/juice-pack-incbins.py:99-116 | packing one more slice keeps all earlier ones in place |
| PackIncbins.NoOverlap | toolchain/juice-pack-incbins.py:99-116 | slices never overlap |
| PackIncbins.Weave | toolchain/juice-pack-incbins.py:129-135 | the rebuilt text is the original with the given lines in place of the matches |
| PackIncbins.OnlyMatchesDiffer | toolchain/juice-pack-incbins.py:129-135 | the original is the same weaving with the matched lines, so all other text survives in order |
| PackIncbins.WovenLines | toolchain/juice-pack-incbins.py:129-135 | the lines of the new text are those outside the matches, with the lines put in place of each match |
| PackIncbins.OldLines | toolchain/juice-pack-incbins.py:67-79 | the lines of the original are the same ones, with the matched lines between |
| PackIncbins.Pack | toolchain/juice-pack-incbins.py:81-135 | succeeds exactly when every slice is there; then blob and text are as above |
| PackIncbins.SymbolKeepsItsMeaning | toolchain/juice-pack-incbins.py:93-135 | for every symbol, a line of the rewritten text defines it, as a 4-aligned place in the blob followed by exactly the bytes its directive included |
| PackIncbins.BlobIsIncluded | toolchain/juice-pack-incbins.py:90-124 | at the start of a line of the rewritten text stand an alignment, the label and an `.incbin` of the blob's own path, whatever the path |
| PackIncbins.OneMeaning | toolchain/juice-pack-incbins.py:117-135 | with distinct symbols that the untouched text does not define, by label, assignment or directive, the only line of the new text that defines a symbol is its `.set` line, with its one place |
| Utf16.ChunkLengthIsLongest | app/JuiceUTF16.h:9-24 | the longest even prefix within the limit that splits no pair, and when exactly it is zero |
| Utf16.DecodeAtCut | app/JuiceUTF16.h:15-22 | decoding both sides of a cut separately changes the text exactly when a pair is split |
| Utf16.SendText | app/JuiceTextInputHardening.m:60-76 | chunks concatenate to the payload, fit, are whole units, and decode separately to the text of the whole, well-formed or not; with a limit of four an even payload fails only with a message; then what was sent is the beginning of payload and text; every chunk but the last is full up to a pair |
| StreamIO.Move | app/JuiceSocketIO.h:41-45 | one send or receive at the cursor moves the next bytes and nothing else |
| StreamIO.TransferUntil | app/JuiceSocketIO.h:23-60 | bytes moved are a prefix of the buffer or the next of the stream, success is all of them, the loop ends, and it fails only past the deadline or at the first failure reported |
| StreamIO.WriteWithDeadline | app/JuiceIO.c:18-83 | the same for writing; polls of at most 25 ms; once cancellation is pending at most one send and one poll still begin, none if it was pending from the start; each outcome tells the cause |
| StreamIO.AwaitRoom | app/JuiceIO.c:65-80 | waits at most 25 ms, reports a time-out only past the deadline |
| StreamIO.ExactTransfer | app/JuiceSocketIO.h:32-59 | a writing and a reading transfer over one stream, wherever each stopped, have moved the same bytes |
| StreamIO.Exchange | app/JuiceSocketIO.h:23-60 | when both ends of a message report success, the receiver holds what the sender had |
| AsyncWriter.Writer.Enqueue | app/JuiceAsyncWriter.m:71-92 | accepted exactly when not cancelled and within the queue, its limit and the common budget; the accounts stay right |
| AsyncWriter.Writer.RunJob | app/JuiceAsyncWriter.m:93-118 | the next packet goes out whole or the writer is cancelled, and after that nothing reaches the stream; when exactly a failure shuts the socket down, and what caused it |
| AsyncWriter.FrameArrives | app/JuiceAsyncWriter.h:5-9 | whoever reads frame by frame gets the accepted packets in order, whole, and never one that was cut short |

## Left out

- Null arguments other than the chunk of the matcher, `errno` values, log lines and printed summaries.
- `JuiceDecodeOutput`'s shortcut for valid text: it returns the text itself, which is what sanitizing gives.
- Timers, queues and disposal of the JIT coordinator: thin glue over the transition.
- Names that lead to the directory of libraries by way of `..` or of its own name: where the directory stands is not part of the model.
- Links to places outside the directory of libraries: a link that leads elsewhere is a link that leads to no file here, which the script refuses as well.
- Closing the descriptor of a cancelled writer and its failure callback; `fcntl`, `dup` and the copy of a packet failing.
- The tar and JSON containers of a delta, and zstd itself.
- `resolve_resource`'s candidate list and the regular expression in `juice-pack-incbins.py`: a map and a list of matches stand for their results.
- Plain aarch64 and i386 targets of `inspect_build`: only the machine and the DLL flag are checked there, so the two parsers need not agree.
- The source catalog audit of `verify_graphics_api.py`, `make_targets` and hashing of images: text matching over repository files.
- StreamIO.TransferUntil: that the loop ends assumes that a call which moves nothing and does not fail takes at least a millisecond; the source has no such guarantee inside one clock tick.
- StreamIO.WriteWithDeadline: the same assumption.
- Presentation policy, key chords, launchers, icons, runtime evidence and the other patch scripts: floating point, enumeration or straight-line code that would add only easy members.
