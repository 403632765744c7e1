# fix-ios-dwarf, modelled in Dafny

`fix-ios-dwarf` rewrites a 64-bit Mach-O file so that the `__debug_info` section is the last
section of the `__DWARF` segment. It works in four steps:

1. It reads the header and checks the magic.
2. It walks the load commands, skipping each by its `cmdsize`, until it finds the `__DWARF`
   segment. That segment must be the last load command. Its section records become a list of
   `dwarf_section` entries. Each entry's true payload position is computed from its address as
   `addr - vmaddr + fileoff`.
3. It moves the first `__debug_info` entry to the end of the list. It then packs the entries one
   after the other from the segment's `fileoff`, and gives each one the address that its new
   offset has in the segment.
4. It streams a new file. In order, the file holds the input up to the section table, the
   regenerated section table, the bytes between the table and the segment's data (the
   "intersection"), each payload in the new order, and the rest of the input.

The model works on the file as a byte sequence.
- `Streams.InputStream` has the file's bytes and a read cursor (`Read`, `Ignore`, `Seek`).
- `Streams.OutputStream` is a byte sequence that is only appended to.
- Each step of `main` is a method with the loop the program has (`Scanner`, `Reorder`,
  `Layout`, `Rewriter`, `Streams.CopySome`).
- Each method is proved equal to a function of its inputs.
- `Fixer.Fix` composes those functions into the whole run, as bytes in and `Result` out.
- `Fixer.Run` is the imperative run, and is proved equal to `Fix`.
- `Fixer.FixAsWritten` and `Fixer.RunAsWritten` are the same pair for the program's own
  intersection copy (see below).

Some notes on how the model represents the program:
- The Mach-O records are little-endian and have the sizes of `<mach-o/loader.h>`:
  `mach_header_64` is 32 bytes, `load_command` 8, `segment_command_64` 72 and `section_64` 80.
  The magics are `0xfeedfacf`, `0xfeedface` and `0xcafebabe`; `LC_SEGMENT_64` is `0x19`.
  `macho.h` is not part of this model.
- `uint64_t` arithmetic wraps: `AddU64` and `SubU64` compute modulo 2^64.
- The 32-bit `section_64.offset` field keeps the new offset modulo 2^32 (`TruncU32`).
- A failure of the program becomes an `Errors.Error` value; the messages themselves are left out.
- On some inputs the program reads past the end of the file, wraps an unsigned length or reads
  uninitialised variables. There the model stops with an error of its own:
  - `Truncated`: a read or skip past the end of the file;
  - `CommandTooSmall`: `cmdsize` is smaller than the bytes already read of the command;
  - `NoDwarfSegment`: no `__DWARF` segment;
  - `RangeOutsideFile`: the intersection, the tail or a payload is not inside the file.

`intersection_size` (main.cpp:131) is the gap between the end of the old section table and
`fileoff`, but the copy at main.cpp:132 starts at the old table's first byte, because the input
cursor is still at `headerOffset` after the prefix copy. Both versions are modelled and the
difference is recorded under "## Findings":
- `Rewriter.RewriteAsWritten`, `Fixer.FixAsWritten` and `Fixer.RunAsWritten` are the program as
  written;
- `Rewriter.Rewrite`, `Fixer.Fix` and `Fixer.Run` are the corrected copy, which skips the old
  table before the intersection;
- `Fixer.FixesDifferInGap` says on which accepted files the two outputs differ, and the
  `Finding` module builds 267-byte files that the program accepts and on which they do.

## Model

| member | source | states |
|---|---|---|
| Streams.CopySome | main.cpp:14-30 | For every positive chunk size, it appends exactly the next `size` input bytes to the output and advances the cursor by `size`; with `size == 0` it appends nothing |
| Streams.Blocks | main.cpp:20-21 | `cycle` full chunks plus `remain` bytes make up the size, and `remain` is smaller than a chunk |
| Scanner.ScanInput | main.cpp:42-94 | Reading the header and load commands from the stream's start gives exactly `Scan` of the file |
| Scanner.ReadCommand | main.cpp:65-93 | One pass of the load-command loop gives `CommandStep`, and the cursor ends where that step says the next command or the section table starts |
| Scanner.CommandStepSkips | main.cpp:66-93 | A command the scan goes past advances the cursor by exactly its `cmdsize`, which is at least 72 for a 64-bit segment and 8 otherwise; a non-segment command with a valid in-file `cmdsize` is always skipped, and so is a 64-bit segment other than `__DWARF` whose in-file `cmdsize` is at least 72 |
| Scanner.CommandStepDwarf | main.cpp:72-77 | The `__DWARF` segment is found when it is command `ncmds - 1`, and is the "not at the end" error at any other index |
| Scanner.ReadEntry | main.cpp:84-88 | One pass of the `nsects` loop reads the next 80 bytes and gives the entry of that record, and the cursor moves on by 80 |
| Scanner.ReadSectionTable | main.cpp:83-89 | The `nsects` loop gives `SectionTable`: one entry per 80-byte record read in sequence, or `Truncated` when the table runs past the file |
| Scanner.ScanListsSections | main.cpp:78-89 | A successful scan saw `MH_MAGIC_64` and found the segment; its list has `nsects` entries in file order, each with the record's name and size, address and offset 0, and old offset `addr - vmaddr + fileoff` in uint64_t; `headerOffset` is where the command search stopped, and the table fits in the file |
| Scanner.ScannedNamesHaveNoNul | main.cpp:88 | Names taken from `char[16]` fields stop at the first NUL, so none contains one |
| Scanner.FindDwarfFrame | main.cpp:64-94 | The command search reads nothing at or after the end of the `__DWARF` segment record: two files that agree up to there give the same result, whatever their lengths |
| Scanner.FindDwarfNoMagicError | main.cpp:64-94 | The command search never fails with one of the magic errors |
| Reorder.Reorder | main.cpp:96-108 | The indexed loop with erase, push_back and break gives `Reordered` |
| Reorder.ReorderedFails | main.cpp:98-102 | The reorder fails exactly when the list is non-empty, its last entry is `__debug_info` and no earlier entry is, and it then fails with the "already at the end" error |
| Reorder.ReorderedIsPermutation | main.cpp:104-105 | The reordered list is a permutation of the list |
| Reorder.ReorderedEntriesFrom | main.cpp:104-105 | Every reordered entry is an entry of the list |
| Reorder.ReorderedIsStable | main.cpp:96-108 | With one `__debug_info` entry, the result is the other entries in their old order followed by that entry |
| Reorder.ReorderedPutsDebugInfoLast | main.cpp:104-105 | With one `__debug_info` entry, the result has the same length, its last entry is `__debug_info` and no other entry is |
| Reorder.ReorderTwice | main.cpp:96-108 | Reordering a reordered list with one `__debug_info` entry fails with "already at the end" |
| Layout.Relayout | main.cpp:109-113 | The accumulator loop gives every entry its packed offset and the matching address, and the accumulator ends at the packed end offset |
| Layout.PackedIsContiguous | main.cpp:109-113 | Without wrap-around, the first entry starts at `fileoff` and each next one where the previous one ends |
| Layout.PackedKeepsAddressOffsetLink | main.cpp:111 | Every packed entry has `address - offset == vmaddr - fileoff` in uint64_t |
| Layout.PackedOffsetIsPrefixSum | main.cpp:110-112 | Without wrap-around, entry `k` starts at `fileoff` plus the sizes of the entries before it |
| Layout.PackedLayout | main.cpp:109-113 | Without wrap-around, the final `dwarf_section_data_offset_last` is `fileoff` plus all sizes, packing changes no size, and each packed entry starts after the packed entries before it |
| Rewriter.SectionRecordFields | main.cpp:122-127 | A written `section_64` reads back with segment name `__DWARF`, the entry's name cut to 15 bytes, its address and size, its offset modulo 2^32, and every other field zero |
| Rewriter.SectionTableDecodes | main.cpp:121-129 | Record `k` of the regenerated table decodes to the record written for entry `k` |
| Rewriter.WriteSectionTable | main.cpp:121-129 | The loop appends exactly the regenerated table |
| Rewriter.CopyPayloads | main.cpp:134-137 | The loop appends each payload, read from its old offset, in list order |
| Rewriter.CopyTail | main.cpp:139-144 | It appends the input from `dwarf_section_data_offset_last` to its end, and nothing when that is the end |
| Rewriter.WriteFront | main.cpp:117-129 | After seeking to 0, it appends the input up to `headerOffset` and then the new table, and leaves the input cursor at `headerOffset` |
| Rewriter.WriteBack | main.cpp:134-144 | It appends the payloads in list order and then the input from `dwarf_section_data_offset_last` on |
| Rewriter.RewriteAsWritten | main.cpp:115-144 | The program's rewrite sequence writes the prefix, the table, the input from `headerOffset` for the intersection's length, the payloads and the tail |
| Rewriter.Rewrite | main.cpp:115-144 | The same sequence, with the old table skipped first, writes the prefix, the table, the input between the old table and `fileoff`, the payloads and the tail |
| Rewriter.SplicedKeepsInput | main.cpp:115-144 | When the payloads fill the input from `fileoff` to the accumulator, the output is as long as the input, and outside the table and the payloads it is the input |
| Rewriter.SplicedPayload | main.cpp:134-137 | Entry `k`'s payload lands in the output at `fileoff` plus the sizes of the entries before it |
| Rewriter.SplicedAsWrittenKeepsInput | main.cpp:115-144 | When the payloads fill the input from `fileoff` to the accumulator, the program's output is as long as the input, equals it before the table and from the accumulator on, and after the new table holds the input shifted by the table's length |
| Rewriter.SplicedAsWrittenTableDecodes | main.cpp:121-129 | Record `k` of the program's output table decodes to the record written for entry `k` |
| Rewriter.SplicedAsWrittenPayload | main.cpp:134-137 | In the program's output too, entry `k`'s payload lands at `fileoff` plus the sizes of the entries before it |
| Rewriter.SplicedDiffersInGap | main.cpp:131-132 | The program's splice equals the corrected one exactly when the input after the old table, up to `fileoff`, equals the input as many bytes from the table's start |
| Rewriter.AsWrittenDiffers | main.cpp:131-132 | On bytes with the old table at 104, the program's splice puts the table's first byte right after the new table, where the input and the corrected splice have 0 (the bytes before the table are not a valid header) |
| MachO.DecodeEncodeSection64 | main.cpp:128 | A written 80-byte `section_64` reads back as the same record |
| MachO.DecodeEncodeMachHeader64 | main.cpp:42-43 | The 32 bytes a file holds for a `mach_header_64` read back as that header |
| MachO.DecodeEncodeSegmentCommand64 | main.cpp:65-70 | The 72 bytes a file holds for a `segment_command_64` read back as that record |
| MachO.EncodeDecodeSection64 | main.cpp:85 | Every 80-byte record is the encoding of the record it decodes to |
| Bytes.CStringNameField | main.cpp:127 | A name without NUL, written with `snprintf` into 16 bytes and read back as a C string, is its first 15 bytes |
| Bytes.NameFieldMatches | main.cpp:98 | A written name, read back, compares equal to a name shorter than 15 bytes exactly when it was that name |
| Fixer.PlanInput | main.cpp:42-113 | The part of the run before the output is opened (header, commands, reorder, layout) gives `Planned` of the input |
| Fixer.Run | main.cpp:40-144 | The corrected whole run, over the streams, gives `Fix` of the input for every chunk size |
| Fixer.RunAsWritten | main.cpp:40-144 | The whole run as the program writes it, over the streams, gives `FixAsWritten` of the input for every chunk size |
| Fixer.FixesAgreeOnPlan | main.cpp:40-131 | The corrected and the as-written run fail on the same inputs with the same error; a success means the plan was made and lies in the file |
| Fixer.FixKeepsLength | main.cpp:115-144 | When the packed region does not wrap, both runs write a file exactly as long as the input |
| Fixer.OutputsAtGap | main.cpp:131-132 | Byte `i` after the new table is input byte `i` after the old table in the corrected output, and input byte `i` of the old table in the program's |
| Fixer.FixesDifferInGap | main.cpp:131-132 | On every file both runs accept, their outputs are equal exactly when the input after the old table, up to `fileoff`, equals the input as many bytes from the table's start |
| Fixer.FixChecksMagic | main.cpp:45-57 | The fat magic fails with "fat unsupported", `MH_MAGIC` with "32-bit unsupported", and any magic other than `MH_MAGIC_64` with "unknown file type"; with `MH_MAGIC_64` the run fails with none of these three |
| Fixer.FixStopsWhenAlreadyLast | main.cpp:98-102 | After a successful scan, the run fails with "already at the end" exactly when the last section is the only `__debug_info` |
| Fixer.PlanKeepsSections | main.cpp:96-113 | The planned list has as many entries as the scanned one, is a permutation of it with the same total size, keeps names and sizes when packed, and equals it when there is no `__debug_info` |
| Fixer.PlanPutsDebugInfoLast | main.cpp:96-108 | With one `__debug_info` section, the plan is the other sections in order and then that one, and only the last packed entry is `__debug_info` |
| Fixer.PlanOffsets | main.cpp:109-113 | Without wrap-around, each packed entry starts at `fileoff` plus the sizes of the packed entries before it, and the accumulator is `fileoff` plus their total size |
| Fixer.RecordsLinkAddresses | main.cpp:121-125 | A written record has the entry's new address, its size and its offset modulo 2^32; `addr - offset` is the segment's `vmaddr - fileoff`; and without wrap-around the offset is the prefix sum of the sizes |
| Fixer.OutputKeepsTheRest | main.cpp:115-144 | When the packed sections end at the accumulator, the output is as long as the input and equals it before the table, between the old table and `fileoff`, and from the accumulator on |
| Fixer.OutputWritesTable | main.cpp:121-129 | Record `k` of the output's section table decodes to the record written for packed entry `k` |
| Fixer.OutputMovesPayloads | main.cpp:134-137 | Each packed entry's bytes in the output, at its new offset, are its payload from its old offset in the input |
| Fixer.OutputAsWrittenKeepsTheRest | main.cpp:115-144 | When the packed sections end at the accumulator, the program's output is as long as the input, equals it before the table and from the accumulator on, and between the new table and `fileoff` holds the input from `headerOffset` on |
| Fixer.OutputAsWrittenWritesTable | main.cpp:121-129 | Record `k` of the program's output table decodes to the record written for packed entry `k` |
| Fixer.OutputAsWrittenMovesPayloads | main.cpp:134-137 | In the program's output too, each packed entry's bytes at its new offset are its payload from its old offset |
| Fixer.ScanReadsOnlyCommandsAndTable | main.cpp:64-94 | A file of any length that agrees with a scanned file up to its section table and holds valid section records there scans to the same segment, with the entries those records give |
| Fixer.OutputRescans | main.cpp:64-94 | Scanning the output finds the same segment, with the entries the written records give |
| Fixer.FixTwiceStops | main.cpp:96-144 | With one `__debug_info` section and no wrap-around, the corrected run succeeds, and running it again on its output fails with "already at the end" |
| Fixer.FixAsWrittenTwiceStops | main.cpp:96-144 | The same for the program as written: it succeeds, and running it again on its output fails with "already at the end" |
| Finding.SampleRecordsExist | main.cpp:42-89 | A header, a `__DWARF` segment command and two section records with the sample's fields exist |
| Finding.SampleScans | main.cpp:42-94 | The 267-byte sample file scans to the `__DWARF` segment at `fileoff` 265 with its table at 104, and lists `__debug_info` at 265 and `__debug_abbrev` at 266 |
| Finding.SamplePlan | main.cpp:96-113 | The sample's plan lies in the file and packs two entries |
| Finding.SampleShowsFinding | main.cpp:40-144 | Both runs accept the sample file; at offset 264 the corrected output has the input's 0 and the program's output has `_`, so the two outputs differ |
| Fixer.ThreeSectionScenario | main.cpp:96-113 | `__debug_abbrev`, `__debug_info` (20 bytes) and `__debug_str` become abbrev, str, info, packed at 1000, 1010 and 1015, with the accumulator at 1035 |

## Left out

- The command line (`argc`, the paths) and every `std::cout` message. Each failure is an error value instead.
- Opening and closing files, buffering, and stream error flags. A read or skip past the end of the file stops the model with `Truncated`. The program would go on with zeros or stale bytes.
- The 16 MiB heap buffer. The chunk size is a positive parameter of `CopySome`, `Rewrite` and `Run`.
- Host endianness and raw struct overlays. The records are decoded little-endian, so a fat file, which starts `CA FE BA BE` on disk, reads as an unknown magic there. `FixChecksMagic` states the dispatch on the decoded value.
- The uninitialised `dwarf_seg_*` variables when there is no `__DWARF` segment. The model stops with `NoDwarfSegment`.
- Unsigned wrap-around of `cmdsize - 8` and `cmdsize - 72`. For a `cmdsize` below 8 (72 for a segment), the wrapped count reaches `ignore` as a negative number. `ignore` then skips nothing, and the program reads the next command from inside this one. The model stops with `CommandTooSmall` instead.
- Unsigned wrap-around of `intersection_size` and `left_size`. There the program would copy a wrapped length. The model stops with `RangeOutsideFile` instead.
- A 16-byte `sectname` with no NUL, which the program reads past. The model's name stops at 16 bytes.
- The DWARF payload bytes themselves. They are copied as opaque bytes.
- `int` loop counters that could overflow for more than 2^31 commands or sections. The model counts with unbounded integers.
- Fixer.FixTwiceStops, Fixer.FixAsWrittenTwiceStops: proved only when the file has a single `__debug_info` section and the packed sections do not wrap around 2^64. With two `__debug_info` sections the second run moves the other one.
- Layout.PackedIsContiguous, Layout.PackedOffsetIsPrefixSum, Layout.PackedLayout: stated only when `fileoff` plus all sizes fits in uint64_t. Otherwise `Relayout` still states the wrapped offsets, through `PackedOffset`.

## Findings

| source | as written | input that shows it | evidently intended | confidence | as-written member | corrected member |
|---|---|---|---|---|---|---|
| main.cpp:131-132 | After the prefix copy the input cursor is at `dwarf_section_header_offset`, and writing the new table moves only the output. So the intersection is copied from the start of the old section table, and the output between the new table and `fileoff` is the input shifted by the table's length | A 267-byte file: `MH_MAGIC_64` with one command; a `__DWARF` `LC_SEGMENT_64` with `vmaddr` 0, `fileoff` 265 and two sections, `__debug_info` (address 0) and `__debug_abbrev` (address 1), one byte each; a zero byte at 264. The program accepts it and writes `_` (the old table's first byte) at output offset 264, where the input and the corrected output have 0 | Skip the old table (`ignore(80 * n)`) before the intersection, so it is the input between the old table and `fileoff` | not executed | Rewriter.RewriteAsWritten, Rewriter.AsWrittenDiffers, Fixer.FixAsWritten, Fixer.RunAsWritten, Finding.SampleShowsFinding | Rewriter.Rewrite, Rewriter.SplicedKeepsInput, Fixer.Fix, Fixer.Run |
