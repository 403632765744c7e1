/** The whole run of the tool on one input file: scan the header and load commands, move
    `__debug_info` to the end of the `__DWARF` section list, lay the sections out again and
    write the output file. */
module Fixer {
  import opened Bytes
  import opened MachO
  import opened Errors
  import opened Streams
  import opened Scanner
  import opened Reorder
  import opened Layout
  import opened Rewriter

  /** What the program has worked out before it opens the output file: the `__DWARF`
      segment, the reordered section list, that list with its new layout, and the final
      accumulator `dwarf_section_data_offset_last`. */
  datatype Plan = Plan(segment: SegmentInfo, ordered: seq<DwarfSection>, packed: seq<DwarfSection>, last: u64)

  /** The plan's layout is the one the layout loop computes from its section list. */
  predicate Laid(p: Plan)
  {
    p.packed == Packed(p.ordered, p.segment.vmaddr, p.segment.fileoff)
    && p.last == PackedOffset(p.ordered, |p.ordered|, p.segment.fileoff)
  }

  /** The sections lie one after the other from `fileoff`, and the region ends at `last`. */
  predicate Placed(p: Plan)
  {
    p.last == p.segment.fileoff + TotalSize(p.packed)
    && forall k :: 0 <= k < |p.packed| ==> p.packed[k].offset == p.segment.fileoff + TotalSize(p.packed[..k])
  }

  /** The packed region ends before 2^64, so no uint64_t offset of the layout wraps. */
  predicate Fits(p: Plan)
  {
    p.segment.fileoff + TotalSize(p.ordered) < U64_MODULUS
  }

  /** Scan, reorder and layout. */
  function Planned(data: seq<byte>): (r: Result<Plan>)
    ensures r.Ok? ==> Laid(r.value)
  {
    match Scan(data)
    case Err(e) => Err(e)
    case Ok(scanned) =>
      match Reordered(scanned.sections)
      case Err(e) => Err(e)
      case Ok(ordered) =>
        var seg := scanned.segment;
        Ok(Plan(seg, ordered, Packed(ordered, seg.vmaddr, seg.fileoff), PackedOffset(ordered, |ordered|, seg.fileoff)))
  }

  /** The output file the rewrite produces for a plan. */
  function Output(data: seq<byte>, p: Plan): seq<byte>
    requires InFile(data, p.segment, p.packed, p.last)
  {
    Spliced(data, p.segment, SectionTableBytes(p.packed), Payloads(data, p.packed), p.last)
  }

  /** The output file the rewrite produces for a plan, with the intersection copied from the
      start of the old section table as the program does. */
  function OutputAsWritten(data: seq<byte>, p: Plan): seq<byte>
    requires InFile(data, p.segment, p.packed, p.last)
  {
    SplicedAsWritten(data, p.segment, SectionTableBytes(p.packed), Payloads(data, p.packed), p.last)
  }

  /** The output file written for the input `data`, or the reason none is written, with the
      old section table skipped before the intersection. */
  function Fix(data: seq<byte>): Result<seq<byte>>
  {
    match Planned(data)
    case Err(e) => Err(e)
    case Ok(p) => if InFile(data, p.segment, p.packed, p.last) then Ok(Output(data, p)) else Err(RangeOutsideFile)
  }

  /** The same, with the output the program writes. */
  function FixAsWritten(data: seq<byte>): Result<seq<byte>>
  {
    match Planned(data)
    case Err(e) => Err(e)
    case Ok(p) => if InFile(data, p.segment, p.packed, p.last) then Ok(OutputAsWritten(data, p)) else Err(RangeOutsideFile)
  }

  /** The part of `main` before the output file is opened: scan, reorder and layout, read
      from the input stream's start. */
  method PlanInput(input: InputStream) returns (r: Result<Plan>)
    requires input.pos == 0
    modifies input
    ensures r == Planned(input.data)
  {
    var scanned := ScanInput(input);
    if scanned.Err? {
      return Err(scanned.error);
    }
    var ordered := Reorder.Reorder(scanned.value.sections);
    if ordered.Err? {
      return Err(ordered.error);
    }
    var segment := scanned.value.segment;
    var packed, last := Relayout(ordered.value, segment.vmaddr, segment.fileoff);
    return Ok(Plan(segment, ordered.value, packed, last));
  }

  /** `main` after the arguments are taken, with the corrected rewrite: one input stream read
      from its start, one output stream written from empty. */
  method Run(data: seq<byte>, chunkSize: nat) returns (r: Result<seq<byte>>)
    requires chunkSize > 0
    ensures r == Fix(data)
  {
    var input := new InputStream(data);
    var plan := PlanInput(input);
    if plan.Err? {
      return Err(plan.error);
    }
    var p := plan.value;
    assert Planned(data) == Ok(p);
    if !InFile(input.data, p.segment, p.packed, p.last) {
      return Err(RangeOutsideFile);
    }
    var output := new OutputStream();
    Rewrite(input, output, p.segment, p.packed, p.last, chunkSize);
    assert output.written == Output(data, p);
    return Ok(output.written);
  }

  /** `main` after the arguments are taken, as the program is written. */
  method RunAsWritten(data: seq<byte>, chunkSize: nat) returns (r: Result<seq<byte>>)
    requires chunkSize > 0
    ensures r == FixAsWritten(data)
  {
    var input := new InputStream(data);
    var plan := PlanInput(input);
    if plan.Err? {
      return Err(plan.error);
    }
    var p := plan.value;
    assert Planned(data) == Ok(p);
    if !InFile(input.data, p.segment, p.packed, p.last) {
      return Err(RangeOutsideFile);
    }
    var output := new OutputStream();
    RewriteAsWritten(input, output, p.segment, p.packed, p.last, chunkSize);
    assert output.written == OutputAsWritten(data, p);
    return Ok(output.written);
  }

  /** Both runs stop on the same inputs with the same error, and write their outputs for
      the same plan. */
  lemma FixesAgreeOnPlan(data: seq<byte>)
    ensures Fix(data).Err? <==> FixAsWritten(data).Err?
    ensures Fix(data).Err? ==> Fix(data).error == FixAsWritten(data).error
    ensures Fix(data).Ok? ==> Planned(data).Ok? && InFile(data, Planned(data).value.segment, Planned(data).value.packed, Planned(data).value.last)
  {
  }

  /** When the packed region does not wrap around 2^64, both runs write a file exactly as
      long as the input. */
  lemma FixKeepsLength(data: seq<byte>)
    ensures (Planned(data).Ok? && Fits(Planned(data).value) && Fix(data).Ok?) ==> |Fix(data).value| == |data|
    ensures (Planned(data).Ok? && Fits(Planned(data).value) && FixAsWritten(data).Ok?) ==> |FixAsWritten(data).value| == |data|
  {
    if Planned(data).Ok? && Fits(Planned(data).value) && Fix(data).Ok? {
      var p := Planned(data).value;
      PlanOffsets(p);
      OutputKeepsTheRest(data, p);
      OutputAsWrittenKeepsTheRest(data, p);
    }
  }

  /** A plan that lies in the file is written out by both runs. */
  lemma FixesWrite(data: seq<byte>, p: Plan)
    requires Planned(data) == Ok(p) && InFile(data, p.segment, p.packed, p.last)
    ensures Fix(data) == Ok(Output(data, p)) && FixAsWritten(data) == Ok(OutputAsWritten(data, p))
  {
  }

  /** Byte `i` after the new table is input byte `i` after the old table in the corrected
      output, and input byte `i` of the old table in the program's. */
  lemma OutputsAtGap(data: seq<byte>, p: Plan, i: nat)
    requires InFile(data, p.segment, p.packed, p.last)
    requires p.segment.headerOffset + 80 * |p.packed| + i < p.segment.fileoff
    ensures var h, e := p.segment.headerOffset, p.segment.headerOffset + 80 * |p.packed|;
      e + i < |Output(data, p)| && e + i < |OutputAsWritten(data, p)|
      && Output(data, p)[e + i] == data[e + i] && OutputAsWritten(data, p)[e + i] == data[h + i]
  {
    var table, payloads := SectionTableBytes(p.packed), Payloads(data, p.packed);
    SplicedRegions(data, p.segment, table, payloads, p.last);
    SplicedAsWrittenRegions(data, p.segment, table, payloads, p.last);
    SplicedAsWrittenShift(data, p.segment, table, payloads, p.last, i);
  }

  /** On every file both runs accept, their outputs are the same exactly when the input
      between the end of the old section table and `fileoff` equals the input as many bytes
      from the table's start: the program's intersection copy is wrong on every other file. */
  lemma FixesDifferInGap(data: seq<byte>, p: Plan)
    requires Planned(data) == Ok(p) && InFile(data, p.segment, p.packed, p.last)
    ensures var h, t, f := p.segment.headerOffset, 80 * |p.packed|, p.segment.fileoff;
      Fix(data).Ok? && FixAsWritten(data).Ok?
      && (Fix(data) == FixAsWritten(data) <==> data[h..f - t] == data[h + t..f])
  {
    FixesWrite(data, p);
    OutputsDifferInGap(data, p);
  }

  lemma OutputsDifferInGap(data: seq<byte>, p: Plan)
    requires InFile(data, p.segment, p.packed, p.last)
    ensures var h, t, f := p.segment.headerOffset, 80 * |p.packed|, p.segment.fileoff;
      Output(data, p) == OutputAsWritten(data, p) <==> data[h..f - t] == data[h + t..f]
  {
    SplicedDiffersInGap(data, p.segment, p.packed, Payloads(data, p.packed), p.last);
  }

  /** Moving one entry to the end changes no total size. */
  lemma ReorderedKeepsTotalSize(list: seq<DwarfSection>)
    requires Reordered(list).Ok?
    ensures TotalSize(Reordered(list).value) == TotalSize(list)
  {
    match FirstNamed(list, DEBUG_INFO_NAME)
    case None =>
    case Some(i) =>
      assert list == list[..i] + [list[i]] + list[i + 1..];
      TotalSizeAppend(list[..i] + list[i + 1..], [list[i]]);
      TotalSizeAppend(list[..i], list[i + 1..]);
      TotalSizeAppend(list[..i] + [list[i]], list[i + 1..]);
      TotalSizeAppend(list[..i], [list[i]]);
  }

  /** Without wrap-around, every packed entry starts at `fileoff` plus the sizes before it,
      and the packed region ends at `fileoff` plus all sizes. */
  lemma PlanOffsets(p: Plan)
    requires Laid(p) && Fits(p)
    ensures Placed(p)
    ensures TotalSize(p.packed) == TotalSize(p.ordered)
  {
    PackedLayout(p.ordered, p.segment.vmaddr, p.segment.fileoff);
  }

  /** The output file is exactly as long as the input, and outside the section table and the
      packed payloads it is the input: everything before the table, everything between the
      table's end and `fileoff`, everything after the packed region. */
  lemma OutputKeepsTheRest(data: seq<byte>, p: Plan)
    requires InFile(data, p.segment, p.packed, p.last)
    requires p.last == p.segment.fileoff + TotalSize(p.packed)
    ensures var out, h, e, f := Output(data, p), p.segment.headerOffset, p.segment.headerOffset + 80 * |p.packed|, p.segment.fileoff;
      |out| == |data|
      && h <= e <= f <= p.last <= |data|
      && out[..h] == data[..h]
      && out[e..f] == data[e..f]
      && out[p.last..] == data[p.last..]
  {
    SplicedKeepsInput(data, p.segment, SectionTableBytes(p.packed), Payloads(data, p.packed), p.last);
  }

  /** Every section's payload is in the output at its new offset, byte for byte as it was in
      the input at its old offset. */
  lemma OutputMovesPayloads(data: seq<byte>, p: Plan, k: nat)
    requires InFile(data, p.segment, p.packed, p.last) && Placed(p)
    requires k < |p.packed|
    ensures var out, s := Output(data, p), p.packed[k];
      s.offset + s.size <= |out|
      && out[s.offset..s.offset + s.size] == data[s.offsetOld..s.offsetOld + s.size]
  {
    SplicedPayload(data, p.segment, SectionTableBytes(p.packed), p.packed, p.last, k, p.packed[k].offset);
  }

  /** Record `k` of the output's `__DWARF` section table reads back as the record written
      for the `k`th entry of the new layout. */
  lemma OutputWritesTable(data: seq<byte>, p: Plan, k: nat)
    requires InFile(data, p.segment, p.packed, p.last)
    requires k < |p.packed|
    ensures var out, at := Output(data, p), p.segment.headerOffset + 80 * k;
      at + 80 <= |out| && DecodeSection64(out[at..at + 80]) == SectionRecord(p.packed[k])
  {
    SplicedTableDecodes(data, p.segment, p.packed, Payloads(data, p.packed), p.last, k);
  }

  /** The program's output is as long as the input and keeps its prefix and its tail; the
      part between the new table and `fileoff` is the input from `headerOffset` on, shifted by
      the table's length. */
  lemma OutputAsWrittenKeepsTheRest(data: seq<byte>, p: Plan)
    requires InFile(data, p.segment, p.packed, p.last)
    requires p.last == p.segment.fileoff + TotalSize(p.packed)
    ensures var out, h, e, f := OutputAsWritten(data, p), p.segment.headerOffset, p.segment.headerOffset + 80 * |p.packed|, p.segment.fileoff;
      |out| == |data|
      && h <= e <= f <= p.last <= |data|
      && out[..h] == data[..h]
      && out[e..f] == data[h..f - 80 * |p.packed|]
      && out[p.last..] == data[p.last..]
  {
    SplicedAsWrittenKeepsInput(data, p.segment, SectionTableBytes(p.packed), Payloads(data, p.packed), p.last);
  }

  /** In the program's output too, every section's payload is at its new offset. */
  lemma OutputAsWrittenMovesPayloads(data: seq<byte>, p: Plan, k: nat)
    requires InFile(data, p.segment, p.packed, p.last) && Placed(p)
    requires k < |p.packed|
    ensures var out, s := OutputAsWritten(data, p), p.packed[k];
      s.offset + s.size <= |out|
      && out[s.offset..s.offset + s.size] == data[s.offsetOld..s.offsetOld + s.size]
  {
    SplicedAsWrittenPayload(data, p.segment, SectionTableBytes(p.packed), p.packed, p.last, k, p.packed[k].offset);
  }

  /** In the program's output too, record `k` of the section table reads back as the record
      written for packed entry `k`. */
  lemma OutputAsWrittenWritesTable(data: seq<byte>, p: Plan, k: nat)
    requires InFile(data, p.segment, p.packed, p.last)
    requires k < |p.packed|
    ensures var out, at := OutputAsWritten(data, p), p.segment.headerOffset + 80 * k;
      at + 80 <= |out| && DecodeSection64(out[at..at + 80]) == SectionRecord(p.packed[k])
  {
    SplicedAsWrittenTableDecodes(data, p.segment, p.packed, Payloads(data, p.packed), p.last, k);
  }

  /** The record written for a laid-out entry keeps the segment's link
      `addr - offset == vmaddr - fileoff`, carries the entry's size, and, without
      wrap-around, its offset is `fileoff` plus the sizes of the entries before it, cut to
      32 bits. */
  lemma RecordsLinkAddresses(p: Plan, k: nat)
    requires Laid(p)
    requires k < |p.packed|
    ensures var r, s := SectionRecord(p.packed[k]), p.packed[k];
      r.addr == s.address && r.size == p.ordered[k].size && r.offset == TruncU32(s.offset)
      && SubU64(r.addr, s.offset) == SubU64(p.segment.vmaddr, p.segment.fileoff)
      && (Fits(p) ==> s.offset == p.segment.fileoff + TotalSize(p.ordered[..k]))
  {
    PackedKeepsAddressOffsetLink(p.ordered, p.segment.vmaddr, p.segment.fileoff);
    if Fits(p) {
      PackedOffsetIsPrefixSum(p.ordered, k, p.segment.fileoff);
    }
  }

  /** The plan's section list is the scanned one, reordered, with the same total size; a
      list without `__debug_info` keeps its order; names and sizes survive the layout. */
  lemma PlanKeepsSections(data: seq<byte>, p: Plan)
    requires Planned(data) == Ok(p)
    ensures var sections := Scan(data).value.sections;
      |p.packed| == |p.ordered| == |sections|
      && multiset(p.ordered) == multiset(sections)
      && TotalSize(p.ordered) == TotalSize(sections)
      && (forall k :: 0 <= k < |p.packed| ==> p.packed[k].name == p.ordered[k].name && p.packed[k].size == p.ordered[k].size)
      && (FirstNamed(sections, DEBUG_INFO_NAME).None? ==> p.ordered == sections)
  {
    var sections := Scan(data).value.sections;
    ReorderedIsPermutation(sections);
    ReorderedKeepsTotalSize(sections);
    assert |p.ordered| == |sections| by {
      assert |multiset(p.ordered)| == |multiset(sections)|;
    }
  }

  /** With one `__debug_info` entry among the scanned sections, the new layout has it last and
      keeps the other entries in their scanned order. */
  lemma PlanPutsDebugInfoLast(data: seq<byte>, p: Plan)
    requires Planned(data) == Ok(p)
    requires AtMostOneNamed(Scan(data).value.sections, DEBUG_INFO_NAME)
    requires FirstNamed(Scan(data).value.sections, DEBUG_INFO_NAME).Some?
    ensures var sections := Scan(data).value.sections;
      p.ordered == Without(sections, DEBUG_INFO_NAME) + [sections[FirstNamed(sections, DEBUG_INFO_NAME).value]]
      && |p.packed| > 0 && p.packed[|p.packed| - 1].name == DEBUG_INFO_NAME
      && forall k :: 0 <= k < |p.packed| - 1 ==> p.packed[k].name != DEBUG_INFO_NAME
  {
    var sections := Scan(data).value.sections;
    ReorderedIsStable(sections);
    ReorderedPutsDebugInfoLast(sections);
  }

  /** The program stops with "already at the end" exactly when the scanned list's first
      `__debug_info` entry is its last entry. */
  lemma FixStopsWhenAlreadyLast(data: seq<byte>)
    requires Scan(data).Ok?
    ensures var sections := Scan(data).value.sections;
      Fix(data) == Err(DebugInfoAlreadyLast) <==>
        |sections| > 0 && sections[|sections| - 1].name == DEBUG_INFO_NAME
        && forall k :: 0 <= k < |sections| - 1 ==> sections[k].name != DEBUG_INFO_NAME
  {
    ReorderedFails(Scan(data).value.sections);
  }

  /** The header's magic, read little-endian, decides whether the file is taken at all. */
  lemma FixChecksMagic(data: seq<byte>)
    requires |data| >= 32
    ensures var magic := LittleEndian(data[..4]);
      (magic == FAT_MAGIC ==> Fix(data) == Err(FatUnsupported))
      && (magic == MH_MAGIC ==> Fix(data) == Err(Unsupported32Bit))
      && (magic != FAT_MAGIC && magic != MH_MAGIC && magic != MH_MAGIC_64 ==> Fix(data) == Err(UnknownFileType))
    ensures LittleEndian(data[..4]) == MH_MAGIC_64 ==> !(Fix(data).Err? && IsMagicError(Fix(data).error))
  {
    assert data[..32][0..4] == data[..4];
    FindDwarfNoMagicError(data, 32, 0, DecodeMachHeader64(data[..32]).ncmds);
  }

  /** No name of the reordered list holds a NUL. */
  lemma PlannedNamesHaveNoNul(data: seq<byte>, p: Plan)
    requires Planned(data) == Ok(p)
    ensures forall k :: 0 <= k < |p.ordered| ==> 0 !in p.ordered[k].name
  {
    ScannedNamesHaveNoNul(data);
    ReorderedEntriesFrom(Scan(data).value.sections);
  }

  /** The records written for a list's entries, in list order. */
  function Records(list: seq<DwarfSection>): (r: seq<Section64>)
    ensures |r| == |list| && forall k :: 0 <= k < |list| ==> r[k] == SectionRecord(list[k])
  {
    seq(|list|, k requires 0 <= k < |list| => SectionRecord(list[k]))
  }

  /** The entries the scan makes of section records. */
  function Entries(records: seq<Section64>, vmaddr: u64, fileoff: u64): (r: seq<DwarfSection>)
    ensures |r| == |records| && forall k :: 0 <= k < |records| ==> r[k] == SectionEntry(records[k], vmaddr, fileoff)
  {
    seq(|records|, k requires 0 <= k < |records| => SectionEntry(records[k], vmaddr, fileoff))
  }

  /** `out` agrees with `data` before `h`. */
  predicate SameUpTo(data: seq<byte>, out: seq<byte>, h: nat)
  {
    h <= |data| && h <= |out| && out[..h] == data[..h]
  }

  /** `out` holds the section records `records` one after the other from `h`. */
  predicate HoldsRecords(out: seq<byte>, h: nat, records: seq<Section64>)
  {
    h + 80 * |records| <= |out|
    && forall k :: 0 <= k < |records| ==> DecodeSection64(out[h + 80 * k..h + 80 * k + 80]) == records[k]
  }

  /** The scan reads the file only up to the end of the `__DWARF` segment's record and then
      its section table: a file of any length that agrees there and holds other records
      at the table's place scans to the same segment and those records' entries. */
  lemma ScanReadsOnlyCommandsAndTable(data: seq<byte>, sc: Scanned, out: seq<byte>, records: seq<Section64>)
    requires Scan(data) == Ok(sc)
    requires SameUpTo(data, out, sc.segment.headerOffset)
    requires |records| == |sc.sections| && HoldsRecords(out, sc.segment.headerOffset, records)
    ensures Scan(out) == Ok(Scanned(sc.segment, Entries(records, sc.segment.vmaddr, sc.segment.fileoff)))
  {
    var seg := sc.segment;
    var h := seg.headerOffset;
    var ncmds := DecodeMachHeader64(data[..32]).ncmds;
    FindDwarfEnd(data, 32, 0, ncmds);
    assert out[..32] == data[..32] by {
      assert out[..32] == out[..h][..32] && data[..32] == data[..h][..32];
    }
    FindDwarfFrame(data, out, 32, 0, ncmds);
    var cmd := FindDwarf(data, 32, 0, ncmds).value.0;
    TableFromRecords(out, h, records, cmd.nsects, cmd.vmaddr, cmd.fileoff);
  }

  /** A file holding `n` valid section records at `h` has the section table they give. */
  lemma TableFromRecords(out: seq<byte>, h: nat, records: seq<Section64>, n: nat, vmaddr: u64, fileoff: u64)
    requires n == |records| && HoldsRecords(out, h, records)
    ensures SectionTable(out, h, n, vmaddr, fileoff) == Ok(Entries(records, vmaddr, fileoff))
  {
    var table := seq(n, j requires 0 <= j < n => EntryAt(out, h, j, vmaddr, fileoff));
    assert SectionTable(out, h, n, vmaddr, fileoff) == Ok(table);
    var entries := Entries(records, vmaddr, fileoff);
    forall k | 0 <= k < n
      ensures table[k] == entries[k]
    {
      assert SectionRecordAt(out, h + 80 * k) == records[k];
    }
    assert table == entries;
  }

  /** The output holds the input's load commands unchanged and the new records at the old
      table's place. */
  lemma OutputFrame(data: seq<byte>, p: Plan)
    requires InFile(data, p.segment, p.packed, p.last)
    requires p.last == p.segment.fileoff + TotalSize(p.packed)
    ensures SameUpTo(data, Output(data, p), p.segment.headerOffset)
    ensures HoldsRecords(Output(data, p), p.segment.headerOffset, Records(p.packed))
  {
    var out := Output(data, p);
    OutputKeepsTheRest(data, p);
    forall k | 0 <= k < |p.packed|
      ensures DecodeSection64(out[p.segment.headerOffset + 80 * k..p.segment.headerOffset + 80 * k + 80]) == Records(p.packed)[k]
    {
      OutputWritesTable(data, p, k);
    }
  }

  /** A list whose only `__debug_info` entry is its last, written as records and scanned
      again, makes the reorder stop with "already at the end": names without NUL shorter
      than 15 characters read back unchanged. */
  lemma RescannedStops(p: Plan)
    requires Laid(p)
    requires forall k :: 0 <= k < |p.ordered| ==> 0 !in p.ordered[k].name
    requires |p.packed| > 0 && p.packed[|p.packed| - 1].name == DEBUG_INFO_NAME
    requires forall k :: 0 <= k < |p.packed| - 1 ==> p.packed[k].name != DEBUG_INFO_NAME
    ensures Reordered(Entries(Records(p.packed), p.segment.vmaddr, p.segment.fileoff)) == Err(DebugInfoAlreadyLast)
  {
    var again := Entries(Records(p.packed), p.segment.vmaddr, p.segment.fileoff);
    forall k | 0 <= k < |again|
      ensures again[k].name == DEBUG_INFO_NAME <==> p.packed[k].name == DEBUG_INFO_NAME
    {
      NameFieldMatches(p.packed[k].name, DEBUG_INFO_NAME);
    }
    ReorderedFails(again);
  }

  /** The output scans to the plan's segment and the entries of its new records. */
  lemma OutputRescans(data: seq<byte>, sc: Scanned, p: Plan)
    requires Scan(data) == Ok(sc)
    requires p.segment == sc.segment && |p.packed| == |sc.sections|
    requires InFile(data, p.segment, p.packed, p.last)
    requires p.last == p.segment.fileoff + TotalSize(p.packed)
    ensures Scan(Output(data, p)) == Ok(Scanned(sc.segment, Entries(Records(p.packed), sc.segment.vmaddr, sc.segment.fileoff)))
  {
    OutputFrame(data, p);
    ScanReadsOnlyCommandsAndTable(data, sc, Output(data, p), Records(p.packed));
  }

  /** A file whose section list makes the reorder stop is refused with the same error. */
  lemma FixStopsOnScan(out: seq<byte>, sc: Scanned)
    requires Scan(out) == Ok(sc)
    requires Reordered(sc.sections) == Err(DebugInfoAlreadyLast)
    ensures Fix(out) == Err(DebugInfoAlreadyLast)
    ensures FixAsWritten(out) == Err(DebugInfoAlreadyLast)
  {
  }

  /** With one `__debug_info` entry among the scanned sections, the entries read back from
      the new records make the reorder stop with "already at the end". */
  lemma PlanRescanStops(data: seq<byte>, p: Plan)
    requires Planned(data) == Ok(p)
    requires AtMostOneNamed(Scan(data).value.sections, DEBUG_INFO_NAME)
    requires FirstNamed(Scan(data).value.sections, DEBUG_INFO_NAME).Some?
    ensures Reordered(Entries(Records(p.packed), p.segment.vmaddr, p.segment.fileoff)) == Err(DebugInfoAlreadyLast)
  {
    PlannedNamesHaveNoNul(data, p);
    PlanPutsDebugInfoLast(data, p);
    RescannedStops(p);
  }

  /** Running the tool again on its own output stops with "already at the end": the new
      table lists the same sections with `__debug_info` last, and the scan reads the
      unchanged load commands. */
  lemma FixTwiceStops(data: seq<byte>, p: Plan)
    requires Planned(data) == Ok(p) && Fits(p) && InFile(data, p.segment, p.packed, p.last)
    requires AtMostOneNamed(Scan(data).value.sections, DEBUG_INFO_NAME)
    requires FirstNamed(Scan(data).value.sections, DEBUG_INFO_NAME).Some?
    ensures Fix(data) == Ok(Output(data, p))
    ensures Fix(Output(data, p)) == Err(DebugInfoAlreadyLast)
  {
    var sc := Scan(data).value;
    PlanOffsets(p);
    PlanKeepsSections(data, p);
    OutputRescans(data, sc, p);
    PlanRescanStops(data, p);
    FixStopsOnScan(Output(data, p), Scanned(sc.segment, Entries(Records(p.packed), sc.segment.vmaddr, sc.segment.fileoff)));
  }

  /** The program's output, too, holds the input's load commands unchanged and the new
      records at the old table's place. */
  lemma OutputAsWrittenFrame(data: seq<byte>, p: Plan)
    requires InFile(data, p.segment, p.packed, p.last)
    requires p.last == p.segment.fileoff + TotalSize(p.packed)
    ensures SameUpTo(data, OutputAsWritten(data, p), p.segment.headerOffset)
    ensures HoldsRecords(OutputAsWritten(data, p), p.segment.headerOffset, Records(p.packed))
  {
    var out := OutputAsWritten(data, p);
    OutputAsWrittenKeepsTheRest(data, p);
    forall k | 0 <= k < |p.packed|
      ensures DecodeSection64(out[p.segment.headerOffset + 80 * k..p.segment.headerOffset + 80 * k + 80]) == Records(p.packed)[k]
    {
      OutputAsWrittenWritesTable(data, p, k);
    }
  }

  /** Running the program as written again on its own output also stops with "already at
      the end": the shifted intersection is never read by the scan. */
  lemma FixAsWrittenTwiceStops(data: seq<byte>, p: Plan)
    requires Planned(data) == Ok(p) && Fits(p) && InFile(data, p.segment, p.packed, p.last)
    requires AtMostOneNamed(Scan(data).value.sections, DEBUG_INFO_NAME)
    requires FirstNamed(Scan(data).value.sections, DEBUG_INFO_NAME).Some?
    ensures FixAsWritten(data) == Ok(OutputAsWritten(data, p))
    ensures FixAsWritten(OutputAsWritten(data, p)) == Err(DebugInfoAlreadyLast)
  {
    var sc := Scan(data).value;
    var out := OutputAsWritten(data, p);
    PlanOffsets(p);
    PlanKeepsSections(data, p);
    OutputAsWrittenFrame(data, p);
    ScanReadsOnlyCommandsAndTable(data, sc, out, Records(p.packed));
    PlanRescanStops(data, p);
    FixStopsOnScan(out, Scanned(sc.segment, Entries(Records(p.packed), sc.segment.vmaddr, sc.segment.fileoff)));
  }

  /** "__debug_abbrev" */
  const DEBUG_ABBREV_NAME: seq<byte> := [0x5f, 0x5f, 0x64, 0x65, 0x62, 0x75, 0x67, 0x5f, 0x61, 0x62, 0x62, 0x72, 0x65, 0x76]
  /** "__debug_str" */
  const DEBUG_STR_NAME: seq<byte> := [0x5f, 0x5f, 0x64, 0x65, 0x62, 0x75, 0x67, 0x5f, 0x73, 0x74, 0x72]

  /** `__debug_abbrev` (10 bytes), `__debug_info` (20 bytes) and `__debug_str` (5 bytes) in a
      segment at file offset 1000 are laid out as `__debug_abbrev` at 1000, `__debug_str` at
      1010 and `__debug_info` at 1015, wherever their payloads were. */
  lemma ThreeSectionScenario(vmaddr: u64, abbrevAt: u64, infoAt: u64, strAt: u64)
    ensures var abbrev, info, str := DwarfSection(DEBUG_ABBREV_NAME, 0, 0, abbrevAt, 10),
                                     DwarfSection(DEBUG_INFO_NAME, 0, 0, infoAt, 20),
                                     DwarfSection(DEBUG_STR_NAME, 0, 0, strAt, 5);
      Reordered([abbrev, info, str]) == Ok([abbrev, str, info])
      && var packed := Packed([abbrev, str, info], vmaddr, 1000);
      packed[0].name == DEBUG_ABBREV_NAME && packed[0].offset == 1000
      && packed[1].name == DEBUG_STR_NAME && packed[1].offset == 1010
      && packed[2].name == DEBUG_INFO_NAME && packed[2].offset == 1015
      && PackedOffset([abbrev, str, info], 3, 1000) == 1035
  {
    var abbrev, info, str := DwarfSection(DEBUG_ABBREV_NAME, 0, 0, abbrevAt, 10),
                             DwarfSection(DEBUG_INFO_NAME, 0, 0, infoAt, 20),
                             DwarfSection(DEBUG_STR_NAME, 0, 0, strAt, 5);
    var list := [abbrev, info, str];
    assert abbrev.name != DEBUG_INFO_NAME by { assert abbrev.name[8] != DEBUG_INFO_NAME[8]; }
    assert list[1..][0] == info;
    assert FirstNamed(list, DEBUG_INFO_NAME) == Some(1);
    assert MoveToEnd(list, 1) == [abbrev, str, info];
  }
}
