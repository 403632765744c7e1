/** 267-byte 64-bit Mach-O files that the program accepts, on which its intersection copy
    puts a byte of the old section table where the input's own byte belongs. */
module Finding {
  import opened Bytes
  import opened MachO
  import opened Errors
  import opened Scanner
  import opened Reorder
  import opened Layout
  import opened Rewriter
  import opened Fixer

  /** A header with `MH_MAGIC_64` and one load command; a `__DWARF` `LC_SEGMENT_64` with
      `vmaddr` 0, `fileoff` 265 and two sections; the records of `__debug_info` (address 0)
      and `__debug_abbrev` (address 1), one byte each. The other fields are free. */
  predicate SampleRecords(header: MachHeader64, segment: SegmentCommand64, info: Section64, abbrev: Section64)
  {
    header.magic == MH_MAGIC_64 && header.ncmds == 1
    && segment.cmd == LC_SEGMENT_64 && IsDwarfSegment(segment)
    && segment.vmaddr == 0 && segment.fileoff == 265 && segment.nsects == 2
    && CString(info.sectname) == DEBUG_INFO_NAME && info.addr == 0 && info.size == 1
    && CString(abbrev.sectname) == DEBUG_ABBREV_NAME && abbrev.addr == 1 && abbrev.size == 1
  }

  /** Such records exist: a zeroed header and segment command with those fields, and the
      section records the program itself writes for the two names. */
  lemma SampleRecordsExist()
    ensures SampleRecords(
      MachHeader64(MH_MAGIC_64, 0, 0, 0, 1, 0, 0, 0),
      SegmentCommand64(LC_SEGMENT_64, 232, NameField(DWARF_SEGNAME), 0, 0, 265, 0, 0, 0, 2, 0),
      Section64(NameField(DEBUG_INFO_NAME), NameField(DWARF_SEGNAME), 0, 1, 0, 0, 0, 0, 0, 0, 0, 0),
      Section64(NameField(DEBUG_ABBREV_NAME), NameField(DWARF_SEGNAME), 1, 1, 0, 0, 0, 0, 0, 0, 0, 0))
  {
    CStringNameField(DWARF_SEGNAME);
    CStringNameField(DEBUG_INFO_NAME);
    CStringNameField(DEBUG_ABBREV_NAME);
  }

  /** The header at 0, the segment command at 32, its section table at 104, one zero byte at
      264, then the payloads 7 (`__debug_info`) and 9 (`__debug_abbrev`) at 265 and 266. */
  function SampleFile(header: MachHeader64, segment: SegmentCommand64, info: Section64, abbrev: Section64): (r: seq<byte>)
    ensures |r| == 267
  {
    EncodeMachHeader64(header) + EncodeSegmentCommand64(segment) + EncodeSection64(info) + EncodeSection64(abbrev) + [0, 7, 9]
  }

  /** The header and the segment command read back as the records they hold. */
  lemma SampleCommandsRead(header: MachHeader64, segment: SegmentCommand64, info: Section64, abbrev: Section64)
    ensures var d := SampleFile(header, segment, info, abbrev);
      DecodeMachHeader64(d[..32]) == header
      && DecodeSegmentCommand64(d[32..104]) == segment
      && U32At(d, 32) == segment.cmd
  {
    var d := SampleFile(header, segment, info, abbrev);
    var b := EncodeSegmentCommand64(segment);
    assert d[..32] == EncodeMachHeader64(header);
    assert d[32..104] == b;
    DecodeEncodeMachHeader64(header);
    DecodeEncodeSegmentCommand64(segment);
    SliceOfSlice(d, 32, 104, 0, 4);
  }

  /** The two section records read back as the records they hold. */
  lemma SampleRecordsRead(header: MachHeader64, segment: SegmentCommand64, info: Section64, abbrev: Section64)
    ensures var d := SampleFile(header, segment, info, abbrev);
      SectionRecordAt(d, 104) == info && SectionRecordAt(d, 184) == abbrev
  {
    var d := SampleFile(header, segment, info, abbrev);
    assert d[104..184] == EncodeSection64(info);
    assert d[184..264] == EncodeSection64(abbrev);
    DecodeEncodeSection64(info);
    DecodeEncodeSection64(abbrev);
  }

  /** The section table gives the entries of `__debug_info` at 265 and `__debug_abbrev` at 266. */
  lemma SampleSectionsRead(header: MachHeader64, segment: SegmentCommand64, info: Section64, abbrev: Section64)
    requires SampleRecords(header, segment, info, abbrev)
    ensures SectionTable(SampleFile(header, segment, info, abbrev), 104, 2, 0, 265)
         == Ok([DwarfSection(DEBUG_INFO_NAME, 0, 0, 265, 1), DwarfSection(DEBUG_ABBREV_NAME, 0, 0, 266, 1)])
  {
    var d := SampleFile(header, segment, info, abbrev);
    SampleRecordsRead(header, segment, info, abbrev);
    assert EntryAt(d, 104, 0, 0, 265) == DwarfSection(DEBUG_INFO_NAME, 0, 0, 265, 1);
    assert EntryAt(d, 104, 1, 0, 265) == DwarfSection(DEBUG_ABBREV_NAME, 0, 0, 266, 1);
    TwoEntries(d, 104, 0, 265, DwarfSection(DEBUG_INFO_NAME, 0, 0, 265, 1), DwarfSection(DEBUG_ABBREV_NAME, 0, 0, 266, 1));
  }

  /** A table of two records whose entries are `e0` and `e1`. */
  lemma TwoEntries(d: seq<byte>, at: nat, vmaddr: u64, fileoff: u64, e0: DwarfSection, e1: DwarfSection)
    requires at + 160 <= |d|
    requires EntryAt(d, at, 0, vmaddr, fileoff) == e0 && EntryAt(d, at, 1, vmaddr, fileoff) == e1
    ensures SectionTable(d, at, 2, vmaddr, fileoff) == Ok([e0, e1])
  {
    var table := seq(2, j requires 0 <= j < 2 => EntryAt(d, at, j, vmaddr, fileoff));
    assert table == [e0, e1];
  }

  /** The scan finds the `__DWARF` segment with its table at 104, and lists `__debug_info`
      with its payload at 265 and `__debug_abbrev` with its payload at 266. */
  lemma SampleScans(header: MachHeader64, segment: SegmentCommand64, info: Section64, abbrev: Section64)
    requires SampleRecords(header, segment, info, abbrev)
    ensures Scan(SampleFile(header, segment, info, abbrev)) == Ok(Scanned(SegmentInfo(0, 265, 104),
      [DwarfSection(DEBUG_INFO_NAME, 0, 0, 265, 1), DwarfSection(DEBUG_ABBREV_NAME, 0, 0, 266, 1)]))
  {
    var d := SampleFile(header, segment, info, abbrev);
    SampleCommandsRead(header, segment, info, abbrev);
    SampleSectionsRead(header, segment, info, abbrev);
    CommandStepDwarf(d, 32, 0, 1);
    assert FindDwarf(d, 32, 0, 1) == Ok((segment, 104));
  }

  /** The scanned `__debug_info` is the first of the two entries, so it moves behind
      `__debug_abbrev`. */
  lemma SampleReorders()
    ensures var info, abbrev := DwarfSection(DEBUG_INFO_NAME, 0, 0, 265, 1), DwarfSection(DEBUG_ABBREV_NAME, 0, 0, 266, 1);
      Reordered([info, abbrev]) == Ok([abbrev, info])
  {
    var info, abbrev := DwarfSection(DEBUG_INFO_NAME, 0, 0, 265, 1), DwarfSection(DEBUG_ABBREV_NAME, 0, 0, 266, 1);
    assert FirstNamed([info, abbrev], DEBUG_INFO_NAME) == Some(0);
    assert MoveToEnd([info, abbrev], 0) == [abbrev, info];
  }

  /** Packed from 265, the two one-byte sections end at 267 and keep their old offsets. */
  lemma SampleLayout(ordered: seq<DwarfSection>)
    requires ordered == [DwarfSection(DEBUG_ABBREV_NAME, 0, 0, 266, 1), DwarfSection(DEBUG_INFO_NAME, 0, 0, 265, 1)]
    ensures PackedOffset(ordered, 2, 265) == 267
    ensures var packed := Packed(ordered, 0, 265);
      |packed| == 2 && packed[0].offsetOld == 266 && packed[1].offsetOld == 265
      && packed[0].size == 1 && packed[1].size == 1
  {
  }

  /** That layout lies in every 267-byte file whose table of two records starts at 104 and
      whose segment data starts at 265. */
  lemma SampleInFile(d: seq<byte>, ordered: seq<DwarfSection>)
    requires |d| == 267
    requires ordered == [DwarfSection(DEBUG_ABBREV_NAME, 0, 0, 266, 1), DwarfSection(DEBUG_INFO_NAME, 0, 0, 265, 1)]
    ensures InFile(d, SegmentInfo(0, 265, 104), Packed(ordered, 0, 265), PackedOffset(ordered, 2, 265))
  {
    SampleLayout(ordered);
  }

  /** The plan for such a file: `__debug_abbrev` packed at 265, then `__debug_info` at 266. */
  lemma SamplePlan(header: MachHeader64, segment: SegmentCommand64, info: Section64, abbrev: Section64) returns (p: Plan)
    requires SampleRecords(header, segment, info, abbrev)
    ensures var d := SampleFile(header, segment, info, abbrev);
      Planned(d) == Ok(p) && InFile(d, p.segment, p.packed, p.last)
      && p.segment == SegmentInfo(0, 265, 104) && |p.packed| == 2
  {
    var d := SampleFile(header, segment, info, abbrev);
    SampleScans(header, segment, info, abbrev);
    SampleReorders();
    var ordered := [DwarfSection(DEBUG_ABBREV_NAME, 0, 0, 266, 1), DwarfSection(DEBUG_INFO_NAME, 0, 0, 265, 1)];
    SampleInFile(d, ordered);
    p := Plan(SegmentInfo(0, 265, 104), ordered, Packed(ordered, 0, 265), PackedOffset(ordered, 2, 265));
  }

  /** Every such file is accepted by the program, and its output differs from the corrected
      one at 264, right after the new table: the corrected output keeps the input's 0 there,
      and the program writes `_`, the first byte of the old table's first record. */
  lemma SampleShowsFinding(header: MachHeader64, segment: SegmentCommand64, info: Section64, abbrev: Section64)
    requires SampleRecords(header, segment, info, abbrev)
    ensures var d := SampleFile(header, segment, info, abbrev);
      Fix(d).Ok? && FixAsWritten(d).Ok?
      && 264 < |Fix(d).value| && 264 < |FixAsWritten(d).value|
      && Fix(d).value[264] == 0 && FixAsWritten(d).value[264] == 0x5f
      && Fix(d) != FixAsWritten(d)
  {
    var d := SampleFile(header, segment, info, abbrev);
    var p := SamplePlan(header, segment, info, abbrev);
    FixesWrite(d, p);
    OutputsAtGap(d, p, 0);
    SampleGapBytes(header, segment, info, abbrev);
  }

  /** The input has 0 at 264 and `_` at 104, where the old table's first name starts. */
  lemma SampleGapBytes(header: MachHeader64, segment: SegmentCommand64, info: Section64, abbrev: Section64)
    requires SampleRecords(header, segment, info, abbrev)
    ensures var d := SampleFile(header, segment, info, abbrev);
      d[264] == 0 && d[104] == 0x5f
  {
    var d := SampleFile(header, segment, info, abbrev);
    assert d[104..184] == EncodeSection64(info);
    assert d[104] == info.sectname[0];
    assert CString(info.sectname)[0] == 0x5f;
  }
}
