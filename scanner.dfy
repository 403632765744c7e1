/** The header and load-command scanner: finds the `__DWARF` segment, which must be the last
    load command, and lists its sections with the file offsets their addresses give. */
module Scanner {
  import opened Bytes
  import opened MachO
  import opened Errors
  import opened Streams

  /** "__DWARF" */
  const DWARF_SEGNAME: seq<byte> := [0x5f, 0x5f, 0x44, 0x57, 0x41, 0x52, 0x46]

  /** `struct dwarf_section`: `address` and `offset` are the new layout, `offsetOld` is where
      the payload is in the input. */
  datatype DwarfSection = DwarfSection(name: seq<byte>, address: u64, offset: u64, offsetOld: u64, size: u64)

  /** What the scan keeps of the `__DWARF` segment: its `vmaddr`, its `fileoff`, and the file
      position right after its segment record, where its section table starts. */
  datatype SegmentInfo = SegmentInfo(vmaddr: u64, fileoff: u64, headerOffset: nat)

  datatype Scanned = Scanned(segment: SegmentInfo, sections: seq<DwarfSection>)

  /** The `switch` on the header's magic; None lets the scan go on. */
  function MagicError(magic: u32): Option<Error>
  {
    if magic == FAT_MAGIC then Some(FatUnsupported)
    else if magic == MH_MAGIC then Some(Unsupported32Bit)
    else if magic == MH_MAGIC_64 then None
    else Some(UnknownFileType)
  }

  /** `command.segname == std::string("__DWARF")` */
  predicate IsDwarfSegment(segment: SegmentCommand64)
  {
    CString(segment.segname) == DWARF_SEGNAME
  }

  /** The entry pushed for one section record: its true file offset is computed from its
      address as `addr - vmaddr + fileoff` in uint64_t; address and offset start at 0. */
  function SectionEntry(record: Section64, vmaddr: u64, fileoff: u64): DwarfSection
  {
    DwarfSection(CString(record.sectname), 0, 0, AddU64(SubU64(record.addr, vmaddr), fileoff), record.size)
  }

  function SectionRecordAt(data: seq<byte>, at: nat): Section64
    requires at + 80 <= |data|
  {
    DecodeSection64(data[at..at + 80])
  }

  /** The entry for the `j`th section record of the table at `at`. */
  function EntryAt(data: seq<byte>, at: nat, j: nat, vmaddr: u64, fileoff: u64): DwarfSection
    requires at + 80 * j + 80 <= |data|
  {
    SectionEntry(SectionRecordAt(data, at + 80 * j), vmaddr, fileoff)
  }

  /** The `nsects` loop: one entry per 80-byte section record, the records following each
      other from position `at`. */
  function SectionTable(data: seq<byte>, at: nat, nsects: nat, vmaddr: u64, fileoff: u64): Result<seq<DwarfSection>>
  {
    if at + 80 * nsects > |data| then Err(Truncated)
    else Ok(seq(nsects, j requires 0 <= j < nsects => EntryAt(data, at, j, vmaddr, fileoff)))
  }

  /** What the scan does with one load command: go on at the next command's position, or
      stop with the `__DWARF` segment's record and the position after it, or with an error. */
  datatype CommandOutcome = Next(pos: nat) | Found(segment: SegmentCommand64, tableStart: nat) | Stop(error: Error)

  /** One pass of the load-command loop body, for command `i` at file position `pos`. A
      command other than a 64-bit segment is skipped after its 8-byte prefix, a segment other
      than `__DWARF` after its 72-byte record, in both cases `cmdsize` bytes in all. */
  function CommandStep(data: seq<byte>, pos: nat, i: nat, ncmds: nat): (r: CommandOutcome)
    ensures r.Next? ==> pos + 8 <= r.pos <= |data|
    ensures r.Found? ==> i == ncmds - 1 && r.tableStart == pos + 72 <= |data|
    ensures r.Found? ==> r.segment == DecodeSegmentCommand64(data[pos..pos + 72]) && IsDwarfSegment(r.segment)
  {
    if pos + 8 > |data| then Stop(Truncated)
    else
      var command := DecodeLoadCommand(data[pos..pos + 8]);
      if command.cmd != LC_SEGMENT_64 then
        if command.cmdsize < 8 then Stop(CommandTooSmall)
        else if pos + command.cmdsize > |data| then Stop(Truncated)
        else Next(pos + command.cmdsize)
      else if pos + 72 > |data| then Stop(Truncated)
      else
        var segment := DecodeSegmentCommand64(data[pos..pos + 72]);
        if IsDwarfSegment(segment) then
          if i != ncmds - 1 then Stop(DwarfNotLast) else Found(segment, pos + 72)
        else if segment.cmdsize < 72 then Stop(CommandTooSmall)
        else if pos + segment.cmdsize > |data| then Stop(Truncated)
        else Next(pos + segment.cmdsize)
  }

  /** The load-command loop from command `i` at file position `pos` until the `__DWARF`
      segment: that segment's record and the position just after it. */
  function FindDwarf(data: seq<byte>, pos: nat, i: nat, ncmds: nat): Result<(SegmentCommand64, nat)>
    decreases ncmds - i
  {
    if i >= ncmds then Err(NoDwarfSegment)
    else
      match CommandStep(data, pos, i, ncmds)
      case Next(next) => FindDwarf(data, next, i + 1, ncmds)
      case Found(segment, at) => Ok((segment, at))
      case Stop(e) => Err(e)
  }

  /** The load-command search never fails with one of the magic's errors. */
  lemma {:induction false} FindDwarfNoMagicError(data: seq<byte>, pos: nat, i: nat, ncmds: nat)
    ensures FindDwarf(data, pos, i, ncmds).Err? ==> !IsMagicError(FindDwarf(data, pos, i, ncmds).error)
    decreases ncmds - i
  {
    if i < ncmds {
      match CommandStep(data, pos, i, ncmds)
      case Next(next) => FindDwarfNoMagicError(data, next, i + 1, ncmds);
      case Found(_, _) =>
      case Stop(_) =>
    }
  }

  /** The `__DWARF` segment's record ends at or after the position the search starts from,
      and inside the file. */
  lemma {:induction false} FindDwarfEnd(data: seq<byte>, pos: nat, i: nat, ncmds: nat)
    requires FindDwarf(data, pos, i, ncmds).Ok?
    ensures pos + 72 <= FindDwarf(data, pos, i, ncmds).value.1 <= |data|
    decreases ncmds - i
  {
    match CommandStep(data, pos, i, ncmds)
    case Next(next) => FindDwarfEnd(data, next, i + 1, ncmds);
    case Found(_, _) =>
  }

  /** A load command that the search goes past or stops at, read from before `at`, steps
      alike in any file that agrees with it before `at`, whatever the two files' lengths. */
  lemma CommandStepFrame(d1: seq<byte>, d2: seq<byte>, pos: nat, i: nat, ncmds: nat, at: nat)
    requires pos + 72 <= at <= |d1| && at <= |d2| && d1[..at] == d2[..at]
    requires !CommandStep(d1, pos, i, ncmds).Stop?
    requires CommandStep(d1, pos, i, ncmds).Next? ==> CommandStep(d1, pos, i, ncmds).pos <= at
    ensures CommandStep(d2, pos, i, ncmds) == CommandStep(d1, pos, i, ncmds)
  {
    assert d1[pos..pos + 8] == d1[..at][pos..pos + 8];
    assert d2[pos..pos + 8] == d2[..at][pos..pos + 8];
    assert d1[pos..pos + 72] == d1[..at][pos..pos + 72];
    assert d2[pos..pos + 72] == d2[..at][pos..pos + 72];
  }

  /** The load-command search reads only bytes before the end of the `__DWARF` segment's
      record: every command it skips ends before that record, so any file that agrees with
      it there, of any length, finds the same segment. */
  lemma {:induction false} FindDwarfFrame(d1: seq<byte>, d2: seq<byte>, pos: nat, i: nat, ncmds: nat)
    requires FindDwarf(d1, pos, i, ncmds).Ok?
    requires FindDwarf(d1, pos, i, ncmds).value.1 <= |d2|
    requires FindDwarf(d1, pos, i, ncmds).value.1 <= |d1|
    requires d1[..FindDwarf(d1, pos, i, ncmds).value.1] == d2[..FindDwarf(d1, pos, i, ncmds).value.1]
    ensures FindDwarf(d2, pos, i, ncmds) == FindDwarf(d1, pos, i, ncmds)
    decreases ncmds - i
  {
    var at := FindDwarf(d1, pos, i, ncmds).value.1;
    FindDwarfEnd(d1, pos, i, ncmds);
    match CommandStep(d1, pos, i, ncmds)
    case Next(next) =>
      FindDwarfEnd(d1, next, i + 1, ncmds);
      CommandStepFrame(d1, d2, pos, i, ncmds, at);
      FindDwarfFrame(d1, d2, next, i + 1, ncmds);
    case Found(_, _) =>
      CommandStepFrame(d1, d2, pos, i, ncmds, at);
  }

  /** The whole scan of a file: header, load commands, `__DWARF` section table. */
  function Scan(data: seq<byte>): Result<Scanned>
  {
    if |data| < 32 then Err(Truncated)
    else
      var header := DecodeMachHeader64(data[..32]);
      match MagicError(header.magic)
      case Some(e) => Err(e)
      case None =>
        match FindDwarf(data, 32, 0, header.ncmds)
        case Err(e) => Err(e)
        case Ok((segment, at)) =>
          match SectionTable(data, at, segment.nsects, segment.vmaddr, segment.fileoff)
          case Err(e) => Err(e)
          case Ok(sections) => Ok(Scanned(SegmentInfo(segment.vmaddr, segment.fileoff, at), sections))
  }

  /** Every scanned name is read up to its first NUL, so it holds none. */
  lemma ScannedNamesHaveNoNul(data: seq<byte>)
    requires Scan(data).Ok?
    ensures forall k :: 0 <= k < |Scan(data).value.sections| ==> 0 !in Scan(data).value.sections[k].name
  {
  }

  /** A load command the scan goes past is skipped by exactly its `cmdsize`, which is at
      least the 8 or 72 bytes read of it; a command other than a 64-bit segment whose
      `cmdsize` is at least 8, and a 64-bit segment other than `__DWARF` whose `cmdsize` is
      at least 72, is always gone past when it stays inside the file. */
  lemma CommandStepSkips(data: seq<byte>, pos: nat, i: nat, ncmds: nat)
    requires pos + 8 <= |data|
    ensures var r, cmd, size := CommandStep(data, pos, i, ncmds), U32At(data, pos), U32At(data, pos + 4);
      r.Next? ==> r.pos == pos + size && size >= (if cmd == LC_SEGMENT_64 then 72 else 8)
    ensures var r, cmd, size := CommandStep(data, pos, i, ncmds), U32At(data, pos), U32At(data, pos + 4);
      cmd != LC_SEGMENT_64 && 8 <= size && pos + size <= |data| ==> r == Next(pos + size)
    ensures var r, cmd, size := CommandStep(data, pos, i, ncmds), U32At(data, pos), U32At(data, pos + 4);
      (cmd == LC_SEGMENT_64 && 72 <= size && pos + size <= |data|
       && !IsDwarfSegment(DecodeSegmentCommand64(data[pos..pos + 72]))) ==> r == Next(pos + size)
  {
    SliceOfSlice(data, pos, pos + 8, 0, 4);
    SliceOfSlice(data, pos, pos + 8, 4, 8);
    if pos + 72 <= |data| {
      SliceOfSlice(data, pos, pos + 72, 4, 8);
    }
  }

  /** A `__DWARF` segment command ends the search: it is found when it is the last load
      command and is an error anywhere else. */
  lemma CommandStepDwarf(data: seq<byte>, pos: nat, i: nat, ncmds: nat)
    requires pos + 72 <= |data|
    requires U32At(data, pos) == LC_SEGMENT_64
    requires IsDwarfSegment(DecodeSegmentCommand64(data[pos..pos + 72]))
    ensures i == ncmds - 1 ==> CommandStep(data, pos, i, ncmds) == Found(DecodeSegmentCommand64(data[pos..pos + 72]), pos + 72)
    ensures i != ncmds - 1 ==> CommandStep(data, pos, i, ncmds) == Stop(DwarfNotLast)
  {
    SliceOfSlice(data, pos, pos + 8, 0, 4);
  }

  /** A successful scan read an `MH_MAGIC_64` header and found the `__DWARF` segment; its
      section list has one entry per section record, in file order, each named after its
      record, with address and offset 0 and the old offset `addr - vmaddr + fileoff`; and the
      table starts where the segment's record ends. */
  lemma ScanListsSections(data: seq<byte>)
    requires Scan(data).Ok?
    ensures |data| >= 32
    ensures var header := DecodeMachHeader64(data[..32]);
      header.magic == MH_MAGIC_64 && FindDwarf(data, 32, 0, header.ncmds).Ok?
    ensures var header := DecodeMachHeader64(data[..32]);
      var found, sc := FindDwarf(data, 32, 0, header.ncmds).value, Scan(data).value;
      var segment, at := found.0, found.1;
      sc.segment == SegmentInfo(segment.vmaddr, segment.fileoff, at)
      && |sc.sections| == segment.nsects && at + 80 * |sc.sections| <= |data|
      && forall j :: 0 <= j < |sc.sections| ==>
        var record := SectionRecordAt(data, at + 80 * j);
        sc.sections[j] == DwarfSection(CString(record.sectname), 0, 0,
                                       AddU64(SubU64(record.addr, segment.vmaddr), segment.fileoff), record.size)
  {
    var header := DecodeMachHeader64(data[..32]);
    var found := FindDwarf(data, 32, 0, header.ncmds).value;
    var table := SectionTable(data, found.1, found.0.nsects, found.0.vmaddr, found.0.fileoff);
    assert table.Ok? && Scan(data).value == Scanned(SegmentInfo(found.0.vmaddr, found.0.fileoff, found.1), table.value);
    SectionTableLists(data, found.1, found.0.nsects, found.0.vmaddr, found.0.fileoff);
  }

  lemma SectionTableLists(data: seq<byte>, at: nat, nsects: nat, vmaddr: u64, fileoff: u64)
    requires SectionTable(data, at, nsects, vmaddr, fileoff).Ok?
    ensures var list := SectionTable(data, at, nsects, vmaddr, fileoff).value;
      |list| == nsects && at + 80 * nsects <= |data|
      && forall j :: 0 <= j < |list| ==>
        var record := SectionRecordAt(data, at + 80 * j);
        list[j] == DwarfSection(CString(record.sectname), 0, 0, AddU64(SubU64(record.addr, vmaddr), fileoff), record.size)
  {
    var list := SectionTable(data, at, nsects, vmaddr, fileoff).value;
    forall j | 0 <= j < |list|
      ensures list[j] == EntryAt(data, at, j, vmaddr, fileoff)
    {
    }
  }

  /** The scan as the program runs it, reading the input stream from its start. */
  method ScanInput(input: InputStream) returns (r: Result<Scanned>)
    requires input.pos == 0
    modifies input
    ensures r == Scan(input.data)
  {
    if |input.data| < 32 {
      return Err(Truncated);
    }
    var headerBytes := input.Read(32);
    var header := DecodeMachHeader64(headerBytes);
    var bad := MagicError(header.magic);
    if bad.Some? {
      return Err(bad.value);
    }
    var i := 0;
    while i < header.ncmds
      invariant 0 <= i <= header.ncmds
      invariant input.pos <= |input.data|
      invariant FindDwarf(input.data, 32, 0, header.ncmds) == FindDwarf(input.data, input.pos, i, header.ncmds)
      decreases header.ncmds - i
    {
      var outcome := ReadCommand(input, i, header.ncmds);
      match outcome
      case Stop(e) =>
        return Err(e);
      case Found(segment, at) =>
        var info := SegmentInfo(segment.vmaddr, segment.fileoff, at);
        var sections := ReadSectionTable(input, segment.nsects, segment.vmaddr, segment.fileoff);
        // the `__DWARF` segment is the last load command, so the scan loop ends here
        return match sections
          case Err(e) => Err(e)
          case Ok(list) => Ok(Scanned(info, list));
      case Next(_) =>
        i := i + 1;
    }
    return Err(NoDwarfSegment);
  }

  /** The body of the load-command loop: reads the 8-byte command prefix and, for a 64-bit
      segment, the rest of its 72-byte record, then skips what is left of the command unless
      it is the `__DWARF` segment. */
  method ReadCommand(input: InputStream, i: nat, ncmds: nat) returns (outcome: CommandOutcome)
    requires input.pos <= |input.data|
    modifies input
    ensures outcome == CommandStep(input.data, old(input.pos), i, ncmds)
    ensures outcome.Next? ==> input.pos == outcome.pos
    ensures outcome.Found? ==> input.pos == outcome.tableStart
  {
    ghost var start := input.pos;
    if input.pos + 8 > |input.data| {
      return Stop(Truncated);
    }
    var prefix := input.Read(8);
    var command := DecodeLoadCommand(prefix);
    if command.cmd != LC_SEGMENT_64 {
      if command.cmdsize < 8 {
        return Stop(CommandTooSmall);
      }
      if input.pos + (command.cmdsize - 8) > |input.data| {
        return Stop(Truncated);
      }
      input.Ignore(command.cmdsize - 8);
      return Next(input.pos);
    }
    if input.pos + 64 > |input.data| {
      return Stop(Truncated);
    }
    var rest := input.Read(64);
    assert prefix + rest == input.data[start..start + 72];
    var segment := DecodeSegmentCommand64(prefix + rest);
    if IsDwarfSegment(segment) {
      if i != ncmds - 1 {
        return Stop(DwarfNotLast);
      }
      return Found(segment, input.pos);
    }
    if segment.cmdsize < 72 {
      return Stop(CommandTooSmall);
    }
    if input.pos + (segment.cmdsize - 72) > |input.data| {
      return Stop(Truncated);
    }
    input.Ignore(segment.cmdsize - 72);
    return Next(input.pos);
  }

  /** One pass of the `nsects` loop: reads the `j`th 80-byte section record of the table at
      `at` and makes its entry. */
  method ReadEntry(input: InputStream, ghost at: nat, ghost j: nat, vmaddr: u64, fileoff: u64) returns (entry: DwarfSection)
    requires input.pos == at + 80 * j && at + 80 * j + 80 <= |input.data|
    modifies input
    ensures entry == EntryAt(input.data, at, j, vmaddr, fileoff)
    ensures input.pos == old(input.pos) + 80
  {
    var record := input.Read(80);
    entry := SectionEntry(DecodeSection64(record), vmaddr, fileoff);
  }

  /** The entries of the first `j` section records of the table at `at`. */
  function EntriesFrom(data: seq<byte>, at: nat, j: nat, vmaddr: u64, fileoff: u64): (r: seq<DwarfSection>)
    requires at + 80 * j <= |data|
    ensures |r| == j
  {
    if j == 0 then [] else EntriesFrom(data, at, j - 1, vmaddr, fileoff) + [EntryAt(data, at, j - 1, vmaddr, fileoff)]
  }

  lemma {:induction false} EntriesFromAt(data: seq<byte>, at: nat, j: nat, vmaddr: u64, fileoff: u64, k: nat)
    requires at + 80 * j <= |data| && k < j
    ensures EntriesFrom(data, at, j, vmaddr, fileoff)[k] == EntryAt(data, at, k, vmaddr, fileoff)
  {
    if k < j - 1 {
      EntriesFromAt(data, at, j - 1, vmaddr, fileoff, k);
    }
  }

  lemma EntriesFromStep(data: seq<byte>, at: nat, j: nat, vmaddr: u64, fileoff: u64)
    requires at + 80 * j + 80 <= |data|
    ensures EntriesFrom(data, at, j + 1, vmaddr, fileoff)
         == EntriesFrom(data, at, j, vmaddr, fileoff) + [EntryAt(data, at, j, vmaddr, fileoff)]
  {
  }

  lemma TableIsEntries(data: seq<byte>, at: nat, nsects: nat, vmaddr: u64, fileoff: u64)
    requires at + 80 * nsects <= |data|
    ensures SectionTable(data, at, nsects, vmaddr, fileoff) == Ok(EntriesFrom(data, at, nsects, vmaddr, fileoff))
  {
    var entries := EntriesFrom(data, at, nsects, vmaddr, fileoff);
    var table := seq(nsects, j requires 0 <= j < nsects => EntryAt(data, at, j, vmaddr, fileoff));
    assert SectionTable(data, at, nsects, vmaddr, fileoff) == Ok(table);
    forall k | 0 <= k < nsects
      ensures entries[k] == table[k]
    {
      EntriesFromAt(data, at, nsects, vmaddr, fileoff, k);
    }
    assert entries == table;
  }

  /** The inner `nsects` loop: reads the section records one after the other and pushes
      one entry for each. */
  method ReadSectionTable(input: InputStream, nsects: nat, vmaddr: u64, fileoff: u64) returns (r: Result<seq<DwarfSection>>)
    requires input.pos <= |input.data|
    modifies input
    ensures r == SectionTable(input.data, old(input.pos), nsects, vmaddr, fileoff)
  {
    ghost var data, at := input.data, input.pos;
    var list: seq<DwarfSection> := [];
    var j := 0;
    while j < nsects
      invariant 0 <= j <= nsects
      invariant input.pos == at + 80 * j <= |data|
      invariant list == EntriesFrom(data, at, j, vmaddr, fileoff)
    {
      if input.pos + 80 > |input.data| {
        assert at + 80 * nsects > |data|;
        return Err(Truncated);
      }
      var entry := ReadEntry(input, at, j, vmaddr, fileoff);
      EntriesFromStep(data, at, j, vmaddr, fileoff);
      list := list + [entry];
      j := j + 1;
    }
    TableIsEntries(data, at, nsects, vmaddr, fileoff);
    return Ok(list);
  }
}
