/** The stream rewriter: the output file is the input's prefix up to the `__DWARF` section
    table, a regenerated section table, the bytes between the old table and the segment's
    data, each section's payload in the new order, and the rest of the input. */
module Rewriter {
  import opened Bytes
  import opened MachO
  import opened Scanner
  import opened Streams
  import opened Layout

  /** The `section_64` written for an entry: `__DWARF` and the entry's name as segment and
      section names, the entry's new address and size, its new offset cut to the 32-bit
      `offset` field; alignment, relocations, flags and reserved words stay zero. */
  function SectionRecord(s: DwarfSection): Section64
  {
    Section64(NameField(s.name), NameField(DWARF_SEGNAME), s.address, s.size, TruncU32(s.offset),
              0, 0, 0, 0, 0, 0, 0)
  }

  /** Read back as C strings, a written record names the `__DWARF` segment and the entry's
      name cut to 15 bytes; it carries the entry's address and size and its offset in 32
      bits, and every other field is zero. */
  lemma SectionRecordFields(s: DwarfSection)
    requires 0 !in s.name
    ensures var r := SectionRecord(s);
      CString(r.segname) == DWARF_SEGNAME && CString(r.sectname) == Truncated15(s.name)
      && r.addr == s.address && r.size == s.size && r.offset == TruncU32(s.offset)
      && r.align == 0 && r.reloff == 0 && r.nreloc == 0 && r.flags == 0
      && r.reserved1 == 0 && r.reserved2 == 0 && r.reserved3 == 0
  {
    CStringNameField(s.name);
    CStringNameField(DWARF_SEGNAME);
  }

  /** The regenerated section table: one 80-byte record per entry, in list order. */
  function SectionTableBytes(list: seq<DwarfSection>): (r: seq<byte>)
    ensures |r| == 80 * |list|
  {
    TablePrefix(list, |list|)
  }

  /** The records of the first `k` entries. */
  function TablePrefix(list: seq<DwarfSection>, k: nat): (r: seq<byte>)
    requires k <= |list|
    ensures |r| == 80 * k
  {
    if k == 0 then [] else TablePrefix(list, k - 1) + EncodeSection64(SectionRecord(list[k - 1]))
  }

  /** The 80-byte record written for each entry. */
  function RecordBytes(list: seq<DwarfSection>): (r: seq<seq<byte>>)
    ensures |r| == |list|
    ensures forall k :: 0 <= k < |list| ==> r[k] == EncodeSection64(SectionRecord(list[k]))
  {
    seq(|list|, k requires 0 <= k < |list| => EncodeSection64(SectionRecord(list[k])))
  }

  /** The first `k` records, one after the other. */
  function Joined(records: seq<seq<byte>>, k: nat): seq<byte>
    requires k <= |records|
  {
    if k == 0 then [] else Joined(records, k - 1) + records[k - 1]
  }

  /** Every entry's payload range lies inside the input. */
  predicate PayloadsInFile(data: seq<byte>, list: seq<DwarfSection>)
  {
    forall k :: 0 <= k < |list| ==> list[k].offsetOld + list[k].size <= |data|
  }

  /** The payloads, in list order, each read from its old offset. */
  function Payloads(data: seq<byte>, list: seq<DwarfSection>): (r: seq<byte>)
    requires PayloadsInFile(data, list)
    ensures |r| == TotalSize(list)
  {
    if |list| == 0 then []
    else
      var s := list[|list| - 1];
      Payloads(data, list[..|list| - 1]) + data[s.offsetOld..s.offsetOld + s.size]
  }

  /** The ranges the rewrite copies, as unsigned lengths that do not wrap: the old section
      table ends before the segment's data (`intersection_size`), the accumulator is inside
      the file (`left_size`), and so is every payload. */
  predicate InFile(data: seq<byte>, segment: SegmentInfo, list: seq<DwarfSection>, last: u64)
  {
    segment.headerOffset + 80 * |list| <= segment.fileoff <= |data|
    && last <= |data|
    && PayloadsInFile(data, list)
  }

  /** The output file put together from a section table and the payloads: the input up to
      `headerOffset`, the table, the input from the end of the old table to `fileoff`, the
      payloads, and the input from `last` on. */
  function Spliced(data: seq<byte>, segment: SegmentInfo, table: seq<byte>, payloads: seq<byte>, last: nat): seq<byte>
    requires segment.headerOffset + |table| <= segment.fileoff <= |data| && last <= |data|
  {
    var h := segment.headerOffset;
    data[..h] + table + data[h + |table|..segment.fileoff] + payloads + data[last..]
  }

  /** The same, with the middle part copied from `headerOffset` on, where the program's input
      stream stands after the prefix: the input shifted by the table's length. */
  function SplicedAsWritten(data: seq<byte>, segment: SegmentInfo, table: seq<byte>, payloads: seq<byte>, last: nat): seq<byte>
    requires segment.headerOffset + |table| <= segment.fileoff <= |data| && last <= |data|
  {
    var h := segment.headerOffset;
    data[..h] + table + data[h..segment.fileoff - |table|] + payloads + data[last..]
  }

  /** The loop writing one `section_64` per entry. */
  method WriteSectionTable(output: OutputStream, list: seq<DwarfSection>)
    modifies output
    ensures output.written == old(output.written) + SectionTableBytes(list)
  {
    for k := 0 to |list|
      invariant output.written == old(output.written) + TablePrefix(list, k)
    {
      var record := EncodeSection64(SectionRecord(list[k]));
      AppendAssoc(old(output.written), TablePrefix(list, k), record);
      output.Write(record);
    }
  }

  /** The loop copying each payload from its old offset. */
  method CopyPayloads(input: InputStream, output: OutputStream, list: seq<DwarfSection>, chunkSize: nat)
    requires chunkSize > 0
    requires PayloadsInFile(input.data, list)
    modifies input, output
    ensures output.written == old(output.written) + Payloads(input.data, list)
  {
    for k := 0 to |list|
      invariant output.written == old(output.written) + Payloads(input.data, list[..k])
    {
      assert list[..k + 1][..k] == list[..k];
      input.Seek(list[k].offsetOld);
      CopySome(input, output, list[k].size, chunkSize);
    }
    assert list[..|list|] == list;
  }

  /** The copy of the file's tail, from the accumulator to the end of the input. */
  method CopyTail(input: InputStream, output: OutputStream, last: u64, chunkSize: nat)
    requires chunkSize > 0
    requires last <= |input.data|
    modifies input, output
    ensures output.written == old(output.written) + input.data[last..]
  {
    input.Seek(|input.data|);
    var leftSize := input.pos - last;
    if leftSize > 0 {
      input.Seek(last);
      CopySome(input, output, leftSize, chunkSize);
    } else {
      assert input.data[last..] == [];
    }
  }

  lemma AppendAssoc(a: seq<byte>, b: seq<byte>, c: seq<byte>)
    ensures a + b + c == a + (b + c)
  {
  }

  lemma Assemble(before: seq<byte>, middle: seq<byte>, written: seq<byte>,
                 a: seq<byte>, b: seq<byte>, c: seq<byte>, d: seq<byte>, e: seq<byte>, whole: seq<byte>)
    requires middle == before + (a + b) + c
    requires written == middle + (d + e)
    requires whole == a + b + c + d + e
    ensures written == before + whole
  {
  }

  /** The start of the output: the input up to the section table, then the new table. */
  method WriteFront(input: InputStream, output: OutputStream, ghost table: seq<byte>, list: seq<DwarfSection>, h: nat, chunkSize: nat)
    requires chunkSize > 0
    requires h <= |input.data|
    requires table == SectionTableBytes(list)
    modifies input, output
    ensures output.written == old(output.written) + (input.data[..h] + table)
    ensures input.pos == h
  {
    input.Seek(0);
    CopySome(input, output, h, chunkSize);
    assert input.data[0..h] == input.data[..h];
    AppendAssoc(old(output.written), input.data[..h], table);
    WriteSectionTable(output, list);
  }

  /** The end of the output: the payloads in list order, then the input from `last` on. */
  method WriteBack(input: InputStream, output: OutputStream, ghost payloads: seq<byte>, list: seq<DwarfSection>, last: u64, chunkSize: nat)
    requires chunkSize > 0
    requires PayloadsInFile(input.data, list) && last <= |input.data|
    requires payloads == Payloads(input.data, list)
    modifies input, output
    ensures output.written == old(output.written) + (payloads + input.data[last..])
  {
    AppendAssoc(old(output.written), payloads, input.data[last..]);
    CopyPayloads(input, output, list, chunkSize);
    CopyTail(input, output, last, chunkSize);
  }

  /** The rewrite sequence as the program runs it. */
  method RewriteAsWritten(input: InputStream, output: OutputStream, segment: SegmentInfo,
                          list: seq<DwarfSection>, last: u64, chunkSize: nat)
    requires chunkSize > 0
    requires InFile(input.data, segment, list, last)
    modifies input, output
    ensures output.written == old(output.written)
      + SplicedAsWritten(input.data, segment, SectionTableBytes(list), Payloads(input.data, list), last)
  {
    ghost var data, before := input.data, output.written;
    ghost var table, payloads := SectionTableBytes(list), Payloads(input.data, list);
    var h, n := segment.headerOffset, 80 * |list|;
    WriteFront(input, output, table, list, h, chunkSize);
    var intersectionSize := segment.fileoff - input.pos - n;
    CopySome(input, output, intersectionSize, chunkSize);
    ghost var middle := output.written;
    WriteBack(input, output, payloads, list, last, chunkSize);
    Assemble(before, middle, output.written, data[..h], table, data[h..segment.fileoff - n],
             payloads, data[last..], SplicedAsWritten(data, segment, table, payloads, last));
  }

  /** The rewrite sequence with the old section table skipped in the input before the
      intersection is copied. */
  method Rewrite(input: InputStream, output: OutputStream, segment: SegmentInfo,
                 list: seq<DwarfSection>, last: u64, chunkSize: nat)
    requires chunkSize > 0
    requires InFile(input.data, segment, list, last)
    modifies input, output
    ensures output.written == old(output.written)
      + Spliced(input.data, segment, SectionTableBytes(list), Payloads(input.data, list), last)
  {
    ghost var data, before := input.data, output.written;
    ghost var table, payloads := SectionTableBytes(list), Payloads(input.data, list);
    var h, n := segment.headerOffset, 80 * |list|;
    WriteFront(input, output, table, list, h, chunkSize);
    var intersectionSize := segment.fileoff - input.pos - n;
    input.Ignore(n);
    CopySome(input, output, intersectionSize, chunkSize);
    ghost var middle := output.written;
    WriteBack(input, output, payloads, list, last, chunkSize);
    Assemble(before, middle, output.written, data[..h], table, data[h + n..segment.fileoff],
             payloads, data[last..], Spliced(data, segment, table, payloads, last));
  }

  lemma Slices(a: seq<byte>, b: seq<byte>, c: seq<byte>, d: seq<byte>, e: seq<byte>)
    ensures var o, i, j, k, l := a + b + c + d + e, |a|, |a| + |b|, |a| + |b| + |c|, |a| + |b| + |c| + |d|;
      o[..i] == a && o[i..j] == b && o[j..k] == c && o[k..l] == d && o[l..] == e
  {
  }

  /** Where each part lands in the spliced output, and how long it is. */
  lemma SplicedRegions(data: seq<byte>, segment: SegmentInfo, table: seq<byte>, payloads: seq<byte>, last: nat)
    requires segment.headerOffset + |table| <= segment.fileoff <= |data| && last <= |data|
    ensures var out, h, t, f := Spliced(data, segment, table, payloads, last), segment.headerOffset, |table|, segment.fileoff;
      |out| == f + |payloads| + (|data| - last)
      && out[..h] == data[..h]
      && out[h..h + t] == table
      && out[h + t..f] == data[h + t..f]
      && out[f..f + |payloads|] == payloads
      && out[f + |payloads|..] == data[last..]
  {
    var h := segment.headerOffset;
    Slices(data[..h], table, data[h + |table|..segment.fileoff], payloads, data[last..]);
  }

  /** When the payloads fill the input from `fileoff` to `last`, the spliced output is as
      long as the input and is the input outside the table and the payloads. */
  lemma SplicedKeepsInput(data: seq<byte>, segment: SegmentInfo, table: seq<byte>, payloads: seq<byte>, last: nat)
    requires segment.headerOffset + |table| <= segment.fileoff <= |data| && last <= |data|
    requires segment.fileoff + |payloads| == last
    ensures var out, h, e, f := Spliced(data, segment, table, payloads, last), segment.headerOffset, segment.headerOffset + |table|, segment.fileoff;
      |out| == |data|
      && out[..h] == data[..h]
      && out[e..f] == data[e..f]
      && out[last..] == data[last..]
  {
    SplicedRegions(data, segment, table, payloads, last);
  }

  /** In the program's output, byte `i` after the new table is input byte
      `headerOffset + i`, where the spliced output has input byte `headerOffset + |table| + i`. */
  lemma SplicedAsWrittenShift(data: seq<byte>, segment: SegmentInfo, table: seq<byte>, payloads: seq<byte>, last: nat, i: nat)
    requires segment.headerOffset + |table| <= segment.fileoff <= |data| && last <= |data|
    requires segment.headerOffset + |table| + i < segment.fileoff
    ensures var h, t := segment.headerOffset, |table|;
      SplicedAsWritten(data, segment, table, payloads, last)[h + t + i] == data[h + i]
      && Spliced(data, segment, table, payloads, last)[h + t + i] == data[h + t + i]
  {
  }

  /** Records of 80 bytes each, joined, are 80 bytes per record long. */
  lemma {:induction false} JoinedLength(records: seq<seq<byte>>, m: nat)
    requires m <= |records|
    requires forall i :: 0 <= i < |records| ==> |records[i]| == 80
    ensures |Joined(records, m)| == 80 * m
  {
    if m > 0 {
      JoinedLength(records, m - 1);
    }
  }

  /** Record `k` of joined 80-byte records sits at `80 * k`. */
  lemma {:induction false} JoinedRecord(records: seq<seq<byte>>, m: nat, k: nat)
    requires k < m <= |records|
    requires forall i :: 0 <= i < |records| ==> |records[i]| == 80
    ensures |Joined(records, m)| == 80 * m
    ensures Joined(records, m)[80 * k..80 * k + 80] == records[k]
  {
    JoinedLength(records, m);
    var front := Joined(records, m - 1);
    JoinedLength(records, m - 1);
    if k < m - 1 {
      JoinedRecord(records, m - 1, k);
      SliceOfFront(front, records[m - 1], 80 * k, 80 * k + 80);
    } else {
      SliceOfBack(front, records[m - 1]);
    }
  }

  /** Record `k` of the table is the `section_64` written for entry `k`. */
  lemma TableRecord(list: seq<DwarfSection>, k: nat)
    requires k < |list|
    ensures SectionTableBytes(list)[80 * k..80 * k + 80] == EncodeSection64(SectionRecord(list[k]))
  {
    TablePrefixJoined(list, |list|);
    JoinedRecord(RecordBytes(list), |list|, k);
  }

  lemma {:induction false} TablePrefixJoined(list: seq<DwarfSection>, m: nat)
    requires m <= |list|
    ensures TablePrefix(list, m) == Joined(RecordBytes(list), m)
  {
    if m > 0 {
      TablePrefixJoined(list, m - 1);
    }
  }

  lemma SliceOfFront(a: seq<byte>, b: seq<byte>, i: nat, j: nat)
    requires i <= j <= |a|
    ensures (a + b)[i..j] == a[i..j]
  {
  }

  lemma SliceOfBack(a: seq<byte>, b: seq<byte>)
    ensures (a + b)[|a|..|a| + |b|] == b
  {
  }

  /** The `k`th record of a regenerated table reads back as the record written for entry `k`. */
  lemma SectionTableDecodes(list: seq<DwarfSection>, k: nat)
    requires k < |list|
    ensures DecodeSection64(SectionTableBytes(list)[80 * k..80 * k + 80]) == SectionRecord(list[k])
  {
    TableRecord(list, k);
    DecodeEncodeSection64(SectionRecord(list[k]));
  }

  /** The payload of entry `k` follows the payloads of the entries before it. */
  lemma {:induction false} PayloadAt(data: seq<byte>, list: seq<DwarfSection>, k: nat)
    requires PayloadsInFile(data, list)
    requires k < |list|
    ensures TotalSize(list[..k]) + list[k].size <= TotalSize(list)
    ensures Payloads(data, list)[TotalSize(list[..k])..TotalSize(list[..k]) + list[k].size]
      == data[list[k].offsetOld..list[k].offsetOld + list[k].size]
    decreases |list|
  {
    var init := list[..|list| - 1];
    var s := list[|list| - 1];
    InitInFile(data, list);
    var front, back := Payloads(data, init), data[s.offsetOld..s.offsetOld + s.size];
    var a, target := TotalSize(list[..k]), data[list[k].offsetOld..list[k].offsetOld + list[k].size];
    if k < |list| - 1 {
      PayloadAt(data, init, k);
      assert TotalSize(init[..k]) == a by {
        assert init[..k] == list[..k];
      }
      assert init[k] == list[k];
      FrontSlice(Payloads(data, list), front, back, a, a + list[k].size, target);
    } else {
      assert list[..k] == init;
      BackSlice(Payloads(data, list), front, back, a, a + list[k].size, target);
    }
  }

  lemma InitInFile(data: seq<byte>, list: seq<DwarfSection>)
    requires PayloadsInFile(data, list) && |list| > 0
    ensures PayloadsInFile(data, list[..|list| - 1])
  {
    var init := list[..|list| - 1];
    forall j | 0 <= j < |init| ensures init[j].offsetOld + init[j].size <= |data| {
      assert init[j] == list[j];
    }
  }

  lemma FrontSlice(whole: seq<byte>, front: seq<byte>, back: seq<byte>, a: nat, b: nat, target: seq<byte>)
    requires whole == front + back && a <= b <= |front| && front[a..b] == target
    ensures whole[a..b] == target
  {
    SliceOfFront(front, back, a, b);
  }

  lemma BackSlice(whole: seq<byte>, front: seq<byte>, back: seq<byte>, a: nat, b: nat, target: seq<byte>)
    requires whole == front + back && a == |front| && b == |front| + |back| && back == target
    ensures whole[a..b] == target
  {
    SliceOfBack(front, back);
  }

  /** Bytes that hold a regenerated table from `h` on hold each entry's record at
      `h + 80 * k`. */
  lemma TableHolds(out: seq<byte>, h: nat, list: seq<DwarfSection>, k: nat)
    requires h + 80 * |list| <= |out| && out[h..h + 80 * |list|] == SectionTableBytes(list)
    requires k < |list|
    ensures var at := h + 80 * k;
      at + 80 <= |out| && DecodeSection64(out[at..at + 80]) == SectionRecord(list[k])
  {
    SectionTableDecodes(list, k);
    SliceOfSlice(out, h, h + 80 * |list|, 80 * k, 80 * k + 80);
  }

  /** Bytes that hold a list's payloads from `f` on hold entry `k`'s payload at `f` plus the
      sizes of the entries before it. */
  lemma PayloadsHold(out: seq<byte>, f: nat, data: seq<byte>, list: seq<DwarfSection>, k: nat, at: nat)
    requires PayloadsInFile(data, list) && k < |list|
    requires f + TotalSize(list) <= |out| && out[f..f + TotalSize(list)] == Payloads(data, list)
    requires at == f + TotalSize(list[..k])
    ensures at + list[k].size <= |out|
    ensures out[at..at + list[k].size] == data[list[k].offsetOld..list[k].offsetOld + list[k].size]
  {
    PayloadAt(data, list, k);
    var before := TotalSize(list[..k]);
    SliceOfSlice(out, f, f + TotalSize(list), before, before + list[k].size);
  }

  /** Record `k` of the spliced output's table reads back as the record written for entry `k`. */
  lemma SplicedTableDecodes(data: seq<byte>, segment: SegmentInfo, list: seq<DwarfSection>, payloads: seq<byte>, last: nat, k: nat)
    requires segment.headerOffset + 80 * |list| <= segment.fileoff <= |data| && last <= |data|
    requires k < |list|
    ensures var out, at := Spliced(data, segment, SectionTableBytes(list), payloads, last), segment.headerOffset + 80 * k;
      at + 80 <= |out| && DecodeSection64(out[at..at + 80]) == SectionRecord(list[k])
  {
    SplicedRegions(data, segment, SectionTableBytes(list), payloads, last);
    TableHolds(Spliced(data, segment, SectionTableBytes(list), payloads, last), segment.headerOffset, list, k);
  }

  /** Entry `k`'s payload lands at `at`, `fileoff` plus the sizes of the entries before it. */
  lemma SplicedPayload(data: seq<byte>, segment: SegmentInfo, table: seq<byte>, list: seq<DwarfSection>, last: nat, k: nat, at: nat)
    requires segment.headerOffset + |table| <= segment.fileoff <= |data| && last <= |data|
    requires PayloadsInFile(data, list)
    requires k < |list|
    requires at == segment.fileoff + TotalSize(list[..k])
    ensures at + list[k].size <= |Spliced(data, segment, table, Payloads(data, list), last)|
    ensures Spliced(data, segment, table, Payloads(data, list), last)[at..at + list[k].size]
      == data[list[k].offsetOld..list[k].offsetOld + list[k].size]
  {
    SplicedRegions(data, segment, table, Payloads(data, list), last);
    PayloadsHold(Spliced(data, segment, table, Payloads(data, list), last), segment.fileoff, data, list, k, at);
  }

  /** Where each part lands in the program's output, and how long it is: the same as in the
      spliced output except that the part after the table is the input from `headerOffset`. */
  lemma SplicedAsWrittenRegions(data: seq<byte>, segment: SegmentInfo, table: seq<byte>, payloads: seq<byte>, last: nat)
    requires segment.headerOffset + |table| <= segment.fileoff <= |data| && last <= |data|
    ensures var out, h, t, f := SplicedAsWritten(data, segment, table, payloads, last), segment.headerOffset, |table|, segment.fileoff;
      |out| == f + |payloads| + (|data| - last)
      && out[..h] == data[..h]
      && out[h..h + t] == table
      && out[h + t..f] == data[h..f - t]
      && out[f..f + |payloads|] == payloads
      && out[f + |payloads|..] == data[last..]
  {
    var h := segment.headerOffset;
    Slices(data[..h], table, data[h..segment.fileoff - |table|], payloads, data[last..]);
  }

  /** When the payloads fill the input from `fileoff` to `last`, the program's output is as
      long as the input and keeps its prefix and its tail; between the table and `fileoff` it
      holds the input shifted by the table's length. */
  lemma SplicedAsWrittenKeepsInput(data: seq<byte>, segment: SegmentInfo, table: seq<byte>, payloads: seq<byte>, last: nat)
    requires segment.headerOffset + |table| <= segment.fileoff <= |data| && last <= |data|
    requires segment.fileoff + |payloads| == last
    ensures var out, h, e, f := SplicedAsWritten(data, segment, table, payloads, last), segment.headerOffset, segment.headerOffset + |table|, segment.fileoff;
      |out| == |data|
      && out[..h] == data[..h]
      && out[e..f] == data[h..f - |table|]
      && out[last..] == data[last..]
  {
    SplicedAsWrittenRegions(data, segment, table, payloads, last);
  }

  /** The program's output and the corrected one are the same exactly when the input between
      the end of the old table and `fileoff` equals the input as many bytes from its start. */
  lemma SplicedDiffersInGap(data: seq<byte>, segment: SegmentInfo, list: seq<DwarfSection>, payloads: seq<byte>, last: nat)
    requires segment.headerOffset + 80 * |list| <= segment.fileoff <= |data| && last <= |data|
    ensures var h, t, f, table := segment.headerOffset, 80 * |list|, segment.fileoff, SectionTableBytes(list);
      Spliced(data, segment, table, payloads, last) == SplicedAsWritten(data, segment, table, payloads, last)
      <==> data[h..f - t] == data[h + t..f]
  {
    var h, t, f, table := segment.headerOffset, 80 * |list|, segment.fileoff, SectionTableBytes(list);
    SplicedRegions(data, segment, table, payloads, last);
    SplicedAsWrittenRegions(data, segment, table, payloads, last);
    if Spliced(data, segment, table, payloads, last) == SplicedAsWritten(data, segment, table, payloads, last) {
      assert Spliced(data, segment, table, payloads, last)[h + t..f] == SplicedAsWritten(data, segment, table, payloads, last)[h + t..f];
    }
  }

  /** Record `k` of the program's output table reads back as the record written for entry `k`. */
  lemma SplicedAsWrittenTableDecodes(data: seq<byte>, segment: SegmentInfo, list: seq<DwarfSection>, payloads: seq<byte>, last: nat, k: nat)
    requires segment.headerOffset + 80 * |list| <= segment.fileoff <= |data| && last <= |data|
    requires k < |list|
    ensures var out, at := SplicedAsWritten(data, segment, SectionTableBytes(list), payloads, last), segment.headerOffset + 80 * k;
      at + 80 <= |out| && DecodeSection64(out[at..at + 80]) == SectionRecord(list[k])
  {
    SplicedAsWrittenRegions(data, segment, SectionTableBytes(list), payloads, last);
    TableHolds(SplicedAsWritten(data, segment, SectionTableBytes(list), payloads, last), segment.headerOffset, list, k);
  }

  /** In the program's output too, entry `k`'s payload lands at `fileoff` plus the sizes of
      the entries before it. */
  lemma SplicedAsWrittenPayload(data: seq<byte>, segment: SegmentInfo, table: seq<byte>, list: seq<DwarfSection>, last: nat, k: nat, at: nat)
    requires segment.headerOffset + |table| <= segment.fileoff <= |data| && last <= |data|
    requires PayloadsInFile(data, list)
    requires k < |list|
    requires at == segment.fileoff + TotalSize(list[..k])
    ensures at + list[k].size <= |SplicedAsWritten(data, segment, table, Payloads(data, list), last)|
    ensures SplicedAsWritten(data, segment, table, Payloads(data, list), last)[at..at + list[k].size]
      == data[list[k].offsetOld..list[k].offsetOld + list[k].size]
  {
    SplicedAsWrittenRegions(data, segment, table, Payloads(data, list), last);
    PayloadsHold(SplicedAsWritten(data, segment, table, Payloads(data, list), last), segment.fileoff, data, list, k, at);
  }

  /** The two splices differ: with the old section table at 104 holding one record whose
      first byte is 1, then one zero byte before `fileoff` 185, the program's splice has that 1
      at 184, right after the new table, where the input has 0. The bytes before the table
      are zeros here, not a header the scan accepts; `Finding.SampleShowsFinding` states
      the same on whole files the program accepts. */
  lemma AsWrittenDiffers(table: seq<byte>)
    requires |table| == 80
    ensures var data, segment := Zeros(104) + [1 as byte] + Zeros(80), SegmentInfo(0, 185, 104);
      104 + |table| <= segment.fileoff <= |data|
      && SplicedAsWritten(data, segment, table, [], 185)[184] == 1
      && Spliced(data, segment, table, [], 185)[184] == 0
  {
    var data, segment := Zeros(104) + [1 as byte] + Zeros(80), SegmentInfo(0, 185, 104);
    SplicedAsWrittenShift(data, segment, table, [], 185, 0);
    assert data[104] == 1;
    assert data[184] == Zeros(80)[79];
  }
}
