/** The fixed-size Mach-O records the tool reads and writes, as in `<mach-o/loader.h>`,
    stored little-endian. */
module MachO {
  import opened Bytes

  const MH_MAGIC: u32 := 0xfeed_face
  const MH_MAGIC_64: u32 := 0xfeed_facf
  const FAT_MAGIC: u32 := 0xcafe_babe
  const LC_SEGMENT_64: u32 := 0x19

  const MACH_HEADER_64_SIZE: nat := 32
  const LOAD_COMMAND_SIZE: nat := 8
  const SEGMENT_COMMAND_64_SIZE: nat := 72
  const SECTION_64_SIZE: nat := 80

  /** A `char[16]` field. */
  type CharArray16 = s: seq<byte> | |s| == 16 witness Zeros(16)

  datatype MachHeader64 = MachHeader64(
    magic: u32, cputype: u32, cpusubtype: u32, filetype: u32,
    ncmds: u32, sizeofcmds: u32, flags: u32, reserved: u32)

  datatype LoadCommand = LoadCommand(cmd: u32, cmdsize: u32)

  datatype SegmentCommand64 = SegmentCommand64(
    cmd: u32, cmdsize: u32, segname: CharArray16,
    vmaddr: u64, vmsize: u64, fileoff: u64, filesize: u64,
    maxprot: u32, initprot: u32, nsects: u32, flags: u32)

  datatype Section64 = Section64(
    sectname: CharArray16, segname: CharArray16,
    addr: u64, size: u64, offset: u32, align: u32, reloff: u32, nreloc: u32,
    flags: u32, reserved1: u32, reserved2: u32, reserved3: u32)

  function U32At(b: seq<byte>, at: nat): (r: u32)
    requires at + 4 <= |b|
    ensures r == LittleEndian(b[at..at + 4])
  {
    Pow256Values();
    LittleEndian(b[at..at + 4])
  }

  function U64At(b: seq<byte>, at: nat): (r: u64)
    requires at + 8 <= |b|
    ensures r == LittleEndian(b[at..at + 8])
  {
    Pow256Values();
    LittleEndian(b[at..at + 8])
  }

  function EncodeU32(x: u32): (r: seq<byte>)
    ensures |r| == 4
  {
    Pow256Values();
    ToLittleEndian(x, 4)
  }

  function EncodeU64(x: u64): (r: seq<byte>)
    ensures |r| == 8
  {
    Pow256Values();
    ToLittleEndian(x, 8)
  }

  /** A written 32-bit field reads back as the same value. */
  lemma EncodeU32Decodes(x: u32)
    ensures LittleEndian(EncodeU32(x)) == x
  {
    Pow256Values();
    DecodeEncode(x, 4);
  }

  /** A written 64-bit field reads back as the same value. */
  lemma EncodeU64Decodes(x: u64)
    ensures LittleEndian(EncodeU64(x)) == x
  {
    Pow256Values();
    DecodeEncode(x, 8);
  }

  function DecodeMachHeader64(b: seq<byte>): MachHeader64
    requires |b| == MACH_HEADER_64_SIZE
  {
    MachHeader64(U32At(b, 0), U32At(b, 4), U32At(b, 8), U32At(b, 12),
                 U32At(b, 16), U32At(b, 20), U32At(b, 24), U32At(b, 28))
  }

  function DecodeLoadCommand(b: seq<byte>): LoadCommand
    requires |b| == LOAD_COMMAND_SIZE
  {
    LoadCommand(U32At(b, 0), U32At(b, 4))
  }

  function DecodeSegmentCommand64(b: seq<byte>): SegmentCommand64
    requires |b| == SEGMENT_COMMAND_64_SIZE
  {
    SegmentCommand64(U32At(b, 0), U32At(b, 4), b[8..24],
                     U64At(b, 24), U64At(b, 32), U64At(b, 40), U64At(b, 48),
                     U32At(b, 56), U32At(b, 60), U32At(b, 64), U32At(b, 68))
  }

  function DecodeSection64(b: seq<byte>): Section64
    requires |b| == SECTION_64_SIZE
  {
    Section64(b[0..16], b[16..32], U64At(b, 32), U64At(b, 40),
              U32At(b, 48), U32At(b, 52), U32At(b, 56), U32At(b, 60),
              U32At(b, 64), U32At(b, 68), U32At(b, 72), U32At(b, 76))
  }

  /** The 80 bytes `write((char*)&section, sizeof(section_64))` puts out. */
  function EncodeSection64(s: Section64): (r: seq<byte>)
    ensures |r| == SECTION_64_SIZE
  {
    s.sectname + s.segname + EncodeU64(s.addr) + EncodeU64(s.size)
    + EncodeU32(s.offset) + EncodeU32(s.align) + EncodeU32(s.reloff) + EncodeU32(s.nreloc)
    + EncodeU32(s.flags) + EncodeU32(s.reserved1) + EncodeU32(s.reserved2) + EncodeU32(s.reserved3)
  }

  /** The 32 bytes of a `mach_header_64` as a file holds them. */
  function EncodeMachHeader64(h: MachHeader64): (r: seq<byte>)
    ensures |r| == MACH_HEADER_64_SIZE
  {
    EncodeU32(h.magic) + EncodeU32(h.cputype) + EncodeU32(h.cpusubtype) + EncodeU32(h.filetype)
    + EncodeU32(h.ncmds) + EncodeU32(h.sizeofcmds) + EncodeU32(h.flags) + EncodeU32(h.reserved)
  }

  /** The header bytes of a file read back as the header they hold. */
  lemma DecodeEncodeMachHeader64(h: MachHeader64)
    ensures DecodeMachHeader64(EncodeMachHeader64(h)) == h
  {
    var b := EncodeMachHeader64(h);
    EncodeU32Decodes(h.magic);
    EncodeU32Decodes(h.cputype);
    EncodeU32Decodes(h.cpusubtype);
    EncodeU32Decodes(h.filetype);
    EncodeU32Decodes(h.ncmds);
    EncodeU32Decodes(h.sizeofcmds);
    EncodeU32Decodes(h.flags);
    EncodeU32Decodes(h.reserved);
    assert b[0..4] == EncodeU32(h.magic);
    assert b[4..8] == EncodeU32(h.cputype);
    assert b[8..12] == EncodeU32(h.cpusubtype);
    assert b[12..16] == EncodeU32(h.filetype);
    assert b[16..20] == EncodeU32(h.ncmds);
    assert b[20..24] == EncodeU32(h.sizeofcmds);
    assert b[24..28] == EncodeU32(h.flags);
    assert b[28..32] == EncodeU32(h.reserved);
  }

  /** The 72 bytes of a `segment_command_64` as a file holds them. */
  function EncodeSegmentCommand64(s: SegmentCommand64): (r: seq<byte>)
    ensures |r| == SEGMENT_COMMAND_64_SIZE
  {
    EncodeU32(s.cmd) + EncodeU32(s.cmdsize) + s.segname
    + EncodeU64(s.vmaddr) + EncodeU64(s.vmsize) + EncodeU64(s.fileoff) + EncodeU64(s.filesize)
    + EncodeU32(s.maxprot) + EncodeU32(s.initprot) + EncodeU32(s.nsects) + EncodeU32(s.flags)
  }

  /** The segment record bytes of a file read back as the record they hold. */
  lemma DecodeEncodeSegmentCommand64(s: SegmentCommand64)
    ensures DecodeSegmentCommand64(EncodeSegmentCommand64(s)) == s
  {
    var b := EncodeSegmentCommand64(s);
    EncodeU32Decodes(s.cmd);
    EncodeU32Decodes(s.cmdsize);
    EncodeU64Decodes(s.vmaddr);
    EncodeU64Decodes(s.vmsize);
    EncodeU64Decodes(s.fileoff);
    EncodeU64Decodes(s.filesize);
    EncodeU32Decodes(s.maxprot);
    EncodeU32Decodes(s.initprot);
    EncodeU32Decodes(s.nsects);
    EncodeU32Decodes(s.flags);
    assert b[0..4] == EncodeU32(s.cmd);
    assert b[4..8] == EncodeU32(s.cmdsize);
    assert b[8..24] == s.segname;
    assert b[24..32] == EncodeU64(s.vmaddr);
    assert b[32..40] == EncodeU64(s.vmsize);
    assert b[40..48] == EncodeU64(s.fileoff);
    assert b[48..56] == EncodeU64(s.filesize);
    assert b[56..60] == EncodeU32(s.maxprot);
    assert b[60..64] == EncodeU32(s.initprot);
    assert b[64..68] == EncodeU32(s.nsects);
    assert b[68..72] == EncodeU32(s.flags);
  }

  /** A written section record reads back as the same record. */
  lemma DecodeEncodeSection64(s: Section64)
    ensures DecodeSection64(EncodeSection64(s)) == s
  {
    var b := EncodeSection64(s);
    EncodeU64Decodes(s.addr);
    EncodeU64Decodes(s.size);
    EncodeU32Decodes(s.offset);
    EncodeU32Decodes(s.align);
    EncodeU32Decodes(s.reloff);
    EncodeU32Decodes(s.nreloc);
    EncodeU32Decodes(s.flags);
    EncodeU32Decodes(s.reserved1);
    EncodeU32Decodes(s.reserved2);
    EncodeU32Decodes(s.reserved3);
    assert b[0..16] == s.sectname;
    assert b[16..32] == s.segname;
    assert b[32..40] == EncodeU64(s.addr);
    assert b[40..48] == EncodeU64(s.size);
    assert b[48..52] == EncodeU32(s.offset);
    assert b[52..56] == EncodeU32(s.align);
    assert b[56..60] == EncodeU32(s.reloff);
    assert b[60..64] == EncodeU32(s.nreloc);
    assert b[64..68] == EncodeU32(s.flags);
    assert b[68..72] == EncodeU32(s.reserved1);
    assert b[72..76] == EncodeU32(s.reserved2);
    assert b[76..80] == EncodeU32(s.reserved3);
  }

  lemma EncodeU32At(b: seq<byte>, at: nat)
    requires at + 4 <= |b|
    ensures EncodeU32(U32At(b, at)) == b[at..at + 4]
  {
    EncodeDecode(b[at..at + 4]);
  }

  lemma EncodeU64At(b: seq<byte>, at: nat)
    requires at + 8 <= |b|
    ensures EncodeU64(U64At(b, at)) == b[at..at + 8]
  {
    EncodeDecode(b[at..at + 8]);
  }

  /** Every 80-byte record is the encoding of the record it decodes to. */
  lemma EncodeDecodeSection64(b: seq<byte>)
    requires |b| == SECTION_64_SIZE
    ensures EncodeSection64(DecodeSection64(b)) == b
  {
    var s := DecodeSection64(b);
    var e := EncodeSection64(s);
    EncodeU64At(b, 32);
    EncodeU64At(b, 40);
    EncodeU32At(b, 48);
    EncodeU32At(b, 52);
    EncodeU32At(b, 56);
    EncodeU32At(b, 60);
    EncodeU32At(b, 64);
    EncodeU32At(b, 68);
    EncodeU32At(b, 72);
    EncodeU32At(b, 76);
    forall k | 0 <= k < 80
      ensures e[k] == b[k]
    {
      if k < 32 {
      } else if k < 48 {
      } else if k < 64 {
      } else {
      }
    }
  }
}
