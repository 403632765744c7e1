/** Layout recomputation: packs the sections one after the other from the segment's file
    offset and gives each the address that its offset has in the segment. */
module Layout {
  import opened Bytes
  import opened Scanner

  /** The accumulator `dwarf_section_data_offset_last` when entry `k` is reached: it starts
      at the segment's `fileoff` and grows by each entry's size, in uint64_t. */
  function PackedOffset(list: seq<DwarfSection>, k: nat, fileoff: u64): u64
    requires k <= |list|
  {
    if k == 0 then fileoff else AddU64(PackedOffset(list, k - 1, fileoff), list[k - 1].size)
  }

  /** `offset + vmaddr - fileoff` in uint64_t. */
  function AddressFor(offset: u64, vmaddr: u64, fileoff: u64): u64
  {
    SubU64(AddU64(offset, vmaddr), fileoff)
  }

  /** The list after the layout loop: every entry gets its packed offset and the matching
      address, and nothing else about it changes. */
  function Packed(list: seq<DwarfSection>, vmaddr: u64, fileoff: u64): (r: seq<DwarfSection>)
    ensures |r| == |list|
    ensures forall k :: 0 <= k < |r| ==>
      r[k].name == list[k].name && r[k].size == list[k].size && r[k].offsetOld == list[k].offsetOld
  {
    seq(|list|, k requires 0 <= k < |list| =>
      list[k].(offset := PackedOffset(list, k, fileoff),
               address := AddressFor(PackedOffset(list, k, fileoff), vmaddr, fileoff)))
  }

  /** The layout loop over the list, with the accumulator returned as `last`. */
  method Relayout(list: seq<DwarfSection>, vmaddr: u64, fileoff: u64) returns (r: seq<DwarfSection>, last: u64)
    ensures r == Packed(list, vmaddr, fileoff)
    ensures last == PackedOffset(list, |list|, fileoff)
  {
    r := list;
    last := fileoff;
    for k := 0 to |r|
      invariant |r| == |list|
      invariant last == PackedOffset(list, k, fileoff)
      invariant forall j :: 0 <= j < k ==> r[j] == Packed(list, vmaddr, fileoff)[j]
      invariant forall j :: k <= j < |r| ==> r[j] == list[j]
    {
      r := r[k := r[k].(offset := last)];
      r := r[k := r[k].(address := AddressFor(r[k].offset, vmaddr, fileoff))];
      last := AddU64(last, r[k].size);
    }
  }

  /** The sum of the entries' sizes. */
  function TotalSize(list: seq<DwarfSection>): nat
  {
    if |list| == 0 then 0 else TotalSize(list[..|list| - 1]) + list[|list| - 1].size
  }

  /** When the packed region does not overflow uint64_t, entry `k` starts at `fileoff` plus
      the sizes of the entries before it, and the final accumulator is `fileoff` plus all
      sizes. */
  lemma {:induction false} PackedOffsetIsPrefixSum(list: seq<DwarfSection>, k: nat, fileoff: u64)
    requires k <= |list|
    requires fileoff + TotalSize(list) < U64_MODULUS
    ensures PackedOffset(list, k, fileoff) == fileoff + TotalSize(list[..k])
  {
    if k > 0 {
      PackedOffsetIsPrefixSum(list, k - 1, fileoff);
      assert list[..k][..k - 1] == list[..k - 1];
      TotalSizeOfPrefix(list, k);
    }
  }

  lemma {:induction false} TotalSizeOfPrefix(list: seq<DwarfSection>, k: nat)
    requires k <= |list|
    ensures TotalSize(list[..k]) <= TotalSize(list)
    decreases |list|
  {
    if k < |list| {
      assert list[..|list| - 1][..k] == list[..k];
      TotalSizeOfPrefix(list[..|list| - 1], k);
    } else {
      assert list[..k] == list;
    }
  }

  /** The final accumulator, `dwarf_section_data_offset_last`, is `fileoff` plus all sizes. */
  lemma PackedEnd(list: seq<DwarfSection>, fileoff: u64)
    requires fileoff + TotalSize(list) < U64_MODULUS
    ensures PackedOffset(list, |list|, fileoff) == fileoff + TotalSize(list)
  {
    PackedOffsetIsPrefixSum(list, |list|, fileoff);
    assert list[..|list|] == list;
  }

  /** The packed entries lie one after the other: the first at `fileoff`, each next one where
      the previous one ends. */
  lemma PackedIsContiguous(list: seq<DwarfSection>, vmaddr: u64, fileoff: u64)
    requires fileoff + TotalSize(list) < U64_MODULUS
    ensures var r := Packed(list, vmaddr, fileoff);
      (|r| > 0 ==> r[0].offset == fileoff)
      && forall k :: 0 <= k < |r| - 1 ==> r[k + 1].offset == r[k].offset + r[k].size
  {
    var r := Packed(list, vmaddr, fileoff);
    forall k | 0 <= k < |r| - 1
      ensures r[k + 1].offset == r[k].offset + r[k].size
    {
      PackedOffsetIsPrefixSum(list, k + 1, fileoff);
      PackedStep(list, k, fileoff);
    }
  }

  lemma PackedStep(list: seq<DwarfSection>, k: nat, fileoff: u64)
    requires k < |list|
    requires fileoff + TotalSize(list) < U64_MODULUS
    ensures PackedOffset(list, k + 1, fileoff) == PackedOffset(list, k, fileoff) + list[k].size
  {
    PackedOffsetIsPrefixSum(list, k, fileoff);
    TotalSizeOfPrefix(list, k + 1);
    assert list[..k + 1][..k] == list[..k];
    assert TotalSize(list[..k + 1]) == TotalSize(list[..k]) + list[k].size;
  }

  /** Every packed entry keeps the segment's link between addresses and file offsets:
      `address - offset == vmaddr - fileoff`, in uint64_t. */
  lemma PackedKeepsAddressOffsetLink(list: seq<DwarfSection>, vmaddr: u64, fileoff: u64)
    ensures forall k :: 0 <= k < |list| ==>
      SubU64(Packed(list, vmaddr, fileoff)[k].address, Packed(list, vmaddr, fileoff)[k].offset) == SubU64(vmaddr, fileoff)
  {
    forall k | 0 <= k < |list|
      ensures SubU64(Packed(list, vmaddr, fileoff)[k].address, Packed(list, vmaddr, fileoff)[k].offset) == SubU64(vmaddr, fileoff)
    {
      AddressForLink(PackedOffset(list, k, fileoff), vmaddr, fileoff);
    }
  }

  lemma AddressForLink(offset: u64, vmaddr: u64, fileoff: u64)
    ensures SubU64(AddressFor(offset, vmaddr, fileoff), offset) == SubU64(vmaddr, fileoff)
  {
  }

  lemma {:induction false} TotalSizeAppend(a: seq<DwarfSection>, b: seq<DwarfSection>)
    ensures TotalSize(a + b) == TotalSize(a) + TotalSize(b)
    decreases |b|
  {
    if |b| == 0 {
      assert a + b == a;
    } else {
      assert (a + b)[..|a + b| - 1] == a + b[..|b| - 1];
      TotalSizeAppend(a, b[..|b| - 1]);
    }
  }

  /** Two lists whose entries have the same sizes have the same total size. */
  lemma {:induction false} SameSizesSameTotal(a: seq<DwarfSection>, b: seq<DwarfSection>)
    requires |a| == |b|
    requires forall k :: 0 <= k < |a| ==> a[k].size == b[k].size
    ensures TotalSize(a) == TotalSize(b)
    decreases |a|
  {
    if |a| > 0 {
      SameSizesSameTotal(a[..|a| - 1], b[..|b| - 1]);
    }
  }

  /** Packing changes no size: the packed list's prefixes are as large as the list's. */
  lemma PackedPrefixSize(list: seq<DwarfSection>, vmaddr: u64, fileoff: u64, k: nat)
    requires k <= |list|
    ensures TotalSize(Packed(list, vmaddr, fileoff)[..k]) == TotalSize(list[..k])
  {
    SameSizesSameTotal(Packed(list, vmaddr, fileoff)[..k], list[..k]);
  }

  /** Without wrap-around, the packed list is as large as the list, each packed entry starts at
      `fileoff` plus the sizes of the packed entries before it, and the accumulator ends at
      `fileoff` plus the total size. */
  lemma PackedLayout(list: seq<DwarfSection>, vmaddr: u64, fileoff: u64)
    requires fileoff + TotalSize(list) < U64_MODULUS
    ensures TotalSize(Packed(list, vmaddr, fileoff)) == TotalSize(list)
    ensures PackedOffset(list, |list|, fileoff) == fileoff + TotalSize(list)
    ensures forall k :: 0 <= k < |list| ==>
      Packed(list, vmaddr, fileoff)[k].offset == fileoff + TotalSize(Packed(list, vmaddr, fileoff)[..k])
  {
    var r := Packed(list, vmaddr, fileoff);
    PackedEnd(list, fileoff);
    PackedPrefixSize(list, vmaddr, fileoff, |list|);
    assert r[..|r|] == r && list[..|list|] == list;
    forall k | 0 <= k < |list|
      ensures r[k].offset == fileoff + TotalSize(r[..k])
    {
      PackedOffsetIsPrefixSum(list, k, fileoff);
      PackedPrefixSize(list, vmaddr, fileoff, k);
    }
  }
}
