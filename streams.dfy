/** `std::ifstream` and `std::ofstream` over byte sequences, and the chunked copy between them. */
module Streams {
  import opened Bytes

  /** A file opened for reading: its bytes and the get position. */
  class InputStream {
    const data: seq<byte>
    var pos: nat

    constructor (data: seq<byte>)
      ensures this.data == data && pos == 0
    {
      this.data := data;
      pos := 0;
    }

    /** `read(buf, n)`: the next `n` bytes. */
    method Read(n: nat) returns (bytes: seq<byte>)
      requires pos + n <= |data|
      modifies this
      ensures bytes == data[old(pos)..old(pos) + n]
      ensures pos == old(pos) + n
    {
      bytes := data[pos..pos + n];
      pos := pos + n;
    }

    /** `ignore(n)`: skips the next `n` bytes. */
    method Ignore(n: nat)
      requires pos + n <= |data|
      modifies this
      ensures pos == old(pos) + n
    {
      pos := pos + n;
    }

    /** `seekg(p)`. */
    method Seek(p: nat)
      requires p <= |data|
      modifies this
      ensures pos == p
    {
      pos := p;
    }
  }

  /** A file opened for writing: everything written to it so far. */
  class OutputStream {
    var written: seq<byte>

    constructor ()
      ensures written == []
    {
      written := [];
    }

    /** `write(buf, n)`: appends the bytes. */
    method Write(bytes: seq<byte>)
      modifies this
      ensures written == old(written) + bytes
    {
      written := written + bytes;
    }
  }

  /** `k * c`, written as repeated addition to keep the copy loop's proof linear. */
  function Times(k: nat, c: nat): nat
  {
    if k == 0 then 0 else Times(k - 1, c) + c
  }

  lemma {:induction false} TimesMonotonic(i: nat, k: nat, c: nat)
    requires i <= k
    ensures Times(i, c) <= Times(k, c)
    decreases k - i
  {
    if i < k {
      TimesMonotonic(i + 1, k, c);
    }
  }

  /** `cycle = size / chunk_size` and `remain = size % chunk_size`: the blocks cover the
      whole request. */
  function Blocks(size: nat, chunkSize: nat): (r: (nat, nat))
    requires chunkSize > 0
    ensures Times(r.0, chunkSize) + r.1 == size && r.1 < chunkSize
  {
    TimesIsProduct(size / chunkSize, chunkSize);
    (size / chunkSize, size % chunkSize)
  }

  lemma {:induction false} TimesIsProduct(k: nat, c: nat)
    ensures Times(k, c) == k * c
  {
    if k > 0 {
      TimesIsProduct(k - 1, c);
    }
  }

  lemma SliceAppend(s: seq<byte>, a: nat, b: nat, c: nat)
    requires a <= b <= c <= |s|
    ensures s[a..b] + s[b..c] == s[a..c]
  {
  }

  /** `fs_copy_some`: copies the next `size` input bytes to the output in blocks of
      `chunkSize` bytes and one final shorter block, so the result does not depend on
      `chunkSize`. */
  method CopySome(input: InputStream, output: OutputStream, size: nat, chunkSize: nat)
    requires chunkSize > 0
    requires input.pos + size <= |input.data|
    modifies input, output
    ensures output.written == old(output.written) + input.data[old(input.pos)..old(input.pos) + size]
    ensures input.pos == old(input.pos) + size
  {
    ghost var start, before := input.pos, output.written;
    if size == 0 {
      assert input.data[start..start] == [];
      return;
    }
    var (cycle, remain) := Blocks(size, chunkSize);
    var i := 0;
    while i < cycle
      invariant 0 <= i <= cycle
      invariant input.pos == start + Times(i, chunkSize) <= start + size
      invariant output.written == before + input.data[start..input.pos]
    {
      TimesMonotonic(i + 1, cycle, chunkSize);
      var buf := input.Read(chunkSize);
      output.Write(buf);
      SliceAppend(input.data, start, input.pos - chunkSize, input.pos);
      i := i + 1;
    }
    assert input.pos + remain == start + size;
    if remain > 0 {
      var buf := input.Read(remain);
      output.Write(buf);
      SliceAppend(input.data, start, input.pos - remain, input.pos);
    }
  }
}
