/**
 * Big-endian unsigned integers over byte streams: the reader and writer the
 * converter builds on its input and output streams.
 *
 * The source reads `n` bytes, reverses them in place and decodes them with the
 * host's little-endian BitConverter; on a little-endian host the net effect is
 * a big-endian decode, and that net effect is what is modelled here.  Writing
 * is the mirror image.
 */
module BigEndian {
  import opened Wrappers

  type byte = x: int | 0 <= x < 0x100
  type u16 = x: int | 0 <= x < 0x1_0000
  type u32 = x: int | 0 <= x < 0x1_0000_0000

  /** The value of two bytes read most significant first. */
  function DecodeU16(bs: seq<byte>): (r: u16)
    requires |bs| == 2
    ensures r / 0x100 == bs[0] as int && r % 0x100 == bs[1] as int
  {
    bs[0] as int * 0x100 + bs[1] as int
  }

  /** The value of four bytes read most significant first. */
  function DecodeU32(bs: seq<byte>): (r: u32)
    requires |bs| == 4
    ensures r / 0x100_0000 == bs[0] as int && r / 0x1_0000 % 0x100 == bs[1] as int
    ensures r / 0x100 % 0x100 == bs[2] as int && r % 0x100 == bs[3] as int
  {
    var hi: int := (bs[0] as int * 0x100 + bs[1] as int) * 0x100 + bs[2] as int;
    var r := hi * 0x100 + bs[3] as int;
    assert r / 0x100 == hi && r % 0x100 == bs[3];
    assert hi / 0x100 == bs[0] as int * 0x100 + bs[1] as int && hi % 0x100 == bs[2] as int;
    assert r / 0x1_0000 == hi / 0x100;
    assert r / 0x100_0000 == hi / 0x1_0000;
    r
  }

  /** The two bytes of `v`, most significant first. */
  function U16Bytes(v: u16): (r: seq<byte>)
    ensures |r| == 2 && DecodeU16(r) == v
  {
    assert v / 0x100 < 0x100;
    [v / 0x100, v % 0x100]
  }

  /** The four bytes of `v`, most significant first. */
  function U32Bytes(v: u32): (r: seq<byte>)
    ensures |r| == 4
  {
    assert v / 0x100 == (v / 0x1_0000) * 0x100 + v / 0x100 % 0x100;
    assert v / 0x1_0000 == (v / 0x100_0000) * 0x100 + v / 0x1_0000 % 0x100;
    assert v / 0x100_0000 < 0x100;
    [v / 0x100_0000, v / 0x1_0000 % 0x100, v / 0x100 % 0x100, v % 0x100]
  }

  lemma U16DecodeRoundTrip(bs: seq<byte>)
    requires |bs| == 2
    ensures U16Bytes(DecodeU16(bs)) == bs
  {
  }

  lemma U32RoundTrip(v: u32)
    ensures |U32Bytes(v)| == 4 && DecodeU32(U32Bytes(v)) == v
  {
    var b := U32Bytes(v);
    assert v / 0x100 == (v / 0x1_0000) * 0x100 + b[2];
    assert v / 0x1_0000 == (v / 0x100_0000) * 0x100 + b[1];
  }

  lemma U32DecodeRoundTrip(bs: seq<byte>)
    requires |bs| == 4
    ensures U32Bytes(DecodeU32(bs)) == bs
  {
    var v := DecodeU32(bs);
    var hi: int := (bs[0] as int * 0x100 + bs[1] as int) * 0x100 + bs[2] as int;
    assert v / 0x100 == hi && v % 0x100 == bs[3];
    assert hi / 0x100 == bs[0] as int * 0x100 + bs[1] as int && hi % 0x100 == bs[2] as int;
    assert v / 0x1_0000 == hi / 0x100;
    assert v / 0x100_0000 == hi / 0x1_0000;
  }

  /** The most significant byte is written first. */
  lemma MostSignificantFirst()
    ensures U16Bytes(0x0102) == [0x01, 0x02]
    ensures U32Bytes(0x0102_0304) == [0x01, 0x02, 0x03, 0x04]
  {
  }

  /**
   * What `BinaryReader.ReadBytes(count)` returns at position `p`: the bytes
   * that are there, fewer than `count` (possibly none) near the end.
   */
  function Slice(bs: seq<byte>, p: nat, count: nat): (r: seq<byte>)
    ensures |r| <= count
    ensures p + count <= |bs| ==> r == bs[p..p + count]
    ensures |r| == count <==> count == 0 || p + count <= |bs|
  {
    if p >= |bs| then [] else if p + count <= |bs| then bs[p..p + count] else bs[p..]
  }

  /** A read that runs past the end returns every byte from `p` to the end, none when `p` is past it. */
  lemma SliceAtEnd(bs: seq<byte>, p: nat, count: nat)
    requires |bs| < p + count
    ensures p < |bs| ==> Slice(bs, p, count) == bs[p..]
    ensures |bs| <= p ==> Slice(bs, p, count) == []
  {
  }

  /** Reading a big-endian u16 at `p`: fails when fewer than two bytes are left. */
  function U16At(bs: seq<byte>, p: nat): (r: Option<u16>)
    ensures r.Some? <==> p + 2 <= |bs|
  {
    if p + 2 <= |bs| then Some(DecodeU16(bs[p..p + 2])) else None
  }

  /** Reading a big-endian u32 at `p`: fails when fewer than four bytes are left. */
  function U32At(bs: seq<byte>, p: nat): (r: Option<u32>)
    ensures r.Some? <==> p + 4 <= |bs|
  {
    if p + 4 <= |bs| then Some(DecodeU32(bs[p..p + 4])) else None
  }

  /** `k` zero bytes. */
  function Zeros(k: nat): (z: seq<byte>)
    ensures |z| == k && forall i :: 0 <= i < k ==> z[i] == 0
  {
    if k == 0 then [] else Zeros(k - 1) + [0]
  }

  /**
   * The contents of a memory stream of contents `d` after writing `bs` at
   * position `p`: earlier bytes stay, a gap past the old end reads as zeros,
   * `bs` replaces what was at `p`, and whatever lay beyond `bs` stays.
   */
  function Overwrite(d: seq<byte>, p: nat, bs: seq<byte>): (r: seq<byte>)
    ensures |r| == if p + |bs| > |d| then p + |bs| else |d|
    ensures r[p..p + |bs|] == bs
    ensures forall i :: 0 <= i < p && i < |d| ==> r[i] == d[i]
    ensures forall i :: |d| <= i < p ==> r[i] == 0
    ensures forall i :: p + |bs| <= i < |d| ==> r[i] == d[i]
    ensures p == |d| ==> r == d + bs
  {
    var front := if p <= |d| then d[..p] else d + Zeros(p - |d|);
    front + bs + (if p + |bs| < |d| then d[p + |bs|..] else [])
  }

  /** A u16 written at `p` into a memory stream reads back from `p` unchanged. */
  lemma WrittenU16ReadsBack(d: seq<byte>, p: nat, v: u16)
    ensures U16At(Overwrite(d, p, U16Bytes(v)), p) == Some(v)
  {
  }

  /** A u32 written at `p` into a memory stream reads back from `p` unchanged. */
  lemma WrittenU32ReadsBack(d: seq<byte>, p: nat, v: u32)
    ensures U32At(Overwrite(d, p, U32Bytes(v)), p) == Some(v)
  {
    U32RoundTrip(v);
  }

  /** A prefix made of two parts splits into those parts. */
  lemma SplitPrefix(bs: seq<byte>, x: seq<byte>, y: seq<byte>)
    requires |x| + |y| <= |bs| && bs[..|x| + |y|] == x + y
    ensures bs[..|x|] == x && bs[|x|..|x| + |y|] == y
  {
    assert bs[..|x|] == bs[..|x| + |y|][..|x|];
    assert bs[|x|..|x| + |y|] == bs[..|x| + |y|][|x|..];
  }

  /** A big-endian reader over an input stream: the bytes and a cursor. */
  class Reader {
    const bytes: seq<byte>
    var pos: nat

    constructor (input: seq<byte>)
      ensures bytes == input && pos == 0
    {
      bytes := input;
      pos := 0;
    }

    /** Moves the cursor to an absolute position (possibly past the end). */
    method Seek(p: nat)
      modifies this
      ensures pos == p
    {
      pos := p;
    }

    /**
     * `BinaryReader.ReadBytes`: a negative count throws; otherwise it returns
     * what is available, at most `count` bytes, and advances past them.
     */
    method ReadBytes(count: int) returns (r: Option<seq<byte>>)
      modifies this
      ensures count < 0 ==> r == None && pos == old(pos)
      ensures count >= 0 ==> r == Some(Slice(bytes, old(pos), count)) && pos == old(pos) + |r.value|
    {
      if count < 0 {
        return None;
      }
      var data := Slice(bytes, pos, count);
      pos := pos + |data|;
      return Some(data);
    }

    /** `ReadUInt16`: two bytes, most significant first; fails on a short read. */
    method ReadUInt16() returns (r: Option<u16>)
      modifies this
      ensures r == U16At(bytes, old(pos))
      ensures r.Some? ==> pos == old(pos) + 2
    {
      var data := ReadBytes(2);
      if |data.value| < 2 {
        return None;
      }
      return Some(DecodeU16(data.value));
    }

    /** `ReadUInt32`: four bytes, most significant first; fails on a short read. */
    method ReadUInt32() returns (r: Option<u32>)
      modifies this
      ensures r == U32At(bytes, old(pos))
      ensures r.Some? ==> pos == old(pos) + 4
    {
      var data := ReadBytes(4);
      if |data.value| < 4 {
        return None;
      }
      return Some(DecodeU32(data.value));
    }
  }

  /** A big-endian writer over a seekable memory stream: its contents and a cursor. */
  class Writer {
    var data: seq<byte>
    var pos: nat

    constructor ()
      ensures data == [] && pos == 0
    {
      data := [];
      pos := 0;
    }

    method Seek(p: nat)
      modifies this
      ensures pos == p && data == old(data)
    {
      pos := p;
    }

    method Write(bs: seq<byte>)
      modifies this
      ensures data == Overwrite(old(data), old(pos), bs)
      ensures pos == old(pos) + |bs|
    {
      data := Overwrite(data, pos, bs);
      pos := pos + |bs|;
    }

    /** `Write(UInt16)`: the two bytes of `v`, most significant first. */
    method WriteUInt16(v: u16)
      modifies this
      ensures data == Overwrite(old(data), old(pos), U16Bytes(v))
      ensures pos == old(pos) + 2
    {
      Write(U16Bytes(v));
    }

    /** `Write(UInt32)`: the four bytes of `v`, most significant first. */
    method WriteUInt32(v: u32)
      modifies this
      ensures data == Overwrite(old(data), old(pos), U32Bytes(v))
      ensures pos == old(pos) + 4
    {
      Write(U32Bytes(v));
    }
  }
}
