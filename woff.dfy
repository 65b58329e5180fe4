/**
 * The WOFF 1.0 container as the converter reads it: the 44-byte header
 * (section 3 of the W3C WOFF File Format 1.0), the 20-byte table directory
 * entries that follow it (section 4), the four-character tag names, and the
 * removal of the digital-signature table.
 */
module Woff {
  import opened Wrappers
  import opened BigEndian

  /** The 13 header fields, in file order. Only `flavor` and `tableCount` are used. */
  datatype WoffHeader = WoffHeader(
    signature: u32, flavor: u32, length: u32, tableCount: u16, reserved: u16,
    totalSfntSize: u32, majorVersion: u16, minorVersion: u16,
    metaOffset: u32, metaLength: u32, metaOrigLength: u32,
    privOffset: u32, privLength: u32)

  /** One table directory entry, in file order. */
  datatype TableEntry = TableEntry(
    tag: u32, offset: u32, compLength: u32, origLength: u32, origChecksum: u32)

  const HeaderSize: nat := 44
  // Offsets of the i-th entry are written `20 * i` rather than `EntrySize * i`:
  // a product with a named constant is nonlinear to the solver and slows the proofs.
  const EntrySize: nat := 20

  /** The tag whose name is "DSIG". */
  const DsigTag: u32 := 0x4453_4947

  /** The four characters of a tag, most significant byte first. */
  function Name(tag: u32): (r: string)
    ensures |r| == 4 && forall k :: 0 <= k < 4 ==> r[k] as int < 0x100
  {
    [(tag / 0x100_0000 % 0x100) as char, (tag / 0x1_0000 % 0x100) as char,
     (tag / 0x100 % 0x100) as char, (tag % 0x100) as char]
  }

  /** The name is exactly the tag's big-endian bytes read as characters. */
  lemma NameIsTagBytes(tag: u32)
    ensures |Name(tag)| == 4
    ensures forall k :: 0 <= k < 4 ==> Name(tag)[k] as int == U32Bytes(tag)[k]
  {
  }

  /** Exactly one tag value is named "DSIG". */
  lemma NameIsDsig(tag: u32)
    ensures Name(tag) == "DSIG" <==> tag == DsigTag
  {
    NameIsTagBytes(tag);
    if Name(tag) == "DSIG" {
      assert U32Bytes(tag) == [0x44, 0x53, 0x49, 0x47];
      U32RoundTrip(tag);
      assert DecodeU32([0x44, 0x53, 0x49, 0x47]) == DsigTag;
    }
  }

  predicate IsDsig(e: TableEntry)
    ensures IsDsig(e) <==> e.tag == DsigTag
  {
    NameIsDsig(e.tag);
    Name(e.tag) == "DSIG"
  }

  /** The 44 header bytes of `h`, as a WOFF writer lays them out. */
  function EncodeHeader(h: WoffHeader): (bs: seq<byte>)
    ensures |bs| == HeaderSize
  {
    U32Bytes(h.signature) + U32Bytes(h.flavor) + U32Bytes(h.length) +
    U16Bytes(h.tableCount) + U16Bytes(h.reserved) + U32Bytes(h.totalSfntSize) +
    U16Bytes(h.majorVersion) + U16Bytes(h.minorVersion) +
    U32Bytes(h.metaOffset) + U32Bytes(h.metaLength) + U32Bytes(h.metaOrigLength) +
    U32Bytes(h.privOffset) + U32Bytes(h.privLength)
  }

  /** The 20 directory bytes of `e`. */
  function EncodeEntry(e: TableEntry): (bs: seq<byte>)
    ensures |bs| == EntrySize
  {
    U32Bytes(e.tag) + U32Bytes(e.offset) + U32Bytes(e.compLength) +
    U32Bytes(e.origLength) + U32Bytes(e.origChecksum)
  }

  /** The header the converter reads from the first 44 bytes; fails on shorter input. */
  function ParseHeader(bs: seq<byte>): (r: Option<WoffHeader>)
    ensures r.Some? <==> HeaderSize <= |bs|
  {
    if |bs| < HeaderSize then None
    else Some(WoffHeader(
      DecodeU32(bs[0..4]), DecodeU32(bs[4..8]), DecodeU32(bs[8..12]),
      DecodeU16(bs[12..14]), DecodeU16(bs[14..16]), DecodeU32(bs[16..20]),
      DecodeU16(bs[20..22]), DecodeU16(bs[22..24]),
      DecodeU32(bs[24..28]), DecodeU32(bs[28..32]), DecodeU32(bs[32..36]),
      DecodeU32(bs[36..40]), DecodeU32(bs[40..44])))
  }

  /** The directory entry stored at byte `p`; fails when fewer than 20 bytes are left. */
  function EntryAt(bs: seq<byte>, p: nat): (r: Option<TableEntry>)
    ensures r.Some? <==> p + EntrySize <= |bs|
  {
    if |bs| < p + EntrySize then None
    else Some(TableEntry(
      DecodeU32(bs[p..p + 4]), DecodeU32(bs[p + 4..p + 8]), DecodeU32(bs[p + 8..p + 12]),
      DecodeU32(bs[p + 12..p + 16]), DecodeU32(bs[p + 16..p + 20])))
  }

  /** Parsing the header that EncodeHeader wrote gives back the same header. */
  lemma HeaderRoundTrip(h: WoffHeader, rest: seq<byte>)
    ensures ParseHeader(EncodeHeader(h) + rest) == Some(h)
  {
    var bs := EncodeHeader(h) + rest;
    var a1 := U32Bytes(h.signature);
    var a2 := a1 + U32Bytes(h.flavor);
    var a3 := a2 + U32Bytes(h.length);
    var a4 := a3 + U16Bytes(h.tableCount);
    var a5 := a4 + U16Bytes(h.reserved);
    var a6 := a5 + U32Bytes(h.totalSfntSize);
    var a7 := a6 + U16Bytes(h.majorVersion);
    var a8 := a7 + U16Bytes(h.minorVersion);
    var a9 := a8 + U32Bytes(h.metaOffset);
    var a10 := a9 + U32Bytes(h.metaLength);
    var a11 := a10 + U32Bytes(h.metaOrigLength);
    var a12 := a11 + U32Bytes(h.privOffset);
    assert bs[..HeaderSize] == a12 + U32Bytes(h.privLength);
    SplitPrefix(bs, a12, U32Bytes(h.privLength));
    SplitPrefix(bs, a11, U32Bytes(h.privOffset));
    SplitPrefix(bs, a10, U32Bytes(h.metaOrigLength));
    SplitPrefix(bs, a9, U32Bytes(h.metaLength));
    SplitPrefix(bs, a8, U32Bytes(h.metaOffset));
    SplitPrefix(bs, a7, U16Bytes(h.minorVersion));
    SplitPrefix(bs, a6, U16Bytes(h.majorVersion));
    SplitPrefix(bs, a5, U32Bytes(h.totalSfntSize));
    SplitPrefix(bs, a4, U16Bytes(h.reserved));
    SplitPrefix(bs, a3, U16Bytes(h.tableCount));
    SplitPrefix(bs, a2, U32Bytes(h.length));
    SplitPrefix(bs, a1, U32Bytes(h.flavor));
    U32RoundTrip(h.signature); U32RoundTrip(h.flavor); U32RoundTrip(h.length);
    U32RoundTrip(h.totalSfntSize);
    U32RoundTrip(h.metaOffset); U32RoundTrip(h.metaLength); U32RoundTrip(h.metaOrigLength);
    U32RoundTrip(h.privOffset); U32RoundTrip(h.privLength);
  }

  /** Parsing the entry that EncodeEntry wrote at `p` gives back the same entry. */
  lemma EntryRoundTrip(front: seq<byte>, e: TableEntry, rest: seq<byte>)
    ensures EntryAt(front + EncodeEntry(e) + rest, |front|) == Some(e)
  {
    var bs := front + EncodeEntry(e) + rest;
    var p := |front|;
    U32RoundTrip(e.tag); U32RoundTrip(e.offset); U32RoundTrip(e.compLength);
    U32RoundTrip(e.origLength); U32RoundTrip(e.origChecksum);
    assert bs[p..p + 4] == U32Bytes(e.tag);
    assert bs[p + 4..p + 8] == U32Bytes(e.offset);
    assert bs[p + 8..p + 12] == U32Bytes(e.compLength);
    assert bs[p + 12..p + 16] == U32Bytes(e.origLength);
    assert bs[p + 16..p + 20] == U32Bytes(e.origChecksum);
  }

  /**
   * All `count` directory entries, DSIG included, entry `i` at byte 44 + 20 i;
   * fails when the input ends before the last one.
   */
  function ParseDirectory(bs: seq<byte>, count: nat): (r: Option<seq<TableEntry>>)
    ensures r.Some? <==> count == 0 || HeaderSize + 20 * count <= |bs|
    ensures r.Some? ==> |r.value| == count
    ensures r.Some? ==> forall i :: 0 <= i < count ==> EntryAt(bs, HeaderSize + 20 * i) == Some(r.value[i])
  {
    if count == 0 then Some([])
    else match ParseDirectory(bs, count - 1)
      case None => None
      case Some(es) =>
        match EntryAt(bs, HeaderSize + 20 * (count - 1))
        case None => None
        case Some(e) => Some(es + [e])
  }

  /** The entries in order with every DSIG entry removed. */
  function DropDsig(es: seq<TableEntry>): (r: seq<TableEntry>)
    ensures |r| <= |es|
    ensures forall e :: e in r <==> e in es && !IsDsig(e)
  {
    if es == [] then []
    else
      var rest := DropDsig(es[..|es| - 1]);
      var last := es[|es| - 1];
      assert es == es[..|es| - 1] + [last];
      if IsDsig(last) then rest else rest + [last]
  }

  /** Dropping DSIG works piecewise, so the surviving entries keep their input order. */
  lemma {:induction false} DropDsigAppend(a: seq<TableEntry>, b: seq<TableEntry>)
    ensures DropDsig(a + b) == DropDsig(a) + DropDsig(b)
  {
    if b == [] {
      assert a + b == a;
    } else {
      var b', last := b[..|b| - 1], b[|b| - 1];
      assert (a + b)[..|a + b| - 1] == a + b';
      assert (a + b)[|a + b| - 1] == last;
      DropDsigAppend(a, b');
      assert DropDsig(a + b) == DropDsig(a + b') + (if IsDsig(last) then [] else [last]);
      assert DropDsig(b) == DropDsig(b') + (if IsDsig(last) then [] else [last]);
    }
  }

  /** Entries that are not DSIG all survive, unchanged and in order. */
  lemma {:induction false} DropDsigKeepsOthers(es: seq<TableEntry>)
    requires forall i :: 0 <= i < |es| ==> !IsDsig(es[i])
    ensures DropDsig(es) == es
  {
    if es != [] {
      DropDsigKeepsOthers(es[..|es| - 1]);
      assert es == es[..|es| - 1] + [es[|es| - 1]];
    }
  }

  /** One DSIG entry among others: the count goes down by exactly one and no DSIG remains. */
  lemma DropOneDsig(a: seq<TableEntry>, d: TableEntry, b: seq<TableEntry>)
    requires IsDsig(d)
    requires forall i :: 0 <= i < |a| ==> !IsDsig(a[i])
    requires forall i :: 0 <= i < |b| ==> !IsDsig(b[i])
    ensures DropDsig(a + [d] + b) == a + b
    ensures |DropDsig(a + [d] + b)| == |a + [d] + b| - 1
  {
    DropDsigAppend(a + [d], b);
    DropDsigAppend(a, [d]);
    DropDsigKeepsOthers(a);
    DropDsigKeepsOthers(b);
    assert [d][..0] == [];
  }

  /** The header reader: the 13 fields in file order, 44 bytes in all. */
  method ReadHeader(reader: Reader) returns (h: Option<WoffHeader>)
    requires reader.pos == 0
    modifies reader
    ensures h == ParseHeader(reader.bytes)
    ensures h.Some? ==> reader.pos == HeaderSize
  {
    var signature := reader.ReadUInt32();
    if signature.None? { return None; }
    var flavor := reader.ReadUInt32();
    if flavor.None? { return None; }
    var length := reader.ReadUInt32();
    if length.None? { return None; }
    var tableCount := reader.ReadUInt16();
    if tableCount.None? { return None; }
    var reserved := reader.ReadUInt16();
    if reserved.None? { return None; }
    var totalSfntSize := reader.ReadUInt32();
    if totalSfntSize.None? { return None; }
    var majorVersion := reader.ReadUInt16();
    if majorVersion.None? { return None; }
    var minorVersion := reader.ReadUInt16();
    if minorVersion.None? { return None; }
    var metaOffset := reader.ReadUInt32();
    if metaOffset.None? { return None; }
    var metaLength := reader.ReadUInt32();
    if metaLength.None? { return None; }
    var metaOrigLength := reader.ReadUInt32();
    if metaOrigLength.None? { return None; }
    var privOffset := reader.ReadUInt32();
    if privOffset.None? { return None; }
    var privLength := reader.ReadUInt32();
    if privLength.None? { return None; }
    h := Some(WoffHeader(
      signature.value, flavor.value, length.value, tableCount.value, reserved.value,
      totalSfntSize.value, majorVersion.value, minorVersion.value,
      metaOffset.value, metaLength.value, metaOrigLength.value,
      privOffset.value, privLength.value));
  }

  /** The directory entry reader: five u32 fields, 20 bytes. */
  method ReadEntry(reader: Reader) returns (e: Option<TableEntry>)
    modifies reader
    ensures e == EntryAt(reader.bytes, old(reader.pos))
    ensures e.Some? ==> reader.pos == old(reader.pos) + EntrySize
  {
    var tag := reader.ReadUInt32();
    if tag.None? { return None; }
    var offset := reader.ReadUInt32();
    if offset.None? { return None; }
    var compLength := reader.ReadUInt32();
    if compLength.None? { return None; }
    var origLength := reader.ReadUInt32();
    if origLength.None? { return None; }
    var origChecksum := reader.ReadUInt32();
    if origChecksum.None? { return None; }
    e := Some(TableEntry(tag.value, offset.value, compLength.value, origLength.value, origChecksum.value));
  }
}
