/**
 * The SFNT file the converter rebuilds: the 12-byte offset table with its
 * binary-search fields ("Organization of an OpenType Font" in the OpenType
 * specification), one 16-byte table record per table, and the table data,
 * each table starting on a 4-byte boundary and padded with zeros
 * (section 5 of WOFF 1.0).
 */
module SfntLayout {
  import opened BigEndian
  import opened Woff

  const SfntHeaderSize: nat := 12
  // Offsets of the i-th record are written `16 * i` rather than `RecordSize * i`:
  // a product with a named constant is nonlinear to the solver and slows the proofs.
  const RecordSize: nat := 16

  function Pow2(e: nat): (p: nat)
    ensures p >= 1
  {
    if e == 0 then 1 else 2 * Pow2(e - 1)
  }

  lemma {:induction false} Pow2Monotone(a: nat, b: nat)
    requires a <= b
    ensures Pow2(a) <= Pow2(b)
  {
    if a < b {
      Pow2Monotone(a, b - 1);
    }
  }

  lemma Pow2Sixteen()
    ensures Pow2(16) == 0x1_0000
  {
    assert Pow2(4) == 16;
    assert Pow2(8) == 256;
    assert Pow2(12) == 4096;
  }

  /** The largest `e` with 2^e <= n. */
  function FloorLog2(n: nat): (e: nat)
    requires n >= 1
    ensures Pow2(e) <= n < Pow2(e + 1)
  {
    if n == 1 then 0 else 1 + FloorLog2(n / 2)
  }

  /** No larger exponent fits under `n`, and no other exponent brackets it. */
  lemma FloorLog2Unique(n: nat, e: nat)
    requires Pow2(e) <= n < Pow2(e + 1)
    ensures e == FloorLog2(n)
  {
    var f := FloorLog2(n);
    if e < f {
      Pow2Monotone(e + 1, f);
    } else if f < e {
      Pow2Monotone(f + 1, e);
    }
  }

  lemma {:induction false} FloorLog2Largest(n: nat, e: nat)
    requires n >= 1 && Pow2(e) <= n
    ensures e <= FloorLog2(n)
  {
    if e > FloorLog2(n) {
      Pow2Monotone(FloorLog2(n) + 1, e);
    }
  }

  /** The three binary-search fields of an SFNT offset table. */
  datatype SearchFields = SearchFields(searchRange: nat, entrySelector: nat, rangeShift: nat)

  /**
   * The exact search fields for `n` tables: entrySelector = floor(log2 n),
   * searchRange = 16 * 2^entrySelector, rangeShift = 16 n - searchRange.
   */
  function SearchFieldsOf(n: nat): (f: SearchFields)
    requires n >= 1
    ensures Pow2(f.entrySelector) <= n < Pow2(f.entrySelector + 1)
    ensures f.searchRange == 16 * Pow2(f.entrySelector)
    ensures f.searchRange + f.rangeShift == 16 * n
    ensures f.rangeShift < f.searchRange
  {
    var e := FloorLog2(n);
    SearchFields(16 * Pow2(e), e, 16 * n - 16 * Pow2(e))
  }

  /** entrySelector is the largest exponent whose power of two does not exceed `n`. */
  lemma EntrySelectorIsLargest(n: nat, e: nat)
    requires n >= 1 && Pow2(e) <= n
    ensures e <= SearchFieldsOf(n).entrySelector
  {
    FloorLog2Largest(n, e);
  }

  lemma SearchFieldsExamples()
    ensures SearchFieldsOf(1) == SearchFields(16, 0, 0)
    ensures SearchFieldsOf(2) == SearchFields(32, 1, 0)
    ensures SearchFieldsOf(3) == SearchFields(32, 1, 16)
    ensures SearchFieldsOf(5) == SearchFields(64, 2, 16)
    ensures SearchFieldsOf(16) == SearchFields(256, 4, 0)
    ensures SearchFieldsOf(17) == SearchFields(256, 4, 16)
  {
    FloorLog2Unique(1, 0);
    FloorLog2Unique(2, 1);
    FloorLog2Unique(3, 1);
    FloorLog2Unique(5, 2);
    FloorLog2Unique(16, 4);
    FloorLog2Unique(17, 4);
  }

  /**
   * The search fields as the converter writes them, each a 16-bit value.
   * From 1 to 4095 tables they are exact; at 4096 tables and more the
   * searchRange no longer fits 16 bits and is kept modulo 2^16, and for no
   * tables at all the decrement of entrySelector wraps to 0xFFFF while the
   * overflowing searchRange is written as 0 (see README).
   */
  function SearchFields16(n: u16): (f: SearchFields)
    ensures f.searchRange < 0x1_0000 && f.entrySelector < 0x1_0000 && f.rangeShift < 0x1_0000
    ensures 1 <= n < 0x1000 ==> f == SearchFieldsOf(n)
    ensures n == 0 ==> f == SearchFields(0, 0xFFFF, 0)
  {
    if n == 0 then SearchFields(0, 0xFFFF, 0)
    else
      var f := SearchFieldsOf(n);
      assert f.entrySelector < 16 by {
        if f.entrySelector >= 16 {
          Pow2Monotone(16, f.entrySelector);
          Pow2Sixteen();
        }
      }
      var sr := f.searchRange % 0x1_0000;
      assert n < 0x1000 ==> f.searchRange <= 16 * n < 0x1_0000 && sr == f.searchRange;
      assert n < 0x1000 ==> (16 * n - sr) % 0x1_0000 == f.rangeShift;
      SearchFields(sr, f.entrySelector, (16 * n - sr) % 0x1_0000)
  }

  /**
   * The converter's search-field loop: count up while 2^e <= n, then step
   * back one (a 16-bit decrement, which wraps when the loop never ran).
   */
  method ComputeSearchFields(n: u16) returns (searchRange: u16, entrySelector: u16, rangeShift: u16)
    ensures SearchFields(searchRange, entrySelector, rangeShift) == SearchFields16(n)
  {
    var e: nat := 0;
    while Pow2(e) <= n
      invariant e == 0 || Pow2(e - 1) <= n
      decreases n + 1 - Pow2(e)
    {
      e := e + 1;
    }
    if e == 0 {
      entrySelector := 0xFFFF;
      searchRange := 0;
    } else {
      FloorLog2Unique(n, e - 1);
      assert SearchFields16(n).entrySelector == e - 1;
      entrySelector := e - 1;
      searchRange := (Pow2(e - 1) * 16) % 0x1_0000;
    }
    rangeShift := (n as int * 16 - searchRange) % 0x1_0000;
  }

  /**
   * The next multiple of 4 at or after `x`, counted out in steps of 4 so that
   * proofs about the plan stay in linear arithmetic; Align4Is states that it
   * is the converter's `x + (4 - x % 4)` rounding.
   */
  function Align4(x: nat): (r: nat)
    ensures x <= r < x + 4
  {
    if x == 0 then 0 else if x <= 4 then 4 else 4 + Align4(x - 4)
  }

  /** Align4 agrees with the converter's rounding: add `4 - x % 4` unless `x` is already a multiple of 4. */
  lemma {:induction false} Align4Is(x: nat)
    ensures Align4(x) == if x % 4 != 0 then x + (4 - x % 4) else x
    ensures Align4(x) % 4 == 0
  {
    if x > 4 {
      Align4Is(x - 4);
      assert x % 4 == (x - 4) % 4;
    }
  }

  /** Where the first table goes: after the offset table and one record per table. */
  function DirectoryEnd(n: nat): (d: nat)
    ensures d % 4 == 0
  {
    var d := SfntHeaderSize + 16 * n;
    assert d == 4 * (3 + 4 * n);
    d
  }

  /** The sum of the original lengths of the first `i` entries. */
  function LengthUpTo(es: seq<TableEntry>, i: nat): nat
    requires i <= |es|
  {
    if i == 0 then 0 else LengthUpTo(es, i - 1) + es[i - 1].origLength
  }

  /**
   * The running output offset after laying out the first `i` entries of `es`
   * from `start`: each table adds its original length, then the offset is
   * rounded up to a multiple of 4.
   */
  function PlanAt(start: nat, es: seq<TableEntry>, i: nat): (end: nat)
    requires i <= |es|
    ensures start <= end
  {
    if i == 0 then start else Align4(PlanAt(start, es, i - 1) + es[i - 1].origLength)
  }

  /** Where the plan for all of `es` ends: the size of the file when `start` is the directory end. */
  function PlanEnd(start: nat, es: seq<TableEntry>): nat
  {
    PlanAt(start, es, |es|)
  }

  /** The plan spends each table's original length plus under 4 bytes of padding per table. */
  lemma {:induction false} PlanBounds(start: nat, es: seq<TableEntry>, i: nat)
    requires i <= |es|
    ensures start + LengthUpTo(es, i) <= PlanAt(start, es, i) <= start + LengthUpTo(es, i) + 3 * i
  {
    if i > 0 {
      PlanBounds(start, es, i - 1);
    }
  }

  /** The plan only grows as more tables are laid out. */
  lemma {:induction false} PlanMonotone(start: nat, es: seq<TableEntry>, i: nat, j: nat)
    requires i <= j <= |es|
    ensures PlanAt(start, es, i) <= PlanAt(start, es, j)
  {
    if i < j {
      PlanMonotone(start, es, i, j - 1);
    }
  }

  /**
   * After each table the plan moves on by the table's original length plus
   * under 4 bytes of padding: tables are laid out back to back, in directory order.
   */
  lemma {:induction false} OffsetStep(start: nat, es: seq<TableEntry>, i: nat)
    requires i < |es|
    ensures PlanAt(start, es, i) + es[i].origLength <= PlanAt(start, es, i + 1)
    ensures PlanAt(start, es, i + 1) < PlanAt(start, es, i) + es[i].origLength + 4
  {
  }

  /** With an aligned start (the directory end always is), every table starts on a 4-byte boundary, and so does the end. */
  lemma {:induction false} OffsetsAligned(start: nat, es: seq<TableEntry>, i: nat)
    requires start % 4 == 0 && i <= |es|
    ensures PlanAt(start, es, i) % 4 == 0
  {
    if i > 0 {
      Align4Is(PlanAt(start, es, i - 1) + es[i - 1].origLength);
    }
  }

  /** Tables never overlap: each one ends no later than any later one starts, or than the plan ends. */
  lemma {:induction false} TablesDisjoint(start: nat, es: seq<TableEntry>, i: nat, j: nat)
    requires i < j <= |es|
    ensures PlanAt(start, es, i) + es[i].origLength <= PlanAt(start, es, j)
  {
    PlanMonotone(start, es, i + 1, j);
  }

  /** The 12-byte offset table: flavor, table count and the three search fields. */
  function HeaderBytes(flavor: u32, n: u16): (bs: seq<byte>)
    ensures |bs| == SfntHeaderSize
  {
    var f := SearchFields16(n);
    U32Bytes(flavor) + U16Bytes(n) + U16Bytes(f.searchRange) +
    U16Bytes(f.entrySelector) + U16Bytes(f.rangeShift)
  }

  /** One 16-byte table record: tag, the original checksum, output offset, original length. */
  function RecordBytes(e: TableEntry, off: u32): (bs: seq<byte>)
    ensures |bs| == RecordSize
  {
    U32Bytes(e.tag) + U32Bytes(e.origChecksum) + U32Bytes(off) + U32Bytes(e.origLength)
  }

  /** The table records of the first `i` entries, in order, with their planned offsets. */
  function DirectoryUpTo(start: nat, es: seq<TableEntry>, i: nat): (bs: seq<byte>)
    requires i <= |es| && PlanAt(start, es, i) < 0x1_0000_0000
    ensures |bs| == 16 * i
  {
    if i == 0 then []
    else DirectoryUpTo(start, es, i - 1) + RecordBytes(es[i - 1], PlanAt(start, es, i - 1))
  }

  /** The first `n` payloads have the original lengths of the first `n` entries. */
  predicate PayloadsMatchUpTo(es: seq<TableEntry>, ps: seq<seq<byte>>, n: nat)
  {
    n <= |es| && n <= |ps| && forall i :: 0 <= i < n ==> |ps[i]| == es[i].origLength
  }

  /** Payload `i` has the original length of entry `i`, for every entry. */
  predicate PayloadsMatch(es: seq<TableEntry>, ps: seq<seq<byte>>)
  {
    |ps| == |es| && PayloadsMatchUpTo(es, ps, |es|)
  }

  /** The table data of the first `i` tables, in directory order, each padded with zeros up to the next offset. */
  function DataUpTo(start: nat, es: seq<TableEntry>, ps: seq<seq<byte>>, i: nat): (bs: seq<byte>)
    requires PayloadsMatchUpTo(es, ps, i)
    ensures |bs| == PlanAt(start, es, i) - start
  {
    if i == 0 then []
    else
      DataUpTo(start, es, ps, i - 1) + ps[i - 1] +
      Zeros(PlanAt(start, es, i) - PlanAt(start, es, i - 1) - es[i - 1].origLength)
  }

  /** The data of the first `n` tables depends on the first `n` payloads only. */
  lemma {:induction false} DataUpToSame(start: nat, es: seq<TableEntry>, ps: seq<seq<byte>>, qs: seq<seq<byte>>, n: nat)
    requires PayloadsMatchUpTo(es, ps, n) && n <= |qs|
    requires forall i :: 0 <= i < n ==> qs[i] == ps[i]
    ensures PayloadsMatchUpTo(es, qs, n)
    ensures DataUpTo(start, es, qs, n) == DataUpTo(start, es, ps, n)
  {
    if n > 0 {
      DataUpToSame(start, es, ps, qs, n - 1);
    }
  }

  /** Laying out one more table appends its payload and its padding to the data. */
  lemma {:induction false} DataUpToStep(start: nat, es: seq<TableEntry>, ps: seq<seq<byte>>, p: seq<byte>, j: nat)
    requires PayloadsMatchUpTo(es, ps, j) && |ps| == j && j < |es| && |p| == es[j].origLength
    ensures PayloadsMatchUpTo(es, ps + [p], j + 1)
    ensures DataUpTo(start, es, ps + [p], j + 1) ==
      DataUpTo(start, es, ps, j) + p + Zeros(Align4(PlanAt(start, es, j) + es[j].origLength) - (PlanAt(start, es, j) + es[j].origLength))
  {
    DataUpToSame(start, es, ps, ps + [p], j);
  }

  /** A plan that fits the 16-bit table count and the 32-bit offsets of the table records. */
  predicate Representable(es: seq<TableEntry>)
  {
    |es| < 0x1_0000 && PlanEnd(DirectoryEnd(|es|), es) < 0x1_0000_0000
  }

  /** The whole SFNT file for the surviving entries `es` and their uncompressed payloads `ps`. */
  function Image(flavor: u32, es: seq<TableEntry>, ps: seq<seq<byte>>): (r: seq<byte>)
    requires Representable(es) && PayloadsMatch(es, ps)
    ensures |r| == PlanEnd(DirectoryEnd(|es|), es) && |r| % 4 == 0
  {
    var start := DirectoryEnd(|es|);
    OffsetsAligned(start, es, |es|);
    HeaderBytes(flavor, |es|) + DirectoryUpTo(start, es, |es|) + DataUpTo(start, es, ps, |es|)
  }

  /** The offset table reads back as the flavor, the table count and the 16-bit search fields. */
  lemma {:induction false} ImageHeader(flavor: u32, es: seq<TableEntry>, ps: seq<seq<byte>>)
    requires Representable(es) && PayloadsMatch(es, ps)
    ensures var img := Image(flavor, es, ps); var f := SearchFields16(|es|);
      |img| >= SfntHeaderSize &&
      DecodeU32(img[0..4]) == flavor && DecodeU16(img[4..6]) == |es| &&
      DecodeU16(img[6..8]) == f.searchRange && DecodeU16(img[8..10]) == f.entrySelector &&
      DecodeU16(img[10..12]) == f.rangeShift
  {
    var img := Image(flavor, es, ps);
    var f := SearchFields16(|es|);
    var h := HeaderBytes(flavor, |es|);
    assert img[..SfntHeaderSize] == h;
    SliceOfSlice(img, 0, h, 0, 4);
    SliceOfSlice(img, 0, h, 4, 6);
    SliceOfSlice(img, 0, h, 6, 8);
    SliceOfSlice(img, 0, h, 8, 10);
    SliceOfSlice(img, 0, h, 10, 12);
    U32RoundTrip(flavor);
  }

  lemma {:induction false} SliceOfSlice(s: seq<byte>, p: nat, t: seq<byte>, lo: nat, hi: nat)
    requires p + |t| <= |s| && s[p..p + |t|] == t && lo <= hi <= |t|
    ensures s[p + lo..p + hi] == t[lo..hi]
  {
    forall k | 0 <= k < hi - lo
      ensures s[p + lo..p + hi][k] == t[lo..hi][k]
    {
      assert s[p + lo + k] == s[p..p + |t|][lo + k];
    }
  }

  lemma ConcatLeft(a: seq<byte>, b: seq<byte>, lo: nat, hi: nat)
    requires lo <= hi <= |a|
    ensures (a + b)[lo..hi] == a[lo..hi]
  {
  }

  lemma ConcatRight(a: seq<byte>, b: seq<byte>, lo: nat, hi: nat)
    requires lo <= hi <= |b|
    ensures (a + b)[|a| + lo..|a| + hi] == b[lo..hi]
  {
  }

  /** Record `i` of the directory is the record of entry `i` with its planned offset. */
  lemma {:induction false} DirectoryAt(start: nat, es: seq<TableEntry>, n: nat, i: nat)
    requires i < n <= |es| && PlanAt(start, es, n) < 0x1_0000_0000
    ensures PlanAt(start, es, i) < 0x1_0000_0000
    ensures DirectoryUpTo(start, es, n)[16 * i..16 * (i + 1)] ==
      RecordBytes(es[i], PlanAt(start, es, i))
  {
    var front := DirectoryUpTo(start, es, n - 1);
    var last := RecordBytes(es[n - 1], PlanAt(start, es, n - 1));
    if i < n - 1 {
      DirectoryAt(start, es, n - 1, i);
      ConcatLeft(front, last, 16 * i, 16 * (i + 1));
    } else {
      ConcatRight(front, last, 0, RecordSize);
    }
  }

  /** In the data region, table `i` occupies its planned offset for its original length. */
  lemma {:induction false} DataPayloadAt(start: nat, es: seq<TableEntry>, ps: seq<seq<byte>>, n: nat, i: nat)
    requires PayloadsMatch(es, ps) && i < n <= |es|
    ensures PlanAt(start, es, i) + es[i].origLength <= PlanAt(start, es, n)
    ensures forall j :: 0 <= j < es[i].origLength ==> DataUpTo(start, es, ps, n)[PlanAt(start, es, i) - start + j] == ps[i][j]
  {
    var d := DataUpTo(start, es, ps, n);
    var front, p := DataUpTo(start, es, ps, n - 1), ps[n - 1];
    var z := Zeros(PlanAt(start, es, n) - PlanAt(start, es, n - 1) - es[n - 1].origLength);
    assert d == front + p + z;
    assert |front| == PlanAt(start, es, n - 1) - start && |p| == es[n - 1].origLength;
    var lo := PlanAt(start, es, i) - start;
    if i < n - 1 {
      DataPayloadAt(start, es, ps, n - 1, i);
      assert lo + es[i].origLength <= |front|;
      forall j | 0 <= j < es[i].origLength
        ensures d[lo + j] == ps[i][j]
      {
        assert d[lo + j] == front[lo + j];
      }
    } else {
      assert lo == |front|;
      forall j | 0 <= j < es[i].origLength
        ensures d[lo + j] == ps[i][j]
      {
        assert d[lo + j] == p[j];
      }
    }
  }

  /** In the data region, zeros fill slot `i` after table `i`, up to the next table's offset. */
  lemma {:induction false} DataPaddingAt(start: nat, es: seq<TableEntry>, ps: seq<seq<byte>>, n: nat, i: nat, k: nat)
    requires PayloadsMatch(es, ps) && i < n <= |es|
    requires PlanAt(start, es, i) + es[i].origLength <= k < PlanAt(start, es, i + 1)
    ensures start <= k < PlanAt(start, es, n) && DataUpTo(start, es, ps, n)[k - start] == 0
  {
    var front, p := DataUpTo(start, es, ps, n - 1), ps[n - 1];
    var z := Zeros(PlanAt(start, es, n) - PlanAt(start, es, n - 1) - es[n - 1].origLength);
    assert DataUpTo(start, es, ps, n) == front + p + z;
    assert |front| == PlanAt(start, es, n - 1) - start && |p| == es[n - 1].origLength;
    if i < n - 1 {
      DataPaddingAt(start, es, ps, n - 1, i, k);
      assert (front + p + z)[k - start] == front[k - start];
    } else {
      var j := k - start - |front| - |p|;
      assert 0 <= j < |z|;
      assert (front + p + z)[k - start] == z[j];
    }
  }

  lemma InDirectory(h: seq<byte>, d: seq<byte>, t: seq<byte>, lo: nat, hi: nat)
    requires lo <= hi <= |d|
    ensures (h + d + t)[|h| + lo..|h| + hi] == d[lo..hi]
  {
    assert (h + d + t)[|h| + lo..|h| + hi] == (h + d)[|h| + lo..|h| + hi];
  }

  lemma InData(h: seq<byte>, d: seq<byte>, t: seq<byte>, lo: nat, hi: nat)
    requires lo <= hi <= |t|
    ensures (h + d + t)[|h| + |d| + lo..|h| + |d| + hi] == t[lo..hi]
  {
  }

  /** Record `i` sits in the image right after the offset table and the `i` records before it. */
  lemma {:induction false} ImageRecordBytes(flavor: u32, es: seq<TableEntry>, ps: seq<seq<byte>>, i: nat)
    requires Representable(es) && PayloadsMatch(es, ps) && i < |es|
    ensures PlanAt(DirectoryEnd(|es|), es, i) < 0x1_0000_0000
    ensures var p := SfntHeaderSize + 16 * i;
      p + RecordSize <= |Image(flavor, es, ps)| &&
      Image(flavor, es, ps)[p..p + RecordSize] == RecordBytes(es[i], PlanAt(DirectoryEnd(|es|), es, i))
  {
    var start := DirectoryEnd(|es|);
    DirectoryAt(start, es, |es|, i);
    InDirectory(HeaderBytes(flavor, |es|), DirectoryUpTo(start, es, |es|), DataUpTo(start, es, ps, |es|),
      16 * i, 16 * (i + 1));
  }

  /** Sixteen bytes laid out as a record read back as its four fields. */
  lemma {:induction false} RecordAt(s: seq<byte>, p: nat, e: TableEntry, off: u32)
    requires p + RecordSize <= |s| && s[p..p + RecordSize] == RecordBytes(e, off)
    ensures DecodeU32(s[p..p + 4]) == e.tag && DecodeU32(s[p + 4..p + 8]) == e.origChecksum &&
      DecodeU32(s[p + 8..p + 12]) == off && DecodeU32(s[p + 12..p + 16]) == e.origLength
  {
    var rec := RecordBytes(e, off);
    SliceOfSlice(s, p, rec, 0, 4);
    SliceOfSlice(s, p, rec, 4, 8);
    SliceOfSlice(s, p, rec, 8, 12);
    SliceOfSlice(s, p, rec, 12, 16);
    U32RoundTrip(e.tag);
    U32RoundTrip(e.origChecksum);
    U32RoundTrip(off);
    U32RoundTrip(e.origLength);
    assert rec[0..4] == U32Bytes(e.tag) && rec[4..8] == U32Bytes(e.origChecksum);
    assert rec[8..12] == U32Bytes(off) && rec[12..16] == U32Bytes(e.origLength);
  }

  /**
   * Each record reads back as the entry's tag, its original checksum copied
   * unchanged, its planned output offset and its original length.
   */
  lemma {:induction false} ImageRecord(flavor: u32, es: seq<TableEntry>, ps: seq<seq<byte>>, i: nat)
    requires Representable(es) && PayloadsMatch(es, ps) && i < |es|
    ensures var img := Image(flavor, es, ps); var p := SfntHeaderSize + 16 * i;
      p + RecordSize <= |img| &&
      DecodeU32(img[p..p + 4]) == es[i].tag &&
      DecodeU32(img[p + 4..p + 8]) == es[i].origChecksum &&
      DecodeU32(img[p + 8..p + 12]) == PlanAt(DirectoryEnd(|es|), es, i) &&
      DecodeU32(img[p + 12..p + 16]) == es[i].origLength
  {
    ImageRecordBytes(flavor, es, ps, i);
    RecordAt(Image(flavor, es, ps), SfntHeaderSize + 16 * i, es[i], PlanAt(DirectoryEnd(|es|), es, i));
  }

  /** Table `i` sits in the output at its planned offset, byte for byte. */
  lemma {:induction false} ImageTable(flavor: u32, es: seq<TableEntry>, ps: seq<seq<byte>>, i: nat)
    requires Representable(es) && PayloadsMatch(es, ps) && i < |es|
    ensures var off := PlanAt(DirectoryEnd(|es|), es, i);
      off + es[i].origLength <= |Image(flavor, es, ps)| &&
      Image(flavor, es, ps)[off..off + es[i].origLength] == ps[i]
  {
    var start := DirectoryEnd(|es|);
    var off := PlanAt(start, es, i);
    var head, dir, data := HeaderBytes(flavor, |es|), DirectoryUpTo(start, es, |es|), DataUpTo(start, es, ps, |es|);
    assert Image(flavor, es, ps) == head + dir + data;
    assert |head| + |dir| == start;
    var len := es[i].origLength;
    DataPayloadAt(start, es, ps, |es|, i);
    assert |data| == PlanAt(start, es, |es|) - start && |ps[i]| == len;
    forall j | 0 <= j < len
      ensures data[off - start..off - start + len][j] == ps[i][j]
    {
    }
    assert data[off - start..off - start + len] == ps[i];
    InData(head, dir, data, off - start, off - start + len);
  }

  /**
   * Between the end of table `i` and the start of the next table (or the end
   * of the file after the last one) every byte is zero; by OffsetStep that
   * gap is under 4 bytes.
   */
  lemma {:induction false} ImagePadding(flavor: u32, es: seq<TableEntry>, ps: seq<seq<byte>>, i: nat, k: nat)
    requires Representable(es) && PayloadsMatch(es, ps) && i < |es|
    requires PlanAt(DirectoryEnd(|es|), es, i) + es[i].origLength <= k < PlanAt(DirectoryEnd(|es|), es, i + 1)
    ensures k < |Image(flavor, es, ps)| && Image(flavor, es, ps)[k] == 0
  {
    var start := DirectoryEnd(|es|);
    DataPaddingAt(start, es, ps, |es|, i, k);
    InData(HeaderBytes(flavor, |es|), DirectoryUpTo(start, es, |es|), DataUpTo(start, es, ps, |es|),
      k - start, k - start + 1);
  }
}
