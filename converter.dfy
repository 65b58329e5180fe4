/**
 * The WOFF-to-SFNT conversion itself: read the WOFF header and directory,
 * drop the digital signature, write the offset table and the table records,
 * then copy or inflate every table into place.
 *
 * The DEFLATE decoder is a parameter, `inflate`: the raw-DEFLATE decoding of
 * a zlib stream with its 2-byte header removed, `None` when the stream is
 * invalid.  Each exception the conversion raises on a malformed input is an
 * `Error` value; allocation failures and stream faults are not modelled.
 */
module Converter {
  import opened Wrappers
  import opened BigEndian
  import opened Woff
  import opened SfntLayout

  datatype Error =
    | UnexpectedEndOfData   // a header or directory field read past the end of the input
    | NegativeReadCount     // a compressed length of 2^31 or more, cast to a negative int
    | TruncatedZlibHeader   // a compressed table shorter than its 2-byte zlib header
    | DecompressionFailure  // the DEFLATE stream did not decode
    | TableLengthMismatch   // the table's bytes did not come to its original length

  /** The C# `(int)` cast of a UInt32: values of 2^31 and above wrap to negatives. */
  function AsInt32(v: u32): (r: int)
    ensures -0x8000_0000 <= r < 0x8000_0000
    ensures r % 0x1_0000_0000 == v
    ensures 0 <= r <==> v < 0x8000_0000
  {
    if v < 0x8000_0000 then v else v - 0x1_0000_0000
  }

  /**
   * One table's original bytes: read `compLength` bytes at `offset` (fewer if
   * the input ends first); when the two lengths differ, skip the 2-byte zlib
   * header and inflate the rest; either way the result must have the original length.
   */
  function Transcode(input: seq<byte>, e: TableEntry, inflate: seq<byte> -> Option<seq<byte>>): (r: Result<seq<byte>, Error>)
    ensures r.Success? ==> |r.value| == e.origLength
  {
    var count := AsInt32(e.compLength);
    if count < 0 then Failure(NegativeReadCount)
    else
      var compressed := Slice(input, e.offset, count);
      var uncompressed :=
        if e.compLength != e.origLength then
          if |compressed| < 2 then Failure(TruncatedZlibHeader)
          else match inflate(compressed[2..])
            case None => Failure(DecompressionFailure)
            case Some(u) => Success(u)
        else Success(compressed);
      match uncompressed
      case Failure(err) => Failure(err)
      case Success(u) => if |u| != e.origLength then Failure(TableLengthMismatch) else Success(u)
  }

  /** A stored length of 2^31 or more, and only that, makes the read throw. */
  lemma TranscodeNegativeCount(input: seq<byte>, e: TableEntry, inflate: seq<byte> -> Option<seq<byte>>)
    ensures Transcode(input, e, inflate) == Failure(NegativeReadCount) <==> e.compLength >= 0x8000_0000
  {
  }

  /**
   * A table stored uncompressed is copied: it succeeds exactly when its
   * stored range lies in the input, and then it is that range.
   */
  lemma TranscodeStored(input: seq<byte>, e: TableEntry, inflate: seq<byte> -> Option<seq<byte>>)
    requires e.compLength == e.origLength
    ensures Transcode(input, e, inflate).Success? <==>
      e.compLength < 0x8000_0000 && (e.compLength == 0 || e.offset + e.compLength <= |input|)
    ensures Transcode(input, e, inflate).Success? && 0 < e.compLength ==>
      Transcode(input, e, inflate).value == input[e.offset..e.offset + e.compLength]
  {
  }

  /**
   * An uncompressed table whose stored range runs past the end of the input
   * is read short, and so fails the length check.
   */
  lemma TranscodeStoredPastEnd(input: seq<byte>, e: TableEntry, inflate: seq<byte> -> Option<seq<byte>>)
    requires e.compLength == e.origLength && 0 < e.compLength < 0x8000_0000
    requires |input| < e.offset + e.compLength
    ensures Transcode(input, e, inflate) == Failure(TableLengthMismatch)
  {
  }

  /**
   * A compressed table is the inflation of its stored bytes after the 2-byte
   * zlib header, and fails with TruncatedZlibHeader exactly when fewer than 2
   * bytes are stored.
   */
  lemma TranscodeInflated(input: seq<byte>, e: TableEntry, inflate: seq<byte> -> Option<seq<byte>>)
    requires e.compLength != e.origLength
    ensures var r := Transcode(input, e, inflate); var stored := Slice(input, e.offset, e.compLength);
      r.Success? ==> 2 <= |stored| && inflate(stored[2..]) == Some(r.value)
    ensures var r := Transcode(input, e, inflate); var stored := Slice(input, e.offset, e.compLength);
      e.compLength < 0x8000_0000 ==> (r == Failure(TruncatedZlibHeader) <==> |stored| < 2)
    ensures var r := Transcode(input, e, inflate); var stored := Slice(input, e.offset, e.compLength);
      e.compLength < 0x8000_0000 && 2 <= |stored| && inflate(stored[2..]).None? ==>
        r == Failure(DecompressionFailure)
    ensures var r := Transcode(input, e, inflate); var stored := Slice(input, e.offset, e.compLength);
      e.compLength < 0x8000_0000 && 2 <= |stored| && inflate(stored[2..]).Some? ==>
        (|inflate(stored[2..]).value| == e.origLength ==> r == Success(inflate(stored[2..]).value)) &&
        (|inflate(stored[2..]).value| != e.origLength ==> r == Failure(TableLengthMismatch))
  {
  }

  /**
   * The first `n` tables transcoded in directory order; the conversion stops
   * at the first table that fails, with that table's error.
   */
  function TranscodeFirst(input: seq<byte>, es: seq<TableEntry>, inflate: seq<byte> -> Option<seq<byte>>, n: nat)
    : (r: Result<seq<seq<byte>>, Error>)
    requires n <= |es|
    ensures r.Success? ==> |r.value| == n && PayloadsMatchUpTo(es, r.value, n)
  {
    if n == 0 then Success([])
    else match TranscodeFirst(input, es, inflate, n - 1)
      case Failure(err) => Failure(err)
      case Success(ps) =>
        match Transcode(input, es[n - 1], inflate)
        case Failure(err) => Failure(err)
        case Success(p) => Success(ps + [p])
  }

  /** When the first `n` tables all transcode, payload `i` is what table `i` transcodes to. */
  lemma {:induction false} TranscodeFirstSuccess(input: seq<byte>, es: seq<TableEntry>, inflate: seq<byte> -> Option<seq<byte>>,
                                                  n: nat, i: nat)
    requires i < n <= |es| && TranscodeFirst(input, es, inflate, n).Success?
    ensures |TranscodeFirst(input, es, inflate, n).value| == n
    ensures Transcode(input, es[i], inflate) == Success(TranscodeFirst(input, es, inflate, n).value[i])
  {
    if i < n - 1 {
      TranscodeFirstSuccess(input, es, inflate, n - 1, i);
    }
  }

  /**
   * When the first `n` tables do not all transcode, the error is that of the
   * first table that fails: every table before it transcodes.
   */
  lemma {:induction false} TranscodeFirstFailure(input: seq<byte>, es: seq<TableEntry>, inflate: seq<byte> -> Option<seq<byte>>, n: nat)
      returns (i: nat)
    requires n <= |es| && TranscodeFirst(input, es, inflate, n).Failure?
    ensures i < n && Transcode(input, es[i], inflate) == Failure(TranscodeFirst(input, es, inflate, n).error)
    ensures forall j :: 0 <= j < i ==> Transcode(input, es[j], inflate).Success?
  {
    if TranscodeFirst(input, es, inflate, n - 1).Failure? {
      i := TranscodeFirstFailure(input, es, inflate, n - 1);
    } else {
      i := n - 1;
      forall j | 0 <= j < i
        ensures Transcode(input, es[j], inflate).Success?
      {
        TranscodeFirstSuccess(input, es, inflate, n - 1, j);
      }
    }
  }

  /** The first `n` tables transcode together exactly when each of them transcodes on its own. */
  lemma TranscodeFirstSucceeds(input: seq<byte>, es: seq<TableEntry>, inflate: seq<byte> -> Option<seq<byte>>, n: nat)
    requires n <= |es|
    ensures TranscodeFirst(input, es, inflate, n).Success? <==>
      forall i :: 0 <= i < n ==> Transcode(input, es[i], inflate).Success?
  {
    if TranscodeFirst(input, es, inflate, n).Success? {
      forall i | 0 <= i < n
        ensures Transcode(input, es[i], inflate).Success?
      {
        TranscodeFirstSuccess(input, es, inflate, n, i);
      }
    } else {
      var i := TranscodeFirstFailure(input, es, inflate, n);
    }
  }

  /** Once a table fails, every longer run of the tables fails with its error. */
  lemma {:induction false} TranscodeFailureSticks(input: seq<byte>, es: seq<TableEntry>, inflate: seq<byte> -> Option<seq<byte>>, j: nat, n: nat)
    requires j < n <= |es|
    requires TranscodeFirst(input, es, inflate, j).Success?
    requires Transcode(input, es[j], inflate).Failure?
    ensures TranscodeFirst(input, es, inflate, n) == Failure(Transcode(input, es[j], inflate).error)
  {
    var err := Transcode(input, es[j], inflate).error;
    if n > j + 1 {
      TranscodeFailureSticks(input, es, inflate, j, n - 1);
      assert TranscodeFirst(input, es, inflate, n - 1) == Failure(err);
    } else {
      assert Transcode(input, es[n - 1], inflate) == Failure(err);
    }
  }

  /** The tables that survive into the output: the directory without its DSIG entries. */
  function Survivors(input: seq<byte>): (r: Option<(WoffHeader, seq<TableEntry>)>)
    ensures r.Some? <==> (ParseHeader(input).Some? &&
      ParseDirectory(input, ParseHeader(input).value.tableCount).Some?)
    ensures r.Some? ==> (|r.value.1| <= r.value.0.tableCount &&
      forall e :: e in r.value.1 ==> !IsDsig(e))
    ensures r.Some? ==> (r.value.0 == ParseHeader(input).value &&
      r.value.1 == DropDsig(ParseDirectory(input, r.value.0.tableCount).value))
  {
    match ParseHeader(input)
    case None => None
    case Some(h) =>
      match ParseDirectory(input, h.tableCount)
      case None => None
      case Some(all) => Some((h, DropDsig(all)))
  }

  /** The output offsets fit the 32-bit fields of the table records. */
  predicate PlanFits(input: seq<byte>)
  {
    match Survivors(input)
    case None => true
    case Some((_, es)) => PlanEnd(DirectoryEnd(|es|), es) < 0x1_0000_0000
  }

  /**
   * What converting `input` produces: the SFNT image of the surviving tables,
   * or the first error the conversion runs into.
   */
  function ConvertSpec(input: seq<byte>, inflate: seq<byte> -> Option<seq<byte>>): (r: Result<seq<byte>, Error>)
    requires PlanFits(input)
    ensures |input| < HeaderSize ==> r == Failure(UnexpectedEndOfData)
    ensures r.Success? ==> SfntHeaderSize <= |r.value| && |r.value| % 4 == 0
  {
    match Survivors(input)
    case None => Failure(UnexpectedEndOfData)
    case Some((h, es)) =>
      match TranscodeFirst(input, es, inflate, |es|)
      case Failure(err) => Failure(err)
      case Success(ps) =>
        Success(Image(h.flavor, es, ps))
  }

  /**
   * When a conversion succeeds, and which error it reports otherwise: a
   * header or directory that runs past the input ends it with
   * UnexpectedEndOfData; after that it succeeds exactly when every surviving
   * table transcodes, and fails with the error of the first table that does not.
   */
  lemma ConvertOutcome(input: seq<byte>, inflate: seq<byte> -> Option<seq<byte>>)
    requires PlanFits(input)
    ensures Survivors(input).None? ==> ConvertSpec(input, inflate) == Failure(UnexpectedEndOfData)
    ensures Survivors(input).Some? ==>
      var es := Survivors(input).value.1;
      (ConvertSpec(input, inflate).Success? <==> forall i :: 0 <= i < |es| ==> Transcode(input, es[i], inflate).Success?)
    ensures Survivors(input).Some? && ConvertSpec(input, inflate).Failure? ==>
      var es := Survivors(input).value.1;
      exists i :: 0 <= i < |es| && Transcode(input, es[i], inflate) == Failure(ConvertSpec(input, inflate).error) &&
        forall j :: 0 <= j < i ==> Transcode(input, es[j], inflate).Success?
  {
    if Survivors(input).Some? {
      var es := Survivors(input).value.1;
      TranscodeFirstSucceeds(input, es, inflate, |es|);
      if TranscodeFirst(input, es, inflate, |es|).Failure? {
        var i := TranscodeFirstFailure(input, es, inflate, |es|);
      }
    }
  }

  /**
   * A font whose header and directory are complete and whose surviving tables
   * are all stored uncompressed inside the input converts.
   */
  lemma StoredTablesConvert(input: seq<byte>, inflate: seq<byte> -> Option<seq<byte>>)
    requires PlanFits(input) && Survivors(input).Some?
    requires forall e :: e in Survivors(input).value.1 ==>
      e.compLength == e.origLength && e.compLength < 0x8000_0000 && e.offset + e.compLength <= |input|
    ensures ConvertSpec(input, inflate).Success?
  {
    var es := Survivors(input).value.1;
    forall i | 0 <= i < |es|
      ensures Transcode(input, es[i], inflate).Success?
    {
      TranscodeStored(input, es[i], inflate);
    }
    ConvertOutcome(input, inflate);
  }

  /** Reading one more directory entry extends the parsed directory and its survivors. */
  lemma DirectoryReadStep(bs: seq<byte>, all: seq<TableEntry>, i: nat, e: TableEntry)
    requires ParseDirectory(bs, i) == Some(all)
    requires EntryAt(bs, HeaderSize + 20 * i) == Some(e)
    ensures ParseDirectory(bs, i + 1) == Some(all + [e])
    ensures DropDsig(all + [e]) == if IsDsig(e) then DropDsig(all) else DropDsig(all) + [e]
  {
    assert (all + [e])[..|all|] == all;
  }

  /** An entry that runs past the end of the input fails the whole directory. */
  lemma DirectoryReadFails(bs: seq<byte>, i: nat, count: nat)
    requires i < count && EntryAt(bs, HeaderSize + 20 * i).None?
    ensures ParseDirectory(bs, count).None?
  {
  }

  /**
   * The directory reader: `count` entries of 20 bytes after the header; DSIG
   * entries are skipped, and the running output offset grows by one 16-byte
   * record for each entry kept.
   */
  method ReadSurvivors(reader: Reader, count: u16) returns (entries: Option<seq<TableEntry>>, offset: u32)
    requires reader.pos == HeaderSize
    modifies reader
    ensures entries.None? <==> ParseDirectory(reader.bytes, count).None?
    ensures entries.Some? ==> entries.value == DropDsig(ParseDirectory(reader.bytes, count).value)
    ensures entries.Some? ==> offset == DirectoryEnd(|entries.value|)
  {
    var list: seq<TableEntry> := [];
    offset := SfntHeaderSize;
    ghost var all: seq<TableEntry> := [];
    var i: nat := 0;
    while i < count
      invariant i <= count
      invariant ParseDirectory(reader.bytes, i) == Some(all)
      invariant list == DropDsig(all) && |list| <= i
      invariant reader.pos == HeaderSize + 20 * i
      invariant offset == DirectoryEnd(|list|)
    {
      var entry := ReadEntry(reader);
      if entry.None? {
        DirectoryReadFails(reader.bytes, i, count);
        return None, offset;
      }
      DirectoryReadStep(reader.bytes, all, i, entry.value);
      all := all + [entry.value];
      i := i + 1;
      if Name(entry.value.tag) == "DSIG" {
        continue;
      }
      list := list + [entry.value];
      offset := offset + RecordSize;
    }
    return Some(list), offset;
  }

  /**
   * One table's bytes from the input, as the payload loop fetches them: seek
   * to the stored offset, read the stored length, inflate past the zlib
   * header when the lengths differ, and check the length.
   */
  method TranscodeTable(reader: Reader, e: TableEntry, inflate: seq<byte> -> Option<seq<byte>>)
    returns (r: Result<seq<byte>, Error>)
    modifies reader
    ensures r == Transcode(reader.bytes, e, inflate)
  {
    reader.Seek(e.offset);
    var compressed := reader.ReadBytes(AsInt32(e.compLength));
    if compressed.None? {
      return Failure(NegativeReadCount);
    }
    var uncompressed: seq<byte>;
    if e.compLength != e.origLength {
      if |compressed.value| < 2 {
        return Failure(TruncatedZlibHeader);
      }
      var inflated := inflate(compressed.value[2..]);
      if inflated.None? {
        return Failure(DecompressionFailure);
      }
      uncompressed := inflated.value;
    } else {
      uncompressed := compressed.value;
    }
    if |uncompressed| != e.origLength {
      return Failure(TableLengthMismatch);
    }
    return Success(uncompressed);
  }

  /**
   * The offset update after a record, in the source's 32-bit arithmetic: add
   * the original length, then round up to a multiple of 4.  While the plan
   * fits 32 bits, nothing wraps and the result is the planned next offset.
   */
  method AdvanceOffset(offset: u32, len: u32) returns (next: u32)
    ensures Align4(offset + len) < 0x1_0000_0000 ==> next == Align4(offset + len)
    ensures next % 4 == 0
  {
    Align4Is(offset + len);
    next := (offset + len) % 0x1_0000_0000;
    if next % 4 != 0 {
      next := (next + (4 - next % 4)) % 0x1_0000_0000;
    }
  }

  lemma AppendAssoc(a: seq<byte>, b: seq<byte>, c: seq<byte>)
    ensures a + b + c == a + (b + c)
  {
  }

  lemma AppendAssoc3(a: seq<byte>, b: seq<byte>, c: seq<byte>, d: seq<byte>)
    ensures a + b + c + d == a + (b + c + d)
  {
  }

  /** The output offsets recorded so far are the planned ones. */
  predicate OffsetsAre(xs: seq<nat>, start: nat, es: seq<TableEntry>, n: nat)
    requires n <= |es|
  {
    |xs| == n && forall k :: 0 <= k < n ==> xs[k] == PlanAt(start, es, k)
  }

  lemma OffsetsExtend(xs: seq<nat>, start: nat, es: seq<TableEntry>, j: nat)
    requires j < |es| && OffsetsAre(xs, start, es, j)
    ensures OffsetsAre(xs + [PlanAt(start, es, j)], start, es, j + 1)
  {
  }

  /** One record of the directory, with its offset and the next one inside 32 bits. */
  lemma DirectoryStep(start: nat, es: seq<TableEntry>, j: nat)
    requires j < |es| && PlanEnd(start, es) < 0x1_0000_0000
    ensures PlanAt(start, es, j) < 0x1_0000_0000
    ensures PlanAt(start, es, j + 1) == Align4(PlanAt(start, es, j) + es[j].origLength) < 0x1_0000_0000
    ensures DirectoryUpTo(start, es, j + 1) == DirectoryUpTo(start, es, j) + RecordBytes(es[j], PlanAt(start, es, j))
  {
    PlanMonotone(start, es, j + 1, |es|);
  }

  /** One table record: tag, original checksum, output offset, original length. */
  method WriteRecord(output: Writer, e: TableEntry, offset: u32)
    modifies output
    ensures output.pos == old(output.pos) + RecordSize
    ensures old(output.pos) == |old(output.data)| ==> output.data == old(output.data) + RecordBytes(e, offset)
  {
    output.WriteUInt32(e.tag);
    output.WriteUInt32(e.origChecksum);
    output.WriteUInt32(offset);
    output.WriteUInt32(e.origLength);
  }

  /**
   * The table-record loop: each record carries the running offset, which then
   * moves past the table and up to a multiple of 4 in 32-bit arithmetic.
   * Returns each table's output offset.
   */
  method WriteDirectory(output: Writer, es: seq<TableEntry>, start: u32) returns (outputOffsets: seq<nat>)
    requires start == DirectoryEnd(|es|) && PlanEnd(start, es) < 0x1_0000_0000
    requires output.pos == |output.data|
    modifies output
    ensures output.data == old(output.data) + DirectoryUpTo(start, es, |es|)
    ensures output.pos == |output.data|
    ensures OffsetsAre(outputOffsets, start, es, |es|)
  {
    var offset: u32 := start;
    outputOffsets := [];
    var j := 0;
    while j < |es|
      invariant j <= |es|
      invariant offset == PlanAt(start, es, j)
      invariant OffsetsAre(outputOffsets, start, es, j)
      invariant output.data == old(output.data) + DirectoryUpTo(start, es, j)
      invariant output.pos == |output.data|
    {
      var e := es[j];
      DirectoryStep(start, es, j);
      WriteRecord(output, e, offset);
      AppendAssoc(old(output.data), DirectoryUpTo(start, es, j), RecordBytes(e, offset));
      OffsetsExtend(outputOffsets, start, es, j);
      outputOffsets := outputOffsets + [offset];
      offset := AdvanceOffset(offset, e.origLength);
      j := j + 1;
    }
  }

  /**
   * One table's bytes at its output offset, then zeros up to the next
   * multiple of 4; the offset is where the output currently ends.
   */
  method WriteTable(output: Writer, uncompressed: seq<byte>, outputOffset: u32, len: u32)
    requires |uncompressed| == len && outputOffset == |output.data|
    requires Align4(outputOffset + len) < 0x1_0000_0000
    modifies output
    ensures output.data == old(output.data) + uncompressed + Zeros(Align4(outputOffset + len) - (outputOffset + len))
  {
    Align4Is(outputOffset + len);
    output.Seek(outputOffset);
    output.Write(uncompressed);
    var offset := (outputOffset + len) % 0x1_0000_0000;
    if offset % 4 != 0 {
      var padding := 4 - offset % 4;
      output.Write(Zeros(padding));
    } else {
      assert old(output.data) + uncompressed == old(output.data) + uncompressed + Zeros(0);
    }
  }

  /** A table that transcodes extends the run of transcoded tables by its bytes. */
  lemma TranscodeStep(input: seq<byte>, es: seq<TableEntry>, inflate: seq<byte> -> Option<seq<byte>>,
                      ps: seq<seq<byte>>, p: seq<byte>, j: nat)
    requires j < |es| && TranscodeFirst(input, es, inflate, j) == Success(ps)
    requires Transcode(input, es[j], inflate) == Success(p)
    ensures TranscodeFirst(input, es, inflate, j + 1) == Success(ps + [p])
    ensures |ps + [p]| == j + 1 && PayloadsMatchUpTo(es, ps + [p], j + 1)
  {
  }

  /**
   * The writing half of one pass of the table-data loop: table `j`, already
   * transcoded to `p`, is written at its output offset and padded, so the
   * data region grows by one slot.
   */
  method PlaceTable(output: Writer, es: seq<TableEntry>, outputOffsets: seq<nat>, j: nat,
                    ghost ps: seq<seq<byte>>, p: seq<byte>, ghost base: seq<byte>)
    requires Representable(es) && j < |es|
    requires OffsetsAre(outputOffsets, DirectoryEnd(|es|), es, |es|)
    requires PayloadsMatchUpTo(es, ps, j) && |ps| == j && |p| == es[j].origLength
    requires |base| == DirectoryEnd(|es|)
    requires output.data == base + DataUpTo(DirectoryEnd(|es|), es, ps, j)
    modifies output
    ensures output.data == base + DataUpTo(DirectoryEnd(|es|), es, ps + [p], j + 1)
  {
    TableSlot(base, es, ps, j, outputOffsets);
    DataStep(base, es, ps, p, j, outputOffsets[j]);
    WriteTable(output, p, outputOffsets[j], es[j].origLength);
  }

  /** Table `j` goes where the data region written so far ends, and its padded end fits 32 bits. */
  lemma TableSlot(base: seq<byte>, es: seq<TableEntry>, ps: seq<seq<byte>>, j: nat, outputOffsets: seq<nat>)
    requires Representable(es) && j < |es| && PayloadsMatchUpTo(es, ps, j)
    requires OffsetsAre(outputOffsets, DirectoryEnd(|es|), es, |es|)
    requires |base| == DirectoryEnd(|es|)
    ensures outputOffsets[j] == PlanAt(DirectoryEnd(|es|), es, j)
    ensures outputOffsets[j] == |base + DataUpTo(DirectoryEnd(|es|), es, ps, j)|
    ensures Align4(outputOffsets[j] + es[j].origLength) < 0x1_0000_0000
  {
    DirectoryStep(DirectoryEnd(|es|), es, j);
  }

  /** Writing table `j` and its padding at its planned offset extends the data region by one slot. */
  lemma DataStep(base: seq<byte>, es: seq<TableEntry>, ps: seq<seq<byte>>, p: seq<byte>, j: nat, off: nat)
    requires PayloadsMatchUpTo(es, ps, j) && |ps| == j && j < |es| && |p| == es[j].origLength
    requires off == PlanAt(DirectoryEnd(|es|), es, j)
    ensures base + DataUpTo(DirectoryEnd(|es|), es, ps, j) + p + Zeros(Align4(off + es[j].origLength) - (off + es[j].origLength))
      == base + DataUpTo(DirectoryEnd(|es|), es, ps + [p], j + 1)
  {
    var start := DirectoryEnd(|es|);
    DataUpToStep(start, es, ps, p, j);
    AppendAssoc3(base, DataUpTo(start, es, ps, j), p, Zeros(Align4(off + es[j].origLength) - (off + es[j].origLength)));
  }

  /**
   * The table-data loop: each table is fetched, written at its output offset,
   * and followed by zeros up to the next multiple of 4.  The first table that
   * fails stops the conversion with its error.
   */
  method WriteTables(reader: Reader, output: Writer, es: seq<TableEntry>, outputOffsets: seq<nat>,
                     inflate: seq<byte> -> Option<seq<byte>>) returns (err: Option<Error>)
    requires Representable(es)
    requires OffsetsAre(outputOffsets, DirectoryEnd(|es|), es, |es|)
    requires |output.data| == DirectoryEnd(|es|)
    modifies reader, output
    ensures err.None? <==> TranscodeFirst(reader.bytes, es, inflate, |es|).Success?
    ensures err.Some? ==> TranscodeFirst(reader.bytes, es, inflate, |es|) == Failure(err.value)
    ensures err.None? ==> (output.data ==
      old(output.data) + DataUpTo(DirectoryEnd(|es|), es, TranscodeFirst(reader.bytes, es, inflate, |es|).value, |es|))
  {
    var start := DirectoryEnd(|es|);
    ghost var base := output.data;
    ghost var ps: seq<seq<byte>> := [];
    var j := 0;
    while j < |es|
      invariant j <= |es|
      invariant TranscodeFirst(reader.bytes, es, inflate, j) == Success(ps)
      invariant |ps| == j && PayloadsMatchUpTo(es, ps, j)
      invariant output.data == base + DataUpTo(start, es, ps, j)
    {
      var t := TranscodeTable(reader, es[j], inflate);
      if t.Failure? {
        TranscodeFailureSticks(reader.bytes, es, inflate, j, |es|);
        return Some(t.error);
      }
      PlaceTable(output, es, outputOffsets, j, ps, t.value, base);
      TranscodeStep(reader.bytes, es, inflate, ps, t.value, j);
      ps := ps + [t.value];
      j := j + 1;
    }
    return None;
  }

  /**
   * The converter: a fresh output stream receives the SFNT file, or the
   * conversion stops with the first error.
   */
  method Convert(input: seq<byte>, output: Writer, inflate: seq<byte> -> Option<seq<byte>>) returns (err: Option<Error>)
    requires PlanFits(input)
    requires output.data == [] && output.pos == 0
    modifies output
    ensures err.None? <==> ConvertSpec(input, inflate).Success?
    ensures err.Some? ==> ConvertSpec(input, inflate) == Failure(err.value)
    ensures err.None? ==> output.data == ConvertSpec(input, inflate).value
  {
    var reader := new Reader(input);
    var header := ReadHeader(reader);
    if header.None? {
      return Some(UnexpectedEndOfData);
    }
    var h := header.value;
    var entries, offset := ReadSurvivors(reader, h.tableCount);
    if entries.None? {
      return Some(UnexpectedEndOfData);
    }
    var es := entries.value;
    var tableCount: u16 := |es|;
    var searchRange, entrySelector, rangeShift := ComputeSearchFields(tableCount);
    output.WriteUInt32(h.flavor);
    output.WriteUInt16(tableCount);
    output.WriteUInt16(searchRange);
    output.WriteUInt16(entrySelector);
    output.WriteUInt16(rangeShift);
    assert output.data == HeaderBytes(h.flavor, tableCount);
    var outputOffsets := WriteDirectory(output, es, offset);
    err := WriteTables(reader, output, es, outputOffsets, inflate);
  }

  /** A successful conversion is the image of the survivors and of their transcoded tables. */
  lemma ConvertSpecImage(input: seq<byte>, inflate: seq<byte> -> Option<seq<byte>>)
      returns (h: WoffHeader, es: seq<TableEntry>, ps: seq<seq<byte>>)
    requires PlanFits(input) && ConvertSpec(input, inflate).Success?
    ensures Survivors(input) == Some((h, es))
    ensures TranscodeFirst(input, es, inflate, |es|) == Success(ps)
    ensures Representable(es) && PayloadsMatch(es, ps)
    ensures ConvertSpec(input, inflate).value == Image(h.flavor, es, ps)
  {
    h, es := Survivors(input).value.0, Survivors(input).value.1;
    ps := TranscodeFirst(input, es, inflate, |es|).value;
  }

  /** In the image, a table stored uncompressed is the input range it was stored in. */
  lemma StoredInImage(input: seq<byte>, inflate: seq<byte> -> Option<seq<byte>>,
                      flavor: u32, es: seq<TableEntry>, ps: seq<seq<byte>>, i: nat)
    requires Representable(es) && PayloadsMatch(es, ps) && i < |es|
    requires TranscodeFirst(input, es, inflate, |es|) == Success(ps)
    requires 0 < es[i].compLength == es[i].origLength
    ensures es[i].offset + es[i].compLength <= |input|
    ensures PlanAt(DirectoryEnd(|es|), es, i) + es[i].origLength <= |Image(flavor, es, ps)|
    ensures Image(flavor, es, ps)[PlanAt(DirectoryEnd(|es|), es, i)..PlanAt(DirectoryEnd(|es|), es, i) + es[i].origLength]
      == input[es[i].offset..es[i].offset + es[i].compLength]
  {
    TranscodeFirstSuccess(input, es, inflate, |es|, i);
    TranscodeStored(input, es[i], inflate);
    assert ps[i] == input[es[i].offset..es[i].offset + es[i].compLength];
    ImageTable(flavor, es, ps, i);
  }

  /** In the image, a compressed table is the inflation of its stored bytes after the zlib header. */
  lemma InflatedInImage(input: seq<byte>, inflate: seq<byte> -> Option<seq<byte>>,
                        flavor: u32, es: seq<TableEntry>, ps: seq<seq<byte>>, i: nat)
    requires Representable(es) && PayloadsMatch(es, ps) && i < |es|
    requires TranscodeFirst(input, es, inflate, |es|) == Success(ps)
    requires es[i].compLength != es[i].origLength
    ensures 2 <= |Slice(input, es[i].offset, es[i].compLength)|
    ensures PlanAt(DirectoryEnd(|es|), es, i) + es[i].origLength <= |Image(flavor, es, ps)|
    ensures inflate(Slice(input, es[i].offset, es[i].compLength)[2..]) ==
      Some(Image(flavor, es, ps)[PlanAt(DirectoryEnd(|es|), es, i)..PlanAt(DirectoryEnd(|es|), es, i) + es[i].origLength])
  {
    TranscodeFirstSuccess(input, es, inflate, |es|, i);
    TranscodeInflated(input, es[i], inflate);
    ImageTable(flavor, es, ps, i);
  }

  /**
   * A successful conversion writes no DSIG record: every table record of the
   * output carries a tag whose name is not "DSIG".
   */
  lemma NoDsigInOutput(input: seq<byte>, inflate: seq<byte> -> Option<seq<byte>>, i: nat)
    requires PlanFits(input) && ConvertSpec(input, inflate).Success?
    ensures Survivors(input).Some?
    ensures var es := Survivors(input).value.1; var out := ConvertSpec(input, inflate).value;
      var p := SfntHeaderSize + 16 * i;
      i < |es| ==> p + 4 <= |out| && DecodeU32(out[p..p + 4]) != DsigTag
  {
    var h, es, ps := ConvertSpecImage(input, inflate);
    if i < |es| {
      assert es[i] in es;
      ImageRecord(h.flavor, es, ps, i);
      NameIsDsig(es[i].tag);
    }
  }

  /**
   * A table stored uncompressed (equal, non-zero lengths) reaches the output
   * unchanged: the bytes at its planned output offset are the input bytes at
   * its stored offset.
   */
  lemma StoredTableCopied(input: seq<byte>, inflate: seq<byte> -> Option<seq<byte>>,
                          h: WoffHeader, es: seq<TableEntry>, out: seq<byte>, i: nat)
    requires PlanFits(input) && ConvertSpec(input, inflate) == Success(out)
    requires Survivors(input) == Some((h, es))
    requires i < |es| && 0 < es[i].compLength == es[i].origLength
    ensures es[i].offset + es[i].compLength <= |input|
    ensures PlanAt(DirectoryEnd(|es|), es, i) + es[i].origLength <= |out|
    ensures out[PlanAt(DirectoryEnd(|es|), es, i)..PlanAt(DirectoryEnd(|es|), es, i) + es[i].origLength]
      == input[es[i].offset..es[i].offset + es[i].compLength]
  {
    var h', es', ps := ConvertSpecImage(input, inflate);
    StoredInImage(input, inflate, h.flavor, es, ps, i);
  }

  /**
   * A compressed table reaches the output as the inflation of its stored
   * bytes after the 2-byte zlib header, at its planned output offset.
   */
  lemma InflatedTablePlaced(input: seq<byte>, inflate: seq<byte> -> Option<seq<byte>>,
                            h: WoffHeader, es: seq<TableEntry>, out: seq<byte>, i: nat)
    requires PlanFits(input) && ConvertSpec(input, inflate) == Success(out)
    requires Survivors(input) == Some((h, es))
    requires i < |es| && es[i].compLength != es[i].origLength
    ensures 2 <= |Slice(input, es[i].offset, es[i].compLength)|
    ensures PlanAt(DirectoryEnd(|es|), es, i) + es[i].origLength <= |out|
    ensures inflate(Slice(input, es[i].offset, es[i].compLength)[2..]) ==
      Some(out[PlanAt(DirectoryEnd(|es|), es, i)..PlanAt(DirectoryEnd(|es|), es, i) + es[i].origLength])
  {
    var h', es', ps := ConvertSpecImage(input, inflate);
    InflatedInImage(input, inflate, h.flavor, es, ps, i);
  }

  /**
   * A converted file starts with the offset table: the WOFF flavor, the
   * number of surviving tables and the search fields for that number.
   */
  lemma ConvertedHeader(input: seq<byte>, inflate: seq<byte> -> Option<seq<byte>>,
                        h: WoffHeader, es: seq<TableEntry>, out: seq<byte>)
    requires PlanFits(input) && ConvertSpec(input, inflate) == Success(out)
    requires Survivors(input) == Some((h, es))
    ensures |es| < 0x1_0000 && SfntHeaderSize <= |out|
    ensures DecodeU32(out[0..4]) == h.flavor && DecodeU16(out[4..6]) == |es|
    ensures DecodeU16(out[6..8]) == SearchFields16(|es|).searchRange
    ensures DecodeU16(out[8..10]) == SearchFields16(|es|).entrySelector
    ensures DecodeU16(out[10..12]) == SearchFields16(|es|).rangeShift
  {
    var h', es', ps := ConvertSpecImage(input, inflate);
    ImageHeader(h.flavor, es, ps);
  }

  /**
   * Record `i` of a converted file carries surviving entry `i`'s tag, its
   * original checksum unchanged, its planned output offset (a multiple of 4)
   * and its original length.
   */
  lemma ConvertedRecord(input: seq<byte>, inflate: seq<byte> -> Option<seq<byte>>,
                        h: WoffHeader, es: seq<TableEntry>, out: seq<byte>, i: nat)
    requires PlanFits(input) && ConvertSpec(input, inflate) == Success(out)
    requires Survivors(input) == Some((h, es))
    requires i < |es|
    ensures SfntHeaderSize + 16 * i + RecordSize <= |out|
    ensures DecodeU32(out[SfntHeaderSize + 16 * i..SfntHeaderSize + 16 * i + 4]) == es[i].tag
    ensures DecodeU32(out[SfntHeaderSize + 16 * i + 4..SfntHeaderSize + 16 * i + 8]) == es[i].origChecksum
    ensures DecodeU32(out[SfntHeaderSize + 16 * i + 8..SfntHeaderSize + 16 * i + 12]) == PlanAt(DirectoryEnd(|es|), es, i)
    ensures DecodeU32(out[SfntHeaderSize + 16 * i + 12..SfntHeaderSize + 16 * i + 16]) == es[i].origLength
    ensures PlanAt(DirectoryEnd(|es|), es, i) % 4 == 0
  {
    var h', es', ps := ConvertSpecImage(input, inflate);
    ImageRecord(h.flavor, es, ps, i);
    OffsetsAligned(DirectoryEnd(|es|), es, i);
  }
}
