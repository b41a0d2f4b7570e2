/**
 * The by-sequence tree's index (where a document's bytes are and how many)
 * and its statistics (how many records lie below a node), with their on-disk
 * codecs and the reducer that builds interior-node statistics.
 */
module BySequence {
  import opened Errors
  import opened Bytes
  import opened KeyEntries

  datatype BySequenceIndex = BySequenceIndex(documentId: seq<Byte>, documentSize: U32, position: U64)

  datatype BySequenceStats = BySequenceStats(numberOfRecords: U64)

  /** The fixed part of an index record: u32 document size, then u64 position. */
  const FixedIndexLength: nat := 12

  /**
   * What serializing `x` appends and returns. The size and the position are
   * written before the id's length is checked, so an id too long for a u16
   * fails with those 12 bytes already appended.
   */
  function EncodeIndex(x: BySequenceIndex): (w: Written)
    ensures |w.bytes| == if |x.documentId| <= MaxU16 then 14 + |x.documentId| else FixedIndexLength
    ensures w.outcome.Ok? <==> |x.documentId| <= MaxU16
    ensures w.outcome.Err? ==> w.outcome.error == IdTooLarge
  {
    Pow256Widths();
    var fixed := BigEndian(x.documentSize, 4) + BigEndian(x.position, 8);
    if |x.documentId| > MaxU16 then Written(fixed, Err(IdTooLarge))
    else Written(fixed + BigEndian(|x.documentId|, 2) + x.documentId, Ok(14 + |x.documentId|))
  }

  /**
   * Decodes an index from the front of `s`. On success `s` is exactly the
   * encoding of the result followed by the unread bytes.
   */
  function DecodeIndex(s: seq<Byte>): (r: Result<(BySequenceIndex, seq<Byte>)>)
    ensures |s| < 14 ==> r == Err(UnexpectedEof)
    ensures 14 <= |s| && FromBigEndian(s[12..14]) > |s| - 14 ==> r == Err(DataIntegrity)
    ensures r.Ok? ==> EncodeIndex(r.value.0).outcome.Ok? && s == EncodeIndex(r.value.0).bytes + r.value.1
  {
    if |s| < 14 then Err(UnexpectedEof)
    else
      var size := FromBigEndian(s[..4]);
      var position := FromBigEndian(s[4..12]);
      var n := FromBigEndian(s[12..14]);
      if n > |s| - 14 then Err(DataIntegrity)
      else
        Pow256Widths();
        var x := BySequenceIndex(s[14..14 + n], size, position);
        BigEndianOfFromBigEndian(s[..4]);
        BigEndianOfFromBigEndian(s[4..12]);
        BigEndianOfFromBigEndian(s[12..14]);
        IndexFieldsCover(s, n);
        Ok((x, s[14 + n..]))
  }

  /** The four fields of an index record and the bytes after it make up the input. */
  lemma IndexFieldsCover(s: seq<Byte>, n: nat)
    requires 14 + n <= |s|
    ensures s == s[..4] + s[4..12] + s[12..14] + s[14..14 + n] + s[14 + n..]
  {
  }

  /** What `DecodeIndex` reads from an input holding the whole fixed-width header and the id it announces. */
  lemma DecodeIndexFields(s: seq<Byte>)
    requires 14 <= |s| && FromBigEndian(s[12..14]) <= |s| - 14
    ensures var n := FromBigEndian(s[12..14]);
      && DecodeIndex(s).Ok?
      && DecodeIndex(s).value.0.documentSize == FromBigEndian(s[..4])
      && DecodeIndex(s).value.0.position == FromBigEndian(s[4..12])
      && DecodeIndex(s).value.0.documentId == s[14..14 + n]
      && DecodeIndex(s).value.1 == s[14 + n..]
  {
  }

  lemma {:induction false} IndexRoundTrip(x: BySequenceIndex, rest: seq<Byte>)
    requires EncodeIndex(x).outcome.Ok?
    ensures DecodeIndex(EncodeIndex(x).bytes + rest) == Ok((x, rest))
  {
    Pow256Widths();
    var s := EncodeIndex(x).bytes + rest;
    var n := |x.documentId|;
    assert s[..4] == BigEndian(x.documentSize, 4);
    assert s[4..12] == BigEndian(x.position, 8);
    assert s[12..14] == BigEndian(n, 2);
    FromBigEndianOfBigEndian(x.documentSize, 4);
    FromBigEndianOfBigEndian(x.position, 8);
    FromBigEndianOfBigEndian(n, 2);
    assert s[14..14 + n] == x.documentId;
    assert s[14 + n..] == rest;
  }

  lemma IndexCodecLaws()
    ensures RoundTrips(EncodeIndex, DecodeIndex)
    ensures CountsBytes(EncodeIndex)
  {
    forall x, rest | EncodeIndex(x).outcome.Ok?
      ensures DecodeIndex(EncodeIndex(x).bytes + rest) == Ok((x, rest))
    {
      IndexRoundTrip(x, rest);
    }
  }

  /** A by-sequence leaf entry (a key and its index) round-trips through its encoding. */
  lemma BySequenceKeyEntryRoundTrip(e: KeyEntry<BySequenceIndex>, rest: seq<Byte>)
    requires EncodeKeyEntry(e, EncodeIndex).outcome.Ok?
    ensures DecodeKeyEntry(EncodeKeyEntry(e, EncodeIndex).bytes + rest, DecodeIndex) == Ok((e, rest))
  {
    IndexCodecLaws();
    KeyEntryRoundTrip(e, rest, EncodeIndex, DecodeIndex);
  }

  /** Statistics are one u64, always 8 bytes. */
  function EncodeStats(x: BySequenceStats): (w: Written)
    ensures |w.bytes| == 8 && w.outcome == Ok(8)
  {
    Pow256Widths();
    Written(BigEndian(x.numberOfRecords, 8), Ok(8))
  }

  function DecodeStats(s: seq<Byte>): (r: Result<(BySequenceStats, seq<Byte>)>)
    ensures r.Ok? <==> 8 <= |s|
    ensures r.Err? ==> r.error == UnexpectedEof
  {
    Pow256Widths();
    var d :- DecodeBigEndian(s, 8);
    Ok((BySequenceStats(d.0), d.1))
  }

  lemma StatsCodecLaws()
    ensures RoundTrips(EncodeStats, DecodeStats)
    ensures CountsBytes(EncodeStats)
  {
    Pow256Widths();
    forall x, rest
      ensures DecodeStats(EncodeStats(x).bytes + rest) == Ok((x, rest))
    {
      DecodeBigEndianOfBigEndian(x.numberOfRecords, 8, rest);
    }
  }

  // The reducer. Counts are u64 in the source: `len() as u64` truncates and
  // the sum wraps (a release build; a debug build panics on overflow instead).

  const U64Modulus: nat := 0x1_0000_0000_0000_0000

  function NodeCount(stats: BySequenceStats): U64 {
    stats.numberOfRecords
  }

  /** A leaf's statistics count its entries, exactly so below 2^64 entries. */
  function Reduce(values: seq<BySequenceIndex>): (r: BySequenceStats)
    ensures |values| < U64Modulus ==> r.numberOfRecords == |values|
  {
    BySequenceStats(|values| % U64Modulus)
  }

  /** An interior node's statistics total its children's counts, exactly so while the total fits in a u64. */
  function Rereduce(values: seq<BySequenceStats>): (r: BySequenceStats)
    ensures SumOfRecords(values) < U64Modulus ==> r.numberOfRecords == SumOfRecords(values)
  {
    BySequenceStats(SumOfRecords(values) % U64Modulus)
  }

  function SumOfRecords(values: seq<BySequenceStats>): nat {
    if values == [] then 0 else values[0].numberOfRecords + SumOfRecords(values[1..])
  }

  function Flatten<T>(chunks: seq<seq<T>>): seq<T> {
    if chunks == [] then [] else chunks[0] + Flatten(chunks[1..])
  }

  /** The statistics of each chunk, in order. */
  function Reductions(chunks: seq<seq<BySequenceIndex>>): (r: seq<BySequenceStats>)
    ensures |r| == |chunks| && forall i :: 0 <= i < |chunks| ==> r[i] == Reduce(chunks[i])
  {
    seq(|chunks|, i requires 0 <= i < |chunks| => Reduce(chunks[i]))
  }

  lemma AddModulo(a: nat, b: nat)
    ensures (a + b) % U64Modulus == (a % U64Modulus + b) % U64Modulus
  {
    var q := a / U64Modulus;
    assert a == q * U64Modulus + a % U64Modulus;
  }

  lemma {:induction false} SumOfRecordsAppend(a: seq<BySequenceStats>, b: seq<BySequenceStats>)
    ensures SumOfRecords(a + b) == SumOfRecords(a) + SumOfRecords(b)
  {
    if a == [] {
      assert a + b == b;
    } else {
      assert (a + b)[0] == a[0] && (a + b)[1..] == a[1..] + b;
      SumOfRecordsAppend(a[1..], b);
    }
  }

  lemma {:induction false} SumOfReductions(chunks: seq<seq<BySequenceIndex>>)
    ensures SumOfRecords(Reductions(chunks)) % U64Modulus == |Flatten(chunks)| % U64Modulus
  {
    if chunks != [] {
      var r := Reductions(chunks);
      assert r[1..] == Reductions(chunks[1..]);
      SumOfReductions(chunks[1..]);
      var tail := SumOfRecords(r[1..]);
      var rest := |Flatten(chunks[1..])|;
      calc {
        SumOfRecords(r) % U64Modulus;
        (|chunks[0]| % U64Modulus + tail) % U64Modulus;
        { AddModulo(tail, |chunks[0]| % U64Modulus); AddModulo(rest, |chunks[0]| % U64Modulus); }
        (|chunks[0]| % U64Modulus + rest) % U64Modulus;
        { AddModulo(|chunks[0]|, rest); }
        (|chunks[0]| + rest) % U64Modulus;
      }
    }
  }

  /**
   * Rereducing the statistics of the chunks of a partition gives the
   * statistics of the whole: the reductions at every level of the tree agree.
   */
  lemma RereduceOfReductions(chunks: seq<seq<BySequenceIndex>>)
    ensures Rereduce(Reductions(chunks)) == Reduce(Flatten(chunks))
  {
    SumOfReductions(chunks);
  }

  /** Rereducing in two steps, group by group, gives what rereducing at once gives. */
  lemma RereduceRegroups(a: seq<BySequenceStats>, b: seq<BySequenceStats>)
    ensures Rereduce(a + b) == Rereduce([Rereduce(a), Rereduce(b)])
  {
    SumOfRecordsAppend(a, b);
    var x, y := SumOfRecords(a), SumOfRecords(b);
    assert SumOfRecords([Rereduce(a), Rereduce(b)]) == x % U64Modulus + y % U64Modulus by {
      assert [Rereduce(a), Rereduce(b)][1..] == [Rereduce(b)];
      assert [Rereduce(b)][1..] == [];
      assert SumOfRecords([Rereduce(b)]) == y % U64Modulus + SumOfRecords([]);
    }
    AddModulo(x, y);
    AddModulo(y, x % U64Modulus);
  }

  /** Without overflow, the node count of a reduction is the number of values reduced. */
  lemma NodeCountOfReduce(values: seq<BySequenceIndex>)
    requires |values| < U64Modulus
    ensures NodeCount(Reduce(values)) == |values|
  {
  }

  /** `BySequenceIndex::serialize_to`. */
  method SerializeIndex(x: BySequenceIndex, writer: Writer) returns (r: Result<nat>)
    modifies writer
    ensures writer.bytes == old(writer.bytes) + EncodeIndex(x).bytes
    ensures r == EncodeIndex(x).outcome
  {
    Pow256Widths();
    ghost var start := writer.bytes;
    ghost var fixed := BigEndian(x.documentSize, 4) + BigEndian(x.position, 8);
    var bytesWritten := 0;
    writer.WriteBigEndian(x.documentSize, 4);
    bytesWritten := bytesWritten + 4;
    writer.WriteBigEndian(x.position, 8);
    bytesWritten := bytesWritten + 8;
    assert writer.bytes == start + fixed;

    if |x.documentId| > MaxU16 {
      return Err(IdTooLarge);
    }
    writer.WriteBigEndian(|x.documentId|, 2);
    bytesWritten := bytesWritten + 2;
    writer.ExtendFromSlice(x.documentId);
    bytesWritten := bytesWritten + |x.documentId|;
    assert writer.bytes == start + (fixed + BigEndian(|x.documentId|, 2) + x.documentId);
    r := Ok(bytesWritten);
  }

  /**
   * The three fixed-width reads that open `BySequenceIndex::deserialize_from`:
   * the document size, the position and the length of the document id.
   */
  method ReadIndexHeader(reader: Reader) returns (r: Result<(U32, U64, nat)>)
    modifies reader
    ensures r.Ok? <==> 14 <= |old(reader.remaining)|
    ensures r.Err? ==> r.error == UnexpectedEof
    ensures r.Ok? ==> var s := old(reader.remaining);
      && r.value.0 == FromBigEndian(s[..4])
      && r.value.1 == FromBigEndian(s[4..12])
      && r.value.2 == FromBigEndian(s[12..14])
      && reader.remaining == s[14..]
    ensures IsSuffix(reader.remaining, old(reader.remaining))
  {
    ghost var s := reader.remaining;
    var size := reader.ReadBigEndian(4);
    if size.Err? {
      return Err(size.error);
    }
    var position := reader.ReadBigEndian(8);
    if position.Err? {
      return Err(position.error);
    }
    assert s[4..][..8] == s[4..12];
    var length := reader.ReadBigEndian(2);
    if length.Err? {
      return Err(length.error);
    }
    assert s[4..][8..][..2] == s[12..14] && s[4..][8..][2..] == s[14..];
    Pow256Widths();
    r := Ok((size.value, position.value, length.value));
  }

  /** `BySequenceIndex::deserialize_from`. */
  method DeserializeIndex(reader: Reader) returns (r: Result<BySequenceIndex>)
    modifies reader
    ensures r == Decoded(DecodeIndex(old(reader.remaining)))
    ensures r.Ok? ==> reader.remaining == DecodeIndex(old(reader.remaining)).value.1
    ensures IsSuffix(reader.remaining, old(reader.remaining))
  {
    ghost var s := reader.remaining;
    var header := ReadIndexHeader(reader);
    if header.Err? {
      return Err(header.error);
    }
    var (size, position, length) := header.value;
    if length > |reader.remaining| {
      return Err(DataIntegrity);
    }
    var id := reader.ReadBytes(length);
    DecodeIndexFields(s);
    r := Ok(BySequenceIndex(id.value, size, position));
    assert DecodeIndex(s).value.0 == r.value;
  }

  /** `BySequenceStats::serialize_to`. */
  method SerializeStats(x: BySequenceStats, writer: Writer) returns (r: Result<nat>)
    modifies writer
    ensures writer.bytes == old(writer.bytes) + EncodeStats(x).bytes
    ensures r == EncodeStats(x).outcome
  {
    Pow256Widths();
    writer.WriteBigEndian(x.numberOfRecords, 8);
    r := Ok(8);
  }

  /** `BySequenceStats::deserialize_from`. */
  method DeserializeStats(reader: Reader) returns (r: Result<BySequenceStats>)
    modifies reader
    ensures r == Decoded(DecodeStats(old(reader.remaining)))
    ensures reader.remaining == Unread(DecodeStats(old(reader.remaining)), old(reader.remaining))
  {
    Pow256Widths();
    var n := reader.ReadBigEndian(8);
    if n.Err? {
      return Err(n.error);
    }
    r := Ok(BySequenceStats(n.value));
  }
}
