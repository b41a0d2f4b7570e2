/**
 * A leaf entry of a B-Tree node: a key and the index stored for it. On disk it
 * is a big-endian u16 key length, the key bytes, and then the index in the
 * index type's own encoding, which is passed in as a pair of functions.
 */
module KeyEntries {
  import opened Errors
  import opened Bytes

  datatype KeyEntry<I> = KeyEntry(key: seq<Byte>, index: I)

  /** What serializing `e` appends to the caller's writer, and what it returns. */
  function EncodeKeyEntry<I>(e: KeyEntry<I>, encodeIndex: I -> Written): Written
  {
    if |e.key| > MaxU16 then Written([], Err(KeyTooLarge))
    else
      Pow256Widths();
      var index := encodeIndex(e.index);
      Written(BigEndian(|e.key|, 2) + e.key + index.bytes,
              if index.outcome.Ok? then Ok(2 + |e.key| + index.outcome.value) else index.outcome)
  }

  /**
   * Decodes a key entry from the front of `s`, handing the bytes after the key
   * to the index decoder; gives the entry and the bytes the index left unread.
   */
  function DecodeKeyEntry<I>(s: seq<Byte>, decodeIndex: seq<Byte> -> Result<(I, seq<Byte>)>)
    : (r: Result<(KeyEntry<I>, seq<Byte>)>)
    ensures |s| < 2 ==> r == Err(UnexpectedEof)
    ensures 2 <= |s| && FromBigEndian(s[..2]) > |s| - 2 ==> r == Err(DataIntegrity)
    ensures r.Ok? ==>
      var key := r.value.0.key;
      && |key| <= MaxU16
      && 2 + |key| <= |s|
      && s[..2 + |key|] == BigEndian(|key|, 2) + key
      && decodeIndex(s[2 + |key|..]) == Ok((r.value.0.index, r.value.1))
  {
    if |s| < 2 then Err(UnexpectedEof)
    else
      var n := FromBigEndian(s[..2]);
      if n > |s| - 2 then Err(DataIntegrity)
      else
        match decodeIndex(s[2 + n..])
        case Err(e) => Err(e)
        case Ok(index) =>
          Pow256Widths();
          BigEndianOfFromBigEndian(s[..2]);
          assert s[..2 + n] == s[..2] + s[2..2 + n];
          Ok((KeyEntry(s[2..2 + n], index.0), index.1))
  }

  /** A key longer than a u16 can count is refused before anything is written. */
  lemma KeyTooLargeWritesNothing<I>(e: KeyEntry<I>, encodeIndex: I -> Written)
    ensures EncodeKeyEntry(e, encodeIndex).outcome == Err(KeyTooLarge) || |e.key| <= MaxU16
    ensures |e.key| > MaxU16 ==> EncodeKeyEntry(e, encodeIndex).bytes == []
  {
  }

  /**
   * The record starts with the key's length and the key, and is followed by
   * exactly what the index serializer wrote; the count returned is
   * 2 + the key length + the index's own count.
   */
  lemma {:induction false} KeyEntryLayout<I>(e: KeyEntry<I>, encodeIndex: I -> Written)
    requires |e.key| <= MaxU16
    ensures Pow256(2) == 0x1_0000
    ensures EncodeKeyEntry(e, encodeIndex).bytes == BigEndian(|e.key|, 2) + e.key + encodeIndex(e.index).bytes
    ensures encodeIndex(e.index).outcome.Ok? ==>
      EncodeKeyEntry(e, encodeIndex).outcome == Ok(2 + |e.key| + encodeIndex(e.index).outcome.value)
  {
    Pow256Widths();
  }

  /** When the index serializer counts its bytes, so does the key entry's. */
  lemma KeyEntryCountsBytes<I(!new)>(encodeIndex: I -> Written)
    requires CountsBytes(encodeIndex)
    ensures CountsBytes((e: KeyEntry<I>) => EncodeKeyEntry(e, encodeIndex))
  {
    forall e: KeyEntry<I> | EncodeKeyEntry(e, encodeIndex).outcome.Ok?
      ensures EncodeKeyEntry(e, encodeIndex).outcome.value == |EncodeKeyEntry(e, encodeIndex).bytes|
    {
      assert encodeIndex(e.index).outcome.Ok?;
    }
  }

  /** Decoding what was serialized gives back the same key and index, when the index codec round-trips. */
  lemma KeyEntryRoundTrip<I(!new)>(
    e: KeyEntry<I>, rest: seq<Byte>,
    encodeIndex: I -> Written, decodeIndex: seq<Byte> -> Result<(I, seq<Byte>)>)
    requires RoundTrips(encodeIndex, decodeIndex)
    requires EncodeKeyEntry(e, encodeIndex).outcome.Ok?
    ensures DecodeKeyEntry(EncodeKeyEntry(e, encodeIndex).bytes + rest, decodeIndex) == Ok((e, rest))
  {
    Pow256Widths();
    var n := |e.key|;
    var index := encodeIndex(e.index);
    var s := EncodeKeyEntry(e, encodeIndex).bytes + rest;
    assert s == BigEndian(n, 2) + e.key + (index.bytes + rest);
    assert s[..2] == BigEndian(n, 2);
    FromBigEndianOfBigEndian(n, 2);
    assert s[2..2 + n] == e.key;
    assert s[2 + n..] == index.bytes + rest;
    assert decodeIndex(index.bytes + rest) == Ok((e.index, rest));
  }

  /** `KeyEntry::serialize_to`: appends the record to `writer` and returns its byte count. */
  method SerializeKeyEntry<I>(e: KeyEntry<I>, writer: Writer, encodeIndex: I -> Written) returns (r: Result<nat>)
    modifies writer
    ensures writer.bytes == old(writer.bytes) + EncodeKeyEntry(e, encodeIndex).bytes
    ensures r == EncodeKeyEntry(e, encodeIndex).outcome
  {
    var bytesWritten := 0;
    if |e.key| > MaxU16 {
      return Err(KeyTooLarge);
    }
    Pow256Widths();
    writer.WriteBigEndian(|e.key|, 2);
    writer.ExtendFromSlice(e.key);
    bytesWritten := bytesWritten + 2 + |e.key|;

    var index := encodeIndex(e.index);
    writer.ExtendFromSlice(index.bytes);
    if index.outcome.Err? {
      return Err(index.outcome.error);
    }
    bytesWritten := bytesWritten + index.outcome.value;
    r := Ok(bytesWritten);
  }

  /** `KeyEntry::deserialize_from`: reads one entry, moving the reader past it. */
  method DeserializeKeyEntry<I>(reader: Reader, decodeIndex: seq<Byte> -> Result<(I, seq<Byte>)>)
    returns (r: Result<KeyEntry<I>>)
    modifies reader
    ensures r == Decoded(DecodeKeyEntry(old(reader.remaining), decodeIndex))
    ensures r.Ok? ==> reader.remaining == DecodeKeyEntry(old(reader.remaining), decodeIndex).value.1
    ensures r.Err? ==> IsSuffix(reader.remaining, old(reader.remaining))
  {
    var length := reader.ReadBigEndian(2);
    if length.Err? {
      return Err(length.error);
    }
    var n := length.value;
    if n > |reader.remaining| {
      return Err(DataIntegrity);
    }
    var key := reader.ReadBytes(n);
    assert key.value == old(reader.remaining)[2..2 + n] && reader.remaining == old(reader.remaining)[2 + n..];
    var index := decodeIndex(reader.remaining);
    if index.Err? {
      return Err(index.error);
    }
    reader.remaining := index.value.1;
    r := Ok(KeyEntry(key.value, index.value.0));
  }
}
