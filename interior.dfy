/**
 * An interior entry of a B-Tree node: the greatest key below a child, a
 * pointer to that child, and the child's reduced statistics. Serializing the
 * entry is where copy-on-write happens: a child that changed, or was never
 * stored, is written as a fresh chunk first; an unchanged stored child keeps
 * its old position.
 */
module InteriorNodes {
  import opened Errors
  import opened Bytes
  import opened Paging
  import opened BySequence

  /**
   * A B-Tree node held in memory. Its contents are not modelled: `node` stands
   * for them, `maxKey` and `stats` are what the node reports as its greatest
   * key and its statistics, and `dirty` says whether it changed since it was
   * last written.
   */
  datatype BTreeEntry<R> = BTreeEntry(node: nat, maxKey: seq<Byte>, stats: R, dirty: bool)

  /** Where a child node is: only on disk, or loaded into memory (remembering where it was read from, if anywhere). */
  datatype Pointer<R> =
    | OnDisk(location: U64)
    | Loaded(previousLocation: Option<U64>, entry: BTreeEntry<R>)
  {
    /** `Pointer::position`: where the child is stored, if it has been. */
    function Position(): (p: Option<U64>)
      ensures OnDisk? ==> p == Some(location)
      ensures Loaded? ==> p == previousLocation
    {
      match this
      case OnDisk(location) => Some(location)
      case Loaded(previousLocation, _) => previousLocation
    }

    /** `Pointer::get_mut`: the child node, if it is in memory. */
    function GetMut(): (e: Option<BTreeEntry<R>>)
      ensures e.None? <==> OnDisk?
      ensures Loaded? ==> e == Some(entry)
    {
      match this
      case OnDisk(_) => None
      case Loaded(_, entry) => Some(entry)
    }

    /**
     * `Pointer::load`: brings the child into memory, reading it with `read`
     * (the chunk reader and node decoder, not modelled here) when it is only
     * on disk. A loaded pointer is left as it is.
     */
    function Load(read: U64 -> Result<BTreeEntry<R>>): (r: Result<Pointer<R>>)
      ensures r.Ok? ==> r.value.Loaded? && r.value.Position() == Position()
      ensures r.Ok? && OnDisk? ==> read(location).Ok? && r.value.entry == read(location).value
      ensures Loaded? ==> r == Ok(this)
      ensures r.Err? <==> OnDisk? && read(location).Err?
    {
      match this
      case OnDisk(location) =>
        (match read(location)
         case Err(e) => Err(e)
         case Ok(entry) => Ok(Loaded(Some(location), entry)))
      case Loaded(_, _) => Ok(this)
    }
  }

  /** Whether serializing must write the child first: it is in memory and has changed or was never stored. */
  predicate MustWrite<R>(p: Pointer<R>) {
    p.Loaded? && (p.entry.dirty || p.previousLocation.None?)
  }

  /** The decoded form of an interior entry record. */
  datatype InteriorValue<R> = InteriorValue(key: seq<Byte>, position: Pointer<R>, stats: R)

  /** The record of an interior entry whose child is at `location`: what serializing appends and returns. */
  function EncodeInterior<R>(key: seq<Byte>, location: U64, stats: R, encodeStats: R -> Written): Written
  {
    if |key| > MaxU16 then Written([], Err(KeyTooLarge))
    else
      Pow256Widths();
      var s := encodeStats(stats);
      Written(BigEndian(|key|, 2) + key + BigEndian(location, 8) + s.bytes,
              if s.outcome.Ok? then Ok(10 + |key| + s.outcome.value) else s.outcome)
  }

  /**
   * Decodes an interior entry from the front of `s`. The child is always
   * `OnDisk`: a decoded node holds no child in memory.
   */
  function DecodeInterior<R>(s: seq<Byte>, decodeStats: seq<Byte> -> Result<(R, seq<Byte>)>)
    : (r: Result<(InteriorValue<R>, seq<Byte>)>)
    ensures |s| < 2 ==> r == Err(UnexpectedEof)
    ensures 2 <= |s| && FromBigEndian(s[..2]) > |s| - 2 ==> r == Err(DataIntegrity)
    ensures r.Ok? ==> r.value.0.position.OnDisk?
    ensures r.Ok? ==>
      var v := r.value.0;
      && |v.key| <= MaxU16
      && 10 + |v.key| <= |s|
      && s[..10 + |v.key|] == BigEndian(|v.key|, 2) + v.key + BigEndian(v.position.location, 8)
      && decodeStats(s[10 + |v.key|..]) == Ok((v.stats, r.value.1))
  {
    if |s| < 2 then Err(UnexpectedEof)
    else
      var n := FromBigEndian(s[..2]);
      if n > |s| - 2 then Err(DataIntegrity)
      else if |s| - 2 - n < 8 then Err(UnexpectedEof)
      else
        var location := FromBigEndian(s[2 + n..10 + n]);
        match decodeStats(s[10 + n..])
        case Err(e) => Err(e)
        case Ok(stats) =>
          Pow256Widths();
          BigEndianOfFromBigEndian(s[..2]);
          BigEndianOfFromBigEndian(s[2 + n..10 + n]);
          assert s[..10 + n] == s[..2] + s[2..2 + n] + s[2 + n..10 + n];
          Ok((InteriorValue(s[2..2 + n], OnDisk(location), stats.0), stats.1))
  }

  /**
   * The record is the key's u16 length, the key, the child's u64 position and
   * the statistics' own bytes; the count returned is 10 + the key length + the
   * statistics' count.
   */
  lemma InteriorLayout<R(!new)>(key: seq<Byte>, location: U64, stats: R, encodeStats: R -> Written)
    requires |key| <= MaxU16
    ensures Pow256(2) == 0x1_0000 && Pow256(8) == EndOfU64
    ensures EncodeInterior(key, location, stats, encodeStats).bytes
         == BigEndian(|key|, 2) + key + BigEndian(location, 8) + encodeStats(stats).bytes
    ensures encodeStats(stats).outcome.Ok? ==>
      EncodeInterior(key, location, stats, encodeStats).outcome == Ok(10 + |key| + encodeStats(stats).outcome.value)
    ensures CountsBytes(encodeStats) && EncodeInterior(key, location, stats, encodeStats).outcome.Ok? ==>
      EncodeInterior(key, location, stats, encodeStats).outcome.value == |EncodeInterior(key, location, stats, encodeStats).bytes|
  {
    Pow256Widths();
  }

  /** A key longer than a u16 can count is refused, and nothing is appended for the record. */
  lemma InteriorKeyTooLarge<R>(key: seq<Byte>, location: U64, stats: R, encodeStats: R -> Written)
    requires |key| > MaxU16
    ensures EncodeInterior(key, location, stats, encodeStats) == Written([], Err(KeyTooLarge))
  {
  }

  /** Decoding a record gives back the key, the child's position (on disk) and the statistics. */
  lemma InteriorRoundTrip<R(!new)>(
    key: seq<Byte>, location: U64, stats: R, rest: seq<Byte>,
    encodeStats: R -> Written, decodeStats: seq<Byte> -> Result<(R, seq<Byte>)>)
    requires RoundTrips(encodeStats, decodeStats)
    requires EncodeInterior(key, location, stats, encodeStats).outcome.Ok?
    ensures DecodeInterior(EncodeInterior(key, location, stats, encodeStats).bytes + rest, decodeStats)
         == Ok((InteriorValue(key, OnDisk(location), stats), rest))
  {
    RecordRoundTrip(key, location, stats, rest, encodeStats, decodeStats);
  }

  /** The record round trip for one statistics value that reads back from its own encoding. */
  lemma RecordRoundTrip<R>(
    key: seq<Byte>, location: U64, stats: R, rest: seq<Byte>,
    encodeStats: R -> Written, decodeStats: seq<Byte> -> Result<(R, seq<Byte>)>)
    requires decodeStats(encodeStats(stats).bytes + rest) == Ok((stats, rest))
    requires EncodeInterior(key, location, stats, encodeStats).outcome.Ok?
    ensures DecodeInterior(EncodeInterior(key, location, stats, encodeStats).bytes + rest, decodeStats)
         == Ok((InteriorValue(key, OnDisk(location), stats), rest))
  {
    Pow256Widths();
    var n := |key|;
    var w := encodeStats(stats);
    var s := EncodeInterior(key, location, stats, encodeStats).bytes + rest;
    assert s[..2] == BigEndian(n, 2) && s[2..2 + n] == key
        && s[2 + n..10 + n] == BigEndian(location, 8) && s[10 + n..] == w.bytes + rest by {
      assert s == BigEndian(n, 2) + key + BigEndian(location, 8) + (w.bytes + rest);
      RecordSlices(BigEndian(n, 2), key, BigEndian(location, 8), w.bytes + rest);
    }
    assert FromBigEndian(s[..2]) == n by {
      FromBigEndianOfBigEndian(n, 2);
    }
    assert FromBigEndian(s[2 + n..10 + n]) == location by {
      FromBigEndianOfBigEndian(location, 8);
    }
    DecodeInteriorFields(s, decodeStats, n);
  }

  /** What `DecodeInterior` reads from a record whose key fits and whose statistics decode. */
  lemma DecodeInteriorFields<R>(s: seq<Byte>, decodeStats: seq<Byte> -> Result<(R, seq<Byte>)>, n: nat)
    requires 10 + n <= |s| && FromBigEndian(s[..2]) == n && decodeStats(s[10 + n..]).Ok?
    ensures var r := DecodeInterior(s, decodeStats);
      && r.Ok?
      && r.value.0.key == s[2..2 + n]
      && r.value.0.position == OnDisk(r.value.0.position.location)
      && r.value.0.position.location == FromBigEndian(s[2 + n..10 + n])
      && (r.value.0.stats, r.value.1) == decodeStats(s[10 + n..]).value
  {
  }

  /** The slices that cut a record of a 2-byte length, a key, an 8-byte position and the bytes after it. */
  lemma RecordSlices(length: seq<Byte>, key: seq<Byte>, location: seq<Byte>, after: seq<Byte>)
    requires |length| == 2 && |location| == 8
    ensures var s := length + key + location + after; var n := |key|;
      && s[..2] == length && s[2..2 + n] == key && s[2 + n..10 + n] == location && s[10 + n..] == after
  {
  }

  /**
   * The by-sequence tree's interior entries: a key up to u16 length always
   * serializes (the statistics cannot fail), into 18 + key length bytes, and
   * reads back.
   */
  lemma BySequenceInteriorRoundTrip(key: seq<Byte>, location: U64, stats: BySequenceStats, rest: seq<Byte>)
    requires |key| <= MaxU16
    ensures EncodeInterior(key, location, stats, EncodeStats).outcome == Ok(18 + |key|)
    ensures |EncodeInterior(key, location, stats, EncodeStats).bytes| == 18 + |key|
    ensures DecodeInterior(EncodeInterior(key, location, stats, EncodeStats).bytes + rest, DecodeStats)
         == Ok((InteriorValue(key, OnDisk(location), stats), rest))
  {
    StatsCodecLaws();
    InteriorRoundTrip(key, location, stats, rest, EncodeStats, DecodeStats);
  }

  /**
   * The first half of `serialize_to`: where the child taken out of `pointer`
   * is stored. A changed or never-stored child is marked clean, serialized
   * onto the end of `writer`, written from there as a new chunk, and `writer`
   * is cut back; an error leaves the partial bytes where they are. The node's
   * own serialization is `encodeEntry`, which writes no chunks of its own.
   */
  method WriteChild<R>(pointer: Pointer<R>, writer: Writer, paged: PagedWriter, encodeEntry: BTreeEntry<R> -> Written)
    returns (r: Result<U64>)
    requires paged.Valid()
    modifies writer, paged
    ensures paged.Valid()
    ensures !MustWrite(pointer) ==>
      && pointer.Position().Some? && r == Ok(pointer.Position().value)
      && paged.chunks == old(paged.chunks) && writer.bytes == old(writer.bytes)
    ensures MustWrite(pointer) ==>
      var node := encodeEntry(pointer.entry.(dirty := false));
      if node.outcome.Err? || old(paged.end) >= EndOfU64 then
        && r == Err(if node.outcome.Err? then node.outcome.error else Io)
        && paged.chunks == old(paged.chunks) && writer.bytes == old(writer.bytes) + node.bytes
      else
        && r == Ok(old(paged.end)) && r.value !in old(paged.Positions())
        && paged.chunks == old(paged.chunks) + [Chunk(r.value, node.bytes)]
        && writer.bytes == old(writer.bytes)
  {
    match pointer {
      case OnDisk(p) =>
        r := Ok(p);
      case Loaded(previousLocation, entry) =>
        if entry.dirty || previousLocation.None? {
          var clean := entry.(dirty := false);
          var oldWriterLength := |writer.bytes|;
          var node := encodeEntry(clean);
          writer.ExtendFromSlice(node.bytes);
          if node.outcome.Err? {
            return Err(node.outcome.error);
          }
          assert writer.bytes[oldWriterLength..] == node.bytes;
          var written := paged.WriteChunk(writer.bytes[oldWriterLength..]);
          if written.Err? {
            return Err(written.error);
          }
          writer.Truncate(oldWriterLength);
          r := Ok(written.value);
        } else {
          r := Ok(previousLocation.value);
        }
    }
  }

  /**
   * The second half of `serialize_to`: appends the record for a child stored
   * at `location` and returns its byte count.
   */
  method WriteRecord<R>(writer: Writer, key: seq<Byte>, location: U64, stats: R, encodeStats: R -> Written)
    returns (r: Result<nat>)
    modifies writer
    ensures writer.bytes == old(writer.bytes) + EncodeInterior(key, location, stats, encodeStats).bytes
    ensures r == EncodeInterior(key, location, stats, encodeStats).outcome
  {
    var bytesWritten := 0;
    if |key| > MaxU16 {
      return Err(KeyTooLarge);
    }
    Pow256Widths();
    writer.WriteBigEndian(|key|, 2);
    writer.ExtendFromSlice(key);
    bytesWritten := bytesWritten + 2 + |key|;

    writer.WriteBigEndian(location, 8);
    bytesWritten := bytesWritten + 8;

    var s := encodeStats(stats);
    writer.ExtendFromSlice(s.bytes);
    if s.outcome.Err? {
      return Err(s.outcome.error);
    }
    bytesWritten := bytesWritten + s.outcome.value;
    r := Ok(bytesWritten);
  }

  class Interior<R> {
    /** The greatest key within the child. */
    var key: seq<Byte>
    /** Where the child is. */
    var position: Pointer<R>
    /** The child's reduced statistics. */
    var stats: R

    /** `From<BTreeEntry>`: an interior entry for a node built in memory and never stored. */
    constructor FromEntry(entry: BTreeEntry<R>)
      ensures key == entry.maxKey && stats == entry.stats
      ensures position == Loaded(None, entry) && MustWrite(position)
    {
      key := entry.maxKey;
      stats := entry.stats;
      position := Loaded(None, entry);
    }

    /** An interior entry from its three fields, as `deserialize_from` builds it. */
    constructor (key: seq<Byte>, position: Pointer<R>, stats: R)
      ensures this.key == key && this.position == position && this.stats == stats
    {
      this.key := key;
      this.position := position;
      this.stats := stats;
    }

    /**
     * `serialize_to`: settles where the child is, writing it as a new chunk
     * when it must be written, then appends this entry's record. The node's own
     * bytes go only to the paged writer; `writer` keeps just the record. A
     * failure while writing the child leaves `position` as `OnDisk(0)` and the
     * child's partial bytes in `writer`, as the source does.
     */
    method SerializeTo(
      writer: Writer, paged: PagedWriter,
      encodeEntry: BTreeEntry<R> -> Written, encodeStats: R -> Written)
      returns (r: Result<nat>)
      requires paged.Valid()
      modifies this, writer, paged
      ensures paged.Valid()
      ensures key == old(key) && stats == old(stats)
      // An unchanged stored child: nothing is written, the old position is reused.
      ensures !MustWrite(old(position)) ==>
        var location := old(position).Position().value;
        && position == OnDisk(location)
        && paged.chunks == old(paged.chunks)
        && writer.bytes == old(writer.bytes) + EncodeInterior(key, location, stats, encodeStats).bytes
        && r == EncodeInterior(key, location, stats, encodeStats).outcome
      // A changed or never-stored child: written clean, as one new chunk, first.
      ensures MustWrite(old(position)) ==>
        var node := encodeEntry(old(position).entry.(dirty := false));
        if node.outcome.Err? || old(paged.end) >= EndOfU64 then
          && r == Err(if node.outcome.Err? then node.outcome.error else Io)
          && position == OnDisk(0)
          && paged.chunks == old(paged.chunks) && writer.bytes == old(writer.bytes) + node.bytes
        else
          var location: U64 := old(paged.end);
          && location !in old(paged.Positions())
          && paged.chunks == old(paged.chunks) + [Chunk(location, node.bytes)]
          && position == OnDisk(location)
          && writer.bytes == old(writer.bytes) + EncodeInterior(key, location, stats, encodeStats).bytes
          && r == EncodeInterior(key, location, stats, encodeStats).outcome
    {
      var pointer := position;
      position := OnDisk(0);
      var child := WriteChild(pointer, writer, paged, encodeEntry);
      if child.Err? {
        return Err(child.error);
      }
      var locationOnDisk := child.value;
      position := OnDisk(locationOnDisk);
      r := WriteRecord(writer, key, locationOnDisk, stats, encodeStats);
    }

    /**
     * The pointer bookkeeping of `copy_data_to` (compaction). The child is
     * loaded, `copyNode` (the node's own copying, not modelled here) updates it
     * and reports whether it copied anything; the node is then written as a new
     * chunk when nodes are included, and the pointer drops the node from memory
     * whenever a position is known. `copyNode` copies no chunks through the
     * paged writer.
     */
    method CopyDataTo(
      includeNodes: bool,
      read: U64 -> Result<BTreeEntry<R>>,
      copyNode: BTreeEntry<R> -> Result<(BTreeEntry<R>, bool)>,
      scratch: Writer, paged: PagedWriter,
      encodeEntry: BTreeEntry<R> -> Written)
      returns (r: Result<bool>)
      requires paged.Valid()
      modifies this, scratch, paged
      ensures paged.Valid()
      ensures key == old(key) && stats == old(stats)
      ensures r.Ok? ==> old(position).Load(read).Ok? && copyNode(old(position).Load(read).value.entry).Ok?
      ensures r.Ok? && includeNodes ==>
        var copied := copyNode(old(position).Load(read).value.entry).value;
        && r == Ok(true)
        && old(paged.end) < EndOfU64
        && position == OnDisk(old(paged.end))
        && paged.chunks == old(paged.chunks) + [Chunk(old(paged.end), encodeEntry(copied.0).bytes)]
      ensures r.Ok? && !includeNodes ==>
        var copied := copyNode(old(position).Load(read).value.entry).value;
        && r == Ok(copied.1)
        && paged.chunks == old(paged.chunks)
        && position == (if old(position).Position().Some? then OnDisk(old(position).Position().value)
                        else Loaded(None, copied.0))
      ensures r.Ok? ==> position.Position().Some? || !includeNodes
      ensures r.Err? && old(position).Load(read).Err? ==> position == old(position) && paged.chunks == old(paged.chunks)
    {
      var loaded := position.Load(read);
      if loaded.Err? {
        return Err(loaded.error);
      }
      position := loaded.value;
      var node := position.GetMut().value;
      var copied := copyNode(node);
      if copied.Err? {
        return Err(copied.error);
      }
      node := copied.value.0;
      position := Loaded(position.previousLocation, node);
      var anyDataCopied := copied.value.1;

      var newPosition: Option<U64>;
      if includeNodes {
        anyDataCopied := true;
        scratch.Clear();
        var w := encodeEntry(node);
        scratch.ExtendFromSlice(w.bytes);
        assert scratch.bytes == w.bytes;
        if w.outcome.Err? {
          return Err(w.outcome.error);
        }
        var written := paged.WriteChunk(scratch.bytes);
        if written.Err? {
          return Err(written.error);
        }
        newPosition := Some(written.value);
      } else {
        newPosition := position.Position();
      }

      if newPosition.Some? {
        position := OnDisk(newPosition.value);
      }
      r := Ok(anyDataCopied);
    }
  }

  /** `Interior::deserialize_from`: reads one interior entry into a new object. */
  method DeserializeInterior<R>(reader: Reader, decodeStats: seq<Byte> -> Result<(R, seq<Byte>)>)
    returns (r: Result<Interior<R>>)
    modifies reader
    ensures Decoded(DecodeInterior(old(reader.remaining), decodeStats)).Ok? <==> r.Ok?
    ensures r.Ok? ==>
      var v := DecodeInterior(old(reader.remaining), decodeStats).value;
      && fresh(r.value)
      && r.value.key == v.0.key && r.value.position == v.0.position && r.value.stats == v.0.stats
      && reader.remaining == v.1
    ensures r.Err? ==> r.error == DecodeInterior(old(reader.remaining), decodeStats).error
  {
    Pow256Widths();
    ghost var s := reader.remaining;
    var length := reader.ReadBigEndian(2);
    if length.Err? {
      return Err(length.error);
    }
    var n := length.value;
    if n > |reader.remaining| {
      return Err(DataIntegrity);
    }
    var key := reader.ReadBytes(n);
    assert key.value == s[2..2 + n] && reader.remaining == s[2 + n..];
    var location := reader.ReadBigEndian(8);
    if location.Err? {
      return Err(location.error);
    }
    assert s[2 + n..][..8] == s[2 + n..10 + n] && reader.remaining == s[10 + n..];
    var stats := decodeStats(reader.remaining);
    if stats.Err? {
      return Err(stats.error);
    }
    reader.remaining := stats.value.1;
    var interior := new Interior(key.value, OnDisk(location.value), stats.value.0);
    r := Ok(interior);
  }
}
