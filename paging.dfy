/**
 * The file a tree is written to, as far as writing chunks goes: an
 * append-only log in which every new chunk gets the next free position.
 * This stands in for `PagedWriter::write_chunk`, whose own code (paging,
 * headers, checksums, encryption) is not part of this model.
 */
module Paging {
  import opened Errors
  import opened Bytes

  /** Room the writer reserves in front of every chunk; all that matters here is that it is positive. */
  const ChunkHeaderLength: nat := 8

  const EndOfU64: nat := 0x1_0000_0000_0000_0000

  datatype Chunk = Chunk(position: nat, data: seq<Byte>)

  class PagedWriter {
    /** The chunks written so far, oldest first. */
    var chunks: seq<Chunk>
    /** The first position no chunk occupies. */
    var end: nat

    ghost predicate Valid()
      reads this
    {
      forall i :: 0 <= i < |chunks| ==> chunks[i].position + ChunkHeaderLength + |chunks[i].data| <= end
    }

    /** The positions at which chunks have been written. */
    ghost function Positions(): set<nat>
      reads this
    {
      set i | 0 <= i < |chunks| :: chunks[i].position
    }

    constructor (start: nat)
      ensures Valid() && chunks == [] && end == start
    {
      chunks := [];
      end := start;
    }

    /**
     * Appends `data` as a new chunk and returns where it starts: a position no
     * earlier chunk has. A position that would not fit a u64 stands for the
     * storage failures the real writer can report.
     */
    method WriteChunk(data: seq<Byte>) returns (r: Result<U64>)
      requires Valid()
      modifies this
      ensures Valid()
      ensures r.Ok? <==> old(end) < EndOfU64
      ensures r.Ok? ==> r.value == old(end) && r.value !in old(Positions())
      ensures r.Ok? ==> chunks == old(chunks) + [Chunk(r.value, data)] && end > old(end)
      ensures r.Err? ==> r.error == Io && chunks == old(chunks) && end == old(end)
    {
      if end >= EndOfU64 {
        return Err(Io);
      }
      r := Ok(end);
      chunks := chunks + [Chunk(end, data)];
      end := end + ChunkHeaderLength + |data|;
    }
  }
}
