/**
 * Bytes, fixed-width unsigned integers and their big-endian encoding, as
 * written by `byteorder`'s `write_u16::<BigEndian>` and friends, plus the two
 * byte containers the codecs work on: a `Writer` that is only appended to
 * (a `Vec<u8>`) and a `Reader` whose cursor only advances (a `Buffer` read
 * through `ReadBytesExt`).
 */
module Bytes {
  import opened Errors

  type Byte = x: int | 0 <= x < 0x100
  type U16 = x: int | 0 <= x < 0x1_0000
  type U32 = x: int | 0 <= x < 0x1_0000_0000
  type U64 = x: int | 0 <= x < 0x1_0000_0000_0000_0000

  const MaxU16: nat := 0xFFFF

  function Pow256(n: nat): (r: nat)
    ensures r >= 1
  {
    if n == 0 then 1 else 256 * Pow256(n - 1)
  }

  lemma Pow256Widths()
    ensures Pow256(2) == 0x1_0000
    ensures Pow256(4) == 0x1_0000_0000
    ensures Pow256(8) == 0x1_0000_0000_0000_0000
  {
    assert Pow256(1) == 256;
    assert Pow256(3) == 256 * 256 * 256;
  }

  /** The `width`-byte big-endian encoding of `n`: most significant byte first. */
  function BigEndian(n: nat, width: nat): (r: seq<Byte>)
    requires n < Pow256(width)
    ensures |r| == width
  {
    if width == 0 then [] else BigEndian(n / 256, width - 1) + [n % 256]
  }

  /** The number a big-endian byte string stands for. */
  function FromBigEndian(s: seq<Byte>): (n: nat)
    ensures n < Pow256(|s|)
  {
    if s == [] then 0
    else
      var high := FromBigEndian(s[..|s| - 1]);
      assert high * 256 + s[|s| - 1] <= (Pow256(|s| - 1) - 1) * 256 + 255;
      high * 256 + s[|s| - 1]
  }

  lemma {:induction false} FromBigEndianOfBigEndian(n: nat, width: nat)
    requires n < Pow256(width)
    ensures FromBigEndian(BigEndian(n, width)) == n
  {
    if width > 0 {
      var s := BigEndian(n, width);
      assert s[..width - 1] == BigEndian(n / 256, width - 1);
      FromBigEndianOfBigEndian(n / 256, width - 1);
    }
  }

  lemma {:induction false} BigEndianOfFromBigEndian(s: seq<Byte>)
    ensures BigEndian(FromBigEndian(s), |s|) == s
  {
    if s != [] {
      var init := s[..|s| - 1];
      var n := FromBigEndian(s);
      assert n / 256 == FromBigEndian(init) && n % 256 == s[|s| - 1];
      BigEndianOfFromBigEndian(init);
      assert s == init + [s[|s| - 1]];
    }
  }

  /** Two numbers of the same width have the same encoding only if they are equal. */
  lemma BigEndianInjective(m: nat, n: nat, width: nat)
    requires m < Pow256(width) && n < Pow256(width)
    requires BigEndian(m, width) == BigEndian(n, width)
    ensures m == n
  {
    FromBigEndianOfBigEndian(m, width);
    FromBigEndianOfBigEndian(n, width);
  }

  /**
   * Reads a `width`-byte big-endian number from the front of `s`, giving the
   * number and the bytes after it, or `UnexpectedEof` when `s` is too short.
   */
  function DecodeBigEndian(s: seq<Byte>, width: nat): (r: Result<(nat, seq<Byte>)>)
    ensures r.Ok? <==> width <= |s|
    ensures r.Ok? ==> r.value.0 < Pow256(width) && s == BigEndian(r.value.0, width) + r.value.1
    ensures r.Ok? ==> r.value.0 == FromBigEndian(s[..width]) && r.value.1 == s[width..]
    ensures r.Err? ==> r.error == UnexpectedEof
  {
    if |s| < width then Err(UnexpectedEof)
    else
      BigEndianOfFromBigEndian(s[..width]);
      assert s == s[..width] + s[width..];
      Ok((FromBigEndian(s[..width]), s[width..]))
  }

  /** Reading back a freshly written number gives the number and whatever followed it. */
  lemma DecodeBigEndianOfBigEndian(n: nat, width: nat, rest: seq<Byte>)
    requires n < Pow256(width)
    ensures DecodeBigEndian(BigEndian(n, width) + rest, width) == Ok((n, rest))
  {
    var s := BigEndian(n, width) + rest;
    var r := DecodeBigEndian(s, width);
    assert r.Ok?;
    assert BigEndian(r.value.0, width) + r.value.1 == BigEndian(n, width) + rest;
    assert BigEndian(r.value.0, width) == s[..width] == BigEndian(n, width);
    BigEndianInjective(r.value.0, n, width);
  }

  /** Takes `n` raw bytes from the front of `s`. */
  function SplitBytes(s: seq<Byte>, n: nat): (r: Result<(seq<Byte>, seq<Byte>)>)
    ensures r.Ok? <==> n <= |s|
    ensures r.Ok? ==> |r.value.0| == n && s == r.value.0 + r.value.1
    ensures r.Err? ==> r.error == UnexpectedEof
  {
    if |s| < n then Err(UnexpectedEof) else Ok((s[..n], s[n..]))
  }

  /**
   * What a serializer leaves behind: the bytes it appended to the caller's
   * writer and what it returned (the byte count it reports, or an error).
   * On an error `bytes` is what had been appended before the error arose.
   */
  datatype Written = Written(bytes: seq<Byte>, outcome: Result<nat>)

  /** Decoding what `encode` wrote gives back the value, and leaves whatever followed it unread. */
  ghost predicate RoundTrips<T(!new)>(encode: T -> Written, decode: seq<Byte> -> Result<(T, seq<Byte>)>)
  {
    forall x, rest :: encode(x).outcome.Ok? ==> decode(encode(x).bytes + rest) == Ok((x, rest))
  }

  /** The byte count a serializer reports is the number of bytes it appended. */
  ghost predicate CountsBytes<T(!new)>(encode: T -> Written)
  {
    forall x :: encode(x).outcome.Ok? ==> encode(x).outcome.value == |encode(x).bytes|
  }

  /** `t` is what is left of `s` after a prefix of it was read. */
  predicate IsSuffix(t: seq<Byte>, s: seq<Byte>) {
    |t| <= |s| && t == s[|s| - |t|..]
  }

  /** What a decoder reports to its caller: the value, or the error. */
  function Decoded<T>(d: Result<(T, seq<Byte>)>): Result<T> {
    if d.Ok? then Ok(d.value.0) else Err(d.error)
  }

  /** The bytes a reader still holds after a decoder ran on `s`; a failed read leaves them as they were. */
  function Unread<T>(d: Result<(T, seq<Byte>)>, s: seq<Byte>): seq<Byte> {
    if d.Ok? then d.value.1 else s
  }

  /** A caller-owned `Vec<u8>` that the serializers append to. */
  class Writer {
    var bytes: seq<Byte>

    constructor ()
      ensures bytes == []
    {
      bytes := [];
    }

    method WriteBigEndian(n: nat, width: nat)
      requires n < Pow256(width)
      modifies this
      ensures bytes == old(bytes) + BigEndian(n, width)
    {
      bytes := bytes + BigEndian(n, width);
    }

    method ExtendFromSlice(s: seq<Byte>)
      modifies this
      ensures bytes == old(bytes) + s
    {
      bytes := bytes + s;
    }

    /** `Vec::truncate`: keeps the first `len` bytes; a longer `len` changes nothing. */
    method Truncate(len: nat)
      modifies this
      ensures bytes == if len < |old(bytes)| then old(bytes)[..len] else old(bytes)
    {
      if len < |bytes| {
        bytes := bytes[..len];
      }
    }

    method Clear()
      modifies this
      ensures bytes == []
    {
      bytes := [];
    }
  }

  /** The unread part of a record; each successful read moves past what it read. */
  class Reader {
    var remaining: seq<Byte>

    constructor (data: seq<Byte>)
      ensures remaining == data
    {
      remaining := data;
    }

    method ReadBigEndian(width: nat) returns (r: Result<nat>)
      modifies this
      ensures r == Decoded(DecodeBigEndian(old(remaining), width))
      ensures remaining == Unread(DecodeBigEndian(old(remaining), width), old(remaining))
    {
      var d := DecodeBigEndian(remaining, width);
      if d.Ok? {
        r := Ok(d.value.0);
        remaining := d.value.1;
      } else {
        r := Err(d.error);
      }
    }

    method ReadBytes(n: nat) returns (r: Result<seq<Byte>>)
      modifies this
      ensures r == Decoded(SplitBytes(old(remaining), n))
      ensures remaining == Unread(SplitBytes(old(remaining), n), old(remaining))
    {
      var d := SplitBytes(remaining, n);
      if d.Ok? {
        r := Ok(d.value.0);
        remaining := d.value.1;
      } else {
        r := Err(d.error);
      }
    }
  }
}
