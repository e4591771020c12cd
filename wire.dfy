/**
 * The wire format of one frame of the zinx-asio TCP protocol: an 8-byte
 * header (payload length, then message id, each a big-endian 32-bit
 * unsigned integer) followed by the payload bytes, and the size guard
 * that every unpack applies to a decoded header.
 */
module Wire {

  type uint8 = x: int | 0 <= x < 0x100
  type uint32 = x: int | 0 <= x < 0x1_0000_0000
  /** `std::size_t`, the type of the configured maximum package size. */
  type uint64 = x: int | 0 <= x < 0x1_0000_0000_0000_0000

  /** The decoded header: payload length and message id. */
  datatype Header = Header(len: uint32, id: uint32)

  datatype Error =
    | PackageTooLarge(length: uint32, limit: uint64)
    | InsufficientCapacity(needed: nat, capacity: nat)
    | Truncated(needed: nat, available: nat)

  datatype Result<T> = Ok(value: T) | Err(error: Error)

  datatype Outcome = Pass | Fail(error: Error)

  function Min(a: nat, b: nat): nat {
    if a <= b then a else b
  }

  /** The header width; callers use it instead of writing 8 themselves. */
  function GetHeadLen(): (n: uint32)
    ensures n == 8
  {
    8
  }

  /** The four bytes of `x`, most significant first: byte k is `(x >> (24 - 8k)) & 255`. */
  function EncodeU32BE(x: uint32): (r: seq<uint8>)
    ensures |r| == 4
  {
    [ (x / 0x100_0000) % 0x100,
      (x / 0x1_0000) % 0x100,
      (x / 0x100) % 0x100,
      x % 0x100 ]
  }

  /** 256 to the power `n`: how many values `n` bytes can hold. */
  function Pow256(n: nat): (p: nat)
    ensures p >= 1
  {
    if n == 0 then 1 else 256 * Pow256(n - 1)
  }

  /**
   * Reference definition of big-endian order: `b` read as one number in
   * base 256, first byte most significant.
   */
  function BigEndianValue(b: seq<uint8>): (x: nat)
    ensures x < Pow256(|b|)
  {
    if b == [] then 0 else BigEndianValue(b[..|b| - 1]) * 256 + b[|b| - 1]
  }

  /** The 32-bit value whose big-endian bytes are `b[0..4]`. */
  function DecodeU32BE(b: seq<uint8>): (x: uint32)
    requires |b| >= 4
    ensures x == BigEndianValue(b[..4])
  {
    assert b[..4][..3] == b[..3];
    assert b[..3][..2] == b[..2];
    assert b[..2][..1] == b[..1];
    assert b[..1][..0] == [];
    assert BigEndianValue(b[..1]) == b[0];
    assert BigEndianValue(b[..2]) == b[0] as int * 0x100 + b[1] as int;
    assert BigEndianValue(b[..3]) == (b[0] as int * 0x100 + b[1] as int) * 0x100 + b[2] as int;
    b[0] as int * 0x100_0000 + b[1] as int * 0x1_0000 + b[2] as int * 0x100 + b[3] as int
  }

  /** Length bytes, then id bytes. */
  function EncodeHeader(len: uint32, id: uint32): (r: seq<uint8>)
    ensures |r| == GetHeadLen() as int
  {
    EncodeU32BE(len) + EncodeU32BE(id)
  }

  /** Header, then payload: the frame the pack operations produce. */
  function EncodeFrame(len: uint32, id: uint32, payload: seq<uint8>): (r: seq<uint8>)
    ensures |r| == GetHeadLen() as int + |payload|
    ensures r[GetHeadLen()..] == payload
  {
    EncodeHeader(len, id) + payload
  }

  /** The length and id in the first eight bytes, before any check. */
  function RawHeader(b: seq<uint8>): (h: Header)
    requires |b| >= GetHeadLen() as int
    ensures h.len == BigEndianValue(b[0..4])
    ensures h.id == BigEndianValue(b[4..8])
  {
    assert b[0..4][..4] == b[0..4];
    assert b[4..8][..4] == b[4..8];
    Header(DecodeU32BE(b[0..4]), DecodeU32BE(b[4..8]))
  }

  /**
   * The size guard shared by every unpack: a length above a non-zero
   * maximum is refused; a maximum of 0 means no limit.
   */
  function Guard(h: Header, max: uint64): (r: Outcome)
    ensures r.Pass? <==> max == 0 || h.len <= max
    ensures r.Fail? ==> r.error == PackageTooLarge(h.len, max)
  {
    if max > 0 && h.len > max then Fail(PackageTooLarge(h.len, max)) else Pass
  }

  /**
   * Unpack of a byte span: read length and id from the first eight bytes
   * and apply the guard. A span shorter than the header is `Truncated`.
   */
  function DecodeHeader(b: seq<uint8>, max: uint64): (r: Result<Header>)
    ensures r.Ok? ==> max == 0 || r.value.len <= max
    ensures r.Ok? ==> |b| >= GetHeadLen() as int && r.value == RawHeader(b)
    ensures |b| < GetHeadLen() as int ==> r == Err(Truncated(GetHeadLen() as int, |b|))
    ensures r.Err? && r.error.PackageTooLarge? ==> r.error.limit == max > 0 && r.error.length > max
    ensures r.Err? && r.error.Truncated? ==> |b| < GetHeadLen() as int
  {
    if |b| < GetHeadLen() as int then
      Err(Truncated(GetHeadLen() as int, |b|))
    else
      var h := RawHeader(b);
      match Guard(h, max)
      case Pass => Ok(h)
      case Fail(e) => Err(e)
  }

  // ---------------------------------------------------------------------
  // Properties of the encoding

  /** Decoding the four bytes of `x` gives back `x`. */
  lemma U32RoundTrip(x: uint32)
    ensures DecodeU32BE(EncodeU32BE(x)) == x
  {
    var b := EncodeU32BE(x);
    var q1 := x / 0x100;
    var q2 := q1 / 0x100;
    var q3 := q2 / 0x100;
    assert x == q1 * 0x100 + b[3];
    assert q1 == q2 * 0x100 + b[2];
    assert q2 == q3 * 0x100 + b[1];
    assert x / 0x1_0000 == q2;
    assert x / 0x100_0000 == q3;
    assert q3 < 0x100;
  }

  /** Every four bytes are the encoding of the value they decode to. */
  lemma U32BytesRoundTrip(b: seq<uint8>)
    requires |b| == 4
    ensures EncodeU32BE(DecodeU32BE(b)) == b
  {
    var x := DecodeU32BE(b);
    assert x % 0x100 == b[3];
    assert x / 0x100 == b[0] as int * 0x1_0000 + b[1] as int * 0x100 + b[2] as int;
    assert (x / 0x100) % 0x100 == b[2];
    assert x / 0x1_0000 == b[0] as int * 0x100 + b[1] as int;
    assert (x / 0x1_0000) % 0x100 == b[1];
    assert x / 0x100_0000 == b[0];
  }

  /** The encoding formula writes the big-endian digits of `x`. */
  lemma EncodeU32IsBigEndian(x: uint32)
    ensures BigEndianValue(EncodeU32BE(x)) == x
  {
    U32RoundTrip(x);
    assert EncodeU32BE(x)[..4] == EncodeU32BE(x);
  }

  /** Distinct values have distinct encodings. */
  lemma U32Injective(x: uint32, y: uint32)
    requires EncodeU32BE(x) == EncodeU32BE(y)
    ensures x == y
  {
    U32RoundTrip(x);
    U32RoundTrip(y);
  }

  /** The header carries `len` in bytes 0..3 and `id` in bytes 4..7, big-endian. */
  lemma HeaderLayout(len: uint32, id: uint32)
    ensures RawHeader(EncodeHeader(len, id)) == Header(len, id)
  {
    var r := EncodeHeader(len, id);
    assert r[0..4] == EncodeU32BE(len);
    assert r[4..8] == EncodeU32BE(id);
    U32RoundTrip(len);
    U32RoundTrip(id);
  }

  /** The frame is the length bytes, the id bytes and the payload, in that order. */
  lemma FrameLayout(len: uint32, id: uint32, payload: seq<uint8>)
    ensures EncodeFrame(len, id, payload)[0..4] == EncodeU32BE(len)
    ensures EncodeFrame(len, id, payload)[4..8] == EncodeU32BE(id)
    ensures forall k :: 0 <= k < |payload| ==> EncodeFrame(len, id, payload)[8 + k] == payload[k]
  {
    var f := EncodeFrame(len, id, payload);
    assert f == EncodeU32BE(len) + EncodeU32BE(id) + payload;
  }

  /** Byte-order example: length 300 and id 7. */
  lemma ByteOrderExample()
    ensures EncodeHeader(300, 7) == [0x00, 0x00, 0x01, 0x2C, 0x00, 0x00, 0x00, 0x07]
  {
  }

  /**
   * Round trip: unpacking the header just packed (followed by anything)
   * gives back `(len, id)` when the guard admits `len`, and
   * `PackageTooLarge` otherwise.
   */
  lemma HeaderRoundTrip(len: uint32, id: uint32, rest: seq<uint8>, max: uint64)
    ensures DecodeHeader(EncodeHeader(len, id) + rest, max)
         == if max == 0 || len <= max then Ok(Header(len, id))
            else Err(PackageTooLarge(len, max))
  {
    var b := EncodeHeader(len, id) + rest;
    assert b[0..8] == EncodeHeader(len, id);
    HeaderLayout(len, id);
    assert RawHeader(b) == RawHeader(EncodeHeader(len, id));
  }

  /** A whole packed frame unpacks to its own header. */
  lemma FrameRoundTrip(len: uint32, id: uint32, payload: seq<uint8>, max: uint64)
    requires max == 0 || len <= max
    ensures DecodeHeader(EncodeFrame(len, id, payload), max) == Ok(Header(len, id))
  {
    HeaderRoundTrip(len, id, payload, max);
  }

  /** Every eight bytes are the header of the length and id they decode to. */
  lemma HeaderBytesRoundTrip(b: seq<uint8>)
    requires |b| >= GetHeadLen() as int
    ensures EncodeHeader(RawHeader(b).len, RawHeader(b).id) == b[..8]
  {
    U32BytesRoundTrip(b[0..4]);
    U32BytesRoundTrip(b[4..8]);
    assert b[..8] == b[0..4] + b[4..8];
  }

  /** The size guard refuses a packed header exactly when `max > 0 && len > max`. */
  lemma GuardExact(len: uint32, id: uint32, rest: seq<uint8>, max: uint64)
    ensures DecodeHeader(EncodeHeader(len, id) + rest, max).Err? <==> max > 0 && len > max
  {
    HeaderRoundTrip(len, id, rest, max);
  }

  /** With maximum 0 every length, 0xFFFF_FFFF included, passes the guard. */
  lemma UnlimitedAcceptsAll(b: seq<uint8>)
    requires |b| >= GetHeadLen() as int
    ensures DecodeHeader(b, 0) == Ok(RawHeader(b))
  {
  }

  /** Unpack looks at the first eight bytes only. */
  lemma DecodeHeaderPrefix(b: seq<uint8>, max: uint64)
    requires |b| >= GetHeadLen() as int
    ensures DecodeHeader(b, max) == DecodeHeader(b[..8], max)
  {
    assert b[..8][0..4] == b[0..4];
    assert b[..8][4..8] == b[4..8];
  }
}
