/**
 * `DataPack`: the configured maximum package size, and the pack and
 * unpack operations over each kind of buffer. Each header-and-payload
 * pack produces `Wire.EncodeFrame` of its inputs, and the raw packs copy
 * their bytes unchanged. Every unpack is a method of `DataPack` and
 * computes `Wire.DecodeHeader` of the bytes it reads, with the object's
 * `maxPackageSize`. The span unpack is also available as the function
 * `Wire.DecodeHeader`, which takes the maximum as an argument. The packs use no state of `DataPack` and are
 * module-level methods.
 */
module Codec {
  import opened Wire
  import opened Buffers

  /** `DataPack::maxPackageSize_` before any call to the setter. */
  const DefaultMaxPackageSize: uint64 := 512

  /** Holds the maximum that every unpack checks a header's length against. */
  class DataPack {
    var maxPackageSize: uint64

    constructor ()
      ensures maxPackageSize == DefaultMaxPackageSize
    {
      maxPackageSize := DefaultMaxPackageSize;
    }

    /** `setMaxPackegeSize`: any value is accepted, 0 meaning no limit. */
    method SetMaxPackageSize(size: uint64)
      modifies this
      ensures maxPackageSize == size
    {
      maxPackageSize := size;
    }

    // -------------------------------------------------------------------
    // Unpack: every overload applies the configured maximum

    /**
     * `unpack(dataBuf)`: read the length and the id from the first eight
     * bytes of the span and apply the guard; the span itself is only read.
     */
    method UnpackSpan(buf: seq<uint8>) returns (r: Result<Header>)
      ensures r == DecodeHeader(buf, maxPackageSize)
    {
      if |buf| < GetHeadLen() as int {
        return Err(Truncated(GetHeadLen() as int, |buf|));
      }
      var h := Header(DecodeU32BE(buf[0..4]), DecodeU32BE(buf[4..8]));
      match Guard(h, maxPackageSize)
      case Pass => r := Ok(h);
      case Fail(e) => r := Err(e);
    }

    /**
     * `unpack(len, id, dataBuf)`: the out-parameters receive the length and
     * id before the guard runs, so they hold them even when the guard fails;
     * the span itself is only read.
     */
    method UnpackSpanInto(buf: seq<uint8>) returns (len: uint32, id: uint32, r: Outcome)
      ensures |buf| >= GetHeadLen() as int ==> Header(len, id) == RawHeader(buf)
      ensures r.Pass? <==> DecodeHeader(buf, maxPackageSize).Ok?
      ensures r.Pass? ==> DecodeHeader(buf, maxPackageSize) == Ok(Header(len, id))
      ensures r.Fail? ==> DecodeHeader(buf, maxPackageSize) == Err(r.error)
    {
      if |buf| < GetHeadLen() as int {
        return 0, 0, Fail(Truncated(GetHeadLen() as int, |buf|));
      }
      len := DecodeU32BE(buf[0..4]);
      id := DecodeU32BE(buf[4..8]);
      r := Guard(Header(len, id), maxPackageSize);
    }

    /**
     * `unpack(streambuf)`: consume the length bytes and the id bytes, then
     * apply the guard. The bytes are consumed whether or not the guard passes.
     */
    method UnpackStream(src: StreamBuffer) returns (r: Result<Header>)
      modifies src
      ensures r == DecodeHeader(old(src.content), maxPackageSize)
      ensures src.content == old(src.content)[Min(GetHeadLen() as int, |old(src.content)|)..]
    {
      var lenBytes := src.Read(4);
      var idBytes := src.Read(4);
      ConsumedHeader(old(src.content), lenBytes, idBytes, maxPackageSize);
      r := DecodeHeader(lenBytes + idBytes, maxPackageSize);
    }

    /** `unpack(len, id, streambuf)`: as `UnpackStream`, with out-parameters. */
    method UnpackStreamInto(src: StreamBuffer) returns (len: uint32, id: uint32, r: Outcome)
      modifies src
      ensures |old(src.content)| >= GetHeadLen() as int ==> Header(len, id) == RawHeader(old(src.content))
      ensures r.Pass? <==> DecodeHeader(old(src.content), maxPackageSize).Ok?
      ensures r.Fail? ==> DecodeHeader(old(src.content), maxPackageSize) == Err(r.error)
      ensures src.content == old(src.content)[Min(GetHeadLen() as int, |old(src.content)|)..]
    {
      var lenBytes := src.Read(4);
      var idBytes := src.Read(4);
      ConsumedHeader(old(src.content), lenBytes, idBytes, maxPackageSize);
      if |lenBytes| + |idBytes| < GetHeadLen() as int {
        return 0, 0, Fail(Truncated(GetHeadLen() as int, |lenBytes| + |idBytes|));
      }
      len := DecodeU32BE(lenBytes);
      id := DecodeU32BE(idBytes);
      assert RawHeader(old(src.content)) == RawHeader(lenBytes + idBytes) by {
        assert (lenBytes + idBytes)[0..4] == lenBytes;
        assert (lenBytes + idBytes)[4..8] == idBytes;
      }
      r := Guard(Header(len, id), maxPackageSize);
    }

    /**
     * `unpack(msg)`: read the length and id at the message's cursor, apply
     * the guard, and on success store both on the message. On failure the
     * cursor has still moved past the bytes read, but the message's length
     * and id are those it had before.
     */
    method UnpackMessage(msg: TcpMessage) returns (r: Result<Header>)
      requires msg.Valid()
      modifies msg
      ensures msg.Valid() && msg.data == old(msg.data)
      ensures r == DecodeHeader(old(msg.Unread()), maxPackageSize)
      ensures msg.readPos == old(msg.readPos) + Min(GetHeadLen() as int, |old(msg.Unread())|)
      ensures r.Ok? ==> msg.msgLen == r.value.len && msg.msgId == r.value.id
      ensures r.Err? ==> msg.msgLen == old(msg.msgLen) && msg.msgId == old(msg.msgId)
    {
      var lenBytes := msg.Read(4);
      var idBytes := msg.Read(4);
      ConsumedHeader(old(msg.Unread()), lenBytes, idBytes, maxPackageSize);
      r := DecodeHeader(lenBytes + idBytes, maxPackageSize);
      if r.Ok? {
        msg.SetMsgLen(r.value.len);
        msg.SetMsgId(r.value.id);
      }
    }

    /** `unpack(len, id, msg)`: as `UnpackMessage`, with out-parameters. */
    method UnpackMessageInto(msg: TcpMessage) returns (len: uint32, id: uint32, r: Outcome)
      requires msg.Valid()
      modifies msg
      ensures msg.Valid() && msg.data == old(msg.data)
      ensures |old(msg.Unread())| >= GetHeadLen() as int ==> Header(len, id) == RawHeader(old(msg.Unread()))
      ensures r.Pass? <==> DecodeHeader(old(msg.Unread()), maxPackageSize).Ok?
      ensures r.Fail? ==> DecodeHeader(old(msg.Unread()), maxPackageSize) == Err(r.error)
      ensures msg.readPos == old(msg.readPos) + Min(GetHeadLen() as int, |old(msg.Unread())|)
      ensures r.Pass? ==> msg.msgLen == len && msg.msgId == id
      ensures r.Fail? ==> msg.msgLen == old(msg.msgLen) && msg.msgId == old(msg.msgId)
    {
      var lenBytes := msg.Read(4);
      var idBytes := msg.Read(4);
      ConsumedHeader(old(msg.Unread()), lenBytes, idBytes, maxPackageSize);
      if |lenBytes| + |idBytes| < GetHeadLen() as int {
        return 0, 0, Fail(Truncated(GetHeadLen() as int, |lenBytes| + |idBytes|));
      }
      len := DecodeU32BE(lenBytes);
      id := DecodeU32BE(idBytes);
      assert RawHeader(old(msg.Unread())) == RawHeader(lenBytes + idBytes) by {
        assert (lenBytes + idBytes)[0..4] == lenBytes;
        assert (lenBytes + idBytes)[4..8] == idBytes;
      }
      r := Guard(Header(len, id), maxPackageSize);
      if r.Pass? {
        msg.SetMsgLen(len);
        msg.SetMsgId(id);
      }
    }
  }

  /** With the default maximum 512: lengths 0 and 512 pass, 513 is refused. */
  lemma DefaultGuardBoundary(id: uint32, rest: seq<uint8>)
    ensures DecodeHeader(EncodeHeader(0, id) + rest, DefaultMaxPackageSize) == Ok(Header(0, id))
    ensures DecodeHeader(EncodeHeader(512, id) + rest, DefaultMaxPackageSize) == Ok(Header(512, id))
    ensures DecodeHeader(EncodeHeader(513, id) + rest, DefaultMaxPackageSize) == Err(PackageTooLarge(513, 512))
  {
    HeaderRoundTrip(0, id, rest, DefaultMaxPackageSize);
    HeaderRoundTrip(512, id, rest, DefaultMaxPackageSize);
    HeaderRoundTrip(513, id, rest, DefaultMaxPackageSize);
  }

  /**
   * The configured maximum is the one the unpacks apply: a fresh
   * `DataPack` refuses a streamed header of length 513 and then accepts the
   * following one of length 512; after `SetMaxPackageSize(0)` a message
   * header of length 513 is accepted and stored on the message.
   */
  method ConfiguredLimitScenario(id: uint32)
    returns (fresh513: Result<Header>, fresh512: Result<Header>, unlimited513: Result<Header>, storedLen: uint32)
    ensures fresh513 == Err(PackageTooLarge(513, 512))
    ensures fresh512 == Ok(Header(512, id))
    ensures unlimited513 == Ok(Header(513, id))
    ensures storedLen == 513
  {
    var dp := new DataPack();
    var second := EncodeHeader(512, id);
    var s := new StreamBuffer(EncodeHeader(513, id) + second);
    HeaderRoundTrip(513, id, second, DefaultMaxPackageSize);
    fresh513 := dp.UnpackStream(s);
    assert s.content == second + [];
    HeaderRoundTrip(512, id, [], DefaultMaxPackageSize);
    fresh512 := dp.UnpackStream(s);
    dp.SetMaxPackageSize(0);
    var m := new TcpMessage(0, 0, EncodeHeader(513, id));
    assert m.Unread() == EncodeHeader(513, id) + [];
    HeaderRoundTrip(513, id, [], 0);
    unlimited513 := dp.UnpackMessage(m);
    storedLen := m.msgLen;
  }

  // ---------------------------------------------------------------------
  // Pack

  /** A checked `memcpy` to `dest + at`; every other element is left alone. */
  method CopyInto(dest: array<uint8>, at: nat, src: seq<uint8>)
    requires at + |src| <= dest.Length
    modifies dest
    ensures dest[at..at + |src|] == src
    ensures forall k :: 0 <= k < dest.Length && !(at <= k < at + |src|) ==> dest[k] == old(dest[k])
  {
    var i := 0;
    while i < |src|
      invariant 0 <= i <= |src|
      invariant forall k :: at <= k < at + i ==> dest[k] == src[k - at]
      invariant forall k :: 0 <= k < dest.Length && !(at <= k < at + i) ==> dest[k] == old(dest[k])
    {
      dest[at + i] := src[i];
      i := i + 1;
    }
  }

  /**
   * `pack(source, dest, size)`: copy the bytes into a fixed buffer. A
   * buffer shorter than the bytes is reported and left untouched.
   */
  method PackRaw(src: seq<uint8>, dest: array<uint8>) returns (r: Outcome)
    modifies dest
    ensures r == if |src| <= dest.Length then Pass else Fail(InsufficientCapacity(|src|, dest.Length))
    ensures r.Pass? ==> dest[..|src|] == src && dest[|src|..] == old(dest[|src|..])
    ensures r.Fail? ==> dest[..] == old(dest[..])
  {
    if |src| > dest.Length {
      return Fail(InsufficientCapacity(|src|, dest.Length));
    }
    CopyInto(dest, 0, src);
    r := Pass;
  }

  /** `pack(source, vector, size)`: push back each byte in turn. */
  method PackAppend(src: seq<uint8>, dest: ByteVector)
    modifies dest
    ensures dest.elems == old(dest.elems) + src
  {
    var i := 0;
    while i < |src|
      invariant 0 <= i <= |src|
      invariant dest.elems == old(dest.elems) + src[..i]
    {
      dest.PushBack(src[i]);
      i := i + 1;
      assert src[..i] == src[..i - 1] + [src[i - 1]];
    }
    assert src[..i] == src;
  }

  /**
   * `pack(len, id, source, dest, size)`: length at offset 0, id at 4, the
   * payload from 8. A buffer shorter than the frame is reported and left
   * untouched.
   */
  method PackFrame(len: uint32, id: uint32, payload: seq<uint8>, dest: array<uint8>) returns (r: Outcome)
    modifies dest
    ensures var needed := GetHeadLen() as int + |payload|;
      r == if needed <= dest.Length then Pass else Fail(InsufficientCapacity(needed, dest.Length))
    ensures r.Pass? ==>
      && dest[..GetHeadLen() as int + |payload|] == EncodeFrame(len, id, payload)
      && dest[GetHeadLen() as int + |payload|..] == old(dest[GetHeadLen() as int + |payload|..])
    ensures r.Fail? ==> dest[..] == old(dest[..])
  {
    var n := GetHeadLen() as int;
    if n + |payload| > dest.Length {
      return Fail(InsufficientCapacity(n + |payload|, dest.Length));
    }
    CopyInto(dest, 0, EncodeU32BE(len));
    CopyInto(dest, 4, EncodeU32BE(id));
    CopyInto(dest, 8, payload);
    FrameLayout(len, id, payload);
    assert dest[..GetHeadLen() as int + |payload|] == EncodeFrame(len, id, payload);
    r := Pass;
  }

  /**
   * `pack(dataBuf, msg)`: the message's length and id, then `msgLen` bytes
   * read from the message's buffer at its cursor. A destination shorter
   * than the frame, or a message with fewer unread bytes than its length,
   * is reported; then neither the destination nor the cursor changes.
   */
  method PackMessage(dest: array<uint8>, msg: TcpMessage) returns (r: Outcome)
    requires msg.Valid()
    modifies dest, msg
    ensures msg.Valid()
    ensures msg.msgLen == old(msg.msgLen) && msg.msgId == old(msg.msgId) && msg.data == old(msg.data)
    ensures var needed := GetHeadLen() as int + old(msg.msgLen);
      r == if needed > dest.Length then Fail(InsufficientCapacity(needed, dest.Length))
           else if |old(msg.Unread())| < old(msg.msgLen) then Fail(Truncated(old(msg.msgLen), |old(msg.Unread())|))
           else Pass
    ensures r.Pass? ==>
      && dest[..GetHeadLen() as int + msg.msgLen] == EncodeFrame(msg.msgLen, msg.msgId, old(msg.Unread())[..msg.msgLen])
      && dest[GetHeadLen() as int + msg.msgLen..] == old(dest[GetHeadLen() as int + msg.msgLen..])
      && msg.readPos == old(msg.readPos) + msg.msgLen
    ensures r.Fail? ==> dest[..] == old(dest[..]) && msg.readPos == old(msg.readPos)
  {
    var n := GetHeadLen() as int;
    var len := msg.msgLen;
    if n + len > dest.Length {
      return Fail(InsufficientCapacity(n + len, dest.Length));
    }
    if |msg.data| - msg.readPos < len {
      return Fail(Truncated(len, |msg.data| - msg.readPos));
    }
    CopyInto(dest, 0, EncodeU32BE(len));
    var id := msg.msgId;
    CopyInto(dest, 4, EncodeU32BE(id));
    var body := msg.Read(len);
    CopyInto(dest, 8, body);
    FrameLayout(len, id, body);
    assert dest[..n + len] == EncodeFrame(len, id, body);
    r := Pass;
  }

  /** `pack(streambuf, msg)`: write length, id, then the message content. */
  method PackMessageToStream(dest: StreamBuffer, msg: TcpMessage)
    modifies dest
    ensures dest.content == old(dest.content) + EncodeFrame(msg.msgLen, msg.msgId, msg.Content())
  {
    dest.Write(EncodeU32BE(msg.msgLen));
    dest.Write(EncodeU32BE(msg.msgId));
    dest.Write(msg.Content());
  }

  /**
   * `pack(string, msg)` and `pack(vector, msg)`: the big-endian header,
   * then the message content, appended to the destination.
   */
  method PackMessageAppend(dest: ByteVector, msg: TcpMessage)
    modifies dest
    ensures dest.elems == old(dest.elems) + EncodeFrame(msg.msgLen, msg.msgId, msg.Content())
  {
    PackAppend(EncodeHeader(msg.msgLen, msg.msgId), dest);
    PackAppend(msg.Content(), dest);
  }

  // ---------------------------------------------------------------------
  // Unpack helpers

  /** The header bytes a stream or message read consumed, read as a header. */
  lemma ConsumedHeader(whole: seq<uint8>, a: seq<uint8>, b: seq<uint8>, max: uint64)
    requires a + b == whole[..Min(GetHeadLen() as int, |whole|)]
    ensures DecodeHeader(a + b, max) == DecodeHeader(whole, max)
  {
    if |whole| >= GetHeadLen() as int {
      DecodeHeaderPrefix(whole, max);
    } else {
      assert whole[..|whole|] == whole;
    }
  }
}
