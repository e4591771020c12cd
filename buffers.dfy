/**
 * The buffers the codec reads from and writes to, reduced to what the
 * codec relies on: a growable byte vector, a stream buffer whose readable
 * bytes are consumed from the front and appended at the back, and a TCP
 * message with a length, an id, its data and a read cursor into the data.
 */
module Buffers {
  import opened Wire

  /** `std::vector<char>` or `std::string` used as a growable destination. */
  class ByteVector {
    var elems: seq<uint8>

    constructor (init: seq<uint8>)
      ensures elems == init
    {
      elems := init;
    }

    /** `push_back`. */
    method PushBack(b: uint8)
      modifies this
      ensures elems == old(elems) + [b]
    {
      elems := elems + [b];
    }
  }

  /** `boost::asio::streambuf`: writes append, reads consume from the front. */
  class StreamBuffer {
    var content: seq<uint8>

    constructor (init: seq<uint8>)
      ensures content == init
    {
      content := init;
    }

    method Write(s: seq<uint8>)
      modifies this
      ensures content == old(content) + s
    {
      content := content + s;
    }

    /** Extracts up to `n` bytes; fewer when the buffer runs out. */
    method Read(n: nat) returns (got: seq<uint8>)
      modifies this
      ensures got == old(content)[..Min(n, |old(content)|)]
      ensures content == old(content)[|got|..]
    {
      got := content[..Min(n, |content|)];
      content := content[|got|..];
    }
  }

  /** `TCPMessage`: header fields, data, and the cursor of `bufferRef()`. */
  class TcpMessage {
    var msgLen: uint32
    var msgId: uint32
    var data: seq<uint8>
    var readPos: nat

    ghost predicate Valid()
      reads this
    {
      readPos <= |data|
    }

    constructor (len: uint32, id: uint32, content: seq<uint8>)
      ensures Valid()
      ensures msgLen == len && msgId == id && data == content && readPos == 0
    {
      msgLen, msgId, data, readPos := len, id, content, 0;
    }

    /** The bytes `bufferRef().read` has not yet consumed. */
    function Unread(): seq<uint8>
      reads this
      requires Valid()
    {
      data[readPos..]
    }

    /** `contentToString()`: the whole data, without moving the cursor. */
    function Content(): seq<uint8>
      reads this
    {
      data
    }

    /** `bufferRef().read`: up to `n` bytes at the cursor, which moves past them. */
    method Read(n: nat) returns (got: seq<uint8>)
      requires Valid()
      modifies this
      ensures Valid()
      ensures got == old(Unread())[..Min(n, |old(Unread())|)]
      ensures readPos == old(readPos) + |got|
      ensures msgLen == old(msgLen) && msgId == old(msgId) && data == old(data)
    {
      got := data[readPos..][..Min(n, |data| - readPos)];
      readPos := readPos + |got|;
    }

    /** `setMsgLen`. */
    method SetMsgLen(len: uint32)
      modifies this
      ensures msgLen == len
      ensures msgId == old(msgId) && data == old(data) && readPos == old(readPos)
    {
      msgLen := len;
    }

    /** `setMsgID`. */
    method SetMsgId(id: uint32)
      modifies this
      ensures msgId == id
      ensures msgLen == old(msgLen) && data == old(data) && readPos == old(readPos)
    {
      msgId := id;
    }
  }
}
