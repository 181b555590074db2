/**
 * The peer wire protocol of BEP 3 as the client speaks it: the handshake
 * preamble, length-prefixed messages (createPeerMessage) and the scan of
 * waitFor, which skips messages until one with the wanted id arrives. The
 * socket is replaced by the bytes the peer sends, in order.
 */
module PeerWire {
  import opened Outcomes
  import opened Bytes

  /** The message ids the client sends or waits for. */
  const UNCHOKE: byte := 1
  const INTERESTED: byte := 2
  const BITFIELD: byte := 5
  const REQUEST: byte := 6
  const PIECE: byte := 7

  /** A message: the big-endian length of id and payload, the id, the payload. */
  function Frame(id: byte, payload: bytes): bytes {
    BigEndian32(ToUint32(1 + |payload|)) + [id] + payload
  }

  /** createPeerMessage (cmd/mybittorrent/main.go:386-393): the frame written into a fresh buffer. */
  method CreatePeerMessage(messageId: byte, payload: bytes) returns (messageData: array<byte>)
    ensures fresh(messageData)
    ensures messageData[..] == Frame(messageId, payload)
  {
    messageData := new byte[4 + 1 + |payload|];
    var prefix := BigEndian32(ToUint32(1 + |payload|));
    messageData[0], messageData[1], messageData[2], messageData[3] := prefix[0], prefix[1], prefix[2], prefix[3];
    messageData[4] := messageId;
    for k := 0 to |payload|
      invariant messageData[..5] == prefix + [messageId]
      invariant forall j | 0 <= j < k :: messageData[5 + j] == payload[j]
    {
      messageData[5 + k] := payload[k];
    }
    assert messageData[..] == prefix + [messageId] + payload;
  }

  /** Where the fields of a frame sit, for a payload whose length fits the 32-bit prefix. */
  lemma {:induction false} FrameLayout(id: byte, payload: bytes)
    requires 1 + |payload| < TWO_32
    ensures |Frame(id, payload)| == 5 + |payload|
    ensures ReadBigEndian32(Frame(id, payload)) == 1 + |payload|
    ensures Frame(id, payload)[4] == id
    ensures Frame(id, payload)[5..] == payload
  {
    var n := 1 + |payload|;
    assert ToUint32(n) == n;
    BigEndian32RoundTrip(n);
    var f := Frame(id, payload);
    assert f[..4] == BigEndian32(n);
    assert ReadBigEndian32(f) == ReadBigEndian32(f[..4]);
  }

  /** The literal the client writes to say it is interested is the interested message. */
  lemma {:induction false} InterestedMessage()
    ensures Frame(INTERESTED, []) == [0, 0, 0, 1, 2]
  {
    assert ToUint32(1) == 1;
  }

  /**
   * The scan of waitFor (cmd/mybittorrent/main.go:397-420): the payload of the
   * first message with id `expected` and the bytes after it. Messages with other
   * ids are read whole and dropped. A stream that ends inside a message is
   * StreamEnded; a keep-alive message (length 0) is KeepAliveFrame, since the
   * source would compute a payload length of 0 - 1.
   */
  function WaitForFrame(s: bytes, expected: byte): Result<(bytes, bytes)> {
    if |s| < 4 then Fail(StreamEnded)
    else
      var n: int := ReadBigEndian32(s);
      if n == 0 then Fail(KeepAliveFrame)
      else if |s| < 4 + n then Fail(StreamEnded)
      else if s[4] == expected then Ok((s[5..4 + n], s[4 + n..]))
      else WaitForFrame(s[4 + n..], expected)
  }

  /** waitFor over the bytes of the stream: one message per round of the loop. */
  method WaitFor(stream: bytes, expectedMessageId: byte) returns (r: Result<(bytes, bytes)>)
    ensures r == WaitForFrame(stream, expectedMessageId)
  {
    var rest := stream;
    while true
      invariant WaitForFrame(rest, expectedMessageId) == WaitForFrame(stream, expectedMessageId)
      decreases |rest|
    {
      if |rest| < 4 {
        return Fail(StreamEnded);
      }
      var messageLength: int := ReadBigEndian32(rest);
      if messageLength == 0 {
        return Fail(KeepAliveFrame);
      }
      if |rest| < 4 + messageLength {
        return Fail(StreamEnded);
      }
      var messageId := rest[4];
      var payload := rest[5..4 + messageLength];
      rest := rest[4 + messageLength..];
      if messageId == expectedMessageId {
        return Ok((payload, rest));
      }
    }
  }

  /** A message read back by waitFor gives its payload and leaves the bytes after it. */
  lemma {:induction false} WaitForReadsFrame(id: byte, payload: bytes, rest: bytes)
    requires 1 + |payload| < TWO_32
    ensures WaitForFrame(Frame(id, payload) + rest, id) == Ok((payload, rest))
  {
    var s := Frame(id, payload) + rest;
    FrameLayout(id, payload);
    assert s[..4] == Frame(id, payload)[..4];
    assert s[5..5 + |payload|] == payload;
    assert s[5 + |payload|..] == rest;
  }

  /** A message with another id is skipped whole. */
  lemma {:induction false} WaitForSkipsFrame(id: byte, payload: bytes, rest: bytes, expected: byte)
    requires 1 + |payload| < TWO_32 && id != expected
    ensures WaitForFrame(Frame(id, payload) + rest, expected) == WaitForFrame(rest, expected)
  {
    var s := Frame(id, payload) + rest;
    FrameLayout(id, payload);
    assert s[..4] == Frame(id, payload)[..4];
    assert s[5 + |payload|..] == rest;
  }

  /** Whatever waitFor returns was sent as a whole message with the wanted id, and the rest follows it. */
  lemma {:induction false} WaitForFound(s: bytes, expected: byte, payload: bytes, rest: bytes)
    requires WaitForFrame(s, expected) == Ok((payload, rest))
    ensures 1 + |payload| < TWO_32
    ensures |Frame(expected, payload)| + |rest| <= |s|
    ensures s[|s| - |Frame(expected, payload)| - |rest|..] == Frame(expected, payload) + rest
    decreases |s|
  {
    var n: int := ReadBigEndian32(s);
    var t := s[4 + n..];
    if s[4] != expected {
      WaitForFound(t, expected, payload, rest);
      var k := |Frame(expected, payload)| + |rest|;
      assert t[|t| - k..] == s[|s| - k..];
    } else {
      assert payload == s[5..4 + n] && rest == t;
      assert ToUint32(n) == n;
      ReadBigEndian32RoundTrip(s);
      assert Frame(expected, payload) == s[..4] + [s[4]] + s[5..4 + n];
      assert s[..4] + [s[4]] + s[5..4 + n] + t == s;
    }
  }

  /** The protocol name of the handshake. */
  const PSTR: bytes := Ascii("BitTorrent protocol")

  /** The fixed peer id the client announces. */
  const CLIENT_PEER_ID: bytes := Ascii("00112233445566778899")

  /** The size of the handshake reply the client reads (cmd/mybittorrent/main.go:381). */
  const HANDSHAKE_SIZE: nat := 1 + 19 + 8 + 20 + 20

  /** handshake (cmd/mybittorrent/main.go:374-379): name length, name, 8 reserved zero bytes, info-hash, peer id. */
  function Handshake(infoHash: bytes): bytes {
    [19] + PSTR + seq(8, _ => 0) + infoHash + CLIENT_PEER_ID
  }

  /** Where the fields of the handshake sit, for a 20-byte info-hash. */
  lemma {:induction false} HandshakeLayout(infoHash: bytes)
    requires |infoHash| == 20
    ensures |Handshake(infoHash)| == HANDSHAKE_SIZE
    ensures Handshake(infoHash)[0] as int == |PSTR|
    ensures Handshake(infoHash)[1..20] == PSTR
    ensures forall k | 20 <= k < 28 :: Handshake(infoHash)[k] == 0
    ensures Handshake(infoHash)[28..48] == infoHash
    ensures Handshake(infoHash)[48..] == CLIENT_PEER_ID
  {
    var h := Handshake(infoHash);
    assert h == [19] + PSTR + seq(8, _ => 0) + infoHash + CLIENT_PEER_ID;
    assert h[1..20] == PSTR;
    assert h[28..48] == infoHash;
    assert h[48..] == CLIENT_PEER_ID;
  }

  /**
   * The `handshake` command (cmd/mybittorrent/main.go:264-277) reads one reply of
   * at most 512 bytes and reports the bytes from index 48 on as the peer id. A
   * read that gets nothing is the end of the stream: the command prints that
   * error and returns. A reply of 1 to 47 bytes makes the slice panic.
   */
  function ReplyPeerId(received: bytes): (r: Result<bytes>)
    ensures r.Ok? <==> 48 <= |received|
    ensures r.Ok? ==> 48 + |r.value| <= |received| && |r.value| <= 512 - 48 && r.value == received[48..48 + |r.value|]
    ensures r.Ok? && |received| <= 512 ==> 48 + |r.value| == |received|
    ensures r.Ok? && 512 <= |received| ==> |r.value| == 512 - 48
    ensures r.Fail? ==> (r.error.IsPanic() <==> 0 < |received|)
  {
    if |received| == 0 then Fail(StreamEnded)
    else
      var size := if |received| < 512 then |received| else 512;
      if size < 48 then Fail(SliceOutOfRange) else Ok(received[48..size])
  }

  /**
   * The reply's peer id is reported whatever info-hash and reserved bytes the
   * reply carries: the client never compares the hash it sent with the one it
   * got back.
   */
  lemma {:induction false} ReplyHashIgnored(reserved: bytes, infoHash: bytes, peerId: bytes)
    requires |reserved| == 8 && |infoHash| == 20 && |peerId| == 20
    ensures ReplyPeerId([19] + PSTR + reserved + infoHash + peerId) == Ok(peerId)
  {
    var reply := [19] + PSTR + reserved + infoHash + peerId;
    assert reply[48..68] == peerId;
  }

  /** A peer that echoes the client's handshake is reported with the client's own peer id. */
  lemma {:induction false} EchoedHandshake(infoHash: bytes)
    requires |infoHash| == 20
    ensures ReplyPeerId(Handshake(infoHash)) == Ok(CLIENT_PEER_ID)
  {
    ReplyHashIgnored(seq(8, _ => 0), infoHash, CLIENT_PEER_ID);
  }
}
