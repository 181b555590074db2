/**
 * The `download_piece` command after the handshake (cmd/mybittorrent/main.go:315-354):
 * wait for the bitfield, say interested, wait for the unchoke, request the
 * piece block by block, copy each received block into a buffer of the piece's
 * length, and keep the buffer only if its SHA-1 hash is the one the torrent lists.
 */
module Download {
  import opened Outcomes
  import opened Bytes
  import opened PeerWire
  import opened Pieces

  /** The length every request asks for. */
  const BLOCK_SIZE: nat := 16 * 1024

  /** The number of rounds of the request loop: the blocks needed to cover the piece. */
  function BlockCount(pieceLength: int): nat {
    if pieceLength <= 0 then 0 else (pieceLength + BLOCK_SIZE - 1) / BLOCK_SIZE
  }

  /** BlockCount is the ceiling of pieceLength / BLOCK_SIZE: the last block starts inside the piece and the blocks reach its end. */
  lemma {:induction false} BlockCountCeiling(pieceLength: int)
    requires pieceLength > 0
    ensures (BlockCount(pieceLength) - 1) * BLOCK_SIZE < pieceLength <= BlockCount(pieceLength) * BLOCK_SIZE
  {
    var c := BlockCount(pieceLength);
    var r := (pieceLength + BLOCK_SIZE - 1) % BLOCK_SIZE;
    assert pieceLength + BLOCK_SIZE - 1 == c * BLOCK_SIZE + r;
  }

  /** Every byte of the piece lies in a requested block: offset `j` is in block j / BLOCK_SIZE. */
  lemma {:induction false} RequestsCover(pieceLength: int, j: int)
    requires 0 <= j < pieceLength
    ensures 0 <= j / BLOCK_SIZE < BlockCount(pieceLength)
    ensures (j / BLOCK_SIZE) * BLOCK_SIZE <= j < (j / BLOCK_SIZE) * BLOCK_SIZE + BLOCK_SIZE
  {
    BlockCountCeiling(pieceLength);
    var k := j / BLOCK_SIZE;
    assert j == k * BLOCK_SIZE + j % BLOCK_SIZE;
  }

  /** The payload of a request (cmd/mybittorrent/main.go:322-325): piece index, offset and length, big-endian. */
  function RequestPayload(pieceId: int, offset: int): bytes {
    BigEndian32(ToUint32(pieceId)) + BigEndian32(ToUint32(offset)) + BigEndian32(BLOCK_SIZE)
  }

  /** The three fields of a request payload read back. */
  lemma {:induction false} RequestFields(pieceId: int, offset: int)
    ensures |RequestPayload(pieceId, offset)| == 12
    ensures ReadBigEndian32(RequestPayload(pieceId, offset)) == ToUint32(pieceId)
    ensures ReadBigEndian32(RequestPayload(pieceId, offset)[4..]) == ToUint32(offset)
    ensures ReadBigEndian32(RequestPayload(pieceId, offset)[8..]) == BLOCK_SIZE
  {
    var p := RequestPayload(pieceId, offset);
    BigEndian32RoundTrip(ToUint32(pieceId));
    BigEndian32RoundTrip(ToUint32(offset));
    BigEndian32RoundTrip(BLOCK_SIZE);
    assert p[..4] == BigEndian32(ToUint32(pieceId));
    assert ReadBigEndian32(p) == ReadBigEndian32(p[..4]);
    assert p[4..][..4] == BigEndian32(ToUint32(offset));
    assert ReadBigEndian32(p[4..]) == ReadBigEndian32(p[4..][..4]);
    assert p[8..] == BigEndian32(BLOCK_SIZE);
  }

  /** The request messages of the loop, in the order they are written. */
  function Requests(pieceId: int, pieceLength: int): seq<bytes> {
    seq(BlockCount(pieceLength), k requires 0 <= k < BlockCount(pieceLength) =>
      Frame(REQUEST, RequestPayload(pieceId, k * BLOCK_SIZE)))
  }

  /** The request loop (cmd/mybittorrent/main.go:320-331): the messages written and the count of them. */
  method RequestBlocks(pieceId: int, pieceLength: int) returns (sent: seq<bytes>, count: nat)
    ensures count == |sent| == BlockCount(pieceLength)
    ensures sent == Requests(pieceId, pieceLength)
  {
    sent := [];
    count := 0;
    if pieceLength > 0 {
      BlockCountCeiling(pieceLength);
    }
    var byteOffset := 0;
    while byteOffset < pieceLength
      invariant byteOffset == count * BLOCK_SIZE
      invariant count <= BlockCount(pieceLength)
      invariant sent == Requests(pieceId, pieceLength)[..count]
      decreases pieceLength - byteOffset
    {
      var payload := RequestPayload(pieceId, byteOffset);
      var message := CreatePeerMessage(REQUEST, payload);
      sent := sent + [message[..]];
      count := count + 1;
      byteOffset := byteOffset + BLOCK_SIZE;
    }
    assert count == BlockCount(pieceLength);
  }

  /** The requests ask for ascending offsets 0, 16384, ... below the piece length, and a peer reads each back whole. */
  lemma {:induction false} RequestsInOrder(pieceId: int, pieceLength: int, k: nat)
    requires k < BlockCount(pieceLength)
    ensures 0 <= k * BLOCK_SIZE < pieceLength
    ensures |Requests(pieceId, pieceLength)[k]| == 17
    ensures WaitForFrame(Requests(pieceId, pieceLength)[k], REQUEST) == Ok((RequestPayload(pieceId, k * BLOCK_SIZE), []))
  {
    BlockCountCeiling(pieceLength);
    var payload := RequestPayload(pieceId, k * BLOCK_SIZE);
    RequestFields(pieceId, k * BLOCK_SIZE);
    FrameLayout(REQUEST, payload);
    WaitForReadsFrame(REQUEST, payload, []);
    assert Frame(REQUEST, payload) + [] == Frame(REQUEST, payload);
  }

  /** A buffer of `n` zero bytes, as make allocates it. */
  function Zeros(n: nat): bytes {
    seq(n, _ => 0)
  }

  /**
   * copy(piece[begin:], block): the bytes from `begin` on take the block's bytes,
   * as many as both have room for; all other bytes keep their value.
   */
  function CopyAt(piece: bytes, begin: nat, block: bytes): bytes
    requires begin <= |piece|
  {
    seq(|piece|, j requires 0 <= j < |piece| => if begin <= j < begin + |block| then block[j - begin] else piece[j])
  }

  /** The copy writes exactly min(|block|, |piece| - begin) bytes from `begin` on. */
  lemma {:induction false} CopyAtSlices(piece: bytes, begin: nat, block: bytes)
    requires begin <= |piece|
    ensures
      var n := if |block| < |piece| - begin then |block| else |piece| - begin;
      CopyAt(piece, begin, block) == piece[..begin] + block[..n] + piece[begin + n..]
  {
    var n := if |block| < |piece| - begin then |block| else |piece| - begin;
    var r := piece[..begin] + block[..n] + piece[begin + n..];
    assert |r| == |piece|;
    forall j | 0 <= j < |piece| ensures CopyAt(piece, begin, block)[j] == r[j] {
      if j < begin {
        assert r[j] == piece[j];
      } else if j < begin + n {
        assert r[j] == block[j - begin];
      } else {
        assert r[j] == piece[j];
      }
    }
  }

  /**
   * One received piece message (cmd/mybittorrent/main.go:337-344): its index
   * must be the requested piece, and its block is copied in from its begin offset.
   */
  function Store(piece: bytes, data: bytes, pieceId: int): Result<bytes> {
    if |data| < 4 then Fail(SliceOutOfRange)
    else if ReadBigEndian32(data) != ToUint32(pieceId) then Fail(PieceIndexMismatch)
    else if |data| < 8 then Fail(SliceOutOfRange)
    else
      var begin := ReadBigEndian32(data[4..]);
      if begin > |piece| then Fail(SliceOutOfRange) else Ok(CopyAt(piece, begin, data[8..]))
  }

  /** The copy of one block into the buffer, in place; on failure the buffer is left as it was. */
  method StoreBlock(buf: array<byte>, data: bytes, pieceId: int) returns (r: Result<()>)
    modifies buf
    ensures Store(old(buf[..]), data, pieceId).Ok? ==> r.Ok? && buf[..] == Store(old(buf[..]), data, pieceId).value
    ensures Store(old(buf[..]), data, pieceId).Fail? ==>
      r == Fail(Store(old(buf[..]), data, pieceId).error) && buf[..] == old(buf[..])
  {
    if |data| < 4 {
      return Fail(SliceOutOfRange);
    }
    var index := ReadBigEndian32(data);
    if index != ToUint32(pieceId) {
      return Fail(PieceIndexMismatch);
    }
    if |data| < 8 {
      return Fail(SliceOutOfRange);
    }
    var begin := ReadBigEndian32(data[4..]);
    var block := data[8..];
    if begin > buf.Length {
      return Fail(SliceOutOfRange);
    }
    var n := if |block| < buf.Length - begin then |block| else buf.Length - begin;
    for k := 0 to n
      invariant forall j | 0 <= j < buf.Length ::
        buf[j] == if begin <= j < begin + k then block[j - begin] else old(buf[j])
    {
      buf[begin + k] := block[k];
    }
    assert buf[..] == CopyAt(old(buf[..]), begin, block);
    return Ok(());
  }

  /** A piece message for the requested piece stores its block at its offset. */
  lemma {:induction false} StoreWellFormed(piece: bytes, pieceId: int, begin: nat, block: bytes)
    requires begin <= |piece| && begin < TWO_32
    ensures Store(piece, BigEndian32(ToUint32(pieceId)) + BigEndian32(begin) + block, pieceId)
         == Ok(CopyAt(piece, begin, block))
  {
    var data := BigEndian32(ToUint32(pieceId)) + BigEndian32(begin) + block;
    BigEndian32RoundTrip(ToUint32(pieceId));
    BigEndian32RoundTrip(begin);
    assert data[..4] == BigEndian32(ToUint32(pieceId));
    assert ReadBigEndian32(data) == ReadBigEndian32(data[..4]);
    assert data[4..][..4] == BigEndian32(begin);
    assert ReadBigEndian32(data[4..]) == ReadBigEndian32(data[4..][..4]);
    assert data[8..] == block;
  }

  /** One round of the assembly loop: the next piece message read and stored; the bytes after it and the new buffer. */
  function Round(stream: bytes, pieceId: int, piece: bytes): Result<(bytes, bytes)> {
    match WaitForFrame(stream, PIECE)
    case Fail(e) => Fail(e)
    case Ok((data, rest)) =>
      match Store(piece, data, pieceId)
      case Fail(e) => Fail(e)
      case Ok(next) => Ok((rest, next))
  }

  /** The assembly loop: `count` rounds, stopping at the first failure. */
  function Assemble(stream: bytes, pieceId: int, piece: bytes, count: nat): Result<bytes>
    decreases count
  {
    if count == 0 then Ok(piece)
    else match Round(stream, pieceId, piece)
      case Fail(e) => Fail(e)
      case Ok((rest, next)) => Assemble(rest, pieceId, next, count - 1)
  }

  /** Assembly never changes the length of the buffer. */
  lemma {:induction false} AssembleLength(stream: bytes, pieceId: int, piece: bytes, count: nat)
    requires Assemble(stream, pieceId, piece, count).Ok?
    ensures |Assemble(stream, pieceId, piece, count).value| == |piece|
    decreases count
  {
    if count > 0 {
      var (rest, next) := Round(stream, pieceId, piece).value;
      AssembleLength(rest, pieceId, next, count - 1);
    }
  }

  /** The assembly loop (cmd/mybittorrent/main.go:333-345) over a zeroed buffer of the piece's length. */
  method AssemblePiece(stream: bytes, pieceId: int, pieceLength: int, count: nat) returns (r: Result<bytes>)
    ensures pieceLength < 0 ==> r == Fail(NegativeLength)
    ensures pieceLength >= 0 ==> r == Assemble(stream, pieceId, Zeros(pieceLength), count)
  {
    if pieceLength < 0 {
      return Fail(NegativeLength);
    }
    var combinedBlockToPiece := new byte[pieceLength](_ => 0);
    assert combinedBlockToPiece[..] == Zeros(pieceLength);
    var rest := stream;
    for i := 0 to count
      invariant Assemble(rest, pieceId, combinedBlockToPiece[..], count - i) == Assemble(stream, pieceId, Zeros(pieceLength), count)
    {
      var frame := WaitFor(rest, PIECE);
      if frame.Fail? {
        return Fail(frame.error);
      }
      var data := frame.value.0;
      rest := frame.value.1;
      var stored := StoreBlock(combinedBlockToPiece, data, pieceId);
      if stored.Fail? {
        return Fail(stored.error);
      }
    }
    return Ok(combinedBlockToPiece[..]);
  }

  /**
   * What download_piece does once the handshake is over (cmd/mybittorrent/main.go:315-354),
   * as a function of the bytes the peer sends: the messages the client writes,
   * and the verified piece or the reason it stopped.
   */
  function Session(pieces: bytes, pieceId: int, pieceLength: int, stream: bytes, sha1: bytes -> bytes): (seq<bytes>, Result<bytes>) {
    match WaitForFrame(stream, BITFIELD)
    case Fail(e) => ([], Fail(e))
    case Ok((_, afterBitfield)) =>
      var interested := [Frame(INTERESTED, [])];
      match WaitForFrame(afterBitfield, UNCHOKE)
      case Fail(e) => (interested, Fail(e))
      case Ok((_, afterUnchoke)) =>
        var hashes := PieceHashes(pieces);
        if pieceId < 0 || pieceId >= |hashes| then (interested, Fail(IndexOutOfRange))
        else
          var sent := interested + Requests(pieceId, pieceLength);
          if pieceLength < 0 then (sent, Fail(NegativeLength))
          else match Assemble(afterUnchoke, pieceId, Zeros(pieceLength), BlockCount(pieceLength))
            case Fail(e) => (sent, Fail(e))
            case Ok(piece) => (sent, if sha1(piece) == hashes[pieceId] then Ok(piece) else Fail(UnequalPieces))
  }

  /** download_piece from the bitfield on; SHA-1 is the parameter `sha1`. */
  method DownloadPiece(pieces: bytes, pieceId: int, pieceLength: int, stream: bytes, sha1: bytes -> bytes)
    returns (sent: seq<bytes>, r: Result<bytes>)
    ensures (sent, r) == Session(pieces, pieceId, pieceLength, stream, sha1)
  {
    sent := [];
    var bitfield := WaitFor(stream, BITFIELD);
    if bitfield.Fail? {
      return sent, Fail(bitfield.error);
    }
    InterestedMessage();
    sent := sent + [[0, 0, 0, 1, 2]];
    assert sent == [Frame(INTERESTED, [])];
    var unchoke := WaitFor(bitfield.value.1, UNCHOKE);
    if unchoke.Fail? {
      return sent, Fail(unchoke.error);
    }
    var piecesMap := GetPieces(pieces);
    if pieceId < 0 || pieceId >= piecesMap.Length {
      return sent, Fail(IndexOutOfRange);
    }
    var pieceHash := piecesMap[pieceId];
    var requests, count := RequestBlocks(pieceId, pieceLength);
    sent := sent + requests;
    var assembled := AssemblePiece(unchoke.value.1, pieceId, pieceLength, count);
    if assembled.Fail? {
      return sent, assembled;
    }
    if sha1(assembled.value) == pieceHash {
      r := Ok(assembled.value);
    } else {
      r := Fail(UnequalPieces);
    }
  }

  /**
   * A piece the session accepts has the piece length and the hash the torrent
   * lists for it, and the client asked for it with one request per block.
   */
  lemma {:induction false} SessionChecked(pieces: bytes, pieceId: int, pieceLength: int, stream: bytes, sha1: bytes -> bytes)
    requires Session(pieces, pieceId, pieceLength, stream, sha1).1.Ok?
    ensures 0 <= pieceId < |PieceHashes(pieces)|
    ensures |Session(pieces, pieceId, pieceLength, stream, sha1).1.value| == pieceLength
    ensures sha1(Session(pieces, pieceId, pieceLength, stream, sha1).1.value) == PieceHashes(pieces)[pieceId]
    ensures Session(pieces, pieceId, pieceLength, stream, sha1).0 == [Frame(INTERESTED, [])] + Requests(pieceId, pieceLength)
  {
    var afterBitfield := WaitForFrame(stream, BITFIELD).value.1;
    var afterUnchoke := WaitForFrame(afterBitfield, UNCHOKE).value.1;
    AssembleLength(afterUnchoke, pieceId, Zeros(pieceLength), BlockCount(pieceLength));
  }

  /** How many bytes of the piece `k` blocks cover. */
  function Filled(k: nat, pieceLength: nat): nat {
    if k * BLOCK_SIZE < pieceLength then k * BLOCK_SIZE else pieceLength
  }

  /** Block `k` of the piece's content: BLOCK_SIZE bytes, or fewer at the end. */
  function BlockOf(content: bytes, k: nat): bytes
    requires k * BLOCK_SIZE <= |content|
  {
    content[k * BLOCK_SIZE..Filled(k + 1, |content|)]
  }

  /** The piece message a peer sends for the block at `begin`. */
  function PieceMessage(pieceId: int, begin: nat, block: bytes): bytes
    requires begin < TWO_32
  {
    Frame(PIECE, BigEndian32(ToUint32(pieceId)) + BigEndian32(begin) + block)
  }

  /** The piece messages of a peer that answers requests `k` to `count - 1` in order, and then the bytes `tail`. */
  function Served(pieceId: int, content: bytes, k: nat, count: nat, tail: bytes): bytes
    requires |content| < TWO_32 && count <= BlockCount(|content|)
    decreases count - k
  {
    if k >= count then tail
    else
      BlockCountCeiling(|content|);
      PieceMessage(pieceId, k * BLOCK_SIZE, BlockOf(content, k)) + Served(pieceId, content, k + 1, count, tail)
  }

  /** The piece after `k` blocks are in: the content up to Filled(k), zero bytes after. */
  function Partial(content: bytes, k: nat): bytes {
    seq(|content|, j requires 0 <= j < |content| => if j < Filled(k, |content|) then content[j] else 0)
  }

  /** The answer to request `k` is read, and storing it puts block `k` in place. */
  lemma {:induction false} ServedRound(pieceId: int, content: bytes, k: nat, tail: bytes)
    requires |content| < TWO_32 && k < BlockCount(|content|)
    ensures
      var count := BlockCount(|content|);
      Round(Served(pieceId, content, k, count, tail), pieceId, Partial(content, k))
        == Ok((Served(pieceId, content, k + 1, count, tail), Partial(content, k + 1)))
  {
    var L := |content|;
    var count := BlockCount(L);
    BlockCountCeiling(L);
    var begin := k * BLOCK_SIZE;
    var block := BlockOf(content, k);
    var payload := BigEndian32(ToUint32(pieceId)) + BigEndian32(begin) + block;
    var rest := Served(pieceId, content, k + 1, count, tail);
    assert Served(pieceId, content, k, count, tail) == Frame(PIECE, payload) + rest;
    WaitForReadsFrame(PIECE, payload, rest);
    StoreWellFormed(Partial(content, k), pieceId, begin, block);
    PartialGrows(content, k);
  }

  /** Copying block `k` into the piece after `k` blocks gives the piece after k + 1 blocks. */
  lemma {:induction false} PartialGrows(content: bytes, k: nat)
    requires k * BLOCK_SIZE < |content|
    ensures CopyAt(Partial(content, k), k * BLOCK_SIZE, BlockOf(content, k)) == Partial(content, k + 1)
  {
    var a := CopyAt(Partial(content, k), k * BLOCK_SIZE, BlockOf(content, k));
    var b := Partial(content, k + 1);
    var begin := k * BLOCK_SIZE;
    assert (k + 1) * BLOCK_SIZE == begin + BLOCK_SIZE;
    assert Filled(k, |content|) == begin;
    assert |BlockOf(content, k)| == Filled(k + 1, |content|) - begin;
    forall j | 0 <= j < |content| ensures a[j] == b[j] {
      if begin <= j < Filled(k + 1, |content|) {
        assert a[j] == BlockOf(content, k)[j - begin];
      }
    }
    assert |a| == |b|;
  }

  /** Before any block, the piece is all zero bytes; after the last, it is the content. */
  lemma {:induction false} PartialEnds(content: bytes)
    ensures Partial(content, 0) == Zeros(|content|)
    ensures Partial(content, BlockCount(|content|)) == content
  {
    var L := |content|;
    var first := Partial(content, 0);
    assert Filled(0, L) == 0;
    forall j | 0 <= j < L ensures first[j] == 0 {
    }
    assert first == Zeros(L);
    if L > 0 {
      BlockCountCeiling(L);
    }
    assert Filled(BlockCount(L), L) == L;
    var last := Partial(content, BlockCount(L));
    forall j | 0 <= j < L ensures last[j] == content[j] {
    }
    assert last == content;
  }

  /** Rounds that each lead from one stream and buffer to the next assemble the last buffer. */
  lemma {:induction false} AssembleRounds(streams: seq<bytes>, pieces: seq<bytes>, pieceId: int, count: nat)
    requires |streams| == |pieces| == count + 1
    requires forall i | 0 <= i < count :: Round(streams[i], pieceId, pieces[i]) == Ok((streams[i + 1], pieces[i + 1]))
    ensures Assemble(streams[0], pieceId, pieces[0], count) == Ok(pieces[count])
    decreases count
  {
    if count > 0 {
      assert Round(streams[0], pieceId, pieces[0]) == Ok((streams[1], pieces[1]));
      AssembleRounds(streams[1..], pieces[1..], pieceId, count - 1);
    }
  }

  /** The streams and buffers between the rounds of assembling a served piece. */
  lemma {:induction false} ServedRounds(pieceId: int, content: bytes, tail: bytes) returns (streams: seq<bytes>, pieces: seq<bytes>)
    requires |content| < TWO_32
    ensures |streams| == |pieces| == BlockCount(|content|) + 1
    ensures streams[0] == Served(pieceId, content, 0, BlockCount(|content|), tail)
    ensures pieces[0] == Partial(content, 0) && pieces[BlockCount(|content|)] == Partial(content, BlockCount(|content|))
    ensures forall i | 0 <= i < BlockCount(|content|) :: Round(streams[i], pieceId, pieces[i]) == Ok((streams[i + 1], pieces[i + 1]))
  {
    var count := BlockCount(|content|);
    streams := seq(count + 1, i requires 0 <= i <= count => Served(pieceId, content, i, count, tail));
    pieces := seq(count + 1, i requires 0 <= i <= count => Partial(content, i));
    forall i | 0 <= i < count
      ensures Round(streams[i], pieceId, pieces[i]) == Ok((streams[i + 1], pieces[i + 1]))
    {
      ServedRound(pieceId, content, i, tail);
      assert streams[i] == Served(pieceId, content, i, count, tail);
    }
  }

  /** Assembly is complete: the answers to all requests, in order, assemble the whole content. */
  lemma {:induction false} AssembleServed(pieceId: int, content: bytes, tail: bytes)
    requires |content| < TWO_32
    ensures Assemble(Served(pieceId, content, 0, BlockCount(|content|), tail), pieceId, Zeros(|content|), BlockCount(|content|))
         == Ok(content)
  {
    var streams, pieces := ServedRounds(pieceId, content, tail);
    AssembleRounds(streams, pieces, pieceId, BlockCount(|content|));
    PartialEnds(content);
  }

  /**
   * A peer that sends a bitfield, an unchoke and then the piece block by block
   * gets the piece accepted exactly when its SHA-1 hash is the listed one.
   */
  lemma {:induction false} SessionServed(pieces: bytes, pieceId: int, content: bytes, bitfield: bytes, tail: bytes, sha1: bytes -> bytes)
    requires 0 <= pieceId < |PieceHashes(pieces)|
    requires |content| < TWO_32 && 1 + |bitfield| < TWO_32
    ensures
      var stream := Frame(BITFIELD, bitfield) + Frame(UNCHOKE, []) + Served(pieceId, content, 0, BlockCount(|content|), tail);
      Session(pieces, pieceId, |content|, stream, sha1).1
        == if sha1(content) == PieceHashes(pieces)[pieceId] then Ok(content) else Fail(UnequalPieces)
  {
    var served := Served(pieceId, content, 0, BlockCount(|content|), tail);
    var afterBitfield := Frame(UNCHOKE, []) + served;
    assert Frame(BITFIELD, bitfield) + Frame(UNCHOKE, []) + Served(pieceId, content, 0, BlockCount(|content|), tail)
        == Frame(BITFIELD, bitfield) + afterBitfield;
    WaitForReadsFrame(BITFIELD, bitfield, afterBitfield);
    WaitForReadsFrame(UNCHOKE, [], served);
    AssembleServed(pieceId, content, tail);
  }
}
