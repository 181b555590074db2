/**
 * The compact peer list a tracker returns (BEP 23): six bytes per peer, the
 * four octets of an IPv4 address and then the port, high byte first. The
 * client prints every peer of the list (cmd/mybittorrent/main.go:232-233) and
 * connects to the first one (cmd/mybittorrent/main.go:305).
 */
module Peers {
  import opened Outcomes
  import opened Bytes

  /** The size of one entry of a compact peer list. */
  const PEER_SIZE: nat := 6

  /** An IPv4 address and a TCP port. */
  datatype Peer = Peer(a: byte, b: byte, c: byte, d: byte, port: nat)

  /** `int(hi)<<8 | int(lo)`: the port from its two bytes (the low byte is below 256, so the `|` adds). */
  function Port(hi: byte, lo: byte): (port: nat)
    ensures port < 0x1_0000
    ensures port / 256 == hi && port % 256 == lo
  {
    hi * 256 + lo
  }

  /** The peer whose six bytes start at index `i`. */
  function PeerAt(s: bytes, i: nat): Peer
    requires i + PEER_SIZE <= |s|
  {
    Peer(s[i], s[i + 1], s[i + 2], s[i + 3], Port(s[i + 4], s[i + 5]))
  }

  /** The peers of every whole 6-byte group, in list order. */
  function WholePeers(s: bytes): seq<Peer> {
    seq(|s| / PEER_SIZE, k requires 0 <= k < |s| / PEER_SIZE => PeerAt(s, PEER_SIZE * k))
  }

  /**
   * The printing loop of the `peers` command: one peer per 6 bytes; a list whose
   * length is not a multiple of 6 panics on the group it cannot complete, after
   * the whole groups before it were printed.
   */
  method ListPeers(s: bytes) returns (printed: seq<Peer>, panic: Option<Error>)
    ensures printed == WholePeers(s)
    ensures panic == if |s| % PEER_SIZE == 0 then None else Some(IndexOutOfRange)
  {
    printed := [];
    var i := 0;
    while i < |s|
      invariant i % PEER_SIZE == 0 && i <= |s|
      invariant printed == WholePeers(s)[..i / PEER_SIZE]
      decreases |s| - i
    {
      if i + PEER_SIZE > |s| {
        assert printed == WholePeers(s);
        return printed, Some(IndexOutOfRange);
      }
      printed := printed + [Peer(s[i], s[i + 1], s[i + 2], s[i + 3], Port(s[i + 4], s[i + 5]))];
      i := i + PEER_SIZE;
    }
    assert printed == WholePeers(s);
    panic := None;
  }

  /** The address the `download_piece` command dials: the first peer of the list. */
  function FirstPeer(s: bytes): Result<Peer> {
    if |s| < PEER_SIZE then Fail(IndexOutOfRange) else Ok(PeerAt(s, 0))
  }

  /** The first peer dialled is the first peer printed, and there is one exactly when six bytes are present. */
  lemma {:induction false} FirstPeerIsFirst(s: bytes)
    ensures FirstPeer(s).Ok? <==> WholePeers(s) != []
    ensures FirstPeer(s).Ok? ==> FirstPeer(s).value == WholePeers(s)[0]
  {
    if |s| >= PEER_SIZE {
      assert WholePeers(s)[0] == PeerAt(s, 0);
    }
  }

  /** The six bytes of a peer. */
  function EncodePeer(p: Peer): bytes
    requires p.port < 0x1_0000
  {
    [p.a, p.b, p.c, p.d, p.port / 256, p.port % 256]
  }

  /** The compact list of the peers, six bytes each. */
  function EncodePeers(ps: seq<Peer>): bytes
    requires forall k | 0 <= k < |ps| :: ps[k].port < 0x1_0000
  {
    if ps == [] then [] else EncodePeers(ps[..|ps| - 1]) + EncodePeer(ps[|ps| - 1])
  }

  /** Decoding an encoded list gives back the peers. */
  lemma {:induction false} WholePeersEncoded(ps: seq<Peer>)
    requires forall k | 0 <= k < |ps| :: ps[k].port < 0x1_0000
    ensures |EncodePeers(ps)| == PEER_SIZE * |ps|
    ensures WholePeers(EncodePeers(ps)) == ps
    decreases |ps|
  {
    if ps != [] {
      var init := ps[..|ps| - 1];
      WholePeersEncoded(init);
      var s := EncodePeers(ps);
      assert s == EncodePeers(init) + EncodePeer(ps[|ps| - 1]);
      forall k | 0 <= k < |ps| ensures WholePeers(s)[k] == ps[k] {
        if k < |ps| - 1 {
          assert WholePeers(EncodePeers(init))[k] == init[k];
        }
      }
    }
  }

  /** Encoding the decoded peers gives back the list, without its trailing partial group. */
  lemma {:induction false} EncodedWholePeers(s: bytes)
    ensures EncodePeers(WholePeers(s)) == s[..|s| - |s| % PEER_SIZE]
  {
    var n := |s| / PEER_SIZE;
    EncodedPrefix(s, n);
    assert WholePeers(s)[..n] == WholePeers(s);
  }

  /** The first `n` peers encode to the first 6n bytes. */
  lemma {:induction false} EncodedPrefix(s: bytes, n: nat)
    requires n <= |s| / PEER_SIZE
    ensures EncodePeers(WholePeers(s)[..n]) == s[..PEER_SIZE * n]
    decreases n
  {
    if n > 0 {
      var ps := WholePeers(s)[..n];
      assert ps[..n - 1] == WholePeers(s)[..n - 1];
      EncodedPrefix(s, n - 1);
      var i := PEER_SIZE * (n - 1);
      assert EncodePeer(ps[n - 1]) == s[i..i + PEER_SIZE];
      assert s[..i] + s[i..i + PEER_SIZE] == s[..PEER_SIZE * n];
    }
  }
}
