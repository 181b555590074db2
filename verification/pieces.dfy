/**
 * getPieces of cmd/mybittorrent/main.go: the `pieces` string of a torrent is
 * the SHA-1 hashes of its pieces, 20 bytes each, one after the other.
 */
module Pieces {
  import opened Bytes

  /** The size of one SHA-1 hash. */
  const HASH_SIZE: nat := 20

  /** The hashes getPieces cuts out of `p`: one per whole 20 bytes, in order. */
  function PieceHashes(p: bytes): seq<bytes> {
    seq(|p| / HASH_SIZE, i requires 0 <= i < |p| / HASH_SIZE => p[HASH_SIZE * i..HASH_SIZE * i + HASH_SIZE])
  }

  /** The hashes written one after the other. */
  function Joined(hashes: seq<bytes>): bytes {
    if hashes == [] then [] else Joined(hashes[..|hashes| - 1]) + hashes[|hashes| - 1]
  }

  /** getPieces (cmd/mybittorrent/main.go:362-371): fills a slice of len(pieces)/20 strings. */
  method GetPieces(pieces: bytes) returns (piecesMap: array<bytes>)
    ensures fresh(piecesMap)
    ensures piecesMap.Length == |pieces| / HASH_SIZE
    ensures forall i | 0 <= i < piecesMap.Length ::
      piecesMap[i] == pieces[HASH_SIZE * i..HASH_SIZE * i + HASH_SIZE]
    ensures piecesMap[..] == PieceHashes(pieces)
  {
    piecesMap := new bytes[|pieces| / HASH_SIZE];
    for i := 0 to |pieces| / HASH_SIZE
      invariant forall k | 0 <= k < i :: piecesMap[k] == pieces[HASH_SIZE * k..HASH_SIZE * k + HASH_SIZE]
    {
      piecesMap[i] := pieces[i * HASH_SIZE..i * HASH_SIZE + HASH_SIZE];
    }
  }

  /** Joining the hashes gives back every byte of `p` but the trailing remainder. */
  lemma {:induction false} JoinedPieceHashes(p: bytes)
    ensures Joined(PieceHashes(p)) == p[..|p| - |p| % HASH_SIZE]
  {
    var n := |p| / HASH_SIZE;
    JoinedPrefix(p, n);
    assert PieceHashes(p)[..n] == PieceHashes(p);
  }

  /** The first `n` hashes join to the first 20n bytes. */
  lemma {:induction false} JoinedPrefix(p: bytes, n: nat)
    requires n <= |p| / HASH_SIZE
    ensures Joined(PieceHashes(p)[..n]) == p[..HASH_SIZE * n]
    decreases n
  {
    if n > 0 {
      var hs := PieceHashes(p)[..n];
      assert hs[..n - 1] == PieceHashes(p)[..n - 1];
      JoinedPrefix(p, n - 1);
      assert hs[n - 1] == p[HASH_SIZE * (n - 1)..HASH_SIZE * n];
      assert p[..HASH_SIZE * (n - 1)] + p[HASH_SIZE * (n - 1)..HASH_SIZE * n] == p[..HASH_SIZE * n];
    }
  }

  /** Cutting joined 20-byte hashes gives them back. */
  lemma {:induction false} PieceHashesJoined(hashes: seq<bytes>)
    requires forall k | 0 <= k < |hashes| :: |hashes[k]| == HASH_SIZE
    ensures PieceHashes(Joined(hashes)) == hashes
  {
    var p := Joined(hashes);
    JoinedLength(hashes);
    forall i | 0 <= i < |hashes| ensures PieceHashes(p)[i] == hashes[i] {
      JoinedSlice(hashes, i);
    }
  }

  /** Joined 20-byte hashes take 20 bytes each. */
  lemma {:induction false} JoinedLength(hashes: seq<bytes>)
    requires forall k | 0 <= k < |hashes| :: |hashes[k]| == HASH_SIZE
    ensures |Joined(hashes)| == HASH_SIZE * |hashes|
    decreases |hashes|
  {
    if hashes != [] {
      JoinedLength(hashes[..|hashes| - 1]);
    }
  }

  /** Hash `i` sits at bytes 20i .. 20i+20 of the joined hashes. */
  lemma {:induction false} JoinedSlice(hashes: seq<bytes>, i: nat)
    requires forall k | 0 <= k < |hashes| :: |hashes[k]| == HASH_SIZE
    requires i < |hashes|
    ensures |Joined(hashes)| == HASH_SIZE * |hashes|
    ensures Joined(hashes)[HASH_SIZE * i..HASH_SIZE * i + HASH_SIZE] == hashes[i]
    decreases |hashes|
  {
    var init := hashes[..|hashes| - 1];
    JoinedLength(hashes);
    JoinedLength(init);
    var p := Joined(hashes);
    assert p == Joined(init) + hashes[|hashes| - 1];
    if i < |hashes| - 1 {
      JoinedSlice(init, i);
      assert p[HASH_SIZE * i..HASH_SIZE * i + HASH_SIZE] == Joined(init)[HASH_SIZE * i..HASH_SIZE * i + HASH_SIZE];
    } else {
      assert p[HASH_SIZE * i..] == hashes[i];
    }
  }

  /** A trailing remainder shorter than a hash is ignored. */
  lemma {:induction false} RemainderIgnored(p: bytes, rest: bytes)
    requires |p| % HASH_SIZE == 0 && |rest| < HASH_SIZE
    ensures PieceHashes(p + rest) == PieceHashes(p)
  {
    var q := p + rest;
    assert |q| / HASH_SIZE == |p| / HASH_SIZE;
    forall i | 0 <= i < |p| / HASH_SIZE
      ensures q[HASH_SIZE * i..HASH_SIZE * i + HASH_SIZE] == p[HASH_SIZE * i..HASH_SIZE * i + HASH_SIZE]
    {
      assert HASH_SIZE * i + HASH_SIZE <= |p|;
    }
  }
}
