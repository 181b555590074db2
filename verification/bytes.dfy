/** Bytes, the ASCII tags of bencoding, and 32-bit big-endian integers. */
module Bytes {
  import opened Outcomes

  type byte = x: int | 0 <= x < 256
  type bytes = seq<byte>
  type uint32 = x: int | 0 <= x < 0x1_0000_0000

  const TWO_32: int := 0x1_0000_0000

  const COLON: byte := 58   // ':'
  const MINUS: byte := 45   // '-'
  const PLUS: byte := 43    // '+'
  const ZERO: byte := 48    // '0'
  const TAG_D: byte := 100  // 'd'
  const TAG_E: byte := 101  // 'e'
  const TAG_I: byte := 105  // 'i'
  const TAG_L: byte := 108  // 'l'

  /** unicode.IsDigit on a rune below 256 holds exactly for '0'..'9'. */
  predicate IsDigit(b: byte) {
    48 <= b <= 57
  }

  /** The bytes of an ASCII text. */
  function Ascii(s: string): bytes
    requires forall k | 0 <= k < |s| :: s[k] as int < 256
  {
    seq(|s|, k requires 0 <= k < |s| => s[k] as int)
  }

  /** The conversion uint32(x) of Go: the low 32 bits of a two's-complement integer. */
  function ToUint32(x: int): uint32 {
    x % TWO_32
  }

  /**
   * The first index at or after `from` that holds `b`: the search loops of
   * decodeString (for ':') and decodeInteger (for 'e').
   */
  function FindByte(s: bytes, from: nat, b: byte): (r: Option<nat>)
    decreases |s| - from
    ensures r.Some? ==> from <= r.value < |s| && s[r.value] == b
  {
    if from >= |s| then None
    else if s[from] == b then Some(from)
    else FindByte(s, from + 1, b)
  }

  /** The search finds the first occurrence from `from` on, and finds nothing only when there is none. */
  lemma {:induction false} FindByteFirst(s: bytes, from: nat, b: byte)
    decreases |s| - from
    ensures FindByte(s, from, b).Some? ==> forall k | from <= k < FindByte(s, from, b).value :: s[k] != b
    ensures FindByte(s, from, b).None? <==> forall k | from <= k < |s| :: s[k] != b
  {
    if from < |s| && s[from] != b {
      FindByteFirst(s, from + 1, b);
    }
  }

  /** binary.BigEndian.PutUint32: most significant byte first. */
  function BigEndian32(x: uint32): (r: bytes) {
    [x / 0x100_0000, (x / 0x1_0000) % 256, (x / 0x100) % 256, x % 256]
  }

  /** binary.BigEndian.Uint32 of the first four bytes. */
  function ReadBigEndian32(b: bytes): uint32
    requires |b| >= 4
  {
    (b[0] as int) * 0x100_0000 + (b[1] as int) * 0x1_0000 + (b[2] as int) * 0x100 + b[3]
  }

  /** Reading back a written 32-bit integer gives the integer. */
  lemma {:induction false} BigEndian32RoundTrip(x: uint32)
    ensures |BigEndian32(x)| == 4
    ensures ReadBigEndian32(BigEndian32(x)) == x
  {
    var q1 := x / 0x100;
    var q2 := q1 / 0x100;
    var q3 := q2 / 0x100;
    assert x == q1 * 0x100 + x % 0x100;
    assert q1 == q2 * 0x100 + q1 % 0x100;
    assert q2 == q3 * 0x100 + q2 % 0x100;
    assert x / 0x1_0000 == q2;
    assert x / 0x100_0000 == q3;
  }

  /** Writing back four read bytes gives the bytes. */
  lemma {:induction false} ReadBigEndian32RoundTrip(b: bytes)
    requires |b| >= 4
    ensures BigEndian32(ReadBigEndian32(b)) == b[..4]
  {
    var x := ReadBigEndian32(b);
    var hi2 := (b[0] as int) * 0x100 + b[1];
    var hi3 := hi2 * 0x100 + b[2];
    assert x == hi3 * 0x100 + b[3];
    assert x == hi2 * 0x1_0000 + (b[2] as int * 0x100 + b[3]);
    assert x == (b[0] as int) * 0x100_0000 + (hi2 % 0x100 * 0x1_0000 + b[2] as int * 0x100 + b[3]) by {
      DividedBy(hi2, 0x100, b[0] as int, b[1] as int);
    }
    DividedBy(x, 0x100, hi3, b[3] as int);
    DividedBy(hi3, 0x100, hi2, b[2] as int);
    DividedBy(x, 0x1_0000, hi2, b[2] as int * 0x100 + b[3]);
    DividedBy(hi2, 0x100, b[0] as int, b[1] as int);
    DividedBy(x, 0x100_0000, b[0] as int, b[1] as int * 0x1_0000 + b[2] as int * 0x100 + b[3]);
    assert BigEndian32(x) == [b[0], b[1], b[2], b[3]];
  }

  /** Euclidean division of `q * d + r` by `d`, for a remainder below `d`. */
  lemma {:induction false} DividedBy(x: int, d: int, q: int, r: int)
    requires d == 0x100 || d == 0x1_0000 || d == 0x100_0000
    requires 0 <= r < d && x == q * d + r
    ensures x / d == q && x % d == r
  {
    if d == 0x100 {
      assert x == q * 0x100 + r;
    } else if d == 0x1_0000 {
      assert x == q * 0x1_0000 + r;
    } else {
      assert x == q * 0x100_0000 + r;
    }
  }

  /** `w` occurs in `s` from index `j` on. */
  predicate Occurs(s: bytes, j: nat, w: bytes) {
    OccursFrom(s, j, w, 0)
  }

  /**
   * The bytes of `w` from its index `k` on lie in `s` from index `j + k` on,
   * checked one index at a time so that a proof sees only the bytes it unfolds.
   */
  predicate OccursFrom(s: bytes, j: nat, w: bytes, k: nat)
    decreases |w| - k
  {
    j + |w| <= |s| && k <= |w| && (k == |w| || (s[j + k] == w[k] && OccursFrom(s, j, w, k + 1)))
  }

  /** OccursFrom is the byte-by-byte agreement. */
  lemma {:induction false} OccursFromAll(s: bytes, j: nat, w: bytes, k: nat)
    ensures OccursFrom(s, j, w, k)
      <==> j + |w| <= |s| && k <= |w| && forall m | k <= m < |w| :: s[j + m] == w[m]
    decreases |w| - k
  {
    if j + |w| <= |s| && k < |w| {
      OccursFromAll(s, j, w, k + 1);
    }
  }

  /** Occurs is the slice equality. */
  lemma {:induction false} OccursSlice(s: bytes, j: nat, w: bytes)
    ensures Occurs(s, j, w) <==> j + |w| <= |s| && s[j..j + |w|] == w
  {
    OccursFromAll(s, j, w, 0);
    if j + |w| <= |s| {
      var window := s[j..j + |w|];
      assert |window| == |w|;
      assert (forall m | 0 <= m < |w| :: s[j + m] == w[m]) <==> window == w by {
        assert forall m | 0 <= m < |w| :: window[m] == s[j + m];
      }
    }
  }

  /** The whole of `s` occurs in `s` at 0. */
  lemma {:induction false} OccursWhole(s: bytes)
    ensures Occurs(s, 0, s)
  {
    OccursFromAll(s, 0, s, 0);
  }

  /** `a + b` occurs at `j` exactly when `a` does and `b` follows it. */
  lemma {:induction false} OccursAppend(s: bytes, j: nat, a: bytes, b: bytes)
    ensures Occurs(s, j, a + b) <==> Occurs(s, j, a) && Occurs(s, j + |a|, b)
  {
    var w := a + b;
    OccursFromAll(s, j, w, 0);
    OccursFromAll(s, j, a, 0);
    OccursFromAll(s, j + |a|, b, 0);
    if Occurs(s, j, a) && Occurs(s, j + |a|, b) {
      forall m | 0 <= m < |w| ensures s[j + m] == w[m] {
        if m >= |a| {
          assert s[j + |a| + (m - |a|)] == b[m - |a|];
        }
      }
    }
    if Occurs(s, j, w) {
      forall m | 0 <= m < |b| ensures s[j + |a| + m] == b[m] {
        assert s[j + (|a| + m)] == w[|a| + m];
      }
      forall m | 0 <= m < |a| ensures s[j + m] == a[m] {
        assert s[j + m] == w[m];
      }
    }
  }

  /** A byte of an occurrence. */
  lemma {:induction false} OccursIndex(s: bytes, j: nat, w: bytes, k: nat)
    requires Occurs(s, j, w) && k < |w|
    ensures s[j + k] == w[k]
  {
    OccursFromAll(s, j, w, 0);
  }

  /** A `w` that is `[x] + c + [y]`, at `j`: x, then c, then y. */
  lemma {:induction false} OccursFramedAs(s: bytes, j: nat, w: bytes, x: byte, c: bytes, y: byte)
    requires Occurs(s, j, w) && w == [x] + c + [y]
    ensures j + |c| + 2 <= |s| && s[j] == x && Occurs(s, j + 1, c) && s[j + 1 + |c|] == y
  {
    OccursFramed(s, j, x, c, y);
  }

  /** `[x] + c + [y]` at `j`: x, then c, then y. */
  lemma {:induction false} OccursFramed(s: bytes, j: nat, x: byte, c: bytes, y: byte)
    requires Occurs(s, j, [x] + c + [y])
    ensures j + |c| + 2 <= |s| && s[j] == x && Occurs(s, j + 1, c) && s[j + 1 + |c|] == y
  {
    OccursAppend(s, j, [x] + c, [y]);
    OccursAppend(s, j, [x], c);
    OccursIndex(s, j, [x], 0);
    OccursIndex(s, j + 1 + |c|, [y], 0);
  }

  /** Appending three pieces one by one or all at once gives the same bytes. */
  lemma {:induction false} AppendThree(a: bytes, b: bytes, c: bytes, d: bytes)
    ensures a + b + c + d == a + (b + c + d)
  {
  }

  /** Appending two pieces one by one or at once gives the same bytes. */
  lemma {:induction false} AppendTwo(a: bytes, b: bytes, c: bytes)
    ensures a + b + c == a + (b + c)
  {
  }
}
