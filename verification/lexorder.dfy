/**
 * The order of sort.Strings: byte-wise lexicographic, a proper prefix first.
 * The sort itself is an insertion sort; any two sorted arrangements of the same
 * keys are equal, so the order in which a Go map hands out its keys never shows.
 */
module LexOrder {
  import opened Bytes

  predicate LexLe(a: bytes, b: bytes)
    decreases |a|
  {
    |a| == 0 || (|b| > 0 && (a[0] < b[0] || (a[0] == b[0] && LexLe(a[1..], b[1..]))))
  }

  lemma {:induction false} LexLeTotal(a: bytes, b: bytes)
    ensures LexLe(a, b) || LexLe(b, a)
    decreases |a|
  {
    if |a| > 0 && |b| > 0 && a[0] == b[0] {
      LexLeTotal(a[1..], b[1..]);
    }
  }

  lemma {:induction false} LexLeReflexive(a: bytes)
    ensures LexLe(a, a)
    decreases |a|
  {
    if |a| > 0 {
      LexLeReflexive(a[1..]);
    }
  }

  lemma {:induction false} LexLeAntisymmetric(a: bytes, b: bytes)
    requires LexLe(a, b) && LexLe(b, a)
    ensures a == b
    decreases |a|
  {
    if |a| > 0 {
      LexLeAntisymmetric(a[1..], b[1..]);
      assert a == [a[0]] + a[1..] && b == [b[0]] + b[1..];
    }
  }

  lemma {:induction false} LexLeTransitive(a: bytes, b: bytes, c: bytes)
    requires LexLe(a, b) && LexLe(b, c)
    ensures LexLe(a, c)
    decreases |a|
  {
    if |a| > 0 && a[0] == b[0] && b[0] == c[0] {
      LexLeTransitive(a[1..], b[1..], c[1..]);
    }
  }

  predicate Sorted(xs: seq<bytes>) {
    forall p, q {:trigger LexLe(xs[p], xs[q])} | 0 <= p < q < |xs| :: LexLe(xs[p], xs[q])
  }

  /** Inserts `x` into a sorted sequence, before the first element it does not exceed. */
  function Insert(x: bytes, xs: seq<bytes>): (r: seq<bytes>)
    requires Sorted(xs)
    ensures Sorted(r) && multiset(r) == multiset(xs) + multiset{x}
  {
    if xs == [] then [x]
    else if LexLe(x, xs[0]) then InsertFront(x, xs); [x] + xs
    else
      var rest := Insert(x, xs[1..]);
      LexLeTotal(x, xs[0]);
      InsertBehind(x, xs, rest);
      [xs[0]] + rest
  }

  lemma {:induction false} InsertFront(x: bytes, xs: seq<bytes>)
    requires Sorted(xs) && xs != [] && LexLe(x, xs[0])
    ensures Sorted([x] + xs)
  {
    var ys := [x] + xs;
    forall p, q | 0 <= p < q < |ys| ensures LexLe(ys[p], ys[q]) {
      if p == 0 && q > 1 {
        LexLeTransitive(x, xs[0], ys[q]);
      }
    }
  }

  lemma {:induction false} InsertBehind(x: bytes, xs: seq<bytes>, rest: seq<bytes>)
    requires Sorted(xs) && xs != [] && LexLe(xs[0], x)
    requires Sorted(rest) && multiset(rest) == multiset(xs[1..]) + multiset{x}
    ensures Sorted([xs[0]] + rest)
    ensures multiset([xs[0]] + rest) == multiset(xs) + multiset{x}
  {
    forall q | 0 <= q < |rest| ensures LexLe(xs[0], rest[q]) {
      assert rest[q] in multiset(rest);
      if rest[q] != x {
        assert rest[q] in multiset(xs[1..]);
        var p :| 0 <= p < |xs[1..]| && xs[1..][p] == rest[q];
        assert xs[p + 1] == rest[q];
      }
    }
    assert xs == [xs[0]] + xs[1..];
  }

  /** sort.Strings, as an insertion sort. */
  function SortStrings(xs: seq<bytes>): (r: seq<bytes>)
    ensures Sorted(r) && multiset(r) == multiset(xs)
  {
    if xs == [] then []
    else
      assert xs == [xs[0]] + xs[1..];
      Insert(xs[0], SortStrings(xs[1..]))
  }

  /** Two sorted arrangements of the same multiset are one and the same sequence. */
  lemma {:induction false} SortedUnique(a: seq<bytes>, b: seq<bytes>)
    requires Sorted(a) && Sorted(b) && multiset(a) == multiset(b)
    ensures a == b
    decreases |a|
  {
    if a != [] {
      assert |b| == |a| by { assert |multiset(a)| == |multiset(b)|; }
      assert a[0] == b[0] by {
        assert a[0] in multiset(b);
        var k :| 0 <= k < |b| && b[k] == a[0];
        assert b[0] in multiset(a);
        var m :| 0 <= m < |a| && a[m] == b[0];
        assert LexLe(a[0], b[0]) by {
          if m > 0 { assert LexLe(a[0], a[m]); } else { LexLeReflexive(a[0]); }
        }
        assert LexLe(b[0], a[0]) by {
          if k > 0 { assert LexLe(b[0], b[k]); } else { LexLeReflexive(b[0]); }
        }
        LexLeAntisymmetric(a[0], b[0]);
      }
      assert multiset(a[1..]) == multiset(b[1..]) by {
        assert a == [a[0]] + a[1..] && b == [b[0]] + b[1..];
        assert multiset(a) == multiset{a[0]} + multiset(a[1..]);
        assert multiset(b) == multiset{b[0]} + multiset(b[1..]);
        forall z ensures multiset(a[1..])[z] == multiset(b[1..])[z] {
          assert multiset(a)[z] == multiset(b)[z];
        }
      }
      SortedTail(a);
      SortedTail(b);
      SortedUnique(a[1..], b[1..]);
      assert a == [a[0]] + a[1..] && b == [b[0]] + b[1..];
    }
  }

  /** Dropping the first string keeps a sequence sorted. */
  lemma {:induction false} SortedTail(a: seq<bytes>)
    requires a != [] && Sorted(a)
    ensures Sorted(a[1..])
  {
    forall p, q | 0 <= p < q < |a| - 1 ensures LexLe(a[1..][p], a[1..][q]) {
      assert LexLe(a[p + 1], a[q + 1]);
    }
  }

  /** Sorting depends only on which strings there are, not on their order. */
  lemma {:induction false} SortStringsCanonical(xs: seq<bytes>, ys: seq<bytes>)
    requires multiset(xs) == multiset(ys)
    ensures SortStrings(xs) == SortStrings(ys)
  {
    SortedUnique(SortStrings(xs), SortStrings(ys));
  }
}
