/**
 * The decoder of cmd/mybittorrent/main.go read against its encoder: what the
 * decoder gives back for the bytes the encoder writes, with the decoder's own
 * position conventions.
 */
module RoundTrip {
  import opened Outcomes
  import opened Bytes
  import opened Numbers
  import opened Values
  import opened Decoder
  import opened Encoder

  /** Values the encoder writes completely and Atoi can read back: no map anywhere. */
  predicate Encodable(v: Value) {
    match v
    case Str(t) => |t| <= MAX_INT64
    case Int(n) => InInt64(n)
    case List(xs) => forall k | 0 <= k < |xs| :: Encodable(xs[k])
    case Dict(_) => false
  }

  /**
   * What the encoder writes for a value without maps: bencodeString,
   * bencodeInteger, or 'l', the elements one after the other, 'e'.
   */
  function Encoding(v: Value): bytes
    decreases v, 1
  {
    match v
    case Str(t) => BencodeString(t)
    case Int(n) => BencodeInteger(n)
    case List(xs) => [TAG_L] + Concat(xs) + [TAG_E]
    case Dict(_) => []
  }

  /** The encodings of the elements, one after the other. */
  function Concat(items: seq<Value>): bytes
    decreases items, 0
  {
    if items == [] then [] else Encoding(items[0]) + Concat(items[1..])
  }

  /** Without maps, bencodeList writes exactly the concatenation of the elements. */
  lemma {:induction false} ItemsAfterConcat(done: bytes, items: seq<Value>)
    requires forall k | 0 <= k < |items| :: Encodable(items[k])
    ensures ItemsAfter(done, items) == Some(done + Concat(items))
    decreases items, 0
  {
    if items != [] {
      var head := Encoding(items[0]);
      assert ItemsAfter(done, items) == ItemsAfter(done + head, items[1..]) by {
        assert Encodable(items[0]);
        if items[0].List? {
          EncodeListShape(items[0].items);
        }
      }
      assert ItemsAfter(done + head, items[1..]) == Some(done + head + Concat(items[1..])) by {
        assert forall k | 0 <= k < |items[1..]| :: items[1..][k] == items[k + 1];
        ItemsAfterConcat(done + head, items[1..]);
      }
      AppendTwo(done, head, Concat(items[1..]));
    } else {
      assert done + Concat(items) == done;
    }
  }

  /** bencodeList over elements without maps writes their encoding as a list. */
  lemma {:induction false} EncodeListShape(items: seq<Value>)
    requires forall k | 0 <= k < |items| :: Encodable(items[k])
    ensures EncodeList(items) == Encoding(List(items))
    decreases items, 1
  {
    ItemsAfterConcat([TAG_L], items);
  }

  /** What bencode writes for a value without maps is its encoding. */
  lemma {:induction false} ValueBytesEncoding(v: Value)
    requires Encodable(v)
    ensures ValueBytes(v) == Ok(Encoding(v))
  {
    if v.List? {
      EncodeListShape(v.items);
    }
  }

  /** The search loop stops at the first occurrence. */
  lemma {:induction false} FindByteAt(s: bytes, from: nat, pos: nat, b: byte)
    requires from <= pos < |s| && s[pos] == b
    requires forall k | from <= k < pos :: s[k] != b
    ensures FindByte(s, from, b) == Some(pos)
    decreases pos - from
  {
    if from < pos {
      FindByteAt(s, from + 1, pos, b);
    }
  }

  /** Decoding the bytes of bencodeString(t) placed at `i`: t, and the index of its last byte. */
  lemma {:induction false} StringAtEncoded(s: bytes, i: nat, t: bytes)
    requires |t| <= MAX_INT64 && Occurs(s, i, BencodeString(t))
    ensures IsDigit(s[i])
    ensures StringAt(i, s) == Ok((t, i + |BencodeString(t)| - 1))
  {
    var dec := Decimal(|t|);
    var colon := i + |dec|;
    assert Occurs(s, i, dec) && Occurs(s, colon, [COLON]) && Occurs(s, colon + 1, t) by {
      OccursAppend(s, i, dec + [COLON], t);
      OccursAppend(s, i, dec, [COLON]);
    }
    assert |dec| >= 1 && AllDigits(dec) && Atoi(dec) == Some(|t|) by {
      DecimalDigits(|t|);
      AtoiItoa(|t|);
      assert Itoa(|t|) == dec;
    }
    assert s[colon] == COLON by {
      OccursIndex(s, colon, [COLON], 0);
    }
    assert IsDigit(s[i]) by {
      OccursIndex(s, i, dec, 0);
    }
    assert FindByte(s, i, COLON) == Some(colon) by {
      forall k | i <= k < colon ensures s[k] != COLON {
        OccursIndex(s, i, dec, k - i);
      }
      FindByteAt(s, i, colon, COLON);
    }
    assert s[i..colon] == dec by {
      OccursSlice(s, i, dec);
    }
    assert colon + 1 + |t| <= |s| && s[colon + 1..colon + 1 + |t|] == t by {
      OccursSlice(s, colon + 1, t);
    }
  }

  /** Decoding the bytes of bencodeInteger(n) placed at `i`: n, and the byte count. */
  lemma {:induction false} IntegerAtEncoded(s: bytes, i: nat, n: int)
    requires InInt64(n) && Occurs(s, i, BencodeInteger(n))
    ensures s[i] == TAG_I
    ensures IntegerAt(i, s) == Ok((n, |BencodeInteger(n)|))
  {
    var text := Itoa(n);
    var e := i + |text| + 1;
    ItoaText(n);
    AtoiItoa(n);
    OccursFramed(s, i, TAG_I, text, TAG_E);
    assert s[i + 1..e] == text by {
      OccursSlice(s, i + 1, text);
    }
    forall k | i <= k < e ensures s[k] != TAG_E {
      if k > i {
        OccursIndex(s, i + 1, text, k - i - 1);
      }
    }
    FindByteAt(s, i, e, TAG_E);
  }

  /**
   * The encodings of `rest` lie one after the other in `s` from index `j`,
   * and the 'e' that closes them is at index `e`.
   */
  predicate BodyAt(s: bytes, j: nat, e: nat, rest: seq<Value>)
    decreases rest
  {
    j <= e < |s| &&
    if rest == [] then j == e && s[e] == TAG_E
    else EncodedAt(s, j, rest[0]) && BodyAt(s, j + |Encoding(rest[0])|, e, rest[1..])
  }

  /** The encoding of `v` sits in `s` at `j`. */
  predicate EncodedAt(s: bytes, j: nat, v: Value) {
    Encodable(v) && Occurs(s, j, Encoding(v))
  }

  /** The concatenated encodings followed by 'e' lie in `s` element by element. */
  lemma {:induction false} ConcatLaid(s: bytes, j: nat, e: nat, rest: seq<Value>)
    requires forall k | 0 <= k < |rest| :: Encodable(rest[k])
    requires e == j + |Concat(rest)| < |s| && Occurs(s, j, Concat(rest)) && s[e] == TAG_E
    ensures BodyAt(s, j, e, rest)
    decreases rest
  {
    if rest != [] {
      ConcatFirst(s, j, e, rest);
      ConcatLaid(s, j + |Encoding(rest[0])|, e, rest[1..]);
    }
  }

  /** The first encoding of a non-empty concatenation, and the concatenation of the others after it. */
  lemma {:induction false} ConcatFirst(s: bytes, j: nat, e: nat, rest: seq<Value>)
    requires rest != [] && forall k | 0 <= k < |rest| :: Encodable(rest[k])
    requires Occurs(s, j, Concat(rest))
    ensures EncodedAt(s, j, rest[0])
    ensures forall k | 0 <= k < |rest[1..]| :: Encodable(rest[1..][k])
    ensures |Concat(rest)| == |Encoding(rest[0])| + |Concat(rest[1..])|
    ensures Occurs(s, j + |Encoding(rest[0])|, Concat(rest[1..]))
  {
    OccursAppend(s, j, Encoding(rest[0]), Concat(rest[1..]));
    forall k | 0 <= k < |rest[1..]| ensures Encodable(rest[1..][k]) {
      assert rest[1..][k] == rest[k + 1];
    }
  }

  /**
   * The loop of decodeList over the encodings of `rest` followed by 'e': it
   * appends exactly `rest` and stops at that 'e'.
   */
  lemma {:induction false} ListFromEncoded(s: bytes, i: nat, j: nat, e: nat, acc: seq<Value>, rest: seq<Value>)
    requires i < j && BodyAt(s, j, e, rest)
    ensures ListFrom(i, j, s, acc) == Ok((acc + rest, e - i))
    decreases rest, 1
  {
    if rest == [] {
      ListFromClose(s, i, j, acc);
      assert acc + rest == acc;
    } else {
      ListFromEncodedCons(s, i, j, e, acc, rest);
    }
  }

  /** ListFromEncoded for a non-empty `rest`: decode its head, then the others. */
  lemma {:induction false} ListFromEncodedCons(s: bytes, i: nat, j: nat, e: nat, acc: seq<Value>, rest: seq<Value>)
    requires i < j && rest != [] && BodyAt(s, j, e, rest)
    ensures ListFrom(i, j, s, acc) == Ok((acc + rest, e - i))
    decreases rest, 0
  {
    var next := j + |Encoding(rest[0])|;
    ElementStep(s, i, j, acc, rest[0]);
    ListFromEncoded(s, i, next, e, acc + [rest[0]], rest[1..]);
    assert acc + [rest[0]] + rest[1..] == acc + rest;
  }

  /** decodeList meeting 'e' after its first byte: the list so far, and the distance. */
  lemma {:induction false} ListFromClose(s: bytes, i: nat, j: nat, acc: seq<Value>)
    requires i < j < |s| && s[j] == TAG_E
    ensures ListFrom(i, j, s, acc) == Ok((acc, j - i))
  {
    assert !IsDigit(s[j]);
  }

  /** One element of decodeList's loop: the encoding of `v` at `j` appends `v` and skips it. */
  lemma {:induction false} ElementStep(s: bytes, i: nat, j: nat, acc: seq<Value>, v: Value)
    requires i < j && EncodedAt(s, j, v)
    ensures ListFrom(i, j, s, acc) == ListFrom(i, j + |Encoding(v)|, s, acc + [v])
    decreases v
  {
    match v
    case Str(t) =>
      StringStep(s, i, j, acc, t);
    case Int(n) =>
      IntegerStep(s, i, j, acc, n);
    case List(xs) =>
      ListStep(s, i, j, acc, xs);
  }

  /** decodeList meeting an encoded nested list: the nested list is appended and skipped. */
  lemma {:induction false} ListStep(s: bytes, i: nat, j: nat, acc: seq<Value>, xs: seq<Value>)
    requires i < j && EncodedAt(s, j, List(xs))
    ensures ListFrom(i, j, s, acc) == ListFrom(i, j + |Encoding(List(xs))|, s, acc + [List(xs)])
    decreases xs, 3
  {
    var e := j + 1 + |Concat(xs)|;
    assert s[j] == TAG_L && |Encoding(List(xs))| == |Concat(xs)| + 2 && BodyAt(s, j + 1, e, xs) by {
      NestedLaid(s, j, xs);
    }
    assert ListAt(j, s) == Ok((xs, e - j)) by {
      ListAtBody(s, j, e, xs);
    }
    NestedListStep(s, i, j, acc);
  }

  /** An encoded list at `j`: 'l', the elements one after the other, 'e'. */
  lemma {:induction false} NestedLaid(s: bytes, j: nat, xs: seq<Value>)
    requires EncodedAt(s, j, List(xs))
    ensures |Encoding(List(xs))| == |Concat(xs)| + 2 && s[j] == TAG_L
    ensures BodyAt(s, j + 1, j + 1 + |Concat(xs)|, xs)
  {
    NestedFrame(s, j, xs);
    ConcatLaid(s, j + 1, j + 1 + |Concat(xs)|, xs);
  }

  /** The frame of an encoded list at `j`: 'l', the concatenated elements, 'e'. */
  lemma {:induction false} NestedFrame(s: bytes, j: nat, xs: seq<Value>)
    requires EncodedAt(s, j, List(xs))
    ensures forall k | 0 <= k < |xs| :: Encodable(xs[k])
    ensures |Encoding(List(xs))| == |Concat(xs)| + 2 && j + 1 + |Concat(xs)| < |s|
    ensures s[j] == TAG_L && Occurs(s, j + 1, Concat(xs)) && s[j + 1 + |Concat(xs)|] == TAG_E
  {
    assert forall k | 0 <= k < |xs| :: Encodable(xs[k]);
    OccursFramed(s, j, TAG_L, Concat(xs), TAG_E);
  }

  /** decodeList meeting an encoded string: the string is appended and skipped. */
  lemma {:induction false} StringStep(s: bytes, i: nat, j: nat, acc: seq<Value>, t: bytes)
    requires i < j && |t| <= MAX_INT64 && Occurs(s, j, BencodeString(t))
    ensures ListFrom(i, j, s, acc) == ListFrom(i, j + |BencodeString(t)|, s, acc + [Str(t)])
  {
    StringAtEncoded(s, j, t);
    var str := StringAt(j, s);
    assert str == Ok((t, j + |BencodeString(t)| - 1));
    assert ListFrom(i, j, s, acc) == ListFrom(i, str.value.1 + 1, s, acc + [Str(str.value.0)]);
  }

  /** decodeList meeting an encoded integer: the integer is appended and skipped. */
  lemma {:induction false} IntegerStep(s: bytes, i: nat, j: nat, acc: seq<Value>, n: int)
    requires i < j && InInt64(n) && Occurs(s, j, BencodeInteger(n))
    ensures ListFrom(i, j, s, acc) == ListFrom(i, j + |BencodeInteger(n)|, s, acc + [Int(n)])
  {
    IntegerAtEncoded(s, j, n);
    assert !IsDigit(s[j]);
    var num := IntegerAt(j, s);
    assert num == Ok((n, |BencodeInteger(n)|));
    assert ListFrom(i, j, s, acc) == ListFrom(i, j + num.value.1, s, acc + [Int(num.value.0)]);
  }

  /** decodeList meeting a nested list tag: the nested list is decoded and skipped. */
  lemma {:induction false} NestedListStep(s: bytes, i: nat, j: nat, acc: seq<Value>)
    requires i < j < |s| && s[j] == TAG_L
    requires ListAt(j, s).Ok?
    ensures ListFrom(i, j, s, acc)
      == ListFrom(i, j + ListAt(j, s).value.1 + 1, s, acc + [List(ListAt(j, s).value.0)])
  {
    assert !IsDigit(s[j]);
  }

  /**
   * decodeList at a list (or dictionary) tag followed by the encodings of
   * `items` and the 'e' at index `e`: exactly `items`, and the distance to that 'e'.
   */
  lemma {:induction false} ListAtBody(s: bytes, i: nat, e: nat, items: seq<Value>)
    requires i < e < |s| && (s[i] == TAG_L || s[i] == TAG_D) && BodyAt(s, i + 1, e, items)
    ensures ListAt(i, s) == Ok((items, e - i))
    decreases items, 2
  {
    assert !IsDigit(s[i]) && s[i] != TAG_I && s[i] != TAG_E;
    assert ListFrom(i, i, s, []) == ListFrom(i, i + 1, s, []);
    ListFromEncoded(s, i, i + 1, e, [], items);
    assert [] + items == items;
  }

  /** decodeList on a tag, the encodings of `items`, and 'e'. */
  lemma {:induction false} ListAtFramed(tag: byte, items: seq<Value>)
    requires tag == TAG_L || tag == TAG_D
    requires forall k | 0 <= k < |items| :: Encodable(items[k])
    ensures ListAt(0, [tag] + Concat(items) + [TAG_E]) == Ok((items, |Concat(items)| + 1))
  {
    var c := Concat(items);
    var enc := [tag] + c + [TAG_E];
    assert enc[0] == tag && |enc| == |c| + 2;
    assert BodyAt(enc, 1, 1 + |c|, items) by {
      OccursWhole(enc);
      OccursFramed(enc, 0, tag, c, TAG_E);
      ConcatLaid(enc, 1, 1 + |c|, items);
    }
    ListAtBody(enc, 0, 1 + |c|, items);
  }

  /** decodeString reads back bencodeString: the string, and the index of its last byte. */
  lemma {:induction false} StringRoundTrip(t: bytes)
    requires |t| <= MAX_INT64
    ensures IsDigit(BencodeString(t)[0])
    ensures StringAt(0, BencodeString(t)) == Ok((t, |BencodeString(t)| - 1))
  {
    var enc := BencodeString(t);
    OccursWhole(enc);
    StringAtEncoded(enc, 0, t);
  }

  /** decodeInteger reads back bencodeInteger: the integer, and the byte count. */
  lemma {:induction false} IntegerRoundTrip(n: int)
    requires InInt64(n)
    ensures IntegerAt(0, BencodeInteger(n)) == Ok((n, |BencodeInteger(n)|))
  {
    var enc := BencodeInteger(n);
    OccursWhole(enc);
    IntegerAtEncoded(enc, 0, n);
  }

  /** decodeList reads back bencodeList: the elements, and the distance to the closing 'e'. */
  lemma {:induction false} ListRoundTrip(items: seq<Value>)
    requires forall k | 0 <= k < |items| :: Encodable(items[k])
    ensures ListAt(0, EncodeList(items)) == Ok((items, |EncodeList(items)| - 1))
  {
    EncodeListShape(items);
    ListAtFramed(TAG_L, items);
  }

  /** decodeBencode reads back every value bencode writes without a map. */
  lemma {:induction false} DecodeBencodeRoundTrip(v: Value)
    requires Encodable(v)
    ensures ValueBytes(v).Ok?
    ensures DecodeBencode(ValueBytes(v).value).Ok?
    ensures DecodeBencode(ValueBytes(v).value).value.0 == v
  {
    ValueBytesEncoding(v);
    match v
    case Str(t) =>
      StringRoundTrip(t);
    case Int(n) =>
      IntegerRoundTrip(n);
    case List(xs) =>
      ListRoundTrip(xs);
      EncodeListShape(xs);
  }
}
