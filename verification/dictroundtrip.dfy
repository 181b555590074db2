/**
 * bencode's dictionaries read back by decodeDict: the canonical encoding of a
 * map comes back as the map, bencode as written agrees with it on four
 * entries, and on three entries the least key is lost.
 */
module DictRoundTrip {
  import opened Outcomes
  import opened Bytes
  import opened Numbers
  import opened Values
  import opened LexOrder
  import opened Decoder
  import opened Encoder
  import opened RoundTrip

  /** Values parseList stores as they are: strings, integers and lists of odd length. */
  predicate Storable(v: Value) {
    Encodable(v) && (v.List? ==> |v.items| % 2 == 1)
  }

  /** Every key of `keys` is in `dict`, can be read back, and maps to a storable value. */
  predicate Writable(keys: seq<bytes>, dict: map<bytes, Value>) {
    forall k | 0 <= k < |keys| :: keys[k] in dict && |keys[k]| <= MAX_INT64 && Storable(dict[keys[k]])
  }

  /** The list the body of a dictionary encoding spells: each key, then its value. */
  function Interleave(keys: seq<bytes>, dict: map<bytes, Value>): seq<Value>
    requires forall k | 0 <= k < |keys| :: keys[k] in dict
  {
    if keys == [] then [] else [Str(keys[0]), dict[keys[0]]] + Interleave(keys[1..], dict)
  }

  /** The entries of `dict` under the keys of `keys`. */
  function Restrict(keys: seq<bytes>, dict: map<bytes, Value>): map<bytes, Value>
    requires forall k | 0 <= k < |keys| :: keys[k] in dict
  {
    map k | k in keys :: dict[k]
  }

  lemma {:induction false} WritableTail(keys: seq<bytes>, dict: map<bytes, Value>)
    requires keys != [] && Writable(keys, dict)
    ensures Writable(keys[1..], dict)
  {
    forall k | 0 <= k < |keys[1..]|
      ensures keys[1..][k] in dict && |keys[1..][k]| <= MAX_INT64 && Storable(dict[keys[1..][k]])
    {
      assert keys[1..][k] == keys[k + 1];
    }
  }

  lemma {:induction false} ConcatPair(a: Value, b: Value, rest: seq<Value>)
    ensures Concat([a, b] + rest) == Encoding(a) + Encoding(b) + Concat(rest)
  {
    var l := [a, b] + rest;
    assert l[1..] == [b] + rest;
    assert ([b] + rest)[1..] == rest;
  }

  /** The body bencode writes for `keys` is the encoding of the interleaved list. */
  lemma {:induction false} EntriesAfterConcat(done: bytes, keys: seq<bytes>, dict: map<bytes, Value>)
    requires Writable(keys, dict)
    ensures EntriesAfter(done, keys, dict) == Ok(done + Concat(Interleave(keys, dict)))
    decreases keys
  {
    if keys == [] {
      assert done + Concat([]) == done;
    } else {
      var k, v := keys[0], dict[keys[0]];
      var rest := Interleave(keys[1..], dict);
      var next := done + BencodeString(k) + Encoding(v);
      EntriesStep(done, keys, dict);
      WritableTail(keys, dict);
      EntriesAfterConcat(next, keys[1..], dict);
      BodyConcat(done, k, v, rest);
    }
  }

  lemma {:induction false} BodyConcat(done: bytes, k: bytes, v: Value, rest: seq<Value>)
    ensures done + BencodeString(k) + Encoding(v) + Concat(rest) == done + Concat([Str(k), v] + rest)
  {
    ConcatPair(Str(k), v, rest);
    AppendThree(done, BencodeString(k), Encoding(v), Concat(rest));
  }

  /** One entry of bencode's loop: the key, then the value. */
  lemma {:induction false} EntriesStep(done: bytes, keys: seq<bytes>, dict: map<bytes, Value>)
    requires keys != [] && Writable(keys, dict)
    ensures EntriesAfter(done, keys, dict)
      == EntriesAfter(done + BencodeString(keys[0]) + Encoding(dict[keys[0]]), keys[1..], dict)
  {
    assert Storable(dict[keys[0]]);
    ValueBytesEncoding(dict[keys[0]]);
  }

  /** Every element of the interleaved list can be read back. */
  lemma {:induction false} InterleaveEncodable(keys: seq<bytes>, dict: map<bytes, Value>)
    requires Writable(keys, dict)
    ensures forall k | 0 <= k < |Interleave(keys, dict)| :: Encodable(Interleave(keys, dict)[k])
    decreases keys
  {
    if keys != [] {
      var l := Interleave(keys, dict);
      WritableTail(keys, dict);
      InterleaveEncodable(keys[1..], dict);
      assert Storable(dict[keys[0]]);
      forall k | 0 <= k < |l| ensures Encodable(l[k]) {
        if k >= 2 {
          assert l[k] == Interleave(keys[1..], dict)[k - 2];
        }
      }
    }
  }

  /** parseList after the first pair reads the rest of the list from its start. */
  lemma {:induction false} PairsShift(list: seq<Value>, j: nat, acc: map<bytes, Value>)
    requires 2 <= |list|
    ensures PairsFrom(list, j + 2, acc) == PairsFrom(list[2..], j, acc)
    decreases |list| - j
  {
    if j + 2 < |list| && list[j + 2].Str? && j + 3 < |list| {
      assert list[2..][j] == list[j + 2] && list[2..][j + 1] == list[j + 3];
      PairsShift(list, j + 2, acc[list[j + 2].text := Stored(list[j + 3])]);
    } else if j + 2 < |list| {
      assert list[2..][j] == list[j + 2];
    }
  }

  /** parseList over the interleaved list adds the entries of `keys` to what it has. */
  lemma {:induction false} PairsFromInterleave(keys: seq<bytes>, dict: map<bytes, Value>, acc: map<bytes, Value>)
    requires Writable(keys, dict)
    ensures PairsFrom(Interleave(keys, dict), 0, acc) == Ok(acc + Restrict(keys, dict))
    decreases keys
  {
    if keys == [] {
      assert acc + Restrict(keys, dict) == acc;
    } else {
      var k, v := keys[0], dict[keys[0]];
      var l := Interleave(keys, dict);
      var rest := Interleave(keys[1..], dict);
      assert PairsFrom(l, 0, acc) == PairsFrom(l, 2, acc[k := v]) by {
        assert Storable(v);
        assert Stored(v) == v;
      }
      assert PairsFrom(l, 2, acc[k := v]) == PairsFrom(rest, 0, acc[k := v]) by {
        PairsShift(l, 0, acc[k := v]);
        assert l[2..] == rest;
      }
      assert PairsFrom(rest, 0, acc[k := v]) == Ok(acc[k := v] + Restrict(keys[1..], dict)) by {
        WritableTail(keys, dict);
        PairsFromInterleave(keys[1..], dict, acc[k := v]);
      }
      RestrictCons(keys, dict, acc);
    }
  }

  /** Storing the first key's entry, then the others, stores the entries of all keys. */
  lemma {:induction false} RestrictCons(keys: seq<bytes>, dict: map<bytes, Value>, acc: map<bytes, Value>)
    requires keys != [] && forall k | 0 <= k < |keys| :: keys[k] in dict
    ensures acc[keys[0] := dict[keys[0]]] + Restrict(keys[1..], dict) == acc + Restrict(keys, dict)
  {
    assert forall k | 0 <= k < |keys[1..]| :: keys[1..][k] == keys[k + 1];
    assert forall x :: x in keys <==> x == keys[0] || x in keys[1..];
  }

  /**
   * decodeDict reads back the body written for any keys of `dict`: the entries
   * under those keys, and the distance to the closing 'e'.
   */
  lemma {:induction false} DictBytesRoundTrip(keys: seq<bytes>, dict: map<bytes, Value>, m: map<bytes, Value>)
    requires Writable(keys, dict) && Restrict(keys, dict) == m
    ensures DictBytes(keys, dict).Ok?
    ensures DecodeBencode(DictBytes(keys, dict).value) == Ok((Dict(m), |DictBytes(keys, dict).value| - 1))
  {
    var l := Interleave(keys, dict);
    EntriesAfterConcat([TAG_D], keys, dict);
    assert DictBytes(keys, dict) == Ok([TAG_D] + Concat(l) + [TAG_E]);
    InterleaveEncodable(keys, dict);
    PairsFromInterleave(keys, dict, map[]);
    assert map[] + Restrict(keys, dict) == Restrict(keys, dict);
    DecodeDictBody(l, Restrict(keys, dict));
  }

  /** decodeBencode on `d`, the encodings of a list parseList reads as `m`, and `e`. */
  lemma {:induction false} DecodeDictBody(l: seq<Value>, m: map<bytes, Value>)
    requires forall k | 0 <= k < |l| :: Encodable(l[k])
    requires ParsedList(l) == Ok(m)
    ensures DecodeBencode([TAG_D] + Concat(l) + [TAG_E])
      == Ok((Dict(m), |Concat(l)| + 1))
  {
    var c := Concat(l);
    var enc := [TAG_D] + c + [TAG_E];
    ListAtFramed(TAG_D, l);
    assert DictAt(0, enc) == Ok((m, |c| + 1));
    assert !IsDigit(enc[0]) && enc[0] != TAG_I && enc[0] != TAG_L;
  }

  /** The canonical key order names every entry of the map. */
  lemma {:induction false} RestrictSortedKeys(dict: map<bytes, Value>)
    requires forall k | k in dict :: |k| <= MAX_INT64 && Storable(dict[k])
    ensures Writable(SortedKeys(dict), dict)
    ensures Restrict(SortedKeys(dict), dict) == dict
  {
    var sk := SortedKeys(dict);
    assert forall x :: x in sk <==> x in dict by {
      SortedKeysAreTheKeys(dict);
    }
    RestrictWithout(sk, dict, dict.Keys);
    assert dict - (dict.Keys - dict.Keys) == dict;
  }

  /** Keys that name exactly the entries of `dict` outside `gone` are writable and select them. */
  lemma {:induction false} RestrictWithout(keys: seq<bytes>, dict: map<bytes, Value>, kept: set<bytes>)
    requires forall k | k in dict :: |k| <= MAX_INT64 && Storable(dict[k])
    requires forall x :: x in keys <==> x in dict && x in kept
    ensures Writable(keys, dict)
    ensures Restrict(keys, dict) == dict - (dict.Keys - kept)
  {
    assert forall k | 0 <= k < |keys| :: keys[k] in keys;
    assert Restrict(keys, dict).Keys == (dict - (dict.Keys - kept)).Keys;
  }

  /** The canonical encoding of a map whose entries can be read back decodes to that map. */
  lemma {:induction false} CanonicalRoundTrip(dict: map<bytes, Value>)
    requires forall k | k in dict :: |k| <= MAX_INT64 && Storable(dict[k])
    ensures CanonicalBytes(dict).Ok? && DecodeBencode(CanonicalBytes(dict).value)
      == Ok((Dict(dict), |CanonicalBytes(dict).value| - 1))
  {
    var sk := SortedKeys(dict);
    assert CanonicalBytes(dict) == DictBytes(sk, dict);
    assert DictBytes(sk, dict).Ok? && DecodeBencode(DictBytes(sk, dict).value)
      == Ok((Dict(dict), |DictBytes(sk, dict).value| - 1)) by {
      RestrictSortedKeys(dict);
      DictBytesRoundTrip(sk, dict, dict);
    }
  }

  /** The least key of a map comes first in the canonical order and only there. */
  lemma {:induction false} LeastKeyOnce(dict: map<bytes, Value>)
    requires |dict| > 0
    ensures |SortedKeys(dict)| == |dict| && SortedKeys(dict)[0] in dict
    ensures SortedKeys(dict)[0] !in SortedKeys(dict)[1..]
  {
    var sk := SortedKeys(dict);
    SortedKeysAreTheKeys(dict);
    assert sk[0] in sk;
    assert multiset(sk) == multiset(dict.Keys);
    assert sk == [sk[0]] + sk[1..];
    assert multiset(sk) == multiset{sk[0]} + multiset(sk[1..]);
    assert multiset(dict.Keys)[sk[0]] == 1;
    assert multiset(sk[1..])[sk[0]] == 0;
  }

  /**
   * With three entries bencode skips the least key: the bytes decode to the
   * map without it.
   */
  lemma {:induction false} BencodeThreeEntriesLosesLeastKey(dict: map<bytes, Value>)
    requires |dict| == 3
    requires forall k | k in dict :: |k| <= MAX_INT64 && Storable(dict[k])
    ensures Bencoded(dict).Ok?
    ensures DecodeBencode(Bencoded(dict).value).Ok?
    ensures DecodeBencode(Bencoded(dict).value).value.0 == Dict(dict - {SortedKeys(dict)[0]})
    ensures DecodeBencode(Bencoded(dict).value).value.0 != Dict(dict)
  {
    var sk := SortedKeys(dict);
    BencodeThreeEntries(dict);
    RestrictTail(dict);
    DictBytesRoundTrip(sk[1..], dict, dict - {sk[0]});
    assert sk[0] in dict && sk[0] !in dict - {sk[0]};
  }

  /** The canonical key order without its first key names the other entries. */
  lemma {:induction false} RestrictTail(dict: map<bytes, Value>)
    requires |dict| > 0
    requires forall k | k in dict :: |k| <= MAX_INT64 && Storable(dict[k])
    ensures |SortedKeys(dict)| == |dict| && SortedKeys(dict)[0] in dict
    ensures Writable(SortedKeys(dict)[1..], dict)
    ensures Restrict(SortedKeys(dict)[1..], dict) == dict - {SortedKeys(dict)[0]}
  {
    var sk := SortedKeys(dict);
    assert |sk| == |dict| && sk[0] in dict && sk[0] !in sk[1..] && forall x :: x in sk <==> x in dict by {
      SortedKeysAreTheKeys(dict);
      LeastKeyOnce(dict);
    }
    assert forall x :: x in sk[1..] <==> x in dict && x in dict.Keys - {sk[0]} by {
      TailMembers(sk, dict.Keys);
    }
    RestrictWithout(sk[1..], dict, dict.Keys - {sk[0]});
    assert dict - (dict.Keys - (dict.Keys - {sk[0]})) == dict - {sk[0]};
  }

  /** Without its first element, a sequence listing a set once at its head lists the rest. */
  lemma {:induction false} TailMembers(sk: seq<bytes>, keys: set<bytes>)
    requires |sk| > 0 && sk[0] !in sk[1..]
    requires forall x :: x in sk <==> x in keys
    ensures forall x :: x in sk[1..] <==> x in keys && x != sk[0]
  {
    forall x | x in keys && x != sk[0] ensures x in sk[1..] {
      var p :| 0 <= p < |sk| && sk[p] == x;
      assert sk[1..][p - 1] == x;
    }
  }
}
