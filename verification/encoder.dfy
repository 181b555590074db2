/**
 * The bencode encoder of cmd/mybittorrent/main.go: bencodeString,
 * bencodeInteger, bencodeList and bencode (the encoder of a dictionary, used to
 * compute the info-hash).
 */
module Encoder {
  import opened Outcomes
  import opened Bytes
  import opened Numbers
  import opened Values
  import opened LexOrder

  /** bencodeString: the decimal length, ':', the bytes. */
  function BencodeString(t: bytes): bytes {
    Decimal(|t|) + [COLON] + t
  }

  /** bencodeInteger: 'i', the decimal value, 'e'. */
  function BencodeInteger(n: int): bytes {
    [TAG_I] + Itoa(n) + [TAG_E]
  }

  /**
   * What bencodeList has written after `done` once it has also written `items`;
   * None when it gives up on a map.
   */
  function ItemsAfter(done: bytes, items: seq<Value>): (r: Option<bytes>)
    decreases items, 0
    ensures r.None? <==> exists k | 0 <= k < |items| :: items[k].Dict?
    ensures r.Some? ==> |done| <= |r.value| && r.value[..|done|] == done
  {
    if items == [] then Some(done)
    else
      assert forall k | 1 <= k < |items| :: items[k] == items[1..][k - 1];
      match items[0]
      case Str(t) => ItemsAfter(done + BencodeString(t), items[1..])
      case Int(n) => ItemsAfter(done + BencodeInteger(n), items[1..])
      case List(xs) => ItemsAfter(done + EncodeList(xs), items[1..])
      case Dict(_) => None
  }

  /**
   * bencodeList: 'l', the encodings of the elements, 'e'; the empty string as
   * soon as an element is a map. A nested list that gives up contributes
   * nothing but does not make the outer list give up.
   */
  function EncodeList(items: seq<Value>): (r: bytes)
    decreases items, 1
    ensures r == [] <==> exists k | 0 <= k < |items| :: items[k].Dict?
    ensures r != [] ==> 2 <= |r| && r[0] == TAG_L && r[|r| - 1] == TAG_E
  {
    match ItemsAfter([TAG_L], items)
    case None => []
    case Some(body) => body + [TAG_E]
  }

  /** What bencode writes for a value: a nil or a map is an unexpected type. */
  function ValueBytes(v: Value): (r: Result<bytes>)
    ensures r.Fail? <==> v.Dict?
  {
    match v
    case Str(t) => Ok(BencodeString(t))
    case Int(n) => Ok(BencodeInteger(n))
    case List(xs) => Ok(EncodeList(xs))
    case Dict(_) => Fail(UnexpectedType)
  }

  /**
   * What bencode has written after `done` once it has also written each key of
   * `keys`, in that order, followed by its value.
   */
  function EntriesAfter(done: bytes, keys: seq<bytes>, dict: map<bytes, Value>): (r: Result<bytes>)
    decreases keys
    ensures r.Fail? <==> exists k | 0 <= k < |keys| :: keys[k] !in dict || dict[keys[k]].Dict?
    ensures r.Fail? ==> r.error == UnexpectedType
    ensures r.Ok? ==> |done| <= |r.value| && r.value[..|done|] == done
  {
    if keys == [] then Ok(done)
    else
      assert forall k | 1 <= k < |keys| :: keys[k] == keys[1..][k - 1];
      if keys[0] !in dict then Fail(UnexpectedType)
      else
        match ValueBytes(dict[keys[0]])
        case Fail(e) => Fail(e)
        case Ok(value) => EntriesAfter(done + BencodeString(keys[0]) + value, keys[1..], dict)
  }

  /** `d`, the entries of `keys`, `e`, unless an entry failed. */
  function DictBytes(keys: seq<bytes>, dict: map<bytes, Value>): Result<bytes> {
    match EntriesAfter([TAG_D], keys, dict)
    case Fail(e) => Fail(e)
    case Ok(body) => Ok(body + [TAG_E])
  }

  /** make([]string, n): n empty strings. */
  function Padding(n: nat): (r: seq<bytes>)
    ensures |r| == n && forall k | 0 <= k < n :: r[k] == []
  {
    seq(n, _ => [])
  }

  /** The keys of a map in some order, as the `range` over a Go map yields them. */
  ghost function SetToSeq(keys: set<bytes>): (r: seq<bytes>)
    ensures multiset(r) == multiset(keys)
    decreases keys
  {
    if keys == {} then []
    else
      var k :| k in keys;
      var rest := SetToSeq(keys - {k});
      SplitOff(keys, k);
      assert multiset([k] + rest) == multiset{k} + multiset(rest);
      [k] + rest
  }

  /** A set is one of its elements and the others. */
  lemma {:induction false} SplitOff(keys: set<bytes>, k: bytes)
    requires k in keys
    ensures multiset(keys) == multiset{k} + multiset(keys - {k})
  {
    assert keys == {k} + (keys - {k});
  }

  /** The keys of `dict` in ascending byte order. */
  ghost function SortedKeys(dict: map<bytes, Value>): seq<bytes> {
    SortStrings(SetToSeq(dict.Keys))
  }

  /** The slice `keys` of bencode after sort.Strings: |dict| empty strings and the keys. */
  ghost function KeyOrder(dict: map<bytes, Value>): seq<bytes> {
    SortStrings(Padding(|dict|) + SetToSeq(dict.Keys))
  }

  /**
   * bencode: the slice `keys` starts with |dict| empty strings, the keys are
   * appended and sorted, and the first four are skipped. Fewer than four in all
   * is a slice panic.
   */
  ghost function Bencoded(dict: map<bytes, Value>): Result<bytes> {
    var keys := KeyOrder(dict);
    if |keys| < 4 then Fail(SliceOutOfRange) else DictBytes(keys[4..], dict)
  }

  /**
   * What bencode evidently means to write: every key of the map in ascending
   * order, each followed by its value, between `d` and `e`.
   */
  ghost function CanonicalBytes(dict: map<bytes, Value>): Result<bytes> {
    DictBytes(SortedKeys(dict), dict)
  }

  /** Whatever order the map hands out its keys in, sorting gives KeyOrder. */
  lemma {:induction false} KeyOrderOfAnyIteration(dict: map<bytes, Value>, keys: seq<bytes>)
    requires multiset(keys) == multiset(Padding(|dict|)) + multiset(dict.Keys)
    ensures SortStrings(keys) == KeyOrder(dict)
  {
    SortStringsCanonical(keys, Padding(|dict|) + SetToSeq(dict.Keys));
  }

  /** bencodeList (cmd/mybittorrent/main.go:480-505). */
  method BencodeList(arr: seq<Value>) returns (out: bytes)
    ensures out == EncodeList(arr)
    decreases arr
  {
    var b: bytes := [TAG_L];
    var k := 0;
    assert arr[k..] == arr;
    while k < |arr|
      invariant 0 <= k <= |arr|
      invariant ItemsAfter(b, arr[k..]) == ItemsAfter([TAG_L], arr)
      decreases |arr| - k
    {
      assert arr[k..][0] == arr[k] && arr[k..][1..] == arr[k + 1..];
      match arr[k] {
        case Str(t) =>
          b := b + BencodeString(t);
        case Int(n) =>
          b := b + BencodeInteger(n);
        case List(xs) =>
          var inner := BencodeList(xs);
          b := b + inner;
        case Dict(_) =>
          return [];
      }
      k := k + 1;
    }
    b := b + [TAG_E];
    return b;
  }

  /**
   * The first half of bencode: |dict| empty strings, then every key in the
   * order the map hands them out, then sort.Strings.
   */
  method MapKeys(dict: map<bytes, Value>) returns (keys: seq<bytes>)
    ensures SortStrings(keys) == KeyOrder(dict)
  {
    keys := Padding(|dict|);
    var rest := dict.Keys;
    while rest != {}
      invariant rest <= dict.Keys
      invariant multiset(keys) == multiset(Padding(|dict|)) + multiset(dict.Keys - rest)
      decreases rest
    {
      var k :| k in rest;
      assert dict.Keys - (rest - {k}) == (dict.Keys - rest) + {k};
      keys := keys + [k];
      rest := rest - {k};
    }
    assert dict.Keys - rest == dict.Keys;
    KeyOrderOfAnyIteration(dict, keys);
  }

  /** bencode (cmd/mybittorrent/main.go:507-539). */
  method Bencode(dict: map<bytes, Value>) returns (r: Result<bytes>)
    ensures r == Bencoded(dict)
  {
    var keys := MapKeys(dict);
    keys := SortStrings(keys);
    if |keys| < 4 {
      return Fail(SliceOutOfRange);
    }
    r := WriteEntries(keys[4..], dict);
  }

  /**
   * The writing part of bencode (cmd/mybittorrent/main.go:516-538): 'd', each
   * key of `keys` followed by its value, 'e'; a missing key or a map stops it
   * with an error.
   */
  method WriteEntries(keys: seq<bytes>, dict: map<bytes, Value>) returns (r: Result<bytes>)
    ensures r == DictBytes(keys, dict)
  {
    var b: bytes := [TAG_D];
    var idx := 0;
    while idx < |keys|
      invariant 0 <= idx <= |keys|
      invariant EntriesAfter(b, keys[idx..], dict) == EntriesAfter([TAG_D], keys, dict)
      decreases |keys| - idx
    {
      var k := keys[idx];
      EntriesAfterStep(b, keys[idx..], dict);
      assert keys[idx..][0] == k && keys[idx..][1..] == keys[idx + 1..];
      b := b + BencodeString(k);
      if k !in dict {
        return Fail(UnexpectedType);
      }
      var value: bytes;
      match dict[k] {
        case Str(t) =>
          value := BencodeString(t);
        case Int(n) =>
          value := BencodeInteger(n);
        case List(xs) =>
          value := BencodeList(xs);
        case Dict(_) =>
          return Fail(UnexpectedType);
      }
      b := b + value;
      idx := idx + 1;
    }
    assert keys[idx..] == [];
    b := b + [TAG_E];
    return Ok(b);
  }

  /** One entry of bencode's loop: a missing key or a map fails, anything else is written. */
  lemma {:induction false} EntriesAfterStep(done: bytes, keys: seq<bytes>, dict: map<bytes, Value>)
    requires keys != []
    ensures keys[0] !in dict || dict[keys[0]].Dict? ==> EntriesAfter(done, keys, dict) == Fail(UnexpectedType)
    ensures keys[0] in dict && !dict[keys[0]].Dict? ==>
      EntriesAfter(done, keys, dict)
        == EntriesAfter(done + BencodeString(keys[0]) + ValueBytes(dict[keys[0]]).value, keys[1..], dict)
  {
  }

  /** The canonical key order: ascending, and holding exactly the keys of the map. */
  lemma {:induction false} SortedKeysAreTheKeys(dict: map<bytes, Value>)
    ensures Sorted(SortedKeys(dict))
    ensures |SortedKeys(dict)| == |dict|
    ensures forall k :: k in SortedKeys(dict) <==> k in dict
  {
    var sk := SortedKeys(dict);
    assert multiset(sk) == multiset(dict.Keys);
    assert |sk| == |multiset(sk)| == |multiset(dict.Keys)| == |dict.Keys|;
    forall k ensures k in sk <==> k in dict {
      assert k in sk <==> k in multiset(sk);
    }
  }

  /** After sorting, the |dict| empty strings come first and the keys follow in order. */
  lemma {:induction false} KeyOrderSplit(dict: map<bytes, Value>)
    ensures KeyOrder(dict) == Padding(|dict|) + SortedKeys(dict)
  {
    var pad, sk := Padding(|dict|), SortedKeys(dict);
    SortedKeysAreTheKeys(dict);
    PaddingFirst(|dict|, sk);
    assert multiset(KeyOrder(dict)) == multiset(pad) + multiset(SetToSeq(dict.Keys));
    assert multiset(pad + sk) == multiset(pad) + multiset(sk);
    SortedUnique(KeyOrder(dict), pad + sk);
  }

  /** Empty strings in front of a sorted sequence keep it sorted. */
  lemma {:induction false} PaddingFirst(n: nat, sk: seq<bytes>)
    requires Sorted(sk)
    ensures Sorted(Padding(n) + sk)
  {
    var pad := Padding(n);
    var r := pad + sk;
    forall p, q | 0 <= p < q < |r| ensures LexLe(r[p], r[q]) {
      if p >= |pad| {
        assert r[p] == sk[p - |pad|] && r[q] == sk[q - |pad|];
      } else {
        assert r[p] == [];
      }
    }
  }

  /** With exactly four entries, bencode writes every key, in ascending order. */
  lemma {:induction false} BencodeFourEntries(dict: map<bytes, Value>)
    requires |dict| == 4
    ensures Bencoded(dict) == CanonicalBytes(dict)
  {
    KeyOrderSplit(dict);
    SortedKeysAreTheKeys(dict);
    assert KeyOrder(dict)[4..] == SortedKeys(dict);
  }

  /** With three entries, the least key and its value are left out. */
  lemma {:induction false} BencodeThreeEntries(dict: map<bytes, Value>)
    requires |dict| == 3
    ensures Bencoded(dict) == DictBytes(SortedKeys(dict)[1..], dict)
  {
    KeyOrderSplit(dict);
    SortedKeysAreTheKeys(dict);
    assert KeyOrder(dict)[4..] == SortedKeys(dict)[1..];
  }

  /** With two entries, only "de" is written. */
  lemma {:induction false} BencodeTwoEntries(dict: map<bytes, Value>)
    requires |dict| == 2
    ensures Bencoded(dict) == Ok([TAG_D, TAG_E])
  {
    KeyOrderSplit(dict);
    SortedKeysAreTheKeys(dict);
    assert KeyOrder(dict)[4..] == [];
    assert EntriesAfter([TAG_D], [], dict) == Ok([TAG_D]);
    assert [TAG_D] + [TAG_E] == [TAG_D, TAG_E];
  }

  /** With fewer than two entries, keys[4:] is out of range. */
  lemma {:induction false} BencodeFewerThanTwo(dict: map<bytes, Value>)
    requires |dict| < 2
    ensures Bencoded(dict) == Fail(SliceOutOfRange)
  {
    KeyOrderSplit(dict);
    SortedKeysAreTheKeys(dict);
  }

  /**
   * With more than four entries and no empty key, the first key written is an
   * empty string of the padding, whose value is nil: an unexpected type.
   */
  lemma {:induction false} BencodeMoreThanFour(dict: map<bytes, Value>)
    requires |dict| > 4 && [] !in dict
    ensures Bencoded(dict) == Fail(UnexpectedType)
  {
    KeyOrderSplit(dict);
    SortedKeysAreTheKeys(dict);
    var keys := KeyOrder(dict)[4..];
    assert keys[0] == [] && keys[0] !in dict;
  }
}
