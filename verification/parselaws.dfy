/**
 * What parseList and decodeDict of cmd/mybittorrent/main.go do with a decoded
 * list: which lists become dictionaries, which error a malformed one gives, and
 * which value a repeated key ends up with; the errors decodeList and
 * decodeBencode can report; and a few inputs the lax decoder reads its own way.
 */
module ParseLaws {
  import opened Outcomes
  import opened Bytes
  import opened Values
  import opened Numbers
  import opened Decoder

  /** A list parseList accepts: an even number of items, a string at every even position. */
  predicate Paired(list: seq<Value>) {
    |list| % 2 == 0 && forall j | 0 <= j < |list| && j % 2 == 0 :: list[j].Str?
  }

  /** `k` is the key of some pair at or after position `from`. */
  predicate KeyFrom(list: seq<Value>, from: nat, k: bytes) {
    exists j | from <= j < |list| && j % 2 == 0 :: list[j] == Str(k)
  }

  /** No later pair has the same key as the pair at position `j`. */
  predicate LastKey(list: seq<Value>, j: nat) {
    forall j' | j < j' < |list| && j' % 2 == 0 :: list[j'] != list[j]
  }

  /** The even number after an even number is two further on. */
  lemma {:induction false} NextEven(i: nat, j: nat)
    requires i % 2 == 0 && j % 2 == 0 && i < j
    ensures i + 2 <= j
  {
  }

  /** A key occurs from an even position exactly when it is the key there or occurs from the next pair on. */
  lemma {:induction false} KeyFromStep(list: seq<Value>, from: nat, k: bytes)
    requires from % 2 == 0 && from < |list|
    ensures KeyFrom(list, from, k) <==> list[from] == Str(k) || KeyFrom(list, from + 2, k)
  {
    if KeyFrom(list, from, k) && list[from] != Str(k) {
      var j :| from <= j < |list| && j % 2 == 0 && list[j] == Str(k);
      assert from + 2 <= j;
    }
  }

  /** From an even position of a paired list, parseList succeeds. */
  lemma {:induction false} PairsFromOk(list: seq<Value>, from: nat, acc: map<bytes, Value>)
    requires Paired(list) && from % 2 == 0 && from <= |list|
    ensures PairsFrom(list, from, acc).Ok?
    decreases |list| - from
  {
    if from < |list| {
      PairsFromOk(list, from + 2, acc[list[from].text := Stored(list[from + 1])]);
    }
  }

  /** From an even position of a paired list, parseList succeeds and adds exactly the keys of the remaining pairs to `acc`. */
  lemma {:induction false} PairsFromKeys(list: seq<Value>, from: nat, acc: map<bytes, Value>)
    requires Paired(list) && from % 2 == 0 && from <= |list|
    ensures PairsFrom(list, from, acc).Ok?
    ensures forall k :: k in PairsFrom(list, from, acc).value <==> k in acc || KeyFrom(list, from, k)
    decreases |list| - from
  {
    if from < |list| {
      var next := acc[list[from].text := Stored(list[from + 1])];
      PairsFromKeys(list, from + 2, next);
      forall k ensures KeyFrom(list, from, k) <==> list[from] == Str(k) || KeyFrom(list, from + 2, k) {
        KeyFromStep(list, from, k);
      }
    }
  }

  /** From an even position of a paired list, a key of `acc` that no remaining pair repeats keeps its value. */
  lemma {:induction false} PairsFromKept(list: seq<Value>, from: nat, acc: map<bytes, Value>)
    requires Paired(list) && from % 2 == 0 && from <= |list|
    ensures PairsFrom(list, from, acc).Ok?
    ensures forall k | k in acc && !KeyFrom(list, from, k) ::
      k in PairsFrom(list, from, acc).value && PairsFrom(list, from, acc).value[k] == acc[k]
    decreases |list| - from
  {
    PairsFromOk(list, from, acc);
    if from < |list| {
      var next := acc[list[from].text := Stored(list[from + 1])];
      PairsFromKept(list, from + 2, next);
      assert PairsFrom(list, from, acc) == PairsFrom(list, from + 2, next);
      forall k | k in acc && !KeyFrom(list, from, k) ensures k in next && next[k] == acc[k] && !KeyFrom(list, from + 2, k) {
        KeyFromStep(list, from, k);
      }
    }
  }

  /** The pair at an even position whose key no later pair repeats decides that key's value. */
  lemma {:induction false} PairsFromLastHere(list: seq<Value>, from: nat, acc: map<bytes, Value>, m: map<bytes, Value>)
    requires Paired(list) && from % 2 == 0 && from < |list| && LastKey(list, from)
    requires PairsFrom(list, from, acc) == Ok(m)
    ensures list[from].text in m && m[list[from].text] == Stored(list[from + 1])
  {
    var key := list[from].text;
    var next := acc[key := Stored(list[from + 1])];
    assert !KeyFrom(list, from + 2, key);
    PairsFromKept(list, from + 2, next);
  }

  /** From an even position of a paired list, each remaining key gets the value of its last pair. */
  lemma {:induction false} PairsFromLast(list: seq<Value>, from: nat, acc: map<bytes, Value>) returns (m: map<bytes, Value>)
    requires Paired(list) && from % 2 == 0 && from <= |list|
    ensures PairsFrom(list, from, acc) == Ok(m)
    ensures forall j | from <= j && j + 1 < |list| && j % 2 == 0 && LastKey(list, j) ::
      list[j].text in m && m[list[j].text] == Stored(list[j + 1])
    decreases |list| - from
  {
    if from == |list| {
      m := acc;
    } else {
      m := PairsFromLast(list, from + 2, acc[list[from].text := Stored(list[from + 1])]);
      LastExtends(list, from, acc, m);
    }
  }

  /** The last-pair property from the next pair on extends to the pair at `from`. */
  lemma {:induction false} LastExtends(list: seq<Value>, from: nat, acc: map<bytes, Value>, m: map<bytes, Value>)
    requires Paired(list) && from % 2 == 0 && from < |list|
    requires PairsFrom(list, from, acc) == Ok(m)
    requires forall j | from + 2 <= j && j + 1 < |list| && j % 2 == 0 && LastKey(list, j) ::
      list[j].text in m && m[list[j].text] == Stored(list[j + 1])
    ensures forall j | from <= j && j + 1 < |list| && j % 2 == 0 && LastKey(list, j) ::
      list[j].text in m && m[list[j].text] == Stored(list[j + 1])
  {
    forall j | from <= j && j + 1 < |list| && j % 2 == 0 && LastKey(list, j)
      ensures list[j].text in m && m[list[j].text] == Stored(list[j + 1])
    {
      if j == from {
        PairsFromLastHere(list, from, acc, m);
      } else {
        NextEven(from, j);
      }
    }
  }

  /** A non-string key at an even position at or after `from` is reported, whatever came before it. */
  lemma {:induction false} PairsFromKeyNotString(list: seq<Value>, from: nat, acc: map<bytes, Value>, j: nat)
    requires from % 2 == 0 && j % 2 == 0 && from <= j < |list| && !list[j].Str?
    ensures PairsFrom(list, from, acc) == Fail(KeyNotString)
    decreases j - from
  {
    if from < j && list[from].Str? {
      PairsFromKeyNotString(list, from + 2, acc[list[from].text := Stored(list[from + 1])], j);
    }
  }

  /** An odd list whose keys are all strings runs off its end looking for the last value. */
  lemma {:induction false} PairsFromMissingValue(list: seq<Value>, from: nat, acc: map<bytes, Value>)
    requires |list| % 2 == 1 && from % 2 == 0 && from < |list|
    requires forall j | 0 <= j < |list| && j % 2 == 0 :: list[j].Str?
    ensures PairsFrom(list, from, acc) == Fail(IndexOutOfRange)
    decreases |list| - from
  {
    assert list[from].Str?;
    if from + 1 < |list| {
      PairsFromMissingValue(list, from + 2, acc[list[from].text := Stored(list[from + 1])]);
    }
  }

  /**
   * parseList on a decoded list: a non-string key anywhere is KeyNotString; with
   * string keys, an odd list is an index panic; otherwise the map holds exactly
   * the keys of the list, each with the (stored form of the) value of its LAST pair.
   */
  lemma {:induction false} ParsedListLaws(list: seq<Value>)
    ensures ParsedList(list).Ok? <==> Paired(list)
    ensures (exists j | 0 <= j < |list| && j % 2 == 0 :: !list[j].Str?) ==> ParsedList(list) == Fail(KeyNotString)
    ensures (forall j | 0 <= j < |list| && j % 2 == 0 :: list[j].Str?) && |list| % 2 == 1 ==>
      ParsedList(list) == Fail(IndexOutOfRange)
    ensures Paired(list) ==> forall k :: k in ParsedList(list).value <==> KeyFrom(list, 0, k)
    ensures Paired(list) ==> forall j | 0 <= j < |list| && j % 2 == 0 :: list[j].text in ParsedList(list).value
    ensures Paired(list) ==> forall j | 0 <= j && j + 1 < |list| && j % 2 == 0 && LastKey(list, j) ::
      ParsedList(list).value[list[j].text] == Stored(list[j + 1])
  {
    if exists j | 0 <= j < |list| && j % 2 == 0 :: !list[j].Str? {
      var j :| 0 <= j < |list| && j % 2 == 0 && !list[j].Str?;
      PairsFromKeyNotString(list, 0, map[], j);
    } else if |list| % 2 == 1 {
      PairsFromMissingValue(list, 0, map[]);
    } else {
      PairsFromKeys(list, 0, map[]);
      var m := PairsFromLast(list, 0, map[]);
    }
  }

  /** Of two pairs with the same key, the later one's value is kept. */
  lemma {:induction false} LaterDuplicateWins(k: bytes, first: Value, second: Value)
    ensures ParsedList([Str(k), first, Str(k), second]) == Ok(map[k := Stored(second)])
  {
    var list := [Str(k), first, Str(k), second];
    assert PairsFrom(list, 0, map[]) == PairsFrom(list, 2, map[k := Stored(first)]);
    assert map[k := Stored(first)][k := Stored(second)] == map[k := Stored(second)];
    assert PairsFrom(list, 2, map[k := Stored(first)]) == PairsFrom(list, 4, map[k := Stored(second)]);
  }

  /**
   * A nested list of even length is stored as a dictionary (an empty one when
   * parseList rejects it); one of odd length is stored as it is.
   */
  lemma {:induction false} StoredNested(items: seq<Value>)
    ensures |items| % 2 == 1 ==> Stored(List(items)) == List(items)
    ensures Paired(items) ==> ParsedList(items).Ok? && Stored(List(items)) == Dict(ParsedList(items).value)
    ensures |items| % 2 == 0 && !Paired(items) ==> Stored(List(items)) == Dict(map[])
  {
    ParsedListLaws(items);
  }

  /**
   * decodeDict drops decodeList's error: "di1xe" (an integer Atoi rejects inside
   * a dictionary) decodes as an empty dictionary without error.
   */
  lemma {:induction false} DictDropsListError()
    ensures DecodeBencode([TAG_D, TAG_I, ZERO + 1, 120, TAG_E]) == Ok((Dict(map[]), 0))
  {
    var s: bytes := [TAG_D, TAG_I, ZERO + 1, 120, TAG_E];
    assert FindByte(s, 3, TAG_E) == Some(4);
    assert FindByte(s, 1, TAG_E) == Some(4);
    assert s[2..4] == [ZERO + 1, 120];
    assert Atoi(s[2..4]) == None;
    assert ListFrom(0, 0, s, []) == ListFrom(0, 1, s, []);
  }

  /** A list without its closing `e` ("li1e") decodes without error, with distance 0. */
  lemma {:induction false} UnterminatedList()
    ensures DecodeBencode([TAG_L, TAG_I, ZERO + 1, TAG_E]) == Ok((List([Int(1)]), 0))
  {
    var s: bytes := [TAG_L, TAG_I, ZERO + 1, TAG_E];
    assert FindByte(s, 2, TAG_E) == Some(3);
    assert FindByte(s, 1, TAG_E) == Some(3);
    assert s[2..3] == [ZERO + 1];
    OneDigit();
    assert IntegerAt(1, s) == Ok((1, 3));
    assert [] + [Int(1)] == [Int(1)];
    assert ListFrom(0, 0, s, []) == ListFrom(0, 1, s, []);
    assert ListFrom(0, 1, s, []) == ListFrom(0, 4, s, [Int(1)]);
  }

  /** A dictionary inside a list ("ld1:a1:bee") is decoded as a list of its keys and values. */
  lemma {:induction false} NestedDictIsList()
    ensures DecodeBencode([TAG_L, TAG_D, ZERO + 1, COLON, 97, ZERO + 1, COLON, 98, TAG_E, TAG_E])
      == Ok((List([List([Str([97]), Str([98])])]), 9))
  {
    var s: bytes := [TAG_L, TAG_D, ZERO + 1, COLON, 97, ZERO + 1, COLON, 98, TAG_E, TAG_E];
    assert FindByte(s, 2, COLON) == Some(3);
    assert FindByte(s, 5, COLON) == Some(6);
    assert s[2..3] == [ZERO + 1] && s[5..6] == [ZERO + 1];
    assert s[4..5] == [97] && s[7..8] == [98];
    OneDigit();
    assert StringAt(2, s) == Ok(([97], 4));
    assert StringAt(5, s) == Ok(([98], 7));
    assert ListFrom(1, 1, s, []) == ListFrom(1, 2, s, []);
    assert [] + [Str([97])] == [Str([97])];
    assert ListFrom(1, 2, s, []) == ListFrom(1, 5, s, [Str([97])]);
    assert [Str([97])] + [Str([98])] == [Str([97]), Str([98])];
    assert ListFrom(1, 5, s, [Str([97])]) == ListFrom(1, 8, s, [Str([97]), Str([98])]);
    assert ListFrom(1, 8, s, [Str([97]), Str([98])]) == Ok(([Str([97]), Str([98])], 7));
    assert ListFrom(0, 0, s, []) == ListFrom(0, 1, s, []);
    assert [] + [List([Str([97]), Str([98])])] == [List([Str([97]), Str([98])])];
    assert ListFrom(0, 1, s, []) == ListFrom(0, 9, s, [List([Str([97]), Str([98])])]);
  }

  /** decodeList reports only the errors of decodeString and decodeInteger. */
  lemma {:induction false} ListFromErrors(i: nat, j: nat, s: bytes, acc: seq<Value>)
    requires i <= j
    decreases |s| - i, |s| - j
    ensures ListFrom(i, j, s, acc).Fail? ==>
      ListFrom(i, j, s, acc).error in {StringLength, IntegerSyntax, SliceOutOfRange}
  {
    if j >= |s| {
    } else if IsDigit(s[j]) {
      var str := StringAt(j, s);
      if str.Ok? {
        ListFromErrors(i, str.value.1 + 1, s, acc + [Str(str.value.0)]);
      }
    } else if s[j] == TAG_I {
      var num := IntegerAt(j, s);
      if num.Ok? {
        ListFromErrors(i, j + num.value.1, s, acc + [Int(num.value.0)]);
      }
    } else if s[j] == TAG_E {
    } else if (s[j] == TAG_L || s[j] == TAG_D) && j != i {
      ListFromErrors(j, j, s, []);
      var list := ListFrom(j, j, s, []);
      if list.Ok? {
        ListFromErrors(i, j + list.value.1 + 1, s, acc + [List(list.value.0)]);
      }
    } else {
      ListFromErrors(i, j + 1, s, acc);
    }
  }

  /**
   * decodeBencode dispatches on the first byte: an empty input and a first byte
   * that starts no bencode value are its own two errors, and a decoded value is
   * of the kind its first byte announces.
   */
  lemma {:induction false} DecodeBencodeDispatch(s: bytes)
    ensures DecodeBencode(s) == Fail(EmptyInput) <==> |s| == 0
    ensures DecodeBencode(s) == Fail(Unsupported) <==>
      |s| > 0 && !IsDigit(s[0]) && s[0] != TAG_I && s[0] != TAG_L && s[0] != TAG_D
    ensures DecodeBencode(s).Ok? ==>
      (DecodeBencode(s).value.0.Str? <==> IsDigit(s[0])) &&
      (DecodeBencode(s).value.0.Int? <==> s[0] == TAG_I) &&
      (DecodeBencode(s).value.0.List? <==> s[0] == TAG_L) &&
      (DecodeBencode(s).value.0.Dict? <==> s[0] == TAG_D)
  {
    if |s| > 0 && (s[0] == TAG_L || s[0] == TAG_D) {
      ListFromErrors(0, 0, s, []);
      if s[0] == TAG_D && ListAt(0, s).Ok? {
        ParsedListLaws(ListAt(0, s).value.0);
      }
    }
  }

  /** The text "1" reads as 1. */
  lemma {:induction false} OneDigit()
    ensures Atoi([ZERO + 1]) == Some(1)
  {
    var t: bytes := [ZERO + 1];
    assert AllDigits(t);
    assert t[..0] == [];
    assert DigitsValue(t) == 1;
  }
}
