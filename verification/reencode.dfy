/**
 * The encoder of cmd/mybittorrent/main.go read against its decoder: which
 * decoded inputs bencodeString and bencodeInteger write back byte for byte,
 * and an input whose re-encoding differs.
 */
module ReEncode {
  import opened Outcomes
  import opened Bytes
  import opened Numbers
  import opened Values
  import opened Decoder
  import opened Encoder
  import opened ParseLaws

  /**
   * A whole input that decodes to a string is written back exactly when its
   * length has no leading zero: "0:" is the only length that starts with '0'.
   */
  lemma {:induction false} StringReencodes(s: bytes, t: bytes)
    requires |s| > 0 && DecodeBencode(s) == Ok((Str(t), |s| - 1))
    ensures ValueBytes(Str(t)) == Ok(s) <==> s[0] != ZERO || (|s| > 1 && s[1] == COLON)
  {
    assert IsDigit(s[0]);
    assert StringAt(0, s) == Ok((t, |s| - 1));
    var c := FindByte(s, 0, COLON).value;
    var length := s[0..c];
    var n := Atoi(length).value;
    assert c + n == |s| - 1 && t == s[c + 1..];
    assert AllDigits(length) && n == DigitsValue(length);
    assert s == length + [COLON] + t;
    if s[0] != ZERO || (|s| > 1 && s[1] == COLON) {
      FindByteFirst(s, 0, COLON);
      assert CanonicalDigits(length);
      DecimalOfDigits(length);
    }
    if ValueBytes(Str(t)) == Ok(s) {
      DecimalDigits(|t|);
      DecimalLeading(|t|);
    }
  }

  /**
   * A whole input that decodes to an integer is written back exactly when the
   * text between `i` and `e` is canonical: no '+', no leading zero, no "-0".
   */
  lemma {:induction false} IntegerReencodes(s: bytes, n: int)
    requires |s| >= 2 && DecodeBencode(s) == Ok((Int(n), |s|))
    ensures ValueBytes(Int(n)) == Ok(s) <==> CanonicalInteger(s[1..|s| - 1])
  {
    assert s[0] == TAG_I;
    assert IntegerAt(0, s) == Ok((n, |s|));
    var text := s[1..|s| - 1];
    assert Atoi(text) == Some(n);
    assert s == [TAG_I] + text + [TAG_E];
    if CanonicalInteger(text) {
      ItoaAtoi(text);
    }
    if ValueBytes(Int(n)) == Ok(s) {
      assert Itoa(n) == text;
      ItoaCanonical(n);
    }
  }

  /**
   * A dictionary inside a list is not written back: "ld1:a1:bee" decodes as a
   * list holding a list, which bencodeList writes as "ll1:a1:bee".
   */
  lemma {:induction false} NestedDictReencodedAsList()
    ensures DecodeBencode([TAG_L, TAG_D, ZERO + 1, COLON, 97, ZERO + 1, COLON, 98, TAG_E, TAG_E])
      == Ok((List([List([Str([97]), Str([98])])]), 9))
    ensures ValueBytes(List([List([Str([97]), Str([98])])]))
      == Ok([TAG_L, TAG_L, ZERO + 1, COLON, 97, ZERO + 1, COLON, 98, TAG_E, TAG_E])
  {
    NestedDictIsList();
    var inner := [Str([97]), Str([98])];
    assert BencodeString([97]) == [ZERO + 1, COLON, 97];
    assert BencodeString([98]) == [ZERO + 1, COLON, 98];
    var a: bytes := [TAG_L, ZERO + 1, COLON, 97];
    var ab: bytes := a + [ZERO + 1, COLON, 98];
    assert [TAG_L] + BencodeString([97]) == a;
    assert inner[1..] == [Str([98])] && inner[1..][1..] == [];
    assert ItemsAfter([TAG_L], inner) == ItemsAfter(a, [Str([98])]);
    assert ItemsAfter(a, [Str([98])]) == ItemsAfter(ab, []);
    var listBytes := ab + [TAG_E];
    assert EncodeList(inner) == listBytes;
    assert [List(inner)][1..] == [];
    assert ItemsAfter([TAG_L], [List(inner)]) == ItemsAfter([TAG_L] + listBytes, []);
    assert [TAG_L] + listBytes + [TAG_E] == [TAG_L, TAG_L, ZERO + 1, COLON, 97, ZERO + 1, COLON, 98, TAG_E, TAG_E];
  }
}
