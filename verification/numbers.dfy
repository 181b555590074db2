/**
 * Decimal text of integers: strconv.Atoi (used by both decoders) and the `%d`
 * formatting used by bencodeString and bencodeInteger. Go's `int` is 64 bits wide.
 */
module Numbers {
  import opened Outcomes
  import opened Bytes

  const MAX_INT64: int := 0x7fff_ffff_ffff_ffff
  const MIN_INT64: int := -0x8000_0000_0000_0000

  predicate InInt64(x: int) {
    MIN_INT64 <= x <= MAX_INT64
  }

  predicate AllDigits(t: bytes) {
    forall k | 0 <= k < |t| :: IsDigit(t[k])
  }

  /** The value of a run of decimal digits; leading zeros add nothing. */
  function DigitsValue(t: bytes): nat
    requires AllDigits(t)
  {
    if |t| == 0 then 0 else DigitsValue(t[..|t| - 1]) * 10 + (t[|t| - 1] - ZERO)
  }

  /**
   * strconv.Atoi: an optional '+' or '-', then at least one decimal digit, and a
   * value that fits in 64 bits. Leading zeros and "-0" are accepted.
   */
  function Atoi(t: bytes): (r: Option<int>)
    ensures r.Some? ==> InInt64(r.value)
  {
    if |t| > 0 && (t[0] == PLUS || t[0] == MINUS) then
      var digits := t[1..];
      if |digits| == 0 || !AllDigits(digits) then None
      else
        var v: int := if t[0] == MINUS then -(DigitsValue(digits) as int) else DigitsValue(digits);
        if InInt64(v) then Some(v) else None
    else if |t| == 0 || !AllDigits(t) then None
    else if DigitsValue(t) <= MAX_INT64 then Some(DigitsValue(t))
    else None
  }

  /** `%d` of a non-negative integer: no leading zeros, "0" for zero. */
  function Decimal(n: nat): (r: bytes)
    decreases n
  {
    if n < 10 then [ZERO + n] else Decimal(n / 10) + [ZERO + n % 10]
  }

  /** `%d` of any integer. */
  function Itoa(n: int): bytes {
    if n < 0 then [MINUS] + Decimal(-n) else Decimal(n)
  }

  /** Decimal text is a non-empty run of digits that reads back as the number. */
  lemma {:induction false} DecimalDigits(n: nat)
    ensures |Decimal(n)| >= 1
    ensures AllDigits(Decimal(n))
    ensures DigitsValue(Decimal(n)) == n
    decreases n
  {
    if n >= 10 {
      DecimalDigits(n / 10);
      var d := Decimal(n);
      assert d[..|d| - 1] == Decimal(n / 10);
    }
  }

  /** Atoi inverts `%d` on every 64-bit integer. */
  lemma {:induction false} AtoiItoa(n: int)
    requires InInt64(n)
    ensures Atoi(Itoa(n)) == Some(n)
  {
    if n < 0 {
      DecimalDigits(-n);
      assert Itoa(n)[1..] == Decimal(-n);
    } else {
      DecimalDigits(n);
      assert Decimal(n)[0] != PLUS && Decimal(n)[0] != MINUS;
    }
  }

  /** The lax inputs Atoi accepts and the decoder therefore accepts too. */
  lemma {:induction false} AtoiLax()
    ensures Atoi([MINUS, ZERO]) == Some(0)                 // "-0"
    ensures Atoi([ZERO, ZERO, ZERO + 7]) == Some(7)        // "007"
    ensures Atoi([PLUS, ZERO + 5]) == Some(5)              // "+5"
    ensures Atoi([]) == None && Atoi([MINUS]) == None
  {
    var minusZero: bytes := [MINUS, ZERO];
    assert minusZero[1..] == [ZERO];
    assert DigitsValue([ZERO]) == 0 by { assert [ZERO][..0] == []; }
    var sevens: bytes := [ZERO, ZERO, ZERO + 7];
    assert sevens[..2] == [ZERO, ZERO];
    assert [ZERO, ZERO][..1] == [ZERO];
    assert DigitsValue([ZERO, ZERO]) == 0;
    assert AllDigits(sevens) && DigitsValue(sevens) == 7;
    var plusFive: bytes := [PLUS, ZERO + 5];
    assert plusFive[1..] == [ZERO + 5];
    assert DigitsValue([ZERO + 5]) == 5 by { assert [ZERO + 5][..0] == []; }
  }

  /** `%d` writes a '-' only in front, and otherwise digits. */
  lemma {:induction false} ItoaText(n: int)
    ensures |Itoa(n)| >= 1
    ensures forall k | 0 <= k < |Itoa(n)| :: IsDigit(Itoa(n)[k]) || (k == 0 && Itoa(n)[k] == MINUS)
  {
    DecimalDigits(if n < 0 then -n else n);
  }

  /** Digits as `%d` writes a natural number: no leading zero, except "0" itself. */
  predicate CanonicalDigits(t: bytes) {
    |t| >= 1 && AllDigits(t) && (t[0] == ZERO ==> |t| == 1)
  }

  /** Integer text as `%d` writes it: canonical digits, or '-' before canonical digits other than "0". */
  predicate CanonicalInteger(t: bytes) {
    CanonicalDigits(t) || (|t| >= 2 && t[0] == MINUS && t[1] != ZERO && CanonicalDigits(t[1..]))
  }

  /** Digits that start with a non-zero digit have a positive value. */
  lemma {:induction false} LeadingDigitPositive(t: bytes)
    requires |t| >= 1 && AllDigits(t) && t[0] != ZERO
    ensures DigitsValue(t) >= 1
    decreases |t|
  {
    var init := t[..|t| - 1];
    if |t| == 1 {
      assert init == [];
    } else {
      assert init[0] == t[0];
      LeadingDigitPositive(init);
    }
  }

  /** `%d` writes back the digits it is given when they have no leading zero. */
  lemma {:induction false} DecimalOfDigits(t: bytes)
    requires CanonicalDigits(t)
    ensures Decimal(DigitsValue(t)) == t
    decreases |t|
  {
    var init := t[..|t| - 1];
    var last := t[|t| - 1] - ZERO;
    if |t| == 1 {
      assert init == [];
    } else {
      assert init[0] == t[0];
      LeadingDigitPositive(init);
      DecimalOfDigits(init);
      var n := DigitsValue(t);
      assert n == DigitsValue(init) * 10 + last;
      assert n / 10 == DigitsValue(init) && n % 10 == last;
      assert t == init + [t[|t| - 1]];
    }
  }

  /** The first digit `%d` writes for a natural number is '0' only for zero. */
  lemma {:induction false} DecimalLeading(n: nat)
    ensures Decimal(n)[0] == ZERO <==> n == 0
    decreases n
  {
    DecimalDigits(n);
    if n >= 10 {
      DecimalLeading(n / 10);
      DecimalDigits(n / 10);
      assert Decimal(n)[0] == Decimal(n / 10)[0];
    }
  }

  /** Every text `%d` writes is canonical. */
  lemma {:induction false} ItoaCanonical(n: int)
    ensures CanonicalInteger(Itoa(n))
  {
    var m := if n < 0 then -n else n;
    DecimalDigits(m);
    DecimalLeading(m);
    if n < 0 {
      assert Itoa(n)[1..] == Decimal(m);
    }
  }

  /** On canonical text, `%d` gives back exactly the text Atoi read. */
  lemma {:induction false} ItoaAtoi(t: bytes)
    requires CanonicalInteger(t) && Atoi(t).Some?
    ensures Itoa(Atoi(t).value) == t
  {
    if CanonicalDigits(t) {
      assert IsDigit(t[0]);
      DecimalOfDigits(t);
    } else {
      var digits := t[1..];
      LeadingDigitPositive(digits);
      DecimalOfDigits(digits);
      assert t == [MINUS] + digits;
    }
  }
}
