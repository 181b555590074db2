/**
 * The bencode decoder of cmd/mybittorrent/main.go: an index-scanning recursive
 * descent over the bytes of a Go string. Each scanning function of the source is
 * a method proved equal to a recursive specification function.
 */
module Decoder {
  import opened Outcomes
  import opened Bytes
  import opened Numbers
  import opened Values

  /**
   * decodeString at index `i`: the string and the index of its LAST byte.
   * Without a colon, the length text is s[i:0], which is empty when i == 0
   * and a slice panic otherwise.
   */
  function StringAt(i: nat, s: bytes): (r: Result<(bytes, nat)>)
    requires i < |s| && IsDigit(s[i])
    ensures r.Ok? ==> i < r.value.1 + 1 - |r.value.0| && r.value.1 < |s|
  {
    match FindByte(s, i, COLON)
    case None => if i == 0 then Fail(StringLength) else Fail(SliceOutOfRange)
    case Some(colon) =>
      match Atoi(s[i..colon])
      case None => Fail(StringLength)
      case Some(n) =>
        if n < 0 || colon + 1 + n > |s| then Fail(SliceOutOfRange)
        else Ok((s[colon + 1..colon + 1 + n], colon + n))
  }

  /**
   * decodeInteger at index `i`: the integer and the number of bytes of `i...e`.
   * Everything between the tag and the first `e` goes to strconv.Atoi.
   */
  function IntegerAt(i: nat, s: bytes): (r: Result<(int, nat)>)
    requires i < |s| && s[i] == TAG_I
    ensures r.Ok? ==> 2 <= r.value.1 && i + r.value.1 <= |s| && s[i + r.value.1 - 1] == TAG_E
    ensures r.Ok? ==> InInt64(r.value.0)
  {
    match FindByte(s, i, TAG_E)
    case None => Fail(SliceOutOfRange)
    case Some(e) =>
      match Atoi(s[i + 1..e])
      case None => Fail(IntegerSyntax)
      case Some(n) => Ok((n, e - i + 1))
  }

  /**
   * One pass of decodeList's loop from index `j`, for the list opened at `i`,
   * with `acc` already decoded. The result is the elements and the distance
   * from `i` to the closing `e` (0 when there is none).
   */
  function ListFrom(i: nat, j: nat, s: bytes, acc: seq<Value>): (r: Result<(seq<Value>, nat)>)
    requires i <= j
    decreases |s| - i, |s| - j
    ensures r.Ok? && r.value.1 != 0 ==> i + r.value.1 < |s| && s[i + r.value.1] == TAG_E
  {
    if j >= |s| then Ok((acc, 0))
    else if IsDigit(s[j]) then
      var str := StringAt(j, s);
      if str.Fail? then Fail(str.error)
      else ListFrom(i, str.value.1 + 1, s, acc + [Str(str.value.0)])
    else if s[j] == TAG_I then
      var num := IntegerAt(j, s);
      if num.Fail? then Fail(num.error)
      else ListFrom(i, j + num.value.1, s, acc + [Int(num.value.0)])
    else if s[j] == TAG_E then Ok((acc, j - i))
    else if (s[j] == TAG_L || s[j] == TAG_D) && j != i then
      var list := ListFrom(j, j, s, []);
      if list.Fail? then Fail(list.error)
      else ListFrom(i, j + list.value.1 + 1, s, acc + [List(list.value.0)])
    else ListFrom(i, j + 1, s, acc)
  }

  /** decodeList at index `i`. */
  function ListAt(i: nat, s: bytes): (r: Result<(seq<Value>, nat)>)
    ensures r.Ok? && r.value.1 != 0 ==> i + r.value.1 < |s| && s[i + r.value.1] == TAG_E
  {
    ListFrom(i, i, s, [])
  }

  /**
   * parseList from the key at index `j`, into `acc`. A later duplicate key
   * overwrites an earlier one; a key without a value is an index panic.
   */
  function PairsFrom(list: seq<Value>, j: nat, acc: map<bytes, Value>): (r: Result<map<bytes, Value>>)
    decreases list, 0, |list| - j
  {
    if j >= |list| then Ok(acc)
    else if !list[j].Str? then Fail(KeyNotString)
    else if j + 1 >= |list| then Fail(IndexOutOfRange)
    else PairsFrom(list, j + 2, acc[list[j].text := Stored(list[j + 1])])
  }

  /** parseList. */
  function ParsedList(list: seq<Value>): Result<map<bytes, Value>>
    decreases list, 1
  {
    PairsFrom(list, 0, map[])
  }

  /**
   * The value parseList stores under a key: a list of even length becomes a
   * dictionary (an empty one when it has a non-string key); anything else is
   * stored as it is.
   */
  function Stored(v: Value): Value
    decreases v
  {
    match v
    case List(items) =>
      if |items| % 2 != 0 then v
      else (match ParsedList(items) case Ok(m) => Dict(m) case Fail(_) => Dict(map[]))
    case _ => v
  }

  /**
   * decodeDict: decodeList's error is dropped (the list is then empty), so only
   * a panic or parseList's "Key must be a string" is a failure.
   */
  function DictAt(i: nat, s: bytes): (r: Result<(map<bytes, Value>, nat)>)
  {
    match ListAt(i, s)
    case Fail(e) => if e.IsPanic() then Fail(e) else Ok((map[], 0))
    case Ok((list, length)) =>
      match ParsedList(list)
      case Fail(e) => Fail(e)
      case Ok(m) => Ok((m, length))
  }

  /**
   * decodeBencode: the first byte selects the decoder. The position returned is
   * the one of the chosen decoder (last index, byte count or distance to `e`).
   */
  function DecodeBencode(s: bytes): Result<(Value, nat)>
  {
    if |s| == 0 then Fail(EmptyInput)
    else if IsDigit(s[0]) then
      match StringAt(0, s) case Fail(e) => Fail(e) case Ok((t, last)) => Ok((Str(t), last))
    else if s[0] == TAG_I then
      match IntegerAt(0, s) case Fail(e) => Fail(e) case Ok((n, count)) => Ok((Int(n), count))
    else if s[0] == TAG_L then
      match ListAt(0, s) case Fail(e) => Fail(e) case Ok((items, length)) => Ok((List(items), length))
    else if s[0] == TAG_D then
      match DictAt(0, s) case Fail(e) => Fail(e) case Ok((m, length)) => Ok((Dict(m), length))
    else Fail(Unsupported)
  }

  /** decodeString (cmd/mybittorrent/main.go:23-39). */
  method DecodeString(i: nat, s: bytes) returns (r: Result<(bytes, nat)>)
    requires i < |s| && IsDigit(s[i])
    ensures r == StringAt(i, s)
  {
    var firstColon := 0;
    var j := i;
    while j < |s|
      invariant i <= j <= |s|
      invariant FindByte(s, j, COLON) == FindByte(s, i, COLON)
      invariant firstColon == 0
      decreases |s| - j
    {
      if s[j] == COLON {
        firstColon := j;
        break;
      }
      j := j + 1;
    }
    if firstColon < i {
      return Fail(SliceOutOfRange);
    }
    var length := Atoi(s[i..firstColon]);
    if length.None? {
      return Fail(StringLength);
    }
    var n := length.value;
    if n < 0 || firstColon + 1 + n > |s| {
      return Fail(SliceOutOfRange);
    }
    return Ok((s[firstColon + 1..firstColon + 1 + n], firstColon + n));
  }

  /** decodeInteger (cmd/mybittorrent/main.go:45-58). */
  method DecodeInteger(i: nat, s: bytes) returns (r: Result<(int, nat)>)
    requires i < |s| && s[i] == TAG_I
    ensures r == IntegerAt(i, s)
  {
    var numberLen := 0;
    var j := i;
    while j < |s|
      invariant i <= j <= |s|
      invariant FindByte(s, j, TAG_E) == FindByte(s, i, TAG_E)
      invariant numberLen == 0
      decreases |s| - j
    {
      if s[j] == TAG_E {
        numberLen := j - i;
        break;
      }
      j := j + 1;
    }
    var end := i + numberLen;
    if i + 1 > end {
      return Fail(SliceOutOfRange);
    }
    var n := Atoi(s[i + 1..end]);
    if n.None? {
      return Fail(IntegerSyntax);
    }
    return Ok((n.value, numberLen + 1));
  }

  /** decodeList (cmd/mybittorrent/main.go:64-104). */
  method DecodeList(i: nat, s: bytes) returns (r: Result<(seq<Value>, nat)>)
    ensures r == ListAt(i, s)
    decreases |s| - i
  {
    var result: seq<Value> := [];
    var charLen := 0;
    var j := i;
    while j < |s|
      invariant i <= j
      invariant ListFrom(i, j, s, result) == ListAt(i, s)
      invariant charLen == 0
      decreases |s| - j
    {
      if IsDigit(s[j]) {
        var str := DecodeString(j, s);
        if str.Fail? {
          return Fail(str.error);
        }
        result := result + [Str(str.value.0)];
        j := str.value.1;
      } else if s[j] == TAG_I {
        var num := DecodeInteger(j, s);
        if num.Fail? {
          return Fail(num.error);
        }
        result := result + [Int(num.value.0)];
        j := j + num.value.1 - 1;
      } else if s[j] == TAG_E {
        charLen := j - i;
        break;
      } else if (s[j] == TAG_L || s[j] == TAG_D) && j != i {
        var list := DecodeList(j, s);
        if list.Fail? {
          return Fail(list.error);
        }
        result := result + [List(list.value.0)];
        j := j + list.value.1;
      }
      j := j + 1;
    }
    return Ok((result, charLen));
  }

  /** parseList (cmd/mybittorrent/main.go:106-126). */
  method ParseList(list: seq<Value>) returns (r: Result<map<bytes, Value>>)
    ensures r == ParsedList(list)
    decreases list
  {
    var result: map<bytes, Value> := map[];
    var j := 0;
    while j < |list|
      invariant PairsFrom(list, j, result) == ParsedList(list)
      decreases |list| - j
    {
      if !list[j].Str? {
        return Fail(KeyNotString);
      }
      if j + 1 >= |list| {
        return Fail(IndexOutOfRange);
      }
      var key := list[j].text;
      var value := list[j + 1];
      if value.List? && |value.items| % 2 == 0 {
        var nested := ParseList(value.items);
        result := result[key := if nested.Ok? then Dict(nested.value) else Dict(map[])];
      } else {
        result := result[key := value];
      }
      j := j + 2;
    }
    return Ok(result);
  }

  /** decodeDict (cmd/mybittorrent/main.go:128-132). */
  method DecodeDict(i: nat, s: bytes) returns (r: Result<(map<bytes, Value>, nat)>)
    ensures r == DictAt(i, s)
  {
    var decoded := DecodeList(i, s);
    var list, length := [], 0;
    if decoded.Ok? {
      list, length := decoded.value.0, decoded.value.1;
    } else if decoded.error.IsPanic() {
      return Fail(decoded.error);
    }
    var parsed := ParseList(list);
    if parsed.Fail? {
      return Fail(parsed.error);
    }
    return Ok((parsed.value, length));
  }
}
