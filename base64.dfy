/** The base64 encoding of section 4 of RFC 4648 (standard alphabet, '='
    padding, no line breaks), standing in for `Convert.ToBase64String` and
    `Convert.FromBase64String`. The decoder is strict: it takes no
    whitespace, and its error text is this model's own. */
module Base64 {
  import opened Runtime

  const InvalidText := "The input is not a valid Base-64 string."

  predicate IsBase64Char(c: char)
  {
    'A' <= c <= 'Z' || 'a' <= c <= 'z' || '0' <= c <= '9' || c == '+' || c == '/'
  }

  /** The value of an alphabet character (table 1 of RFC 4648). */
  function CharValue(c: char): (v: int)
    requires IsBase64Char(c)
    ensures 0 <= v < 64
  {
    if 'A' <= c <= 'Z' then c as int - 'A' as int
    else if 'a' <= c <= 'z' then c as int - 'a' as int + 26
    else if '0' <= c <= '9' then c as int - '0' as int + 52
    else if c == '+' then 62
    else 63
  }

  /** The alphabet character for a 6-bit value; `CharValue` reads it back. */
  function ValueChar(v: int): (c: char)
    requires 0 <= v < 64
    ensures IsBase64Char(c) && CharValue(c) == v
  {
    if v < 26 then ('A' as int + v) as char
    else if v < 52 then ('a' as int + v - 26) as char
    else if v < 62 then ('0' as int + v - 52) as char
    else if v == 62 then '+'
    else '/'
  }

  /** Three bytes as four characters. */
  function EncodeBlock(b0: byte, b1: byte, b2: byte): string
  {
    var x0, x1, x2 := b0 as int, b1 as int, b2 as int;
    [ValueChar(x0 / 4), ValueChar((x0 % 4) * 16 + x1 / 16), ValueChar((x1 % 16) * 4 + x2 / 64), ValueChar(x2 % 64)]
  }

  /** `Convert.ToBase64String`: full groups of three bytes, then a final
      group of one or two bytes padded with "==" or "=". */
  function Encode(b: seq<byte>): string
    decreases |b|
  {
    if |b| == 0 then []
    else if |b| == 1 then
      [ValueChar(b[0] as int / 4), ValueChar((b[0] as int % 4) * 16), '=', '=']
    else if |b| == 2 then
      [ValueChar(b[0] as int / 4), ValueChar((b[0] as int % 4) * 16 + b[1] as int / 16), ValueChar((b[1] as int % 16) * 4), '=']
    else
      EncodeBlock(b[0], b[1], b[2]) + Encode(b[3..])
  }

  /** Past the first two bytes the encoding is one full group followed by
      the encoding of the rest. */
  lemma EncodeStep(b: seq<byte>)
    requires |b| >= 3
    ensures Encode(b) == EncodeBlock(b[0], b[1], b[2]) + Encode(b[3..])
    ensures |Encode(b)| == 4 + |Encode(b[3..])|
  {
  }

  lemma EncodeNonEmpty(b: seq<byte>)
    requires |b| > 0
    ensures |Encode(b)| >= 4
  {
    if |b| >= 3 {
      EncodeStep(b);
    }
  }

  lemma CeilStep(n: nat)
    requires n >= 3
    ensures 4 * ((n + 2) / 3) == 4 + 4 * ((n - 3 + 2) / 3)
  {
  }

  lemma AddGroup(n: nat)
    requires n % 4 == 0
    ensures (4 + n) % 4 == 0
  {
  }

  /** Base64 of n bytes has 4 * ceil(n / 3) characters. */
  lemma {:induction false} EncodedLength(b: seq<byte>)
    ensures |Encode(b)| == 4 * ((|b| + 2) / 3)
    decreases |b|
  {
    if |b| >= 3 {
      EncodeStep(b);
      EncodedLength(b[3..]);
      CeilStep(|b|);
    }
  }

  /** Every character of the encoding is from the alphabet or the pad '='. */
  lemma {:induction false} EncodeAlphabet(b: seq<byte>)
    ensures forall i :: 0 <= i < |Encode(b)| ==> IsBase64Char(Encode(b)[i]) || Encode(b)[i] == '='
    decreases |b|
  {
    if |b| >= 3 {
      EncodeAlphabet(b[3..]);
      assert Encode(b) == EncodeBlock(b[0], b[1], b[2]) + Encode(b[3..]);
    }
  }

  /** Four alphabet characters as three bytes. */
  function DecodeBlock(c0: char, c1: char, c2: char, c3: char): Result<seq<byte>>
  {
    if IsBase64Char(c0) && IsBase64Char(c1) && IsBase64Char(c2) && IsBase64Char(c3) then
      var v0, v1, v2, v3 := CharValue(c0), CharValue(c1), CharValue(c2), CharValue(c3);
      Ok([(v0 * 4 + v1 / 16) as byte, ((v1 % 16) * 16 + v2 / 4) as byte, ((v2 % 4) * 64 + v3) as byte])
    else
      Err(FormatException(InvalidText))
  }

  /** The last group, which may end in "==" (one byte) or "=" (two bytes). */
  function DecodeFinalBlock(c0: char, c1: char, c2: char, c3: char): Result<seq<byte>>
  {
    if c2 == '=' && c3 == '=' then
      if IsBase64Char(c0) && IsBase64Char(c1) then
        Ok([(CharValue(c0) * 4 + CharValue(c1) / 16) as byte])
      else
        Err(FormatException(InvalidText))
    else if c3 == '=' then
      if IsBase64Char(c0) && IsBase64Char(c1) && IsBase64Char(c2) then
        var v0, v1, v2 := CharValue(c0), CharValue(c1), CharValue(c2);
        Ok([(v0 * 4 + v1 / 16) as byte, ((v1 % 16) * 16 + v2 / 4) as byte])
      else
        Err(FormatException(InvalidText))
    else
      DecodeBlock(c0, c1, c2, c3)
  }

  /** The groups of four, left to right; only the last may be padded. A
      short tail cannot occur once `Decode` has checked the length. */
  function DecodeGroups(s: string): Result<seq<byte>>
    decreases |s|
  {
    if s == [] then Ok([])
    else if |s| < 4 then Err(FormatException(InvalidText))
    else if |s| == 4 then DecodeFinalBlock(s[0], s[1], s[2], s[3])
    else
      match DecodeBlock(s[0], s[1], s[2], s[3])
      case Err(e) => Err(e)
      case Ok(head) =>
        match DecodeGroups(s[4..])
        case Err(e) => Err(e)
        case Ok(tail) => Ok(head + tail)
  }

  /** `Convert.FromBase64String`, strict: the length must be a multiple of
      four and '=' may only pad the last group. */
  function Decode(s: string): (r: Result<seq<byte>>)
    ensures r.Err? ==> r.error == FormatException(InvalidText)
    ensures |s| % 4 != 0 ==> r.Err?
  {
    if |s| % 4 != 0 then Err(FormatException(InvalidText)) else DecodeGroupsError(s); DecodeGroups(s)
  }

  lemma {:induction false} DecodeGroupsError(s: string)
    ensures DecodeGroups(s).Err? ==> DecodeGroups(s).error == FormatException(InvalidText)
    decreases |s|
  {
    if |s| > 4 {
      DecodeGroupsError(s[4..]);
    }
  }

  lemma BlockRoundTrip(b0: byte, b1: byte, b2: byte)
    ensures var e := EncodeBlock(b0, b1, b2); DecodeBlock(e[0], e[1], e[2], e[3]) == Ok([b0, b1, b2])
  {
    var x0, x1, x2 := b0 as int, b1 as int, b2 as int;
    assert ((x0 % 4) * 16 + x1 / 16) / 16 == x0 % 4;
    assert ((x0 % 4) * 16 + x1 / 16) % 16 == x1 / 16;
    assert ((x1 % 16) * 4 + x2 / 64) / 4 == x1 % 16;
    assert ((x1 % 16) * 4 + x2 / 64) % 4 == x2 / 64;
  }

  /** A final group of one byte, "xx==", decodes to that byte. */
  lemma OneByteRoundTrip(b0: byte)
    ensures var s := Encode([b0]); DecodeFinalBlock(s[0], s[1], s[2], s[3]) == Ok([b0])
  {
    var x0 := b0 as int;
    assert ((x0 % 4) * 16) / 16 == x0 % 4;
  }

  /** A final group of two bytes, "xxx=", decodes to those bytes. */
  lemma TwoBytesRoundTrip(b0: byte, b1: byte)
    ensures var s := Encode([b0, b1]); DecodeFinalBlock(s[0], s[1], s[2], s[3]) == Ok([b0, b1])
  {
    var x0, x1 := b0 as int, b1 as int;
    assert ((x0 % 4) * 16 + x1 / 16) / 16 == x0 % 4;
    assert ((x0 % 4) * 16 + x1 / 16) % 16 == x1 / 16;
    assert ((x1 % 16) * 4) / 4 == x1 % 16;
  }

  /** A full group followed by more groups decodes to the group's bytes
      followed by the rest's. */
  lemma DecodeGroupsCons(e: string, rest: string)
    requires |e| == 4 && |rest| >= 4
    requires DecodeBlock(e[0], e[1], e[2], e[3]).Ok? && DecodeGroups(rest).Ok?
    ensures DecodeGroups(e + rest) == Ok(DecodeBlock(e[0], e[1], e[2], e[3]).value + DecodeGroups(rest).value)
  {
    var s := e + rest;
    assert s[0] == e[0] && s[1] == e[1] && s[2] == e[2] && s[3] == e[3];
    assert s[4..] == rest;
  }

  /** A last group without padding decodes like any full group. */
  lemma DecodeGroupsLast(e: string)
    requires |e| == 4 && IsBase64Char(e[3])
    ensures DecodeGroups(e) == DecodeBlock(e[0], e[1], e[2], e[3])
  {
  }

  /** The encoding is a whole number of groups of four. */
  lemma {:induction false} EncodeWholeGroups(b: seq<byte>)
    ensures |Encode(b)| % 4 == 0
    decreases |b|
  {
    if |b| >= 3 {
      EncodeStep(b);
      EncodeWholeGroups(b[3..]);
      AddGroup(|Encode(b[3..])|);
    }
  }

  /** Three bytes are one unpadded group. */
  lemma ThreeBytesRoundTrip(b: seq<byte>)
    requires |b| == 3
    ensures DecodeGroups(Encode(b)) == Ok(b)
  {
    var e := EncodeBlock(b[0], b[1], b[2]);
    EncodeStep(b);
    assert Encode(b[3..]) == [];
    assert Encode(b) == e;
    BlockRoundTrip(b[0], b[1], b[2]);
    DecodeGroupsLast(e);
    assert [b[0], b[1], b[2]] == b;
  }

  /** More than three bytes: the first group, then the rest. */
  lemma GroupsStep(b: seq<byte>)
    requires |b| > 3 && DecodeGroups(Encode(b[3..])) == Ok(b[3..])
    ensures DecodeGroups(Encode(b)) == Ok(b)
  {
    var e := EncodeBlock(b[0], b[1], b[2]);
    var rest := Encode(b[3..]);
    EncodeStep(b);
    EncodeNonEmpty(b[3..]);
    BlockRoundTrip(b[0], b[1], b[2]);
    DecodeFirstGroup(b, e, rest);
  }

  lemma DecodeFirstGroup(b: seq<byte>, e: string, rest: string)
    requires |b| > 3 && |e| == 4 && |rest| >= 4
    requires DecodeBlock(e[0], e[1], e[2], e[3]) == Ok([b[0], b[1], b[2]])
    requires DecodeGroups(rest) == Ok(b[3..])
    ensures DecodeGroups(e + rest) == Ok(b)
  {
    DecodeGroupsCons(e, rest);
    assert [b[0], b[1], b[2]] + b[3..] == b;
  }

  lemma {:induction false} GroupsRoundTrip(b: seq<byte>)
    ensures DecodeGroups(Encode(b)) == Ok(b)
    decreases |b|
  {
    if |b| == 1 {
      assert b == [b[0]];
      OneByteRoundTrip(b[0]);
    } else if |b| == 2 {
      assert b == [b[0], b[1]];
      TwoBytesRoundTrip(b[0], b[1]);
    } else if |b| == 3 {
      ThreeBytesRoundTrip(b);
    } else if |b| > 3 {
      GroupsRoundTrip(b[3..]);
      GroupsStep(b);
    }
  }

  /** Decoding what `Encode` produced gives back the bytes. */
  lemma RoundTrip(b: seq<byte>)
    ensures Decode(Encode(b)) == Ok(b)
  {
    EncodeWholeGroups(b);
    GroupsRoundTrip(b);
  }
}
