/**
 * Standard base64 encoding (section 4 of RFC 4648), as `base64.b64encode`
 * produces it: every group of three bytes becomes four characters of the
 * alphabet A-Z a-z 0-9 + /, and a final group of one or two bytes is padded
 * with '='.
 */
module Base64 {
  import opened Wrappers

  type byte = x: int | 0 <= x < 256

  type sextet = x: int | 0 <= x < 64

  /** The character that stands for a six-bit value. */
  function Char(i: sextet): char {
    if i < 26 then ('A' as int + i) as char
    else if i < 52 then ('a' as int + i - 26) as char
    else if i < 62 then ('0' as int + i - 52) as char
    else if i == 62 then '+'
    else '/'
  }

  /** The six-bit value a character stands for, if it is in the alphabet. */
  function Value(c: char): Option<sextet> {
    if 'A' <= c <= 'Z' then Some(c as int - 'A' as int)
    else if 'a' <= c <= 'z' then Some(c as int - 'a' as int + 26)
    else if '0' <= c <= '9' then Some(c as int - '0' as int + 52)
    else if c == '+' then Some(62)
    else if c == '/' then Some(63)
    else None
  }

  predicate InAlphabet(c: char) {
    Value(c).Some?
  }

  lemma ValueChar(i: sextet)
    ensures Value(Char(i)) == Some(i)
  {
  }

  function Encode(b: seq<byte>): (s: string)
    decreases |b|
  {
    if |b| == 0 then ""
    else if |b| == 1 then
      [Char(b[0] / 4), Char(b[0] % 4 * 16), '=', '=']
    else if |b| == 2 then
      [Char(b[0] / 4), Char(b[0] % 4 * 16 + b[1] / 16), Char(b[1] % 16 * 4), '=']
    else
      EncodeQuad(b[0], b[1], b[2]) + Encode(b[3..])
  }

  /** The four characters that stand for three bytes. */
  function EncodeQuad(x: byte, y: byte, z: byte): (q: string)
    ensures |q| == 4 && forall i :: 0 <= i < 4 ==> InAlphabet(q[i])
  {
    ValueChar(x / 4);
    ValueChar(x % 4 * 16 + y / 16);
    ValueChar(y % 16 * 4 + z / 64);
    ValueChar(z % 64);
    [Char(x / 4), Char(x % 4 * 16 + y / 16), Char(y % 16 * 4 + z / 64), Char(z % 64)]
  }

  /** The three bytes four alphabet characters stand for. */
  function DecodeQuad(c0: char, c1: char, c2: char, c3: char): Option<seq<byte>> {
    if InAlphabet(c0) && InAlphabet(c1) && InAlphabet(c2) && InAlphabet(c3) then
      var a, b, c, d := Value(c0).value, Value(c1).value, Value(c2).value, Value(c3).value;
      Some([a * 4 + b / 16, b % 16 * 16 + c / 4, c % 4 * 64 + d])
    else None
  }

  /** The bytes a final group stands for, padded or not. */
  function DecodeLast(c0: char, c1: char, c2: char, c3: char): Option<seq<byte>> {
    if c2 == '=' && c3 == '=' then
      if InAlphabet(c0) && InAlphabet(c1) then
        var a, b := Value(c0).value, Value(c1).value;
        Some([a * 4 + b / 16])
      else None
    else if c3 == '=' then
      if InAlphabet(c0) && InAlphabet(c1) && InAlphabet(c2) then
        var a, b, c := Value(c0).value, Value(c1).value, Value(c2).value;
        Some([a * 4 + b / 16, b % 16 * 16 + c / 4])
      else None
    else DecodeQuad(c0, c1, c2, c3)
  }

  /** Every three bytes, and a last group of one or two, take four characters. */
  lemma {:induction false} EncodeLength(b: seq<byte>)
    ensures |Encode(b)| == 4 * ((|b| + 2) / 3)
    decreases |b|
  {
    if |b| >= 3 {
      EncodeLength(b[3..]);
      assert (|b| + 2) / 3 == (|b[3..]| + 2) / 3 + 1;
    }
  }

  /** Every character of an encoding is in the alphabet or is padding. */
  lemma {:induction false} EncodeAlphabet(b: seq<byte>)
    ensures forall i :: 0 <= i < |Encode(b)| ==> InAlphabet(Encode(b)[i]) || Encode(b)[i] == '='
    decreases |b|
  {
    if |b| == 1 {
      ValueChar(b[0] / 4);
      ValueChar(b[0] % 4 * 16);
    } else if |b| == 2 {
      Group2(b[0], b[1]);
      ValueChar(b[0] / 4);
      ValueChar(b[0] % 4 * 16 + b[1] / 16);
      ValueChar(b[1] % 16 * 4);
    } else if |b| >= 3 {
      EncodeAlphabet(b[3..]);
      var q := EncodeQuad(b[0], b[1], b[2]);
      assert Encode(b) == q + Encode(b[3..]);
    }
  }

  /**
   * The inverse of `Encode`: decodes canonical base64, with padding only in
   * the last group. Not part of the wiki; it is here to state what the
   * encoding preserves.
   */
  function Decode(s: string): Option<seq<byte>>
    decreases |s|
  {
    if s == "" then Some([])
    else if |s| < 4 then None
    else if |s| == 4 then DecodeLast(s[0], s[1], s[2], s[3])
    else
      match DecodeQuad(s[0], s[1], s[2], s[3])
      case None => None
      case Some(head) =>
        match Decode(s[4..])
        case None => None
        case Some(rest) => Some(head + rest)
  }

  lemma Group1(x: byte)
    ensures x / 4 * 4 + x % 4 * 16 / 16 == x
  {
  }

  lemma Group2(x: byte, y: byte)
    ensures 0 <= x / 4 < 64 && 0 <= x % 4 * 16 + y / 16 < 64 && 0 <= y % 16 * 4 < 64
    ensures x / 4 * 4 + (x % 4 * 16 + y / 16) / 16 == x
    ensures (x % 4 * 16 + y / 16) % 16 * 16 + y % 16 * 4 / 4 == y
  {
  }

  lemma Group3(x: byte, y: byte, z: byte)
    ensures 0 <= y % 16 * 4 + z / 64 < 64 && 0 <= z % 64 < 64
    ensures (y % 16 * 4 + z / 64) / 4 == y % 16
    ensures (y % 16 * 4 + z / 64) % 4 * 64 + z % 64 == z
  {
  }

  lemma DecodeEncodeOne(b: seq<byte>)
    requires |b| == 1
    ensures Decode(Encode(b)) == Some(b)
  {
    var s := Encode(b);
    var a, c := b[0] / 4, b[0] % 4 * 16;
    assert s == [Char(a), Char(c), '=', '='];
    ValueChar(a);
    ValueChar(c);
    Group1(b[0]);
    assert b == [b[0]];
  }

  lemma DecodeTwoChars(i0: sextet, i1: sextet, i2: sextet)
    ensures Decode([Char(i0), Char(i1), Char(i2), '=']) == DecodeLast(Char(i0), Char(i1), Char(i2), '=')
    ensures DecodeLast(Char(i0), Char(i1), Char(i2), '=') == Some([i0 * 4 + i1 / 16, i1 % 16 * 16 + i2 / 4])
  {
    ValueChar(i0);
    ValueChar(i1);
    ValueChar(i2);
  }

  lemma EncodeTwo(b: seq<byte>)
    requires |b| == 2
    ensures Encode(b) == [Char(b[0] / 4), Char(b[0] % 4 * 16 + b[1] / 16), Char(b[1] % 16 * 4), '=']
  {
  }

  lemma DecodeEncodeTwo(b: seq<byte>)
    requires |b| == 2
    ensures Decode(Encode(b)) == Some(b)
  {
    var x, y := b[0], b[1];
    Group2(x, y);
    var c0, c1, c2 := x / 4, x % 4 * 16 + y / 16, y % 16 * 4;
    EncodeTwo(b);
    DecodeTwoChars(c0, c1, c2);
    assert [c0 * 4 + c1 / 16, c1 % 16 * 16 + c2 / 4] == [x, y];
    assert b == [x, y];
  }

  lemma DecodeQuadChars(x: byte, y: byte, z: byte)
    ensures var q := EncodeQuad(x, y, z); DecodeQuad(q[0], q[1], q[2], q[3]) == Some([x, y, z])
  {
    ValueChar(x / 4);
    ValueChar(x % 4 * 16 + y / 16);
    ValueChar(y % 16 * 4 + z / 64);
    ValueChar(z % 64);
    Group2(x, y);
    Group3(x, y, z);
  }

  /** Decoding a full group followed by the rest. */
  lemma DecodeCons(q: string, rest: string)
    requires |q| == 4 && q[3] != '='
    ensures Decode(q + rest) ==
      match DecodeQuad(q[0], q[1], q[2], q[3])
      case None => None
      case Some(head) =>
        match Decode(rest)
        case None => None
        case Some(tail) => Some(head + tail)
  {
    if rest == [] {
      assert q + rest == q;
      var h := DecodeQuad(q[0], q[1], q[2], q[3]);
      if h.Some? { assert h.value + [] == h.value; }
    } else {
      assert (q + rest)[4..] == rest;
    }
  }

  lemma FirstThree(b: seq<byte>)
    requires |b| >= 3
    ensures b == [b[0], b[1], b[2]] + b[3..]
  {
  }

  lemma DecodeEncodeGroup(b: seq<byte>)
    requires |b| >= 3
    requires Decode(Encode(b[3..])) == Some(b[3..])
    ensures Decode(Encode(b)) == Some(b)
  {
    var q := EncodeQuad(b[0], b[1], b[2]);
    var rest := Encode(b[3..]);
    assert Encode(b) == q + rest;
    assert Decode(q + rest) == Some([b[0], b[1], b[2]] + b[3..]) by {
      DecodeQuadChars(b[0], b[1], b[2]);
      assert q[3] != '=' by { assert InAlphabet(q[3]); }
      DecodeCons(q, rest);
    }
    FirstThree(b);
  }

  /** Decoding undoes encoding. */
  lemma {:induction false} DecodeEncode(b: seq<byte>)
    ensures Decode(Encode(b)) == Some(b)
    decreases |b|
  {
    if |b| == 1 {
      DecodeEncodeOne(b);
    } else if |b| == 2 {
      DecodeEncodeTwo(b);
    } else if |b| >= 3 {
      DecodeEncode(b[3..]);
      DecodeEncodeGroup(b);
    }
  }
}
