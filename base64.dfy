/**
 * Base 64 encoding with the standard alphabet and '=' padding, as defined in
 * section 4 of RFC 4648 and produced by `java.util.Base64.getEncoder()`.
 */
module Base64 {

  import opened Wrappers
  import opened Utf8

  /** The character for a 6-bit value: 'A'-'Z', 'a'-'z', '0'-'9', '+', '/'. */
  function Char(i: int): (c: char)
    requires 0 <= i < 64
    ensures c != '='
  {
    if i < 26 then ('A' as int + i) as char
    else if i < 52 then ('a' as int + (i - 26)) as char
    else if i < 62 then ('0' as int + (i - 52)) as char
    else if i == 62 then '+'
    else '/'
  }

  /** The 6-bit value of an alphabet character. */
  function Index(c: char): (r: Option<int>)
    ensures r.Some? ==> 0 <= r.value < 64
  {
    if 'A' <= c <= 'Z' then Some(c as int - 'A' as int)
    else if 'a' <= c <= 'z' then Some(c as int - 'a' as int + 26)
    else if '0' <= c <= '9' then Some(c as int - '0' as int + 52)
    else if c == '+' then Some(62)
    else if c == '/' then Some(63)
    else None
  }

  predicate InAlphabet(c: char) { Index(c).Some? }

  lemma IndexChar(i: int)
    requires 0 <= i < 64
    ensures Index(Char(i)) == Some(i)
  {
  }

  /** Three bytes become four characters. */
  function EncodeBlock(b0: Byte, b1: Byte, b2: Byte): string
  {
    [Char(b0 / 4), Char((b0 % 4) * 16 + b1 / 16), Char((b1 % 16) * 4 + b2 / 64), Char(b2 % 64)]
  }

  /** The encoding of a byte sequence; a final group of one or two bytes is padded with '='. */
  function Encode(bs: seq<Byte>): (s: string)
    ensures |s| == 4 * ((|bs| + 2) / 3)
    decreases |bs|
  {
    if |bs| == 0 then ""
    else if |bs| == 1 then [Char(bs[0] / 4), Char((bs[0] % 4) * 16), '=', '=']
    else if |bs| == 2 then [Char(bs[0] / 4), Char((bs[0] % 4) * 16 + bs[1] / 16), Char((bs[1] % 16) * 4), '=']
    else
      GroupsStep(|bs|);
      EncodeBlock(bs[0], bs[1], bs[2]) + Encode(bs[3..])
  }

  /** The bytes four 6-bit values carry, the last `pad` of them being padding. */
  function DecodeQuad(v0: int, v1: int, v2: int, v3: int, pad: nat): (r: seq<Byte>)
    requires 0 <= v0 < 64 && 0 <= v1 < 64 && 0 <= v2 < 64 && 0 <= v3 < 64 && pad <= 2
    ensures |r| == 3 - pad
  {
    var b0 := v0 * 4 + v1 / 16;
    var b1 := (v1 % 16) * 16 + v2 / 4;
    var b2 := (v2 % 4) * 64 + v3;
    if pad == 0 then [b0, b1, b2] else if pad == 1 then [b0, b1] else [b0]
  }

  /** Decodes one group of four characters; padding is accepted only where `last` says the group ends the text. */
  function DecodeGroup(q: string, last: bool): (r: Option<seq<Byte>>)
    requires |q| == 4
  {
    var pad := if last && q[2] == '=' && q[3] == '=' then 2 else if last && q[3] == '=' then 1 else 0;
    var i0, i1 := Index(q[0]), Index(q[1]);
    var i2 := if pad == 2 then Some(0) else Index(q[2]);
    var i3 := if pad >= 1 then Some(0) else Index(q[3]);
    if i0.None? || i1.None? || i2.None? || i3.None? then None
    else Some(DecodeQuad(i0.value, i1.value, i2.value, i3.value, pad))
  }

  /** The inverse of `Encode`: `None` for text that is not padded Base 64. */
  function Decode(s: string): (r: Option<seq<Byte>>)
    decreases |s|
  {
    if |s| == 0 then Some([])
    else if |s| < 4 then None
    else
      match DecodeGroup(s[..4], |s| == 4)
      case None => None
      case Some(head) =>
        match Decode(s[4..])
        case None => None
        case Some(rest) => Some(head + rest)
  }

  /** Putting two bit fields side by side and splitting them apart again. */
  lemma Recombine16(hi: int, lo: int)
    requires 0 <= hi && 0 <= lo < 16
    ensures (hi * 16 + lo) / 16 == hi && (hi * 16 + lo) % 16 == lo
  {
  }

  lemma Recombine4(hi: int, lo: int)
    requires 0 <= hi && 0 <= lo < 4
    ensures (hi * 4 + lo) / 4 == hi && (hi * 4 + lo) % 4 == lo
  {
  }

  lemma QuadOfBlock(b0: Byte, b1: Byte, b2: Byte)
    ensures DecodeQuad(b0 / 4, (b0 % 4) * 16 + b1 / 16, (b1 % 16) * 4 + b2 / 64, b2 % 64, 0) == [b0, b1, b2]
  {
    Recombine16(b0 % 4, b1 / 16);
    Recombine4(b1 % 16, b2 / 64);
  }

  lemma QuadOfTail1(b0: Byte)
    ensures DecodeQuad(b0 / 4, (b0 % 4) * 16, 0, 0, 2) == [b0]
  {
    Recombine16(b0 % 4, 0);
  }

  lemma QuadOfTail2(b0: Byte, b1: Byte)
    ensures DecodeQuad(b0 / 4, (b0 % 4) * 16 + b1 / 16, (b1 % 16) * 4, 0, 1) == [b0, b1]
  {
    Recombine16(b0 % 4, b1 / 16);
    Recombine4(b1 % 16, 0);
  }

  lemma DecodeBlock(b0: Byte, b1: Byte, b2: Byte, last: bool)
    ensures DecodeGroup(EncodeBlock(b0, b1, b2), last) == Some([b0, b1, b2])
  {
    IndexChar(b0 / 4);
    IndexChar((b0 % 4) * 16 + b1 / 16);
    IndexChar((b1 % 16) * 4 + b2 / 64);
    IndexChar(b2 % 64);
    QuadOfBlock(b0, b1, b2);
  }

  lemma DecodeTail1(b0: Byte)
    ensures DecodeGroup([Char(b0 / 4), Char((b0 % 4) * 16), '=', '='], true) == Some([b0])
  {
    IndexChar(b0 / 4);
    IndexChar((b0 % 4) * 16);
    QuadOfTail1(b0);
  }

  lemma DecodeTail2(b0: Byte, b1: Byte)
    ensures DecodeGroup([Char(b0 / 4), Char((b0 % 4) * 16 + b1 / 16), Char((b1 % 16) * 4), '='], true) == Some([b0, b1])
  {
    IndexChar(b0 / 4);
    IndexChar((b0 % 4) * 16 + b1 / 16);
    IndexChar((b1 % 16) * 4);
    QuadOfTail2(b0, b1);
  }

  /** Text of one final group decodes to what that group decodes to. */
  lemma DecodeLastGroup(s: string, bytes: seq<Byte>)
    requires |s| == 4 && DecodeGroup(s, true) == Some(bytes)
    ensures Decode(s) == Some(bytes)
  {
    assert s[..4] == s && s[4..] == [];
    assert bytes + [] == bytes;
  }

  /** Text of four or more characters decodes group by group. */
  lemma DecodeFirstGroup(s: string, head: seq<Byte>, rest: seq<Byte>)
    requires |s| >= 4 && DecodeGroup(s[..4], |s| == 4) == Some(head) && Decode(s[4..]) == Some(rest)
    ensures Decode(s) == Some(head + rest)
  {
  }

  lemma DecodeEncodeOne(b0: Byte)
    ensures Decode(Encode([b0])) == Some([b0])
  {
    var s := [Char(b0 / 4), Char((b0 % 4) * 16), '=', '='];
    assert Encode([b0]) == s;
    DecodeTail1(b0);
    DecodeLastGroup(s, [b0]);
  }

  lemma DecodeEncodeTwo(b0: Byte, b1: Byte)
    ensures Decode(Encode([b0, b1])) == Some([b0, b1])
  {
    var s := [Char(b0 / 4), Char((b0 % 4) * 16 + b1 / 16), Char((b1 % 16) * 4), '='];
    assert Encode([b0, b1]) == s;
    DecodeTail2(b0, b1);
    DecodeLastGroup(s, [b0, b1]);
  }

  /** Decoding an encoding gives the bytes back. */
  lemma {:induction false} DecodeEncode(bs: seq<Byte>)
    ensures Decode(Encode(bs)) == Some(bs)
    decreases |bs|
  {
    if |bs| == 1 {
      DecodeEncodeOne(bs[0]);
      assert [bs[0]] == bs;
    } else if |bs| == 2 {
      DecodeEncodeTwo(bs[0], bs[1]);
      assert [bs[0], bs[1]] == bs;
    } else if |bs| >= 3 {
      var s := Encode(bs);
      var block := EncodeBlock(bs[0], bs[1], bs[2]);
      EncodeGroups(bs[0], bs[1], bs[2], bs[3..]);
      assert [bs[0], bs[1], bs[2]] + bs[3..] == bs;
      assert s == block + Encode(bs[3..]);
      assert s[..4] == block && s[4..] == Encode(bs[3..]);
      DecodeBlock(bs[0], bs[1], bs[2], |s| == 4);
      DecodeEncode(bs[3..]);
      DecodeFirstGroup(s, [bs[0], bs[1], bs[2]], bs[3..]);
    }
  }

  /** Each full group of three bytes is encoded on its own, ahead of the rest. */
  lemma EncodeGroups(b0: Byte, b1: Byte, b2: Byte, rest: seq<Byte>)
    ensures Encode([b0, b1, b2] + rest) == EncodeBlock(b0, b1, b2) + Encode(rest)
  {
    assert ([b0, b1, b2] + rest)[3..] == rest;
  }

  lemma GroupsStep(n: int)
    requires n >= 3
    ensures (n + 2) / 3 == 1 + (n - 1) / 3
  {
  }

  /** Every character is in the alphabet except for at most two final '='. */
  lemma {:induction false} EncodingAlphabet(bs: seq<Byte>)
    ensures forall i :: 0 <= i < |Encode(bs)| ==> InAlphabet(Encode(bs)[i]) || (i >= |Encode(bs)| - 2 && Encode(bs)[i] == '=')
    decreases |bs|
  {
    var s := Encode(bs);
    if |bs| >= 3 {
      EncodingAlphabet(bs[3..]);
      forall i | 0 <= i < 4 ensures InAlphabet(s[i]) {
        var v := if i == 0 then bs[0] / 4 else if i == 1 then (bs[0] % 4) * 16 + bs[1] / 16
          else if i == 2 then (bs[1] % 16) * 4 + bs[2] / 64 else bs[2] % 64;
        IndexChar(v);
      }
      assert forall i :: 4 <= i < |s| ==> s[i] == Encode(bs[3..])[i - 4];
    } else if |bs| == 1 {
      IndexChar(bs[0] / 4);
      IndexChar((bs[0] % 4) * 16);
    } else if |bs| == 2 {
      IndexChar(bs[0] / 4);
      IndexChar((bs[0] % 4) * 16 + bs[1] / 16);
      IndexChar((bs[1] % 16) * 4);
    }
  }
}
