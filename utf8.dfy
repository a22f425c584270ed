/**
 * UTF-8, the character encoding `String.getBytes(StandardCharsets.UTF_8)` and
 * `URLEncoder.encode(s, "UTF8")` apply. A Dafny `char` is a Unicode scalar
 * value, so every character has exactly one encoding of one to four bytes.
 */
module Utf8 {

  import opened Wrappers

  type Byte = b: int | 0 <= b < 256

  predicate IsContinuation(b: Byte) { 0x80 <= b < 0xC0 }

  /** The bytes of one character. */
  function EncodeChar(c: char): (bs: seq<Byte>)
    ensures 1 <= |bs| <= 4
    ensures (c as int < 0x80) <==> |bs| == 1
    ensures |bs| == 1 ==> bs[0] == c as int
    ensures forall i :: 1 <= i < |bs| ==> IsContinuation(bs[i])
  {
    var v := c as int;
    if v < 0x80 then [v]
    else if v < 0x800 then [0xC0 + v / 64, 0x80 + v % 64]
    else if v < 0x1_0000 then [0xE0 + v / 4096, 0x80 + (v / 64) % 64, 0x80 + v % 64]
    else [0xF0 + v / 262144, 0x80 + (v / 4096) % 64, 0x80 + (v / 64) % 64, 0x80 + v % 64]
  }

  function Encode(s: string): (bs: seq<Byte>)
    ensures |s| <= |bs| <= 4 * |s|
  {
    if s == [] then [] else EncodeChar(s[0]) + Encode(s[1..])
  }

  predicate IsScalar(v: int) { 0 <= v < 0xD800 || 0xE000 <= v < 0x11_0000 }

  /** The number of bytes the sequence announced by a leading byte occupies, or 0 for a byte no sequence starts with. */
  function SequenceLength(b: Byte): nat
  {
    if b < 0x80 then 1
    else if 0xC0 <= b < 0xE0 then 2
    else if 0xE0 <= b < 0xF0 then 3
    else if 0xF0 <= b < 0xF8 then 4
    else 0
  }

  /** The scalar value a well-formed sequence of `n` bytes carries. */
  function SequenceValue(bs: seq<Byte>, n: nat): int
    requires 1 <= n <= 4 && n <= |bs|
  {
    var b0: int := bs[0];
    if n == 1 then b0
    else
      var b1: int := bs[1];
      if n == 2 then (b0 - 0xC0) * 64 + (b1 - 0x80)
      else
        var b2: int := bs[2];
        if n == 3 then (b0 - 0xE0) * 4096 + (b1 - 0x80) * 64 + (b2 - 0x80)
        else
          var b3: int := bs[3];
          (b0 - 0xF0) * 262144 + (b1 - 0x80) * 4096 + (b2 - 0x80) * 64 + (b3 - 0x80)
  }

  /** Decodes one character at the head of `bs`, with the number of bytes it used. */
  function DecodeChar(bs: seq<Byte>): (r: Option<(char, nat)>)
    requires bs != []
    ensures r.Some? ==> 1 <= r.value.1 <= |bs|
  {
    var n := SequenceLength(bs[0]);
    if n == 0 || |bs| < n || exists i :: 1 <= i < n && !IsContinuation(bs[i]) then None
    else
      var v := SequenceValue(bs, n);
      if IsScalar(v) then Some((v as char, n)) else None
  }

  /** The inverse of `Encode`: `None` for bytes that are not UTF-8 of scalar values. */
  function Decode(bs: seq<Byte>): (r: Option<string>)
    decreases |bs|
  {
    if bs == [] then Some([])
    else match DecodeChar(bs)
      case None => None
      case Some((c, n)) =>
        match Decode(bs[n..])
        case None => None
        case Some(rest) => Some([c] + rest)
  }

  lemma DecodeEncodeChar(c: char, tail: seq<Byte>)
    ensures DecodeChar(EncodeChar(c) + tail) == Some((c, |EncodeChar(c)|))
  {
    var e := EncodeChar(c);
    var bs := e + tail;
    var n := |e|;
    assert forall i :: 0 <= i < n ==> bs[i] == e[i];
    assert SequenceLength(bs[0]) == n by { LeadingByte(c); }
    assert forall i :: 1 <= i < n ==> IsContinuation(bs[i]);
    assert SequenceValue(bs, n) == c as int by { SequenceValueOfEncoding(c, bs); }
  }

  lemma LeadingByte(c: char)
    ensures SequenceLength(EncodeChar(c)[0]) == |EncodeChar(c)|
  {
  }

  lemma SequenceValueOfEncoding(c: char, bs: seq<Byte>)
    requires |EncodeChar(c)| <= |bs| && bs[..|EncodeChar(c)|] == EncodeChar(c)
    ensures SequenceValue(bs, |EncodeChar(c)|) == c as int
  {
    var v := c as int;
    var e := EncodeChar(c);
    assert forall i :: 0 <= i < |e| ==> bs[i] == e[i] by {
      forall i | 0 <= i < |e| ensures bs[i] == e[i] {
        assert bs[..|e|][i] == bs[i];
      }
    }
    if v < 0x80 {
    } else if v < 0x800 {
      Split2(v);
    } else if v < 0x1_0000 {
      Split3(v);
    } else {
      Split4(v);
    }
  }

  lemma Split2(v: int)
    requires 0 <= v
    ensures (v / 64) * 64 + v % 64 == v
  {
  }

  lemma Split3(v: int)
    requires 0 <= v
    ensures (v / 4096) * 4096 + ((v / 64) % 64) * 64 + v % 64 == v
  {
    assert v / 4096 == (v / 64) / 64;
  }

  lemma Split4(v: int)
    requires 0 <= v
    ensures (v / 262144) * 262144 + ((v / 4096) % 64) * 4096 + ((v / 64) % 64) * 64 + v % 64 == v
  {
    assert v / 4096 == (v / 64) / 64;
    assert v / 262144 == (v / 4096) / 64;
  }

  /** Decoding the UTF-8 of a string gives the string back. */
  lemma {:induction false} DecodeEncode(s: string)
    ensures Decode(Encode(s)) == Some(s)
  {
    if s != [] {
      var head := EncodeChar(s[0]);
      var bs := Encode(s);
      DecodeEncodeChar(s[0], Encode(s[1..]));
      assert bs[|head|..] == Encode(s[1..]);
      DecodeEncode(s[1..]);
      assert [s[0]] + s[1..] == s;
    }
  }

  /** Strings below U+0080 encode one byte per character, each byte its code. */
  lemma {:induction false} EncodeAscii(s: string)
    requires forall i :: 0 <= i < |s| ==> s[i] as int < 0x80
    ensures |Encode(s)| == |s|
    ensures forall i :: 0 <= i < |s| ==> Encode(s)[i] == s[i] as int
  {
    if s != [] {
      EncodeAscii(s[1..]);
    }
  }

  lemma EncodeAppend(a: string, b: string)
    ensures Encode(a + b) == Encode(a) + Encode(b)
  {
    if a != [] {
      assert (a + b)[0] == a[0] && (a + b)[1..] == a[1..] + b;
      EncodeAppend(a[1..], b);
    } else {
      assert a + b == b;
    }
  }
}
