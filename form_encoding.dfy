/**
 * `application/x-www-form-urlencoded` encoding as `URLEncoder.encode(s, "UTF8")`
 * performs it: the text is taken as UTF-8 bytes; ASCII letters, digits and
 * `.`, `-`, `*`, `_` stand for themselves, a space becomes `+`, and every other
 * byte becomes `%` followed by two upper-case hexadecimal digits.
 */
module FormEncoding {

  import opened Wrappers
  import opened Utf8

  /** The characters that are written as they are. */
  predicate IsUnreserved(c: char)
  {
    'a' <= c <= 'z' || 'A' <= c <= 'Z' || '0' <= c <= '9' || c == '.' || c == '-' || c == '*' || c == '_'
  }

  /** An upper-case hexadecimal digit. */
  function HexDigit(d: int): (c: char)
    requires 0 <= d < 16
    ensures IsUnreserved(c)
  {
    if d < 10 then ('0' as int + d) as char else ('A' as int + (d - 10)) as char
  }

  /** The value of a hexadecimal digit of either case. */
  function HexValue(c: char): (r: Option<int>)
    ensures r.Some? ==> 0 <= r.value < 16
  {
    if '0' <= c <= '9' then Some(c as int - '0' as int)
    else if 'A' <= c <= 'F' then Some(c as int - 'A' as int + 10)
    else if 'a' <= c <= 'f' then Some(c as int - 'a' as int + 10)
    else None
  }

  function EncodeByte(b: Byte): (s: string)
    ensures forall i :: 0 <= i < |s| ==> IsUnreserved(s[i]) || s[i] == '+' || s[i] == '%'
    ensures |s| == 1 || |s| == 3
  {
    if b < 0x80 && IsUnreserved(b as char) then [b as char]
    else if b == 0x20 then "+"
    else ['%', HexDigit(b / 16), HexDigit(b % 16)]
  }

  /** Every byte takes one or three characters. */
  function EncodeBytes(bs: seq<Byte>): (s: string)
    ensures |bs| <= |s| <= 3 * |bs|
  {
    if bs == [] then "" else EncodeByte(bs[0]) + EncodeBytes(bs[1..])
  }

  /**
   * `URLEncoder.encode(s, "UTF8")`: one to three characters per UTF-8 byte, and
   * never a space, '&', '=' or '#', so the result cannot end a query parameter
   * or the query string early.
   */
  function Encode(s: string): (r: string)
    ensures |Utf8.Encode(s)| <= |r| <= 3 * |Utf8.Encode(s)|
    ensures ' ' !in r && '&' !in r && '=' !in r && '#' !in r
  {
    EncodedAlphabet(Utf8.Encode(s));
    EncodeBytes(Utf8.Encode(s))
  }

  /** The inverse of `EncodeBytes` on well-formed input, in the way `URLDecoder` reads it. */
  function DecodeBytes(s: string): (r: Option<seq<Byte>>)
    decreases |s|
  {
    if s == [] then Some([])
    else
      var head: Option<(Byte, nat)> :=
        if s[0] == '+' then Some((0x20, 1))
        else if s[0] == '%' then
          (if |s| >= 3 && HexValue(s[1]).Some? && HexValue(s[2]).Some?
           then Some((HexValue(s[1]).value * 16 + HexValue(s[2]).value, 3)) else None)
        else if IsUnreserved(s[0]) then Some((s[0] as int, 1))
        else None;
      match head
      case None => None
      case Some((b, n)) =>
        match DecodeBytes(s[n..])
        case None => None
        case Some(rest) => Some([b] + rest)
  }

  lemma HexRoundTrip(d: int)
    requires 0 <= d < 16
    ensures HexValue(HexDigit(d)) == Some(d)
  {
  }

  lemma DecodeEncodeByte(b: Byte, tail: string)
    ensures EncodeByte(b) != [] && |EncodeByte(b)| <= |EncodeByte(b) + tail|
    ensures DecodeBytes(EncodeByte(b) + tail) ==
      match DecodeBytes(tail) case None => None case Some(rest) => Some([b] + rest)
  {
    var e := EncodeByte(b);
    var s := e + tail;
    assert s[|e|..] == tail;
    if b < 0x80 && IsUnreserved(b as char) {
      assert s[0] == b as char;
    } else if b == 0x20 {
      assert s[0] == '+';
    } else {
      assert s[0] == '%' && s[1] == HexDigit(b / 16) && s[2] == HexDigit(b % 16);
      HexRoundTrip(b / 16);
      HexRoundTrip(b % 16);
    }
  }

  /** Decoding the encoding gives the bytes back. */
  lemma {:induction false} DecodeEncodeBytes(bs: seq<Byte>)
    ensures DecodeBytes(EncodeBytes(bs)) == Some(bs)
  {
    if bs != [] {
      DecodeEncodeByte(bs[0], EncodeBytes(bs[1..]));
      DecodeEncodeBytes(bs[1..]);
      assert [bs[0]] + bs[1..] == bs;
    }
  }

  /** The encoded query text, decoded as form data and then as UTF-8, is the original text. */
  lemma DecodeEncode(s: string)
    ensures DecodeBytes(Encode(s)).Some?
    ensures Utf8.Decode(DecodeBytes(Encode(s)).value) == Some(s)
  {
    DecodeEncodeBytes(Utf8.Encode(s));
    Utf8.DecodeEncode(s);
  }

  /** Only unreserved characters, '+' and '%' are written. */
  lemma {:induction false} EncodedAlphabet(bs: seq<Byte>)
    ensures forall i :: 0 <= i < |EncodeBytes(bs)| ==>
      IsUnreserved(EncodeBytes(bs)[i]) || EncodeBytes(bs)[i] == '+' || EncodeBytes(bs)[i] == '%'
  {
    if bs != [] {
      EncodedAlphabet(bs[1..]);
      var e, r := EncodeByte(bs[0]), EncodeBytes(bs[1..]);
      assert forall i :: |e| <= i < |e + r| ==> (e + r)[i] == r[i - |e|];
    }
  }
}
