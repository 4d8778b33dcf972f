/** Percent-encoding as JavaScript's encodeURIComponent and encodeURI perform it:
    every character outside the kept set is written as the UTF-8 bytes of its
    code point, each byte as '%' followed by two upper-case hexadecimal digits
    (section 2.1 of RFC 3986). A decoder is given as the partner of the encoder. */
module Uri {
  import opened Wrappers

  /** encodeURIComponent keeps fewer characters than encodeURI. */
  datatype Flavor = Component | WholeUri

  predicate IsAlphaNum(c: char) {
    'A' <= c <= 'Z' || 'a' <= c <= 'z' || '0' <= c <= '9'
  }

  /** The characters left as they are. */
  predicate Kept(fl: Flavor, c: char) {
    IsAlphaNum(c) || c in "-_.!~*'()" || (fl == WholeUri && c in ";,/?:@&=+$#")
  }

  function HexDigit(d: nat): (c: char)
    requires d < 16
    ensures '0' <= c <= '9' || 'A' <= c <= 'F'
  {
    if d < 10 then ('0' as int + d) as char else ('A' as int + d - 10) as char
  }

  function HexValue(c: char): Option<nat> {
    if '0' <= c <= '9' then Some(c as int - '0' as int)
    else if 'A' <= c <= 'F' then Some(c as int - 'A' as int + 10)
    else if 'a' <= c <= 'f' then Some(c as int - 'a' as int + 10)
    else None
  }

  predicate IsByte(b: int) { 0 <= b < 256 }

  /** The UTF-8 encoding of one Unicode scalar value. */
  function Utf8(c: char): (bs: seq<int>)
    ensures 1 <= |bs| <= 4
    ensures forall i :: 0 <= i < |bs| ==> IsByte(bs[i])
  {
    var cp := c as int;
    if cp < 0x80 then [cp]
    else if cp < 0x800 then [0xC0 + cp / 64, 0x80 + cp % 64]
    else if cp < 0x10000 then [0xE0 + cp / 4096, 0x80 + (cp / 64) % 64, 0x80 + cp % 64]
    else [0xF0 + cp / 262144, 0x80 + (cp / 4096) % 64, 0x80 + (cp / 64) % 64, 0x80 + cp % 64]
  }

  function PercentByte(b: int): (r: string)
    requires IsByte(b)
    ensures |r| == 3 && r[0] == '%'
  {
    ['%', HexDigit(b / 16), HexDigit(b % 16)]
  }

  function PercentBytes(bs: seq<int>): (r: string)
    requires forall i :: 0 <= i < |bs| ==> IsByte(bs[i])
    ensures |r| == 3 * |bs|
  {
    if bs == [] then [] else PercentByte(bs[0]) + PercentBytes(bs[1..])
  }

  function EncodeChar(fl: Flavor, c: char): string {
    if Kept(fl, c) then [c] else PercentBytes(Utf8(c))
  }

  /** What the encoder may write: kept characters, '%' and upper-case hexadecimal digits. */
  predicate EncodedChar(fl: Flavor, c: char) {
    Kept(fl, c) || c == '%' || 'A' <= c <= 'F'
  }

  function Encode(fl: Flavor, s: string): (r: string)
    ensures forall i :: 0 <= i < |r| ==> EncodedChar(fl, r[i])
    ensures |r| >= |s|
  {
    if s == [] then []
    else
      var head := EncodeChar(fl, s[0]);
      assert forall i :: 0 <= i < |head| ==> EncodedChar(fl, head[i]) by {
        if !Kept(fl, s[0]) { PercentBytesShape(Utf8(s[0])); }
      }
      head + Encode(fl, s[1..])
  }

  /** encodeURIComponent: what the link's reader decodes is the text itself. */
  function EncodeURIComponent(s: string): (r: string)
    ensures Decode(r) == Some(s)
  {
    DecodeEncode(Component, s);
    Encode(Component, s)
  }

  /** encodeURI: what the link's reader decodes is the text itself. */
  function EncodeURI(s: string): (r: string)
    ensures Decode(r) == Some(s)
  {
    DecodeEncode(WholeUri, s);
    Encode(WholeUri, s)
  }

  lemma {:induction false} PercentBytesShape(bs: seq<int>)
    requires forall i :: 0 <= i < |bs| ==> IsByte(bs[i])
    ensures forall i :: 0 <= i < |PercentBytes(bs)| ==>
      PercentBytes(bs)[i] == '%' || '0' <= PercentBytes(bs)[i] <= '9' || 'A' <= PercentBytes(bs)[i] <= 'F'
  {
    if bs != [] { PercentBytesShape(bs[1..]); }
  }

  /** A string of kept characters is left as it is. */
  lemma {:induction false} EncodeKeepsKept(fl: Flavor, s: string)
    requires forall i :: 0 <= i < |s| ==> Kept(fl, s[i])
    ensures Encode(fl, s) == s
  {
    if s != [] { EncodeKeepsKept(fl, s[1..]); }
  }

  // ---------------------------------------------------------------------------
  // The decoder (decodeURIComponent) and the round trip.

  /** The byte written as "%XX" at position i of s. */
  function ReadByte(s: string, i: nat): Option<int> {
    if i + 3 <= |s| && s[i] == '%' && HexValue(s[i + 1]).Some? && HexValue(s[i + 2]).Some?
    then Some(16 * HexValue(s[i + 1]).value + HexValue(s[i + 2]).value)
    else None
  }

  /** The length of a UTF-8 sequence announced by its first byte, 0 if it cannot start one. */
  function SequenceLength(b0: int): nat {
    if 0 <= b0 < 0x80 then 1
    else if 0xC0 <= b0 < 0xE0 then 2
    else if 0xE0 <= b0 < 0xF0 then 3
    else if 0xF0 <= b0 < 0xF8 then 4
    else 0
  }

  predicate IsContinuation(b: Option<int>) {
    b.Some? && 0x80 <= b.value < 0xC0
  }

  function Payload(b: Option<int>): int
    requires b.Some?
  {
    b.value - 0x80
  }

  predicate IsScalar(cp: int) {
    0 <= cp < 0xD800 || 0xE000 <= cp < 0x110000
  }

  /** The code point written at the start of s (which starts with '%') and how many
      characters it takes, or None when the text is not well-formed UTF-8: a byte that cannot
      start a sequence, a missing continuation byte, a surrogate or a value past U+10FFFF, or a
      code point written with more bytes than it needs (an overlong form). */
  function DecodeSequence(s: string): (r: Option<(char, nat)>)
    ensures r.Some? ==> 3 <= r.value.1 <= |s|
  {
    var b0 := ReadByte(s, 0);
    if b0.None? then None
    else
      var n := SequenceLength(b0.value);
      if n == 0 || |s| < 3 * n then None
      else if n == 1 then Some((b0.value as char, 3))
      else
        var b1 := ReadByte(s, 3);
        if !IsContinuation(b1) then None
        else if n == 2 then
          var cp := (b0.value - 0xC0) * 64 + Payload(b1);
          if 0x80 <= cp && IsScalar(cp) then Some((cp as char, 6)) else None
        else
          var b2 := ReadByte(s, 6);
          if !IsContinuation(b2) then None
          else if n == 3 then
            var cp := ((b0.value - 0xE0) * 64 + Payload(b1)) * 64 + Payload(b2);
            if 0x800 <= cp && IsScalar(cp) then Some((cp as char, 9)) else None
          else
            var b3 := ReadByte(s, 9);
            if !IsContinuation(b3) then None
            else
              var cp := (((b0.value - 0xF0) * 64 + Payload(b1)) * 64 + Payload(b2)) * 64 + Payload(b3);
              if 0x10000 <= cp && IsScalar(cp) then Some((cp as char, 12)) else None
  }

  /** decodeURIComponent: None where the JavaScript function throws URIError. */
  function Decode(s: string): (r: Option<string>)
    ensures r.Some? ==> |r.value| <= |s|
    ensures '%' !in s ==> r == Some(s)
    decreases |s|
  {
    if s == [] then Some([])
    else if s[0] != '%' then
      assert s == [s[0]] + s[1..];
      match Decode(s[1..])
      case None => None
      case Some(t) => Some([s[0]] + t)
    else
      match DecodeSequence(s)
      case None => None
      case Some(p) =>
        match Decode(s[p.1..])
        case None => None
        case Some(t) => Some([p.0] + t)
  }

  /** An overlong form is refused: "%C0%80" writes U+0000 in two bytes instead of one. */
  lemma OverlongRejected()
    ensures Decode("%C0%80") == None
  {
    assert ReadByte("%C0%80", 0) == Some(0xC0);
    assert ReadByte("%C0%80", 3) == Some(0x80);
  }

  lemma HexRoundTrip(d: nat)
    requires d < 16
    ensures HexValue(HexDigit(d)) == Some(d)
  {
  }

  lemma ReadPercentByte(b: int, s: string, i: nat)
    requires IsByte(b)
    requires i + 3 <= |s| && s[i..i + 3] == PercentByte(b)
    ensures ReadByte(s, i) == Some(b)
  {
    assert s[i] == '%' && s[i + 1] == HexDigit(b / 16) && s[i + 2] == HexDigit(b % 16);
    HexRoundTrip(b / 16);
    HexRoundTrip(b % 16);
  }

  lemma {:induction false} PercentBytesAt(bs: seq<int>, k: nat)
    requires forall i :: 0 <= i < |bs| ==> IsByte(bs[i])
    requires k < |bs|
    ensures PercentBytes(bs)[3 * k..3 * k + 3] == PercentByte(bs[k])
  {
    if k > 0 {
      PercentBytesAt(bs[1..], k - 1);
      assert PercentBytes(bs) == PercentByte(bs[0]) + PercentBytes(bs[1..]);
    }
  }

  lemma SliceOfAppend(p: string, rest: string, j: nat, n: nat)
    requires j + n <= |p|
    ensures (p + rest)[j..j + n] == p[j..j + n]
  {
  }

  /** Each byte of the encoding can be read back at its own position. */
  lemma ReadPercentBytes(bs: seq<int>, rest: string, k: nat)
    requires forall i :: 0 <= i < |bs| ==> IsByte(bs[i])
    requires k < |bs|
    ensures ReadByte(PercentBytes(bs) + rest, 3 * k) == Some(bs[k])
  {
    PercentBytesAt(bs, k);
    SliceOfAppend(PercentBytes(bs), rest, 3 * k, 3);
    ReadPercentByte(bs[k], PercentBytes(bs) + rest, 3 * k);
  }

  lemma DecodeTwo(s: string, b0: int, b1: int)
    requires |s| >= 6 && ReadByte(s, 0) == Some(b0) && ReadByte(s, 3) == Some(b1)
    requires 0xC0 <= b0 < 0xE0 && 0x80 <= b1 < 0xC0
    requires 0x80 <= (b0 - 0xC0) * 64 + (b1 - 0x80) && IsScalar((b0 - 0xC0) * 64 + (b1 - 0x80))
    ensures DecodeSequence(s) == Some((((b0 - 0xC0) * 64 + (b1 - 0x80)) as char, 6))
  {
  }

  lemma DecodeThree(s: string, b0: int, b1: int, b2: int)
    requires |s| >= 9 && ReadByte(s, 0) == Some(b0) && ReadByte(s, 3) == Some(b1) && ReadByte(s, 6) == Some(b2)
    requires 0xE0 <= b0 < 0xF0 && 0x80 <= b1 < 0xC0 && 0x80 <= b2 < 0xC0
    requires var cp := ((b0 - 0xE0) * 64 + (b1 - 0x80)) * 64 + (b2 - 0x80); 0x800 <= cp && IsScalar(cp)
    ensures DecodeSequence(s) == Some(((((b0 - 0xE0) * 64 + (b1 - 0x80)) * 64 + (b2 - 0x80)) as char, 9))
  {
  }

  lemma DecodeFour(s: string, b0: int, b1: int, b2: int, b3: int)
    requires |s| >= 12 && ReadByte(s, 0) == Some(b0) && ReadByte(s, 3) == Some(b1)
    requires ReadByte(s, 6) == Some(b2) && ReadByte(s, 9) == Some(b3)
    requires 0xF0 <= b0 < 0xF8 && 0x80 <= b1 < 0xC0 && 0x80 <= b2 < 0xC0 && 0x80 <= b3 < 0xC0
    requires var cp := (((b0 - 0xF0) * 64 + (b1 - 0x80)) * 64 + (b2 - 0x80)) * 64 + (b3 - 0x80); 0x10000 <= cp && IsScalar(cp)
    ensures DecodeSequence(s) ==
      Some((((((b0 - 0xF0) * 64 + (b1 - 0x80)) * 64 + (b2 - 0x80)) * 64 + (b3 - 0x80)) as char, 12))
  {
  }

  lemma SplitSix(cp: int)
    requires 0 <= cp
    ensures (cp / 64) * 64 + cp % 64 == cp
    ensures (cp / 64) / 64 == cp / 4096 && (cp / 4096) / 64 == cp / 262144
  {
  }

  lemma DecodeOneByte(c: char, rest: string)
    requires c as int < 0x80
    ensures DecodeSequence(PercentBytes(Utf8(c)) + rest) == Some((c, 3))
  {
    ReadPercentBytes(Utf8(c), rest, 0);
  }

  lemma DecodeTwoBytes(c: char, rest: string)
    requires 0x80 <= c as int < 0x800
    ensures DecodeSequence(PercentBytes(Utf8(c)) + rest) == Some((c, 6))
  {
    var bs := Utf8(c);
    var cp := c as int;
    SplitSix(cp);
    ReadPercentBytes(bs, rest, 0);
    ReadPercentBytes(bs, rest, 1);
    DecodeTwo(PercentBytes(bs) + rest, bs[0], bs[1]);
  }

  lemma DecodeThreeBytes(c: char, rest: string)
    requires 0x800 <= c as int < 0x10000
    ensures DecodeSequence(PercentBytes(Utf8(c)) + rest) == Some((c, 9))
  {
    var bs := Utf8(c);
    var cp := c as int;
    SplitSix(cp);
    SplitSix(cp / 64);
    ReadPercentBytes(bs, rest, 0);
    ReadPercentBytes(bs, rest, 1);
    ReadPercentBytes(bs, rest, 2);
    assert ((cp / 4096) * 64 + (cp / 64) % 64) * 64 + cp % 64 == cp;
    DecodeThree(PercentBytes(bs) + rest, bs[0], bs[1], bs[2]);
  }

  lemma DecodeFourBytes(c: char, rest: string)
    requires 0x10000 <= c as int
    ensures DecodeSequence(PercentBytes(Utf8(c)) + rest) == Some((c, 12))
  {
    var bs := Utf8(c);
    var cp := c as int;
    SplitSix(cp);
    SplitSix(cp / 64);
    SplitSix(cp / 4096);
    ReadPercentBytes(bs, rest, 0);
    ReadPercentBytes(bs, rest, 1);
    ReadPercentBytes(bs, rest, 2);
    ReadPercentBytes(bs, rest, 3);
    assert (((cp / 262144) * 64 + (cp / 4096) % 64) * 64 + (cp / 64) % 64) * 64 + cp % 64 == cp;
    DecodeFour(PercentBytes(bs) + rest, bs[0], bs[1], bs[2], bs[3]);
  }

  /** Decoding the encoding of one character yields that character and consumes exactly its encoding. */
  lemma DecodeOneChar(c: char, rest: string)
    ensures var bs := Utf8(c);
      DecodeSequence(PercentBytes(bs) + rest) == Some((c, 3 * |bs|))
  {
    var cp := c as int;
    if cp < 0x80 {
      DecodeOneByte(c, rest);
    } else if cp < 0x800 {
      DecodeTwoBytes(c, rest);
    } else if cp < 0x10000 {
      DecodeThreeBytes(c, rest);
    } else {
      DecodeFourBytes(c, rest);
    }
  }

  lemma DecodePlainHead(c: char, rest: string)
    requires c != '%'
    ensures Decode([c] + rest) == if Decode(rest).Some? then Some([c] + Decode(rest).value) else None
  {
    assert ([c] + rest)[1..] == rest;
  }

  lemma DecodeEncodedHead(c: char, rest: string)
    ensures Decode(PercentBytes(Utf8(c)) + rest) ==
      if Decode(rest).Some? then Some([c] + Decode(rest).value) else None
  {
    var bs := Utf8(c);
    var e := PercentBytes(bs) + rest;
    DecodeOneChar(c, rest);
    assert e[0] == '%';
    assert e[3 * |bs|..] == rest;
  }

  /** decodeURIComponent undoes both encoders. */
  lemma {:induction false} DecodeEncode(fl: Flavor, s: string)
    ensures Decode(Encode(fl, s)) == Some(s)
  {
    if s != [] {
      DecodeEncode(fl, s[1..]);
      var rest := Encode(fl, s[1..]);
      assert Encode(fl, s) == EncodeChar(fl, s[0]) + rest;
      DecodeCharHead(fl, s[0], rest);
      assert [s[0]] + s[1..] == s;
    }
  }

  /** One encoded character in front of the rest decodes to that character in front. */
  lemma DecodeCharHead(fl: Flavor, c: char, rest: string)
    ensures Decode(EncodeChar(fl, c) + rest) ==
      if Decode(rest).Some? then Some([c] + Decode(rest).value) else None
  {
    if Kept(fl, c) {
      DecodePlainHead(c, rest);
    } else {
      DecodeEncodedHead(c, rest);
    }
  }

  /** Distinct texts encode differently, so an encoded query value identifies its source. */
  lemma EncodeInjective(fl: Flavor, s: string, t: string)
    requires Encode(fl, s) == Encode(fl, t)
    ensures s == t
  {
    DecodeEncode(fl, s);
    DecodeEncode(fl, t);
  }

  /** A component-encoded value never contains the query delimiters '&', '=', '?', '#' or '/'. */
  lemma ComponentHasNoDelimiters(s: string)
    ensures forall i :: 0 <= i < |EncodeURIComponent(s)| ==> EncodeURIComponent(s)[i] !in "&=?#/"
  {
  }
}
