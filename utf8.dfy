/**
 * A UTF-8 codec as section 3 of RFC 3629 defines it: shortest forms only, no
 * surrogate code points, nothing above U+10FFFF. It stands for the library
 * conversions the program calls (utfcpp's utf32to8 / utf8to32 on the C++ side,
 * str.encode / bytes.decode on the Python side), which are strict in the same way.
 */
module Utf8 {
  import opened Results
  import opened Bytes

  /** A Unicode scalar value: any code point except the surrogates. */
  type CodePoint = c: int | 0 <= c < 0xD800 || 0xE000 <= c < 0x11_0000

  predicate IsContinuation(b: byte) {
    0x80 <= b < 0xC0
  }

  /** The six payload bits of a continuation byte. */
  function Payload(b: byte): int {
    b as int - 0x80
  }

  /** The shortest UTF-8 form of one code point. */
  function EncodeChar(c: CodePoint): (r: seq<byte>)
    ensures 1 <= |r| <= 4
  {
    if c < 0x80 then [c]
    else if c < 0x800 then [0xC0 + c / 0x40, 0x80 + c % 0x40]
    else if c < 0x1_0000 then [0xE0 + c / 0x40 / 0x40, 0x80 + c / 0x40 % 0x40, 0x80 + c % 0x40]
    else [0xF0 + c / 0x40 / 0x40 / 0x40, 0x80 + c / 0x40 / 0x40 % 0x40, 0x80 + c / 0x40 % 0x40, 0x80 + c % 0x40]
  }

  /**
   * The code point that `s` starts with and the number of bytes it takes, or
   * None when `s` does not start with a well-formed sequence.
   */
  function DecodeChar(s: seq<byte>): (r: Option<(CodePoint, nat)>)
    requires |s| > 0
    ensures r.Some? ==> 1 <= r.value.1 <= |s| && r.value.1 <= 4
  {
    var b0 := s[0] as int;
    if b0 < 0x80 then Some((b0, 1))
    else if 0xC2 <= b0 < 0xE0 then
      if |s| >= 2 && IsContinuation(s[1]) then
        Some(((b0 - 0xC0) * 0x40 + Payload(s[1]), 2))
      else None
    else if 0xE0 <= b0 < 0xF0 then
      if |s| >= 3 && IsContinuation(s[1]) && IsContinuation(s[2]) then
        var c := ((b0 - 0xE0) * 0x40 + Payload(s[1])) * 0x40 + Payload(s[2]);
        if 0x800 <= c && !(0xD800 <= c < 0xE000) then Some((c, 3)) else None
      else None
    else if 0xF0 <= b0 < 0xF5 then
      if |s| >= 4 && IsContinuation(s[1]) && IsContinuation(s[2]) && IsContinuation(s[3]) then
        var c := (((b0 - 0xF0) * 0x40 + Payload(s[1])) * 0x40 + Payload(s[2])) * 0x40 + Payload(s[3]);
        if 0x1_0000 <= c < 0x11_0000 then Some((c, 4)) else None
      else None
    else None
  }

  /** UTF-8 encoding of a sequence of code points. */
  function Encode(cs: seq<CodePoint>): seq<byte> {
    if cs == [] then [] else EncodeChar(cs[0]) + Encode(cs[1..])
  }

  /** UTF-8 decoding; None when `s` is not well-formed UTF-8. */
  function Decode(s: seq<byte>): Option<seq<CodePoint>>
    decreases |s|
  {
    if s == [] then Some([])
    else match DecodeChar(s)
      case None => None
      case Some((c, n)) =>
        match Decode(s[n..])
        case None => None
        case Some(cs) => Some([c] + cs)
  }

  lemma DivMod64(q: int, r: int)
    requires 0 <= r < 0x40
    ensures (q * 0x40 + r) / 0x40 == q && (q * 0x40 + r) % 0x40 == r
  {
  }

  lemma DecodeEncodeTwo(c: CodePoint, rest: seq<byte>)
    requires 0x80 <= c < 0x800
    ensures DecodeChar(EncodeChar(c) + rest) == Some((c, 2))
  {
    var s := EncodeChar(c) + rest;
    DivMod64(c / 0x40, c % 0x40);
    assert s[0] == 0xC0 + c / 0x40 && Payload(s[1]) == c % 0x40;
  }

  lemma DecodeEncodeThree(c: CodePoint, rest: seq<byte>)
    requires 0x800 <= c < 0x1_0000
    ensures DecodeChar(EncodeChar(c) + rest) == Some((c, 3))
  {
    var s := EncodeChar(c) + rest;
    var c1 := c / 0x40;
    assert s[0] == 0xE0 + c1 / 0x40 && Payload(s[1]) == c1 % 0x40 && Payload(s[2]) == c % 0x40;
    assert (c1 / 0x40) * 0x40 + c1 % 0x40 == c1;
    assert c1 * 0x40 + c % 0x40 == c;
  }

  lemma DecodeEncodeFour(c: CodePoint, rest: seq<byte>)
    requires 0x1_0000 <= c
    ensures DecodeChar(EncodeChar(c) + rest) == Some((c, 4))
  {
    var s := EncodeChar(c) + rest;
    var c1 := c / 0x40;
    var c2 := c1 / 0x40;
    assert s[0] == 0xF0 + c2 / 0x40 && Payload(s[1]) == c2 % 0x40;
    assert Payload(s[2]) == c1 % 0x40 && Payload(s[3]) == c % 0x40;
    assert (c2 / 0x40) * 0x40 + c2 % 0x40 == c2;
    assert c2 * 0x40 + c1 % 0x40 == c1;
    assert c1 * 0x40 + c % 0x40 == c;
  }

  lemma DecodeEncodeChar(c: CodePoint, rest: seq<byte>)
    ensures DecodeChar(EncodeChar(c) + rest) == Some((c, |EncodeChar(c)|))
  {
    if c < 0x80 {
    } else if c < 0x800 {
      DecodeEncodeTwo(c, rest);
    } else if c < 0x1_0000 {
      DecodeEncodeThree(c, rest);
    } else {
      DecodeEncodeFour(c, rest);
    }
  }

  lemma EncodeDecodeTwo(s: seq<byte>)
    requires |s| >= 2 && 0xC2 <= s[0] < 0xE0 && IsContinuation(s[1])
    ensures DecodeChar(s) == Some(((s[0] - 0xC0) * 0x40 + Payload(s[1]), 2))
    ensures EncodeChar(DecodeChar(s).value.0) == s[..2]
  {
    DivMod64(s[0] - 0xC0, Payload(s[1]));
  }

  lemma EncodeDecodeThree(s: seq<byte>)
    requires |s| >= 3 && 0xE0 <= s[0] < 0xF0 && DecodeChar(s).Some?
    ensures EncodeChar(DecodeChar(s).value.0) == s[..3]
  {
    var b0 := s[0] as int;
    var c1 := (b0 - 0xE0) * 0x40 + Payload(s[1]);
    DivMod64(c1, Payload(s[2]));
    DivMod64(b0 - 0xE0, Payload(s[1]));
  }

  lemma EncodeDecodeFour(s: seq<byte>)
    requires |s| >= 4 && 0xF0 <= s[0] && DecodeChar(s).Some?
    ensures EncodeChar(DecodeChar(s).value.0) == s[..4]
  {
    var b0 := s[0] as int;
    var c2 := (b0 - 0xF0) * 0x40 + Payload(s[1]);
    var c1 := c2 * 0x40 + Payload(s[2]);
    DivMod64(c1, Payload(s[3]));
    DivMod64(c2, Payload(s[2]));
    DivMod64(b0 - 0xF0, Payload(s[1]));
  }

  lemma EncodeDecodeChar(s: seq<byte>)
    requires |s| > 0 && DecodeChar(s).Some?
    ensures EncodeChar(DecodeChar(s).value.0) == s[..DecodeChar(s).value.1]
  {
    var b0 := s[0] as int;
    if b0 < 0x80 {
    } else if b0 < 0xE0 {
      EncodeDecodeTwo(s);
    } else if b0 < 0xF0 {
      EncodeDecodeThree(s);
    } else {
      EncodeDecodeFour(s);
    }
  }

  /** Decoding an encoding gives the code points back. */
  lemma {:induction false} DecodeEncode(cs: seq<CodePoint>)
    ensures Decode(Encode(cs)) == Some(cs)
  {
    if cs != [] {
      var e := EncodeChar(cs[0]);
      assert Encode(cs) == e + Encode(cs[1..]);
      DecodeEncodeChar(cs[0], Encode(cs[1..]));
      assert (e + Encode(cs[1..]))[|e|..] == Encode(cs[1..]);
      DecodeEncode(cs[1..]);
      assert Decode(Encode(cs)) == Some([cs[0]] + cs[1..]);
      assert [cs[0]] + cs[1..] == cs;
    }
  }

  lemma EncodeCons(c: CodePoint, cs: seq<CodePoint>)
    ensures Encode([c] + cs) == EncodeChar(c) + Encode(cs)
  {
    assert ([c] + cs)[0] == c && ([c] + cs)[1..] == cs;
  }

  /** Only the shortest form decodes: re-encoding what was decoded gives the same bytes. */
  lemma {:induction false} EncodeDecode(s: seq<byte>)
    requires Decode(s).Some?
    ensures Encode(Decode(s).value) == s
    decreases |s|
  {
    if s != [] {
      var (c, n) := DecodeChar(s).value;
      var cs := Decode(s[n..]).value;
      assert Decode(s).value == [c] + cs;
      assert EncodeChar(c) == s[..n] by {
        EncodeDecodeChar(s);
      }
      assert Encode(cs) == s[n..] by {
        EncodeDecode(s[n..]);
      }
      EncodeCons(c, cs);
      assert s == s[..n] + s[n..];
    }
  }
}
