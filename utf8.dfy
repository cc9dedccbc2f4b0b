/** UTF-8, as `std::str::from_utf8` checks and decodes it: the well-formed byte sequences
    of the Unicode Standard, Table 3-7. `Encode` is the partner used to state that decoding
    is exact: the decoder accepts precisely the encodings of strings and inverts them. */
module Utf8 {
  import opened Wrappers

  type byte = b: int | 0 <= b < 0x100

  /** A continuation byte, 10xxxxxx. */
  predicate IsContinuation(b: byte) {
    0x80 <= b <= 0xBF
  }

  /** Decodes the character at the start of `b`, with the number of bytes it takes; None when
      the bytes there are not a well-formed sequence (bad lead byte, missing or out-of-range
      continuation byte, overlong form, surrogate, or a value above U+10FFFF). */
  function DecodeFirst(b: seq<byte>): (r: Option<(char, nat)>)
    requires b != []
    ensures r.Some? ==> 1 <= r.value.1 <= 4 && r.value.1 <= |b|
    ensures r.Some? ==> (r.value.1 == 1 <==> b[0] < 0x80)
  {
    var b0: int := b[0];
    if b0 < 0x80 then
      Some((b0 as char, 1))
    else if 0xC2 <= b0 <= 0xDF then
      if |b| >= 2 && IsContinuation(b[1]) then
        Some((((b0 - 0xC0) * 64 + (b[1] as int - 0x80)) as char, 2))
      else None
    else if 0xE0 <= b0 <= 0xEF then
      var lo := if b0 == 0xE0 then 0xA0 else 0x80;
      var hi := if b0 == 0xED then 0x9F else 0xBF;
      if |b| >= 3 && lo <= b[1] <= hi && IsContinuation(b[2]) then
        Some((((b0 - 0xE0) * 4096 + (b[1] as int - 0x80) * 64 + (b[2] as int - 0x80)) as char, 3))
      else None
    else if 0xF0 <= b0 <= 0xF4 then
      var lo := if b0 == 0xF0 then 0x90 else 0x80;
      var hi := if b0 == 0xF4 then 0x8F else 0xBF;
      if |b| >= 4 && lo <= b[1] <= hi && IsContinuation(b[2]) && IsContinuation(b[3]) then
        Some((((b0 - 0xF0) * 262144 + (b[1] as int - 0x80) * 4096 + (b[2] as int - 0x80) * 64 + (b[3] as int - 0x80)) as char, 4))
      else None
    else None
  }

  /** `std::str::from_utf8`: the text the bytes encode, or None when they are not valid UTF-8. */
  function Decode(b: seq<byte>): Option<string>
    decreases |b|
  {
    if b == [] then Some([])
    else
      match DecodeFirst(b)
      case None => None
      case Some((c, n)) =>
        match Decode(b[n..])
        case None => None
        case Some(rest) => Some([c] + rest)
  }

  /** The shortest UTF-8 form of one character. */
  function EncodeChar(c: char): (r: seq<byte>)
    ensures 1 <= |r| <= 4
  {
    var cp := c as int;
    if cp < 0x80 then [cp]
    else if cp < 0x800 then [0xC0 + cp / 64, 0x80 + cp % 64]
    else if cp < 0x1_0000 then [0xE0 + cp / 4096, 0x80 + (cp / 64) % 64, 0x80 + cp % 64]
    else [0xF0 + cp / 262144, 0x80 + (cp / 4096) % 64, 0x80 + (cp / 64) % 64, 0x80 + cp % 64]
  }

  /** The UTF-8 form of a string. */
  function Encode(s: string): seq<byte> {
    if s == [] then [] else EncodeChar(s[0]) + Encode(s[1..])
  }

  /** The decoder reads back exactly the character the encoder wrote, whatever follows it. */
  lemma DecodeFirstEncodeChar(c: char, rest: seq<byte>)
    ensures DecodeFirst(EncodeChar(c) + rest) == Some((c, |EncodeChar(c)|))
  {
    var cp := c as int;
    if 0x80 <= cp < 0x800 {
      assert cp == 64 * (cp / 64) + cp % 64;
    } else if 0x800 <= cp < 0x1_0000 {
      DecodeThree(c, rest);
    } else if 0x1_0000 <= cp {
      DecodeFour(c, rest);
    }
  }

  lemma DecodeThree(c: char, rest: seq<byte>)
    requires 0x800 <= c as int < 0x1_0000
    ensures DecodeFirst(EncodeChar(c) + rest) == Some((c, 3))
  {
    var cp := c as int;
    var b := EncodeChar(c) + rest;
    assert cp / 64 == 64 * (cp / 4096) + (cp / 64) % 64;
    assert cp == 64 * (cp / 64) + cp % 64;
    assert b[0] == 0xE0 ==> cp < 0x1000;
    assert b[0] == 0xED ==> cp < 0xD800;
  }

  lemma DecodeFour(c: char, rest: seq<byte>)
    requires 0x1_0000 <= c as int
    ensures DecodeFirst(EncodeChar(c) + rest) == Some((c, 4))
  {
    var cp := c as int;
    var b := EncodeChar(c) + rest;
    assert cp / 4096 == 64 * (cp / 262144) + (cp / 4096) % 64;
    assert cp / 64 == 64 * (cp / 4096) + (cp / 64) % 64;
    assert cp == 64 * (cp / 64) + cp % 64;
    assert b[0] == 0xF4 ==> cp < 0x11_0000;
  }

  lemma Split64(x: int, y: int)
    requires 0 <= y < 64
    ensures (x * 64 + y) / 64 == x && (x * 64 + y) % 64 == y
  {
  }

  lemma Split4096(x: int, y: int)
    requires 0 <= y < 4096
    ensures (x * 4096 + y) / 4096 == x
  {
  }

  lemma Split262144(x: int, y: int)
    requires 0 <= y < 262144
    ensures (x * 262144 + y) / 262144 == x
  {
  }

  /** A well-formed sequence at the start of `b` is the encoding of the character decoded from it. */
  lemma EncodeCharDecodeFirst(b: seq<byte>)
    requires b != [] && DecodeFirst(b).Some?
    ensures EncodeChar(DecodeFirst(b).value.0) == b[..DecodeFirst(b).value.1]
  {
    var n := DecodeFirst(b).value.1;
    if n == 2 {
      EncodeTwo(b);
    } else if n == 3 {
      EncodeThree(b);
    } else if n == 4 {
      EncodeFour(b);
    }
  }

  lemma EncodeTwo(b: seq<byte>)
    requires b != [] && DecodeFirst(b).Some? && DecodeFirst(b).value.1 == 2
    ensures EncodeChar(DecodeFirst(b).value.0) == b[..2]
  {
    var c := DecodeFirst(b).value.0;
    var q, l := b[0] as int - 0xC0, b[1] as int - 0x80;
    assert c as int == q * 64 + l;
    Split64(q, l);
    assert EncodeChar(c) == [b[0], b[1]];
  }

  lemma EncodeThree(b: seq<byte>)
    requires b != [] && DecodeFirst(b).Some? && DecodeFirst(b).value.1 == 3
    ensures EncodeChar(DecodeFirst(b).value.0) == b[..3]
  {
    var c := DecodeFirst(b).value.0;
    var cp := c as int;
    var q, m, l := b[0] as int - 0xE0, b[1] as int - 0x80, b[2] as int - 0x80;
    assert cp == (q * 64 + m) * 64 + l;
    assert cp == q * 4096 + (m * 64 + l);
    Split64(q * 64 + m, l);
    Split64(q, m);
    Split4096(q, m * 64 + l);
    assert EncodeChar(c) == [b[0], b[1], b[2]];
  }

  lemma EncodeFour(b: seq<byte>)
    requires b != [] && DecodeFirst(b).Some? && DecodeFirst(b).value.1 == 4
    ensures EncodeChar(DecodeFirst(b).value.0) == b[..4]
  {
    var c := DecodeFirst(b).value.0;
    var cp := c as int;
    var q, h, m, l := b[0] as int - 0xF0, b[1] as int - 0x80, b[2] as int - 0x80, b[3] as int - 0x80;
    assert cp == ((q * 64 + h) * 64 + m) * 64 + l;
    assert cp == (q * 64 + h) * 4096 + (m * 64 + l);
    assert cp == q * 262144 + ((h * 64 + m) * 64 + l);
    Split64((q * 64 + h) * 64 + m, l);
    Split64(q * 64 + h, m);
    Split4096(q * 64 + h, m * 64 + l);
    Split64(q, h);
    Split262144(q, (h * 64 + m) * 64 + l);
    assert EncodeChar(c) == [b[0], b[1], b[2], b[3]];
  }

  /** Every string survives encoding and decoding. */
  lemma {:induction false} DecodeEncode(s: string)
    ensures Decode(Encode(s)) == Some(s)
  {
    if s != [] {
      var head := EncodeChar(s[0]);
      var b := Encode(s);
      DecodeFirstEncodeChar(s[0], Encode(s[1..]));
      assert b[|head|..] == Encode(s[1..]);
      DecodeEncode(s[1..]);
      assert s == [s[0]] + s[1..];
    }
  }

  /** The decoder accepts nothing but encodings: whatever it decodes re-encodes to the same bytes. */
  lemma {:induction false} EncodeDecode(b: seq<byte>)
    requires Decode(b).Some?
    ensures Encode(Decode(b).value) == b
    decreases |b|
  {
    if b != [] {
      DecodeStep(b);
      var c, n := DecodeFirst(b).value.0, DecodeFirst(b).value.1;
      var rest := Decode(b[n..]).value;
      EncodeCharDecodeFirst(b);
      EncodeDecode(b[n..]);
      EncodeJoined(Decode(b).value, b, c, n, rest);
    }
  }

  /** Encoding a character and a string that were read off the two parts of `b` gives `b`. */
  lemma EncodeJoined(s: string, b: seq<byte>, c: char, n: nat, rest: string)
    requires n <= |b| && s == [c] + rest
    requires EncodeChar(c) == b[..n] && Encode(rest) == b[n..]
    ensures Encode(s) == b
  {
    EncodeCons(c, rest);
    assert b == b[..n] + b[n..];
  }

  /** A non-empty input decodes to its first character followed by the decoding of the rest. */
  lemma DecodeStep(b: seq<byte>)
    requires b != [] && Decode(b).Some?
    ensures DecodeFirst(b).Some?
    ensures Decode(b[DecodeFirst(b).value.1..]).Some?
    ensures Decode(b).value == [DecodeFirst(b).value.0] + Decode(b[DecodeFirst(b).value.1..]).value
  {
  }

  lemma EncodeCons(c: char, s: string)
    ensures Encode([c] + s) == EncodeChar(c) + Encode(s)
  {
    assert ([c] + s)[0] == c && ([c] + s)[1..] == s;
  }

  /** The invalid input of the extractor's unit test: 0xFF never starts a UTF-8 sequence. */
  lemma InvalidLeadByte()
    ensures Decode([0xFF, 0xFE, 0x00, 0x01]) == None
  {
  }
}
