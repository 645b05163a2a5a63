/** Byte-level text: the literal substring search used to recognise a replay
    header, and UTF-8, in which the map name is stored. */
module Text {
  import opened Cursor

  /** `p` occurs in `s` at some position at or after `from`. */
  function ContainsFrom(s: seq<byte>, p: seq<byte>, from: nat): (r: bool)
    ensures r <==> exists i: nat :: from <= i && Holds(s, i, p)
    decreases |s| - from
  {
    if from + |p| > |s| then false
    else Holds(s, from, p) || ContainsFrom(s, p, from + 1)
  }

  /** `p` occurs somewhere in `s`: a search for a pattern without special
      characters, as `re.search` performs it. */
  function Contains(s: seq<byte>, p: seq<byte>): (r: bool)
    ensures r <==> exists i: nat :: Holds(s, i, p)
  {
    ContainsFrom(s, p, 0)
  }

  /** Appending bytes keeps every occurrence, so a match stays a match. */
  lemma ContainsAppend(s: seq<byte>, t: seq<byte>, p: seq<byte>)
    requires Contains(s, p)
    ensures Contains(s + t, p)
  {
    var i: nat :| Holds(s, i, p);
    assert (s + t)[i..i + |p|] == s[i..i + |p|];
    assert Holds(s + t, i, p);
  }

  /** The code points a Dafny `char` can hold: all of Unicode but the surrogates. */
  predicate IsScalar(n: int) {
    (0 <= n < 0xD800) || (0xE000 <= n < 0x11_0000)
  }

  predicate IsContinuation(b: byte) {
    0x80 <= b < 0xC0
  }

  /** The six payload bits of a continuation byte. */
  function Low(b: byte): int {
    b - 0x80
  }

  /** The UTF-8 encoding of one character: one to four bytes. */
  function EncodeChar(c: char): (bs: seq<byte>)
    ensures 1 <= |bs| <= 4
  {
    var n := c as int;
    if n < 0x80 then [n]
    else if n < 0x800 then [0xC0 + n / 64, 0x80 + n % 64]
    else if n < 0x1_0000 then [0xE0 + n / 4096, 0x80 + (n / 64) % 64, 0x80 + n % 64]
    else [0xF0 + n / 262144, 0x80 + (n / 4096) % 64, 0x80 + (n / 64) % 64, 0x80 + n % 64]
  }

  /** The UTF-8 encoding of a string. */
  function Utf8(s: string): (bs: seq<byte>)
    ensures |s| <= |bs| <= 4 * |s|
  {
    if |s| == 0 then [] else EncodeChar(s[0]) + Utf8(s[1..])
  }

  /** Text in the ASCII range, which UTF-8 stores one byte per character. */
  predicate IsAscii(s: string) {
    forall i | 0 <= i < |s| :: s[i] as int < 0x80
  }

  /** UTF-8 of ASCII text is the character codes themselves. */
  lemma {:induction false} AsciiUtf8(s: string)
    requires IsAscii(s)
    ensures |Utf8(s)| == |s|
    ensures forall i | 0 <= i < |s| :: Utf8(s)[i] == s[i] as int
  {
    if |s| > 0 {
      AsciiUtf8(s[1..]);
      assert Utf8(s) == [s[0] as int] + Utf8(s[1..]);
    }
  }

  /** Bytes that are the character codes of ASCII text are its UTF-8 encoding. */
  lemma AsciiBytes(s: string, bs: seq<byte>)
    requires IsAscii(s) && |bs| == |s|
    requires forall i | 0 <= i < |s| :: bs[i] == s[i] as int
    ensures Utf8(s) == bs
  {
    AsciiUtf8(s);
  }

  /** Decodes the character at the front of `bs` and its length in bytes, or
      `None` when the bytes there are not well-formed UTF-8: a stray or missing
      continuation byte, an overlong form, a surrogate, or a code point past
      U+10FFFF. */
  function DecodeChar(bs: seq<byte>): (r: Option<(char, nat)>)
    requires |bs| > 0
    ensures r.Some? ==> 1 <= r.value.1 <= |bs|
  {
    var b0: int := bs[0];
    if b0 < 0x80 then Some((b0 as char, 1))
    else if 0xC2 <= b0 < 0xE0 then
      if |bs| < 2 || !IsContinuation(bs[1]) then None
      else Some((((b0 - 0xC0) * 64 + Low(bs[1])) as char, 2))
    else if 0xE0 <= b0 < 0xF0 then
      if |bs| < 3 || !IsContinuation(bs[1]) || !IsContinuation(bs[2]) then None
      else
        var n := (b0 - 0xE0) * 4096 + Low(bs[1]) * 64 + Low(bs[2]);
        if n < 0x800 || !IsScalar(n) then None else Some((n as char, 3))
    else if 0xF0 <= b0 < 0xF5 then
      if |bs| < 4 || !IsContinuation(bs[1]) || !IsContinuation(bs[2]) || !IsContinuation(bs[3]) then None
      else
        var n := (b0 - 0xF0) * 262144 + Low(bs[1]) * 4096 + Low(bs[2]) * 64 + Low(bs[3]);
        if n < 0x1_0000 || !IsScalar(n) then None else Some((n as char, 4))
    else None
  }

  /** Decodes a whole byte string as UTF-8, or `None` when it is not well-formed
      (Python's `bytes.decode('utf-8')` raising). */
  function Decode(bs: seq<byte>): Option<string>
    decreases |bs|
  {
    if |bs| == 0 then Some([])
    else
      match DecodeChar(bs)
      case None => None
      case Some(front) =>
        match Decode(bs[front.1..])
        case None => None
        case Some(tail) => Some([front.0] + tail)
  }

  /** A character's encoding, followed by anything, decodes back to that character. */
  lemma DecodeEncodedChar(c: char, rest: seq<byte>)
    ensures DecodeChar(EncodeChar(c) + rest) == Some((c, |EncodeChar(c)|))
  {
    var n := c as int;
    var bs := EncodeChar(c) + rest;
    if n < 0x80 {
    } else if n < 0x800 {
      assert bs[0] == 0xC0 + n / 64 && bs[1] == 0x80 + n % 64;
    } else if n < 0x1_0000 {
      assert bs[0] == 0xE0 + n / 4096 && bs[1] == 0x80 + (n / 64) % 64 && bs[2] == 0x80 + n % 64;
      ThreeBytes(n);
    } else {
      assert bs[0] == 0xF0 + n / 262144 && bs[1] == 0x80 + (n / 4096) % 64;
      assert bs[2] == 0x80 + (n / 64) % 64 && bs[3] == 0x80 + n % 64;
      FourBytes(n);
    }
  }

  lemma ThreeBytes(n: int)
    requires 0x800 <= n < 0x1_0000
    ensures (n / 4096) * 4096 + ((n / 64) % 64) * 64 + n % 64 == n
  {
  }

  lemma FourBytes(n: int)
    requires 0x1_0000 <= n < 0x11_0000
    ensures n / 262144 < 5
    ensures (n / 262144) * 262144 + ((n / 4096) % 64) * 4096 + ((n / 64) % 64) * 64 + n % 64 == n
  {
  }

  /** Round trip: decoding the UTF-8 encoding of a string gives the string back. */
  lemma {:induction false} DecodeUtf8(s: string)
    ensures Decode(Utf8(s)) == Some(s)
  {
    if |s| > 0 {
      var bs := Utf8(s);
      var e := EncodeChar(s[0]);
      DecodeEncodedChar(s[0], Utf8(s[1..]));
      assert bs[|e|..] == Utf8(s[1..]);
      DecodeUtf8(s[1..]);
      assert [s[0]] + s[1..] == s;
    }
  }

  /** A one-byte form is the encoding of the character it decodes to. */
  lemma OneByteSound(bs: seq<byte>)
    requires |bs| > 0 && bs[0] < 0x80
    ensures DecodeChar(bs).Some? && EncodeChar(DecodeChar(bs).value.0) == bs[..1]
  {
  }

  /** A two-byte form that decodes is the encoding of its character: the lead
      bytes C0 and C1, which could only start an overlong form, are rejected. */
  lemma TwoBytesSound(bs: seq<byte>)
    requires |bs| > 0 && 0xC2 <= bs[0] < 0xE0 && DecodeChar(bs).Some?
    ensures EncodeChar(DecodeChar(bs).value.0) == bs[..2]
  {
    var n := (bs[0] - 0xC0) * 64 + Low(bs[1]);
    assert n / 64 == bs[0] - 0xC0 && n % 64 == Low(bs[1]);
  }

  /** A three-byte form that decodes is the encoding of its character. */
  lemma ThreeBytesSound(bs: seq<byte>)
    requires |bs| > 0 && 0xE0 <= bs[0] < 0xF0 && DecodeChar(bs).Some?
    ensures EncodeChar(DecodeChar(bs).value.0) == bs[..3]
  {
    var n := (bs[0] - 0xE0) * 4096 + Low(bs[1]) * 64 + Low(bs[2]);
    assert n / 4096 == bs[0] - 0xE0;
    assert n / 64 == (bs[0] - 0xE0) * 64 + Low(bs[1]);
    assert (n / 64) % 64 == Low(bs[1]) && n % 64 == Low(bs[2]);
  }

  /** A four-byte form that decodes is the encoding of its character. */
  lemma FourBytesSound(bs: seq<byte>)
    requires |bs| > 0 && 0xF0 <= bs[0] < 0xF5 && DecodeChar(bs).Some?
    ensures EncodeChar(DecodeChar(bs).value.0) == bs[..4]
  {
    var n := (bs[0] - 0xF0) * 262144 + Low(bs[1]) * 4096 + Low(bs[2]) * 64 + Low(bs[3]);
    assert n / 262144 == bs[0] - 0xF0;
    assert n / 4096 == (bs[0] - 0xF0) * 64 + Low(bs[1]);
    assert n / 64 == ((bs[0] - 0xF0) * 64 + Low(bs[1])) * 64 + Low(bs[2]);
    assert (n / 4096) % 64 == Low(bs[1]) && (n / 64) % 64 == Low(bs[2]) && n % 64 == Low(bs[3]);
  }

  /** Whatever the front of `bs` decodes to, its bytes are exactly that
      character's encoding. */
  lemma DecodeCharSound(bs: seq<byte>)
    requires |bs| > 0 && DecodeChar(bs).Some?
    ensures EncodeChar(DecodeChar(bs).value.0) == bs[..DecodeChar(bs).value.1]
  {
    if bs[0] < 0x80 {
      OneByteSound(bs);
    } else if bs[0] < 0xE0 {
      TwoBytesSound(bs);
    } else if bs[0] < 0xF0 {
      ThreeBytesSound(bs);
    } else {
      FourBytesSound(bs);
    }
  }

  /** One step of `Decode`: a decoded string is the front character followed
      by the decoding of the bytes after it. */
  lemma DecodeStep(bs: seq<byte>, s: string)
    requires |bs| > 0 && Decode(bs) == Some(s)
    ensures DecodeChar(bs).Some? && |s| > 0 && s[0] == DecodeChar(bs).value.0
    ensures Decode(bs[DecodeChar(bs).value.1..]) == Some(s[1..])
  {
  }

  /** The encoding of a non-empty string is its first character's encoding
      followed by the rest's. */
  lemma Utf8Step(s: string)
    requires |s| > 0
    ensures Utf8(s) == EncodeChar(s[0]) + Utf8(s[1..])
  {
  }

  /** Decoding accepts only UTF-8 encodings: bytes that decode are the
      encoding of what they decode to, so an overlong form, a stray or
      missing continuation byte, a surrogate or a code point past U+10FFFF
      gives `None`. */
  lemma {:induction false} DecodeSound(bs: seq<byte>, s: string)
    requires Decode(bs) == Some(s)
    ensures Utf8(s) == bs
    decreases |bs|
  {
    if |bs| > 0 {
      DecodeStep(bs, s);
      var k := DecodeChar(bs).value.1;
      DecodeCharSound(bs);
      DecodeSound(bs[k..], s[1..]);
      Utf8Step(s);
      assert bs == bs[..k] + bs[k..];
    }
  }

  /** `Decode` and `Utf8` are inverse: bytes decode to a string exactly when
      they are its UTF-8 encoding. */
  lemma DecodeExactlyUtf8(bs: seq<byte>, s: string)
    ensures Decode(bs) == Some(s) <==> Utf8(s) == bs
  {
    if Decode(bs) == Some(s) {
      DecodeSound(bs, s);
    }
    if Utf8(s) == bs {
      DecodeUtf8(s);
    }
  }

  /** UTF-8 is injective: two strings with the same encoding are the same string. */
  lemma Utf8Injective(s: string, t: string)
    requires Utf8(s) == Utf8(t)
    ensures s == t
  {
    DecodeUtf8(s);
    DecodeUtf8(t);
  }
}
