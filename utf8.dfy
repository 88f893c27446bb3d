/** `bytes.decode('utf-8')` in its default strict mode: a byte sequence decodes
    exactly when it is well-formed UTF-8 (no stray continuation bytes, no
    overlong forms, no surrogates, nothing above U+10FFFF, nothing cut short),
    and Dafny's `char` is precisely a Unicode scalar value. The encoder is the
    decoder's partner: the two round trips below pin the decoder down. */
module Utf8 {
  import opened PyBuiltins

  predicate IsContinuation(b: Byte) { 0x80 <= b < 0xC0 }

  /** Appends six payload bits to a partial code point. */
  function Combine(high: int, low6: int): int { high * 64 + low6 }

  lemma CombineSplits(high: nat, low6: nat)
    requires low6 < 64
    ensures Combine(high, low6) / 64 == high && Combine(high, low6) % 64 == low6
  {
  }

  /** Decodes the character at the front of `b`, giving it and the number of bytes it takes. */
  function DecodeFirst(b: seq<Byte>): (r: Option<(char, nat)>)
    requires |b| > 0
    ensures r.Some? ==> 1 <= r.value.1 <= 4 && r.value.1 <= |b|
  {
    var b0 := b[0] as int;
    if b0 < 0x80 then Some((b0 as char, 1))
    else if 0xC2 <= b0 < 0xE0 then
      if |b| >= 2 && IsContinuation(b[1]) then
        Some((Combine(b0 - 0xC0, b[1] as int - 0x80) as char, 2))
      else None
    else if 0xE0 <= b0 < 0xF0 then
      if |b| >= 3 && IsContinuation(b[1]) && IsContinuation(b[2]) then
        var cp := Combine(Combine(b0 - 0xE0, b[1] as int - 0x80), b[2] as int - 0x80);
        if cp < 0x800 || 0xD800 <= cp < 0xE000 then None else Some((cp as char, 3))
      else None
    else if 0xF0 <= b0 < 0xF5 then
      if |b| >= 4 && IsContinuation(b[1]) && IsContinuation(b[2]) && IsContinuation(b[3]) then
        var cp := Combine(Combine(Combine(b0 - 0xF0, b[1] as int - 0x80), b[2] as int - 0x80), b[3] as int - 0x80);
        if cp < 0x10000 || cp > 0x10FFFF then None else Some((cp as char, 4))
      else None
    else None
  }

  /** The text `b` spells, or `None` where Python raises `UnicodeDecodeError`. */
  function Decode(b: seq<Byte>): (r: Option<string>)
    decreases |b|
    ensures r.Some? ==> |r.value| <= |b|
  {
    if b == [] then Some("")
    else
      var first := DecodeFirst(b);
      if first.None? then None
      else
        var rest := Decode(b[first.value.1..]);
        if rest.None? then None else Some([first.value.0] + rest.value)
  }

  /** The UTF-8 form of one character. */
  function EncodeChar(c: char): (r: seq<Byte>)
    ensures 1 <= |r| <= 4
    ensures 0 in r <==> c == '\0'
  {
    var cp := c as int;
    if cp < 0x80 then [cp]
    else if cp < 0x800 then [0xC0 + cp / 64, 0x80 + cp % 64]
    else if cp < 0x10000 then [0xE0 + cp / 64 / 64, 0x80 + cp / 64 % 64, 0x80 + cp % 64]
    else [0xF0 + cp / 64 / 64 / 64, 0x80 + cp / 64 / 64 % 64, 0x80 + cp / 64 % 64, 0x80 + cp % 64]
  }

  /** `s.encode('utf-8')`. */
  function Encode(s: string): (r: seq<Byte>)
    ensures |s| <= |r| <= 4 * |s|
  {
    if s == [] then [] else EncodeChar(s[0]) + Encode(s[1..])
  }

  lemma DecodeFirstOfEncoded(c: char, rest: seq<Byte>)
    ensures DecodeFirst(EncodeChar(c) + rest) == Some((c, |EncodeChar(c)|))
  {
    var cp := c as int;
    var b := EncodeChar(c) + rest;
    if cp < 0x80 {
    } else if cp < 0x800 {
      assert Combine(b[0] as int - 0xC0, b[1] as int - 0x80) == cp;
    } else if cp < 0x10000 {
      assert Combine(b[0] as int - 0xE0, b[1] as int - 0x80) == cp / 64;
      assert Combine(cp / 64, b[2] as int - 0x80) == cp;
    } else {
      assert Combine(b[0] as int - 0xF0, b[1] as int - 0x80) == cp / 64 / 64;
      assert Combine(cp / 64 / 64, b[2] as int - 0x80) == cp / 64;
      assert Combine(cp / 64, b[3] as int - 0x80) == cp;
    }
  }

  /** Every string survives a trip through its UTF-8 encoding. */
  lemma {:induction false} DecodeEncode(s: string)
    ensures Decode(Encode(s)) == Some(s)
  {
    if s != [] {
      var e := EncodeChar(s[0]);
      DecodeFirstOfEncoded(s[0], Encode(s[1..]));
      assert (e + Encode(s[1..]))[|e|..] == Encode(s[1..]);
      DecodeEncode(s[1..]);
      assert [s[0]] + s[1..] == s;
    }
  }

  lemma EncodedFirst(b: seq<Byte>)
    requires |b| > 0 && DecodeFirst(b).Some?
    ensures EncodeChar(DecodeFirst(b).value.0) == b[..DecodeFirst(b).value.1]
  {
    var b0 := b[0] as int;
    if b0 < 0x80 {
    } else if 0xC2 <= b0 < 0xE0 {
      CombineSplits(b0 - 0xC0, b[1] as int - 0x80);
    } else if 0xE0 <= b0 < 0xF0 {
      var h := Combine(b0 - 0xE0, b[1] as int - 0x80);
      CombineSplits(b0 - 0xE0, b[1] as int - 0x80);
      CombineSplits(h, b[2] as int - 0x80);
    } else {
      var h1 := Combine(b0 - 0xF0, b[1] as int - 0x80);
      var h2 := Combine(h1, b[2] as int - 0x80);
      CombineSplits(b0 - 0xF0, b[1] as int - 0x80);
      CombineSplits(h1, b[2] as int - 0x80);
      CombineSplits(h2, b[3] as int - 0x80);
    }
  }

  /** Whatever decodes was already in canonical form: re-encoding gives back the very bytes. */
  lemma {:induction false} EncodeDecode(b: seq<Byte>)
    requires Decode(b).Some?
    ensures Encode(Decode(b).value) == b
  {
    if b != [] {
      var n := DecodeFirst(b).value.1;
      EncodedFirst(b);
      EncodeDecode(b[n..]);
      SplitAt(b, n);
    }
  }

  /** The encoding holds a zero byte exactly when the text holds U+0000. */
  lemma {:induction false} EncodeHasZero(s: string)
    ensures 0 in Encode(s) <==> '\0' in s
  {
    if s != [] {
      EncodeHasZero(s[1..]);
      assert s == [s[0]] + s[1..];
    }
  }
}
