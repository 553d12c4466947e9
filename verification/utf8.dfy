/** UTF-8 (RFC 3629), the text encoding of EBML's utf-8 element kind, over
    Unicode scalar values. */
module Utf8 {
  import opened Errors
  import opened ByteOrder

  /** The one to four bytes that encode a scalar value. */
  function EncodeChar(c: char): (s: seq<byte>)
    ensures 1 <= |s| <= 4
  {
    var n := c as int;
    if n < 0x80 then [n as byte]
    else if n < 0x800 then [(0xC0 + n / 64) as byte, (0x80 + n % 64) as byte]
    else if n < 0x1_0000 then
      [(0xE0 + n / 4096) as byte, (0x80 + (n / 64) % 64) as byte, (0x80 + n % 64) as byte]
    else
      [(0xF0 + n / 262144) as byte, (0x80 + (n / 4096) % 64) as byte,
       (0x80 + (n / 64) % 64) as byte, (0x80 + n % 64) as byte]
  }

  /** The UTF-8 bytes of a string. */
  function Encode(s: string): (b: seq<byte>)
    ensures |s| <= |b| <= 4 * |s|
  {
    if |s| == 0 then [] else EncodeChar(s[0]) + Encode(s[1..])
  }

  predicate IsContinuation(b: byte) {
    0x80 <= b < 0xC0
  }

  /** The scalar value at the head of b and the number of bytes it occupies.
      Overlong forms, surrogates, values above U+10FFFF and stray or missing
      continuation bytes are format errors. */
  function DecodeChar(b: seq<byte>): (r: Result<(char, nat)>)
    requires |b| > 0
    ensures r.Ok? ==> 1 <= r.value.1 <= |b|
    ensures r.Err? ==> r.error == FormatError
  {
    var b0 := b[0] as int;
    if b0 < 0x80 then Ok((b0 as char, 1))
    else if b0 < 0xC2 then Err(FormatError)
    else if b0 < 0xE0 then
      if |b| < 2 || !IsContinuation(b[1]) then Err(FormatError)
      else
        var n := (b0 - 0xC0) * 64 + (b[1] as int - 0x80);
        Ok((n as char, 2))
    else if b0 < 0xF0 then
      if |b| < 3 || !IsContinuation(b[1]) || !IsContinuation(b[2]) then Err(FormatError)
      else
        var n := (b0 - 0xE0) * 4096 + (b[1] as int - 0x80) * 64 + (b[2] as int - 0x80);
        if n < 0x800 || (0xD800 <= n < 0xE000) then Err(FormatError)
        else Ok((n as char, 3))
    else if b0 < 0xF5 then
      if |b| < 4 || !IsContinuation(b[1]) || !IsContinuation(b[2]) || !IsContinuation(b[3]) then
        Err(FormatError)
      else
        var n := (b0 - 0xF0) * 262144 + (b[1] as int - 0x80) * 4096
          + (b[2] as int - 0x80) * 64 + (b[3] as int - 0x80);
        if n < 0x1_0000 || n >= 0x11_0000 then Err(FormatError)
        else Ok((n as char, 4))
    else Err(FormatError)
  }

  /** Strict UTF-8 decoding of a whole payload. */
  function Decode(b: seq<byte>): (r: Result<string>)
    ensures r.Ok? ==> Encode(r.value) == b
    ensures r.Err? ==> r.error == FormatError
    decreases |b|
  {
    if |b| == 0 then Ok([])
    else
      var (c, k) :- DecodeChar(b);
      DecodeCharExact(b);
      var rest :- Decode(b[k..]);
      assert b == b[..k] + b[k..];
      Ok([c] + rest)
  }

  /** Three base-64 digits, most significant first, and the number they form. */
  lemma Digits3(hi: nat, mid: nat, lo: nat)
    requires mid < 64 && lo < 64
    ensures var n := hi * 4096 + mid * 64 + lo;
      n / 4096 == hi && (n / 64) % 64 == mid && n % 64 == lo
  {
    var n := hi * 4096 + mid * 64 + lo;
    assert n == (hi * 64 + mid) * 64 + lo;
    DivModOfSum(hi * 64 + mid, lo, 64);
    DivModOfSum(hi, mid, 64);
    DivModOfSum(hi, mid * 64 + lo, 4096);
  }

  /** Four base-64 digits, most significant first, and the number they form. */
  lemma Digits4(top: nat, hi: nat, mid: nat, lo: nat)
    requires hi < 64 && mid < 64 && lo < 64
    ensures var n := top * 262144 + hi * 4096 + mid * 64 + lo;
      n / 262144 == top && (n / 4096) % 64 == hi && (n / 64) % 64 == mid && n % 64 == lo
  {
    var n := top * 262144 + hi * 4096 + mid * 64 + lo;
    assert n == (top * 64 + hi) * 4096 + (mid * 64 + lo);
    Digits3(top * 64 + hi, mid, lo);
    DivModOfSum(top, hi, 64);
    DivModOfSum(top, hi * 4096 + mid * 64 + lo, 262144);
  }

  /** The decoder accepts only the canonical encoding: the bytes it consumes
      are exactly the encoding of the value it returns. */
  lemma DecodeCharExact(b: seq<byte>)
    requires |b| > 0
    ensures DecodeChar(b).Ok? ==> b[..DecodeChar(b).value.1] == EncodeChar(DecodeChar(b).value.0)
  {
    var r := DecodeChar(b);
    if r.Ok? {
      var b0 := b[0] as int;
      if b0 >= 0xF0 {
        Digits4(b0 - 0xF0, b[1] as int - 0x80, b[2] as int - 0x80, b[3] as int - 0x80);
      } else if b0 >= 0xE0 {
        Digits3(b0 - 0xE0, b[1] as int - 0x80, b[2] as int - 0x80);
      } else if b0 >= 0x80 {
        DivModOfSum(b0 - 0xC0, b[1] as int - 0x80, 64);
      }
    }
  }

  lemma Split3(n: nat)
    ensures n == (n / 4096) * 4096 + ((n / 64) % 64) * 64 + n % 64
  {
    var q := n / 64;
    assert n == q * 64 + n % 64;
    assert q == (q / 64) * 64 + q % 64;
    assert q / 64 == n / 4096;
  }

  lemma Split4(n: nat)
    ensures n == (n / 262144) * 262144 + ((n / 4096) % 64) * 4096 + ((n / 64) % 64) * 64 + n % 64
  {
    Split3(n);
    var q := n / 4096;
    assert q == (q / 64) * 64 + q % 64;
    assert q / 64 == n / 262144;
  }

  lemma DecodeTwoByteChar(c: char, rest: seq<byte>)
    requires 0x80 <= c as int < 0x800
    ensures DecodeChar(EncodeChar(c) + rest) == Ok((c, 2))
  {
    var n := c as int;
    var b := EncodeChar(c) + rest;
    assert b[0] == 0xC0 + n / 64 && b[1] == 0x80 + n % 64;
  }

  lemma DecodeThreeByteChar(c: char, rest: seq<byte>)
    requires 0x800 <= c as int < 0x1_0000
    ensures DecodeChar(EncodeChar(c) + rest) == Ok((c, 3))
  {
    var n := c as int;
    var b := EncodeChar(c) + rest;
    Split3(n);
    assert b[0] == 0xE0 + n / 4096 && b[1] == 0x80 + (n / 64) % 64 && b[2] == 0x80 + n % 64;
  }

  lemma DecodeFourByteChar(c: char, rest: seq<byte>)
    requires 0x1_0000 <= c as int
    ensures DecodeChar(EncodeChar(c) + rest) == Ok((c, 4))
  {
    var n := c as int;
    var b := EncodeChar(c) + rest;
    Split4(n);
    assert b[0] == 0xF0 + n / 262144 && b[1] == 0x80 + (n / 4096) % 64;
    assert b[2] == 0x80 + (n / 64) % 64 && b[3] == 0x80 + n % 64;
  }

  lemma DecodeEncodedChar(c: char, rest: seq<byte>)
    ensures DecodeChar(EncodeChar(c) + rest) == Ok((c, |EncodeChar(c)|))
  {
    var n := c as int;
    if n < 0x80 {
    } else if n < 0x800 {
      DecodeTwoByteChar(c, rest);
    } else if n < 0x1_0000 {
      DecodeThreeByteChar(c, rest);
    } else {
      DecodeFourByteChar(c, rest);
    }
  }

  lemma {:induction false} RoundTrip(s: string)
    ensures Decode(Encode(s)) == Ok(s)
  {
    if |s| > 0 {
      var e := EncodeChar(s[0]);
      DecodeEncodedChar(s[0], Encode(s[1..]));
      assert (e + Encode(s[1..]))[|e|..] == Encode(s[1..]);
      RoundTrip(s[1..]);
      assert [s[0]] + s[1..] == s;
    }
  }
}
