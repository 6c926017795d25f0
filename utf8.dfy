/**
 * UTF-8 as defined by RFC 3629: every Unicode scalar value is written as one
 * to four octets, and a byte string is valid exactly when it is a sequence of
 * such shortest-form encodings (no overlong forms, no surrogates, nothing
 * above U+10FFFF). `Decode` is `str::from_utf8`, with `None` for its error.
 */
module Utf8 {
  import opened Wrappers

  /** A continuation octet, `10xxxxxx`. */
  predicate IsCont(x: byte) { 0x80 <= x < 0xC0 }

  /** The length of the sequence a leading octet announces; 0 when it cannot lead one. */
  function Width(b0: byte): (w: nat)
    ensures w <= 4
  {
    if b0 < 0x80 then 1
    else if 0xC0 <= b0 < 0xE0 then 2
    else if 0xE0 <= b0 < 0xF0 then 3
    else if 0xF0 <= b0 < 0xF8 then 4
    else 0
  }

  /** A scalar value Dafny's `char` can hold: anything up to U+10FFFF but the surrogates. */
  predicate IsScalar(n: int) { 0 <= n < 0xD800 || 0xE000 <= n < 0x11_0000 }

  /** The smallest code point that needs `w` octets; a smaller one in `w` octets is overlong. */
  function MinOf(w: nat): nat
  {
    if w <= 1 then 0 else if w == 2 then 0x80 else if w == 3 then 0x800 else 0x1_0000
  }

  /** The six payload bits of the `i`th octet when it is a continuation octet (0 past the end). */
  function Low(g: seq<byte>, i: nat): int
  {
    if i < |g| then g[i] as int - 0x80 else 0
  }

  /** The code point a well-formed sequence of `w == |g|` octets carries, before range checks. */
  function CodePoint(g: seq<byte>): int
    requires 1 <= |g| <= 4 && Width(g[0]) == |g|
  {
    var b0, b1, b2, b3 := g[0] as int, Low(g, 1), Low(g, 2), Low(g, 3);
    if |g| == 1 then b0
    else if |g| == 2 then (b0 - 0xC0) * 64 + b1
    else if |g| == 3 then ((b0 - 0xE0) * 64 + b1) * 64 + b2
    else (((b0 - 0xF0) * 64 + b1) * 64 + b2) * 64 + b3
  }

  /** Decodes one sequence whose length its leading octet announces. */
  function DecodeChar(g: seq<byte>): (r: Option<char>)
    requires 1 <= |g| <= 4 && Width(g[0]) == |g|
    ensures r.Some? ==> MinOf(|g|) <= r.value as int
  {
    if forall i :: 1 <= i < |g| ==> IsCont(g[i]) then
      var n := CodePoint(g);
      if MinOf(|g|) <= n && IsScalar(n) then Some(n as char) else None
    else None
  }

  /** `str::from_utf8`: `None` as soon as one sequence is malformed or cut short. */
  function Decode(b: seq<byte>): (r: Option<string>)
    ensures r.Some? ==> |r.value| <= |b| <= 4 * |r.value|
    decreases |b|
  {
    if b == [] then Some([])
    else
      var w := Width(b[0]);
      if w == 0 || |b| < w then None
      else
        match DecodeChar(b[..w])
        case None => None
        case Some(c) =>
          match Decode(b[w..])
          case None => None
          case Some(rest) => Some([c] + rest)
  }

  /** The shortest-form encoding of one character. */
  function EncodeChar(c: char): (g: seq<byte>)
    ensures 1 <= |g| <= 4
  {
    var n := c as int;
    if n < 0x80 then [n]
    else if n < 0x800 then [0xC0 + n / 64, 0x80 + n % 64]
    else if n < 0x1_0000 then [0xE0 + n / 64 / 64, 0x80 + n / 64 % 64, 0x80 + n % 64]
    else [0xF0 + n / 64 / 64 / 64, 0x80 + n / 64 / 64 % 64, 0x80 + n / 64 % 64, 0x80 + n % 64]
  }

  /** `String::as_bytes`: the characters' encodings one after the other. */
  function Encode(s: string): (b: seq<byte>)
    ensures |s| <= |b| <= 4 * |s|
  {
    if s == [] then [] else EncodeChar(s[0]) + Encode(s[1..])
  }

  /** `(hi * 64 + lo) / 64 == hi` and `(hi * 64 + lo) % 64 == lo`. */
  lemma Split64(hi: int, lo: int)
    requires 0 <= lo < 64
    ensures (hi * 64 + lo) / 64 == hi && (hi * 64 + lo) % 64 == lo
  {
  }

  // ---------------------------------------------------------------------------
  // One character, both directions

  lemma DecodeEncodeChar(c: char)
    ensures var g := EncodeChar(c); Width(g[0]) == |g| && DecodeChar(g) == Some(c)
  {
    var n := c as int;
    var g := EncodeChar(c);
    if n < 0x80 {
    } else if n < 0x800 {
      assert CodePoint(g) == n;
    } else if n < 0x1_0000 {
      assert n / 64 == n / 64 / 64 * 64 + n / 64 % 64;
      assert CodePoint(g) == n;
    } else {
      assert n / 64 / 64 == n / 64 / 64 / 64 * 64 + n / 64 / 64 % 64;
      assert n / 64 == n / 64 / 64 * 64 + n / 64 % 64;
      assert CodePoint(g) == n;
    }
  }

  lemma EncodeDecodeChar2(g: seq<byte>)
    requires |g| == 2 && Width(g[0]) == 2 && DecodeChar(g).Some?
    ensures EncodeChar(DecodeChar(g).value) == g
  {
    Split64(g[0] as int - 0xC0, Low(g, 1));
  }

  lemma EncodeDecodeChar3(g: seq<byte>)
    requires |g| == 3 && Width(g[0]) == 3 && DecodeChar(g).Some?
    ensures EncodeChar(DecodeChar(g).value) == g
  {
    var hi := (g[0] as int - 0xE0) * 64 + Low(g, 1);
    assert IsCont(g[1]) && IsCont(g[2]);
    Split64(hi, Low(g, 2));
    Split64(g[0] as int - 0xE0, Low(g, 1));
  }

  lemma EncodeDecodeChar4(g: seq<byte>)
    requires |g| == 4 && Width(g[0]) == 4 && DecodeChar(g).Some?
    ensures EncodeChar(DecodeChar(g).value) == g
  {
    var h1 := (g[0] as int - 0xF0) * 64 + Low(g, 1);
    var h2 := h1 * 64 + Low(g, 2);
    assert IsCont(g[1]) && IsCont(g[2]) && IsCont(g[3]);
    Split64(h2, Low(g, 3));
    Split64(h1, Low(g, 2));
    Split64(g[0] as int - 0xF0, Low(g, 1));
  }

  /** Only the shortest form is accepted, so a decoded character encodes back to its octets. */
  lemma EncodeDecodeChar(g: seq<byte>)
    requires 1 <= |g| <= 4 && Width(g[0]) == |g| && DecodeChar(g).Some?
    ensures EncodeChar(DecodeChar(g).value) == g
  {
    if |g| == 1 {
      assert g == [g[0]];
    } else if |g| == 2 {
      EncodeDecodeChar2(g);
    } else if |g| == 3 {
      EncodeDecodeChar3(g);
    } else {
      EncodeDecodeChar4(g);
    }
  }

  // ---------------------------------------------------------------------------
  // Whole strings

  lemma DecodeCons(g: seq<byte>, t: seq<byte>, c: char, rest: string)
    requires 1 <= |g| <= 4 && Width(g[0]) == |g| && DecodeChar(g) == Some(c)
    requires Decode(t) == Some(rest)
    ensures Decode(g + t) == Some([c] + rest)
  {
    var b := g + t;
    assert b[0] == g[0] && b[..|g|] == g && b[|g|..] == t;
  }

  /** Round trip: every string's encoding is valid UTF-8 and decodes back to it. */
  lemma {:induction false} DecodeEncode(s: string)
    ensures Decode(Encode(s)) == Some(s)
  {
    if s != [] {
      DecodeEncode(s[1..]);
      DecodeEncodeChar(s[0]);
      DecodeCons(EncodeChar(s[0]), Encode(s[1..]), s[0], s[1..]);
      assert s == [s[0]] + s[1..];
    }
  }

  lemma DecodeStep(b: seq<byte>, w: nat, c: char, rest: string)
    requires b != [] && w == Width(b[0]) && 1 <= w <= |b|
    requires DecodeChar(b[..w]) == Some(c) && Decode(b[w..]) == Some(rest)
    ensures Decode(b) == Some([c] + rest)
  {
  }

  lemma EncodeStep(b: seq<byte>, w: nat, c: char, rest: string)
    requires b != [] && 1 <= w <= |b| && EncodeChar(c) == b[..w] && Encode(rest) == b[w..]
    ensures Encode([c] + rest) == b
  {
    assert ([c] + rest)[1..] == rest;
    assert b == b[..w] + b[w..];
  }

  lemma EncodeDecodeStep(b: seq<byte>, w: nat, c: char, rest: string)
    requires b != [] && w == Width(b[0]) && 1 <= w <= |b|
    requires DecodeChar(b[..w]) == Some(c) && Decode(b[w..]) == Some(rest)
    requires Encode(rest) == b[w..]
    ensures Decode(b) == Some([c] + rest) && Encode([c] + rest) == b
  {
    DecodeStep(b, w, c, rest);
    EncodeDecodeChar(b[..w]);
    EncodeStep(b, w, c, rest);
  }

  /** The other way round: a valid byte string is exactly the encoding of what it decodes to. */
  lemma {:induction false} EncodeDecode(b: seq<byte>)
    requires Decode(b).Some?
    ensures Encode(Decode(b).value) == b
    decreases |b|
  {
    if b != [] {
      var w := Width(b[0]);
      EncodeDecode(b[w..]);
      EncodeDecodeStep(b, w, DecodeChar(b[..w]).value, Decode(b[w..]).value);
    }
  }

  /** No two byte strings decode to the same string. */
  lemma DecodeInjective(b: seq<byte>, d: seq<byte>)
    requires Decode(b).Some? && Decode(b) == Decode(d)
    ensures b == d
  {
    EncodeDecode(b);
    EncodeDecode(d);
  }

  /** A lone continuation octet, or a leading octet cut short, is rejected. */
  lemma MalformedRejected(x: byte)
    ensures Decode([0x80 + x % 64]) == None
    ensures 0xC0 <= x < 0xF8 ==> Decode([x]) == None
  {
  }

  /** The overlong two-octet form of `/` (`C0 AF`) is rejected. */
  lemma OverlongRejected()
    ensures Decode([0xC0, 0xAF]) == None
  {
    assert [0xC0, 0xAF][..2] == [0xC0, 0xAF];
  }
}
