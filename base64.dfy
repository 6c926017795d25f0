/**
 * The "base64" encoding of section 4 of RFC 4648 (standard alphabet, `=`
 * padding), in its canonical form: the decoder accepts only padded input whose
 * length is a multiple of four, and rejects a final quantum whose unused bits
 * are not zero (section 3.5 of RFC 4648). With that, decoding and encoding are
 * inverse to each other in both directions.
 *
 * The encoding is built in two layers, each with its own pair of round trips:
 * octets <-> 6-bit groups (the arithmetic of section 4), and 6-bit groups <->
 * characters of the alphabet (Table 1), with `=` padding added on top.
 */
module Base64 {
  import opened Wrappers

  /** A 6-bit group, the value one base64 character stands for. */
  type sextet = x: int | 0 <= x < 64

  // ---------------------------------------------------------------------------
  // Octets <-> 6-bit groups

  /** The four 6-bit groups of a 24-bit input group, most significant first. */
  function Sextet0(b0: byte): sextet { b0 / 4 }
  function Sextet1(b0: byte, b1: byte): sextet { (b0 % 4) * 16 + b1 / 16 }
  function Sextet2(b1: byte, b2: byte): sextet { (b1 % 16) * 4 + b2 / 64 }
  function Sextet3(b2: byte): sextet { b2 % 64 }

  /** The three octets of a 24-bit group given as four 6-bit groups. */
  function Octet0(v0: sextet, v1: sextet): byte { v0 * 4 + v1 / 16 }
  function Octet1(v1: sextet, v2: sextet): byte { (v1 % 16) * 16 + v2 / 4 }
  function Octet2(v2: sextet, v3: sextet): byte { (v2 % 4) * 64 + v3 }

  /** `(hi * d + lo) / d == hi` and `(hi * d + lo) % d == lo` for the divisors used here. */
  lemma SplitAt(hi: int, lo: int, d: int)
    requires d == 4 || d == 16 || d == 64
    requires 0 <= lo < d
    ensures (hi * d + lo) / d == hi && (hi * d + lo) % d == lo
  {
  }

  lemma Octet0OfSextets(b0: byte, b1: byte)
    ensures Octet0(Sextet0(b0), Sextet1(b0, b1)) == b0
  {
    SplitAt(b0 % 4, b1 / 16, 16);
  }

  lemma Octet1OfSextets(b0: byte, b1: byte, b2: byte)
    ensures Octet1(Sextet1(b0, b1), Sextet2(b1, b2)) == b1
  {
    SplitAt(b0 % 4, b1 / 16, 16);
    SplitAt(b1 % 16, b2 / 64, 4);
  }

  lemma Octet2OfSextets(b1: byte, b2: byte)
    ensures Octet2(Sextet2(b1, b2), Sextet3(b2)) == b2
  {
    SplitAt(b1 % 16, b2 / 64, 4);
  }

  lemma SextetsOfOctets(v0: sextet, v1: sextet, v2: sextet, v3: sextet)
    ensures Sextet0(Octet0(v0, v1)) == v0
    ensures Sextet1(Octet0(v0, v1), Octet1(v1, v2)) == v1
    ensures Sextet2(Octet1(v1, v2), Octet2(v2, v3)) == v2
    ensures Sextet3(Octet2(v2, v3)) == v3
  {
    SplitAt(v0, v1 / 16, 4);
    SplitAt(v1 % 16, v2 / 4, 16);
    SplitAt(v2 % 4, v3, 64);
  }

  /** A final group of one or two octets is completed with zero bits. */
  lemma ZeroFilled1(b0: byte)
    ensures Sextet1(b0, 0) % 16 == 0
  {
    SplitAt(b0 % 4, 0, 16);
  }

  lemma ZeroFilled2(b1: byte)
    ensures Sextet2(b1, 0) % 4 == 0
  {
    SplitAt(b1 % 16, 0, 4);
  }

  /** A final 6-bit group whose unused bits are zero is recovered from the octets. */
  lemma PaddedSextet1(v0: sextet, v1: sextet)
    requires v1 % 16 == 0
    ensures Sextet0(Octet0(v0, v1)) == v0 && Sextet1(Octet0(v0, v1), 0) == v1
  {
    SplitAt(v0, v1 / 16, 4);
  }

  lemma PaddedSextet2(v0: sextet, v1: sextet, v2: sextet)
    requires v2 % 4 == 0
    ensures Sextet0(Octet0(v0, v1)) == v0 && Sextet1(Octet0(v0, v1), Octet1(v1, v2)) == v1
    ensures Sextet2(Octet1(v1, v2), 0) == v2
  {
    SplitAt(v0, v1 / 16, 4);
    SplitAt(v1 % 16, v2 / 4, 16);
  }

  /** Section 4: splits the input into 6-bit groups; a final partial group is padded with zero bits. */
  function ToSextets(b: seq<byte>): (v: seq<sextet>)
    ensures |v| % 4 != 1
    decreases |b|
  {
    if |b| == 0 then []
    else if |b| == 1 then [Sextet0(b[0]), Sextet1(b[0], 0)]
    else if |b| == 2 then [Sextet0(b[0]), Sextet1(b[0], b[1]), Sextet2(b[1], 0)]
    else [Sextet0(b[0]), Sextet1(b[0], b[1]), Sextet2(b[1], b[2]), Sextet3(b[2])] + ToSextets(b[3..])
  }

  /**
   * Reassembles octets from 6-bit groups. A final run of two or three groups
   * stands for one or two octets and must leave its unused bits zero; a final
   * single group cannot stand for any octet.
   */
  function FromSextets(v: seq<sextet>): Option<seq<byte>>
    decreases |v|
  {
    if |v| == 0 then Some([])
    else if |v| == 1 then None
    else if |v| == 2 then
      if v[1] % 16 == 0 then Some([Octet0(v[0], v[1])]) else None
    else if |v| == 3 then
      if v[2] % 4 == 0 then Some([Octet0(v[0], v[1]), Octet1(v[1], v[2])]) else None
    else
      match FromSextets(v[4..])
      case None => None
      case Some(rest) => Some([Octet0(v[0], v[1]), Octet1(v[1], v[2]), Octet2(v[2], v[3])] + rest)
  }

  /** Section 3.5 of RFC 4648: a final partial group is accepted only when its unused bits are zero. */
  lemma {:induction false} FromSextetsTailBits(v: seq<sextet>)
    requires FromSextets(v).Some?
    ensures |v| % 4 == 2 ==> v[|v| - 1] % 16 == 0
    ensures |v| % 4 == 3 ==> v[|v| - 1] % 4 == 0
    ensures |v| % 4 != 1
    decreases |v|
  {
    if |v| >= 4 {
      var t := v[4..];
      FromSextetsTailBits(t);
      assert |t| % 4 == |v| % 4 by { SplitAt(1, |t| % 4, 4); assert |v| == |t| + 4; }
      if |t| > 0 {
        assert v[|v| - 1] == t[|t| - 1];
      }
    }
  }

  lemma FromTwoSextets(v0: sextet, v1: sextet)
    requires v1 % 16 == 0
    ensures FromSextets([v0, v1]) == Some([Octet0(v0, v1)])
  {
  }

  lemma FromThreeSextets(v0: sextet, v1: sextet, v2: sextet)
    requires v2 % 4 == 0
    ensures FromSextets([v0, v1, v2]) == Some([Octet0(v0, v1), Octet1(v1, v2)])
  {
  }

  lemma FromSextetsOfOne(b0: byte)
    ensures FromSextets(ToSextets([b0])) == Some([b0])
  {
    assert ToSextets([b0]) == [Sextet0(b0), Sextet1(b0, 0)];
    ZeroFilled1(b0);
    FromTwoSextets(Sextet0(b0), Sextet1(b0, 0));
    Octet0OfSextets(b0, 0);
  }

  lemma FromSextetsOfTwo(b0: byte, b1: byte)
    ensures FromSextets(ToSextets([b0, b1])) == Some([b0, b1])
  {
    assert ToSextets([b0, b1]) == [Sextet0(b0), Sextet1(b0, b1), Sextet2(b1, 0)];
    ZeroFilled2(b1);
    FromThreeSextets(Sextet0(b0), Sextet1(b0, b1), Sextet2(b1, 0));
    Octet0OfSextets(b0, b1);
    Octet1OfSextets(b0, b1, 0);
  }

  lemma FromSextetsOfShort(b: seq<byte>)
    requires 1 <= |b| <= 2
    ensures FromSextets(ToSextets(b)) == Some(b)
  {
    if |b| == 1 {
      assert b == [b[0]];
      FromSextetsOfOne(b[0]);
    } else {
      assert b == [b[0], b[1]];
      FromSextetsOfTwo(b[0], b[1]);
    }
  }

  /** Decoding works group by group: four 6-bit groups in front decode on their own. */
  lemma FromSextetsCons(g: seq<sextet>, t: seq<sextet>, rest: seq<byte>)
    requires |g| == 4 && FromSextets(t) == Some(rest)
    ensures FromSextets(g + t) == Some([Octet0(g[0], g[1]), Octet1(g[1], g[2]), Octet2(g[2], g[3])] + rest)
  {
    assert (g + t)[4..] == t;
  }

  lemma ToSextetsCons(b: seq<byte>)
    requires |b| >= 3
    ensures ToSextets(b) == [Sextet0(b[0]), Sextet1(b[0], b[1]), Sextet2(b[1], b[2]), Sextet3(b[2])] + ToSextets(b[3..])
  {
  }

  lemma GroupRoundTrip(b0: byte, b1: byte, b2: byte)
    ensures var g := [Sextet0(b0), Sextet1(b0, b1), Sextet2(b1, b2), Sextet3(b2)];
            [Octet0(g[0], g[1]), Octet1(g[1], g[2]), Octet2(g[2], g[3])] == [b0, b1, b2]
  {
    Octet0OfSextets(b0, b1);
    Octet1OfSextets(b0, b1, b2);
    Octet2OfSextets(b1, b2);
  }

  lemma FromSextetsStep(b: seq<byte>, t: seq<sextet>, rest: seq<byte>)
    requires |b| >= 3 && rest == b[3..] && t == ToSextets(rest) && FromSextets(t) == Some(rest)
    ensures FromSextets(ToSextets(b)) == Some(b)
  {
    var g := [Sextet0(b[0]), Sextet1(b[0], b[1]), Sextet2(b[1], b[2]), Sextet3(b[2])];
    ToSextetsCons(b);
    FromSextetsCons(g, t, rest);
    GroupRoundTrip(b[0], b[1], b[2]);
    assert b == [b[0], b[1], b[2]] + rest;
  }

  lemma {:induction false} FromSextetsOfToSextets(b: seq<byte>)
    ensures FromSextets(ToSextets(b)) == Some(b)
    decreases |b|
  {
    if 1 <= |b| <= 2 {
      FromSextetsOfShort(b);
    } else if |b| >= 3 {
      FromSextetsOfToSextets(b[3..]);
      FromSextetsStep(b, ToSextets(b[3..]), b[3..]);
    }
  }

  lemma ToSextetsOfShort(v: seq<sextet>)
    requires 2 <= |v| <= 3 && FromSextets(v).Some?
    ensures ToSextets(FromSextets(v).value) == v
  {
    if |v| == 2 {
      PaddedSextet1(v[0], v[1]);
    } else {
      PaddedSextet2(v[0], v[1], v[2]);
    }
  }

  lemma ToSextetsStep(v: seq<sextet>)
    requires |v| >= 4 && FromSextets(v).Some?
    requires ToSextets(FromSextets(v[4..]).value) == v[4..]
    ensures ToSextets(FromSextets(v).value) == v
  {
    var rest := FromSextets(v[4..]).value;
    var b := FromSextets(v).value;
    assert b[3..] == rest;
    SextetsOfOctets(v[0], v[1], v[2], v[3]);
    assert v == v[..4] + v[4..];
  }

  /** The 6-bit layer is canonical: whatever `FromSextets` accepts, `ToSextets` produces again. */
  lemma {:induction false} ToSextetsOfFromSextets(v: seq<sextet>)
    requires FromSextets(v).Some?
    ensures ToSextets(FromSextets(v).value) == v
    decreases |v|
  {
    if 2 <= |v| <= 3 {
      ToSextetsOfShort(v);
    } else if |v| >= 4 {
      ToSextetsOfFromSextets(v[4..]);
      ToSextetsStep(v);
    }
  }

  // ---------------------------------------------------------------------------
  // 6-bit groups <-> characters

  /** Table 1 of RFC 4648. */
  function CharOf(v: sextet): char
  {
    if v < 26 then ('A' as int + v) as char
    else if v < 52 then ('a' as int + (v - 26)) as char
    else if v < 62 then ('0' as int + (v - 52)) as char
    else if v == 62 then '+'
    else '/'
  }

  /** The inverse of Table 1; `None` for every character outside the alphabet, `=` included. */
  function ValueOf(c: char): Option<sextet>
  {
    if 'A' <= c <= 'Z' then Some(c as int - 'A' as int)
    else if 'a' <= c <= 'z' then Some(c as int - 'a' as int + 26)
    else if '0' <= c <= '9' then Some(c as int - '0' as int + 52)
    else if c == '+' then Some(62)
    else if c == '/' then Some(63)
    else None
  }

  lemma ValueOfCharOf(v: sextet)
    ensures ValueOf(CharOf(v)) == Some(v)
  {
  }

  lemma CharOfValueOf(c: char)
    requires ValueOf(c).Some?
    ensures CharOf(ValueOf(c).value) == c
  {
  }

  function Chars(v: seq<sextet>): (s: string)
    ensures |s| == |v|
  {
    if v == [] then [] else [CharOf(v[0])] + Chars(v[1..])
  }

  /** Reads alphabet characters; `None` as soon as one is not in the alphabet. */
  function Sextets(s: string): Option<seq<sextet>>
  {
    if s == [] then Some([])
    else
      match ValueOf(s[0])
      case None => None
      case Some(v) =>
        match Sextets(s[1..])
        case None => None
        case Some(rest) => Some([v] + rest)
  }

  /** `Sextets` reads every character on its own: it succeeds exactly when all are in the alphabet. */
  lemma {:induction false} SextetsPointwise(s: string)
    ensures Sextets(s).Some? <==> forall i :: 0 <= i < |s| ==> ValueOf(s[i]).Some?
    ensures Sextets(s).Some? ==>
              |Sextets(s).value| == |s| && forall i :: 0 <= i < |s| ==> Sextets(s).value[i] == ValueOf(s[i]).value
  {
    if s != [] {
      SextetsPointwise(s[1..]);
      assert forall i :: 1 <= i < |s| ==> s[i] == s[1..][i - 1];
    }
  }

  lemma {:induction false} SextetsOfChars(v: seq<sextet>)
    ensures Sextets(Chars(v)) == Some(v)
  {
    if v != [] {
      var s := Chars(v);
      assert s[1..] == Chars(v[1..]);
      ValueOfCharOf(v[0]);
      SextetsOfChars(v[1..]);
      assert v == [v[0]] + v[1..];
    }
  }

  lemma {:induction false} CharsOfSextets(s: string)
    requires Sextets(s).Some?
    ensures Chars(Sextets(s).value) == s
    ensures forall i :: 0 <= i < |s| ==> s[i] != '='
  {
    if s != [] {
      var v := Sextets(s).value;
      CharOfValueOf(s[0]);
      CharsOfSextets(s[1..]);
      assert v[1..] == Sextets(s[1..]).value;
      assert s == [s[0]] + s[1..];
    }
  }

  /** No character of the alphabet is the pad character. */
  lemma CharsHaveNoPad(v: seq<sextet>)
    ensures forall i :: 0 <= i < |v| ==> Chars(v)[i] != '='
  {
    SextetsOfChars(v);
    CharsOfSextets(Chars(v));
  }

  // ---------------------------------------------------------------------------
  // Padding and the whole encoding

  /** How many `=` complete `n` characters to a multiple of four (never three: `n % 4 != 1`). */
  function PadLength(n: nat): nat
  {
    (4 - n % 4) % 4
  }

  function Pad(k: nat): (s: string)
    ensures |s| == k && forall i :: 0 <= i < k ==> s[i] == '='
  {
    if k == 0 then [] else Pad(k - 1) + ['=']
  }

  /** `base64::encode`: the 6-bit groups as alphabet characters, then `=` up to a multiple of four. */
  function Encode(b: seq<byte>): (s: string)
    ensures |s| % 4 == 0
  {
    var v := ToSextets(b);
    PadLengthCompletes(|v|);
    Chars(v) + Pad(PadLength(|v|))
  }

  /** The number of `=` at the end of an encoded text: none, one or two. */
  function PadCount(s: string): (p: nat)
    ensures p <= 2 && p <= |s|
  {
    if |s| >= 2 && s[|s| - 2] == '=' && s[|s| - 1] == '=' then 2
    else if |s| >= 1 && s[|s| - 1] == '=' then 1
    else 0
  }

  /** `base64::decode`: `None` stands for the crate's `Err(DecodeError)`. */
  function Decode(s: string): (r: Option<seq<byte>>)
    ensures r.Some? ==> |s| % 4 == 0
  {
    if |s| % 4 != 0 then None
    else
      match Sextets(s[..|s| - PadCount(s)])
      case None => None
      case Some(v) => FromSextets(v)
  }

  lemma PadLengthCompletes(n: nat)
    ensures (n + PadLength(n)) % 4 == 0
  {
    var q, r := n / 4, n % 4;
    assert n == q * 4 + r;
    if r == 0 {
      SplitAt(q, 0, 4);
    } else {
      assert n + PadLength(n) == (q + 1) * 4;
      SplitAt(q + 1, 0, 4);
    }
  }

  lemma PadLengthAtMostTwo(n: nat)
    requires n % 4 != 1
    ensures PadLength(n) <= 2
  {
  }

  /** An `=`-free text followed by up to two `=` is read back with exactly that padding. */
  lemma PadCountOfPadded(body: string, k: nat)
    requires k <= 2 && forall i :: 0 <= i < |body| ==> body[i] != '='
    ensures PadCount(body + Pad(k)) == k
  {
    var s := body + Pad(k);
    if k == 1 && |body| > 0 {
      assert s[|s| - 2] == body[|body| - 1];
    } else if k == 0 && |body| > 0 {
      assert s[|s| - 1] == body[|body| - 1];
    }
  }

  /** A text is its unpadded part followed by the padding `PadCount` found. */
  lemma PadCountSplits(s: string)
    ensures s == s[..|s| - PadCount(s)] + Pad(PadCount(s))
  {
    var p := PadCount(s);
    if p == 0 {
      assert s[..|s|] == s;
    } else if p == 1 {
      assert Pad(1) == ['='];
      assert s == s[..|s| - 1] + [s[|s| - 1]];
    } else {
      assert Pad(2) == ['=', '='];
      assert s == s[..|s| - 2] + [s[|s| - 2], s[|s| - 1]];
    }
  }

  lemma PadLengthOfUnpadded(n: nat, p: nat)
    requires n % 4 == 0 && p <= 2 && p <= n
    ensures PadLength(n - p) == p
  {
  }

  /** Round trip: decoding an encoding gives back the octets. */
  lemma DecodeEncode(b: seq<byte>)
    ensures Decode(Encode(b)) == Some(b)
  {
    var v := ToSextets(b);
    var s := Encode(b);
    PadLengthAtMostTwo(|v|);
    CharsHaveNoPad(v);
    PadCountOfPadded(Chars(v), PadLength(|v|));
    assert s[..|s| - PadCount(s)] == Chars(v);
    SextetsOfChars(v);
    FromSextetsOfToSextets(b);
  }

  /**
   * The decoder is canonical: whatever it accepts is exactly the encoding of
   * what it returns, so no two inputs decode to the same octets.
   */
  lemma EncodeDecode(s: string)
    requires Decode(s).Some?
    ensures Encode(Decode(s).value) == s
  {
    var p := PadCount(s);
    var body := s[..|s| - p];
    var v := Sextets(body).value;
    var b := FromSextets(v).value;
    assert Decode(s).value == b;
    CharsOfSextets(body);
    ToSextetsOfFromSextets(v);
    PadLengthOfUnpadded(|s|, p);
    assert Encode(b) == body + Pad(p);
    PadCountSplits(s);
  }

  lemma DecodeInjective(s: string, t: string)
    requires Decode(s).Some? && Decode(s) == Decode(t)
    ensures s == t
  {
    EncodeDecode(s);
    EncodeDecode(t);
  }

  /** `c2VjcmV`, the encoding of `secret` cut short by one character, is rejected. */
  lemma TruncatedSecretRejected()
    ensures Decode("c2VjcmV") == None
  {
  }

  /** Padding it to `c2VjcmV=` does not help: its last character leaves the bits `01` over. */
  lemma NonCanonicalPaddingRejected()
    ensures Decode("c2VjcmV=") == None
  {
    var s := "c2VjcmV=";
    var body := "c2VjcmV";
    assert PadCount(s) == 1 && s[..7] == body;
    assert ValueOf(body[0]).Some? && ValueOf(body[1]).Some? && ValueOf(body[2]).Some?;
    assert ValueOf(body[3]).Some? && ValueOf(body[4]).Some? && ValueOf(body[5]).Some?;
    assert ValueOf(body[6]) == Some(21);
    SextetsPointwise(body);
    var v := Sextets(body).value;
    assert |v| == 7 && v[6] == 21;
    if FromSextets(v).Some? {
      FromSextetsTailBits(v);
    }
  }
}
