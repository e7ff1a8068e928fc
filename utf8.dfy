/**
 * UTF-8 as defined by RFC 3629: the encoder follows the bit layout of section 3,
 * the decoder follows the byte syntax (ABNF) of section 4.  A Dafny `char` is a
 * Unicode scalar value, so surrogates and values above U+10FFFF cannot be decoded
 * into one; the lemmas show that the decoder accepts exactly the encodings of
 * char sequences, which rules out overlong forms as well.
 *
 * This is the validation performed by `String::from_utf8` in the character stage
 * of the polling pipeline.
 */
module Utf8 {
  import opened Options

  newtype byte = x: int | 0 <= x < 0x100

  /** Width in bytes of the shortest (and only legal) encoding of `c`. */
  function Width(c: char): (n: nat)
    ensures 1 <= n <= 4
  {
    var v := c as int;
    if v < 0x80 then 1
    else if v < 0x800 then 2
    else if v < 0x10000 then 3
    else 4
  }

  /** RFC 3629 section 3: the bit layout of one scalar value. */
  function EncodeChar(c: char): (u: seq<byte>)
    ensures |u| == Width(c)
  {
    var v := c as int;
    if v < 0x80 then
      [v as byte]
    else if v < 0x800 then
      [(0xC0 + v / 0x40) as byte, (0x80 + v % 0x40) as byte]
    else if v < 0x10000 then
      [(0xE0 + v / 0x1000) as byte, (0x80 + (v / 0x40) % 0x40) as byte, (0x80 + v % 0x40) as byte]
    else
      [(0xF0 + v / 0x40000) as byte, (0x80 + (v / 0x1000) % 0x40) as byte,
       (0x80 + (v / 0x40) % 0x40) as byte, (0x80 + v % 0x40) as byte]
  }

  /** The characters' encodings one after the other: one to four bytes per character. */
  function Encode(cs: seq<char>): (s: seq<byte>)
    ensures |cs| <= |s| <= 4 * |cs|
    decreases |cs|
  {
    if cs == [] then [] else EncodeChar(cs[0]) + Encode(cs[1..])
  }

  /** UTF8-tail = %x80-BF */
  predicate IsTail(b: byte) {
    0x80 <= b <= 0xBF
  }

  /** RFC 3629 section 4: `u` is exactly one UTF8-char (UTF8-1, UTF8-2, UTF8-3 or UTF8-4). */
  predicate IsCharEncoding(u: seq<byte>) {
    if |u| == 1 then
      u[0] <= 0x7F
    else if |u| == 2 then
      0xC2 <= u[0] <= 0xDF && IsTail(u[1])
    else if |u| == 3 then
      ((u[0] == 0xE0 && 0xA0 <= u[1] <= 0xBF) ||
       ((0xE1 <= u[0] <= 0xEC || 0xEE <= u[0] <= 0xEF) && IsTail(u[1])) ||
       (u[0] == 0xED && 0x80 <= u[1] <= 0x9F)) &&
      IsTail(u[2])
    else if |u| == 4 then
      ((u[0] == 0xF0 && 0x90 <= u[1] <= 0xBF) ||
       (0xF1 <= u[0] <= 0xF3 && IsTail(u[1])) ||
       (u[0] == 0xF4 && 0x80 <= u[1] <= 0x8F)) &&
      IsTail(u[2]) && IsTail(u[3])
    else
      false
  }

  /** The scalar value carried by one well-formed UTF8-char; its width is the shortest possible. */
  function Scalar(u: seq<byte>): (c: char)
    requires IsCharEncoding(u)
    ensures Width(c) == |u|
  {
    var v :=
      if |u| == 1 then
        u[0] as int
      else if |u| == 2 then
        (u[0] as int - 0xC0) * 0x40 + (u[1] as int - 0x80)
      else if |u| == 3 then
        (u[0] as int - 0xE0) * 0x1000 + (u[1] as int - 0x80) * 0x40 + (u[2] as int - 0x80)
      else
        (u[0] as int - 0xF0) * 0x40000 + (u[1] as int - 0x80) * 0x1000
        + (u[2] as int - 0x80) * 0x40 + (u[3] as int - 0x80);
    v as char
  }

  /** Length of the UTF8-char that starts `s`, or 0 when `s` does not start with one. */
  function LeadLength(s: seq<byte>): (n: nat)
    ensures n <= |s| && n <= 4
    ensures n > 0 ==> IsCharEncoding(s[..n])
    ensures n == 0 ==> forall k :: 0 < k <= |s| && k <= 4 ==> !IsCharEncoding(s[..k])
  {
    if |s| >= 1 && IsCharEncoding(s[..1]) then 1
    else if |s| >= 2 && IsCharEncoding(s[..2]) then 2
    else if |s| >= 3 && IsCharEncoding(s[..3]) then 3
    else if |s| >= 4 && IsCharEncoding(s[..4]) then 4
    else 0
  }

  /** `String::from_utf8(s).chars()`: the whole of `s` must be a sequence of UTF8-chars. */
  function Decode(s: seq<byte>): (r: Option<seq<char>>)
    ensures r.Some? ==> |r.value| <= |s| <= 4 * |r.value|
    ensures s == [] ==> r == Some([])
    decreases |s|
  {
    if s == [] then Some([])
    else
      var n := LeadLength(s);
      if n == 0 then None
      else
        match Decode(s[n..])
        case None => None
        case Some(rest) => Some([Scalar(s[..n])] + rest)
  }

  // ---------------------------------------------------------------------------
  // One character

  /** The RFC 3629 section 3 layout yields an RFC 3629 section 4 UTF8-char that carries `c` back. */
  lemma EncodeCharWellFormed(c: char)
    ensures IsCharEncoding(EncodeChar(c))
    ensures Scalar(EncodeChar(c)) == c
  {
    var v := c as int;
    if v < 0x80 {
    } else if v < 0x800 {
      TwoByteWellFormed(c);
    } else if v < 0x10000 {
      ThreeByteWellFormed(c);
    } else {
      FourByteWellFormed(c);
    }
  }

  lemma TwoByteWellFormed(c: char)
    requires 0x80 <= c as int < 0x800
    ensures IsCharEncoding(EncodeChar(c)) && Scalar(EncodeChar(c)) == c
  {
  }

  lemma ThreeByteWellFormed(c: char)
    requires 0x800 <= c as int < 0x10000
    ensures IsCharEncoding(EncodeChar(c)) && Scalar(EncodeChar(c)) == c
  {
    var v := c as int;
    var q1, d := v / 0x40, v % 0x40;
    var q2, m := q1 / 0x40, q1 % 0x40;
    assert v == q1 * 0x40 + d && q1 == q2 * 0x40 + m;
    SplitDigit(q2, m * 0x40 + d, 0x1000);
  }

  lemma FourByteWellFormed(c: char)
    requires 0x10000 <= c as int
    ensures IsCharEncoding(EncodeChar(c)) && Scalar(EncodeChar(c)) == c
  {
    var v := c as int;
    var q1, d := v / 0x40, v % 0x40;
    var q2, m := q1 / 0x40, q1 % 0x40;
    var q3, b := q2 / 0x40, q2 % 0x40;
    assert v == q1 * 0x40 + d && q1 == q2 * 0x40 + m && q2 == q3 * 0x40 + b;
    SplitDigit(q2, m * 0x40 + d, 0x1000);
    SplitDigit(q3, b * 0x1000 + m * 0x40 + d, 0x40000);
  }

  /** A well-formed UTF8-char is the encoding of its scalar value: no other byte form exists. */
  lemma ScalarEncodes(u: seq<byte>)
    requires IsCharEncoding(u)
    ensures EncodeChar(Scalar(u)) == u
  {
    var v := Scalar(u) as int;
    var e := EncodeChar(Scalar(u));
    if |u| == 2 {
      SplitDigit(u[0] as int - 0xC0, u[1] as int - 0x80, 0x40);
    } else if |u| == 3 {
      var hi := (u[0] as int - 0xE0) * 0x40 + (u[1] as int - 0x80);
      SplitDigit(hi, u[2] as int - 0x80, 0x40);
      SplitDigit(u[0] as int - 0xE0, u[1] as int - 0x80, 0x40);
      SplitDigit(u[0] as int - 0xE0, (u[1] as int - 0x80) * 0x40 + (u[2] as int - 0x80), 0x1000);
    } else if |u| == 4 {
      var b0, b1, b2, b3 := u[0] as int - 0xF0, u[1] as int - 0x80, u[2] as int - 0x80, u[3] as int - 0x80;
      SplitDigit(b0 * 0x1000 + b1 * 0x40 + b2, b3, 0x40);
      SplitDigit(b0 * 0x40 + b1, b2 * 0x40 + b3, 0x1000);
      SplitDigit(b0 * 0x40 + b1, b2, 0x40);
      SplitDigit(b0, b1, 0x40);
      SplitDigit(b0, b1 * 0x1000 + b2 * 0x40 + b3, 0x40000);
    }
  }

  /** Euclidean division recovers the digits of `hi * d + lo`. */
  lemma SplitDigit(hi: int, lo: int, d: int)
    requires d == 0x40 || d == 0x1000 || d == 0x40000
    requires 0 <= hi && 0 <= lo < d
    ensures (hi * d + lo) / d == hi && (hi * d + lo) % d == lo
  {
    if d == 0x40 {
      assert hi * 0x40 + lo == hi * d + lo;
    } else if d == 0x1000 {
      assert hi * 0x1000 + lo == hi * d + lo;
    } else {
      assert hi * 0x40000 + lo == hi * d + lo;
    }
  }

  /** UTF-8 is prefix-free: no proper prefix of a UTF8-char is itself one. */
  lemma NoProperPrefix(u: seq<byte>, k: nat)
    requires IsCharEncoding(u) && 0 < k < |u|
    ensures !IsCharEncoding(u[..k])
  {
  }

  lemma LeadLengthOfChar(u: seq<byte>, rest: seq<byte>)
    requires IsCharEncoding(u)
    ensures LeadLength(u + rest) == |u|
  {
    forall k | 0 < k < |u|
      ensures !IsCharEncoding((u + rest)[..k])
    {
      assert (u + rest)[..k] == u[..k];
      NoProperPrefix(u, k);
    }
    assert (u + rest)[..|u|] == u;
  }

  // ---------------------------------------------------------------------------
  // Whole batches

  /** Decoding an encoding gives the characters back. */
  lemma {:induction false} DecodeEncode(cs: seq<char>)
    ensures Decode(Encode(cs)) == Some(cs)
  {
    if cs != [] {
      var u := EncodeChar(cs[0]);
      var s := Encode(cs);
      EncodeCharWellFormed(cs[0]);
      LeadLengthOfChar(u, Encode(cs[1..]));
      assert s[..|u|] == u && s[|u|..] == Encode(cs[1..]);
      DecodeEncode(cs[1..]);
      assert Decode(s) == Some([cs[0]] + cs[1..]);
      assert [cs[0]] + cs[1..] == cs;
    }
  }

  /** A successful decode re-encodes to exactly the bytes it came from. */
  lemma {:induction false} EncodeDecode(s: seq<byte>)
    requires Decode(s).Some?
    ensures Encode(Decode(s).value) == s
    decreases |s|
  {
    if s != [] {
      var n := LeadLength(s);
      DecodeFront(s);
      var c, rest := Scalar(s[..n]), Decode(s[n..]).value;
      calc {
        Encode(Decode(s).value);
        Encode([c] + rest);
        { EncodeFront(c, rest); }
        EncodeChar(c) + Encode(rest);
        { ScalarEncodes(s[..n]); EncodeDecode(s[n..]); }
        s[..n] + s[n..];
        { assert s == s[..n] + s[n..]; }
        s;
      }
    }
  }

  /** How a successful decode of a non-empty input splits off its first character. */
  lemma DecodeFront(s: seq<byte>)
    requires s != [] && Decode(s).Some?
    ensures 0 < LeadLength(s) && Decode(s[LeadLength(s)..]).Some?
    ensures Decode(s).value == [Scalar(s[..LeadLength(s)])] + Decode(s[LeadLength(s)..]).value
  {
  }

  lemma EncodeFront(c: char, rest: seq<char>)
    ensures Encode([c] + rest) == EncodeChar(c) + Encode(rest)
  {
    assert ([c] + rest)[1..] == rest;
  }

  /** The decoder accepts exactly the byte sequences that are encodings of characters. */
  lemma DecodeSucceedsIff(s: seq<byte>)
    ensures Decode(s).Some? <==> exists cs :: Encode(cs) == s
  {
    if Decode(s).Some? {
      EncodeDecode(s);
    }
    if cs :| Encode(cs) == s {
      DecodeEncode(cs);
    }
  }

  /**
   * A batch boundary inside a multi-byte character: the first batch ends with a
   * proper prefix of the character's bytes, so it does not decode.
   */
  lemma {:induction false} TruncatedCharFails(cs: seq<char>, c: char, k: nat)
    requires 0 < k < Width(c)
    ensures Decode(Encode(cs) + EncodeChar(c)[..k]) == None
  {
    var t := EncodeChar(c)[..k];
    if cs == [] {
      assert Encode(cs) + t == t;
      EncodeCharWellFormed(c);
      forall j | 0 < j <= |t| && j <= 4
        ensures !IsCharEncoding(t[..j])
      {
        assert t[..j] == EncodeChar(c)[..j];
        NoProperPrefix(EncodeChar(c), j);
      }
    } else {
      var u := EncodeChar(cs[0]);
      var s := Encode(cs) + t;
      EncodeCharWellFormed(cs[0]);
      assert s == u + (Encode(cs[1..]) + t);
      LeadLengthOfChar(u, Encode(cs[1..]) + t);
      assert s[|u|..] == Encode(cs[1..]) + t;
      TruncatedCharFails(cs[1..], c, k);
    }
  }

  /**
   * The other side of the same boundary: a batch that starts in the middle of a
   * character begins with a UTF8-tail byte, so it does not decode either.
   */
  lemma ContinuationFirstFails(c: char, k: nat, rest: seq<byte>)
    requires 0 < k < Width(c)
    ensures Decode(EncodeChar(c)[k..] + rest) == None
  {
    var s := EncodeChar(c)[k..] + rest;
    assert IsTail(s[0]);
  }
}
