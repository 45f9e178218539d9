/**
 * Base64 as the browser's `btoa` and `atob` use it.
 *
 * Encoding is the standard alphabet with `=` padding of section 4 of RFC 4648.
 * Decoding is the "forgiving-base64 decode" of the WHATWG Infra standard (section 4.6):
 * ASCII whitespace is removed, one or two trailing `=` are dropped when the length is a
 * multiple of 4, a length of the form 4k+1 or a character outside the alphabet fails, and
 * the bits left over at the end are discarded. Because of that leniency several strings
 * decode to the same bytes; only one of them is the encoding of those bytes.
 */
module Base64 {
  import opened Wrappers
  import opened BinaryString

  type Sextet = i: int | 0 <= i < 64

  predicate IsAlphabetChar(c: char) {
    ('A' <= c <= 'Z') || ('a' <= c <= 'z') || ('0' <= c <= '9') || c == '+' || c == '/'
  }

  /** The character of the standard alphabet for value `i` (RFC 4648, table 1). */
  function IndexChar(i: Sextet): (c: char)
    ensures IsAlphabetChar(c)
  {
    if i < 26 then ('A' as int + i) as char
    else if i < 52 then ('a' as int + (i - 26)) as char
    else if i < 62 then ('0' as int + (i - 52)) as char
    else if i == 62 then '+'
    else '/'
  }

  /** The value of an alphabet character. */
  function CharIndex(c: char): (i: Sextet)
    requires IsAlphabetChar(c)
    ensures IndexChar(i) == c
  {
    if 'A' <= c <= 'Z' then c as int - 'A' as int
    else if 'a' <= c <= 'z' then c as int - 'a' as int + 26
    else if '0' <= c <= '9' then c as int - '0' as int + 52
    else if c == '+' then 62
    else 63
  }

  lemma CharIndexOfIndexChar(i: Sextet)
    ensures CharIndex(IndexChar(i)) == i
  {
  }

  // The four six-bit values of three bytes b0 b1 b2, and the three bytes of four values s0..s3.
  function Sextet0(b0: Byte): Sextet { b0 / 4 }
  function Sextet1(b0: Byte, b1: Byte): Sextet { (b0 % 4) * 16 + b1 / 16 }
  function Sextet2(b1: Byte, b2: Byte): Sextet { (b1 % 16) * 4 + b2 / 64 }
  function Sextet3(b2: Byte): Sextet { b2 % 64 }
  function Byte0(s0: Sextet, s1: Sextet): Byte { s0 * 4 + s1 / 16 }
  function Byte1(s1: Sextet, s2: Sextet): Byte { (s1 % 16) * 16 + s2 / 4 }
  function Byte2(s2: Sextet, s3: Sextet): Byte { (s2 % 4) * 64 + s3 }

  /** The six-bit groups of `bytes`, three bytes to four groups, a short last group zero-filled. */
  function ToSextets(bytes: seq<Byte>): seq<Sextet> {
    if |bytes| == 0 then []
    else if |bytes| == 1 then [Sextet0(bytes[0]), Sextet1(bytes[0], 0)]
    else if |bytes| == 2 then [Sextet0(bytes[0]), Sextet1(bytes[0], bytes[1]), Sextet2(bytes[1], 0)]
    else
      [Sextet0(bytes[0]), Sextet1(bytes[0], bytes[1]), Sextet2(bytes[1], bytes[2]), Sextet3(bytes[2])]
      + ToSextets(bytes[3..])
  }

  /**
   * The bytes of a run of six-bit groups; the bits left over at the end are discarded.
   * A single leftover group (a length of the form 4k+1) is rejected by `Decode` before this is used.
   */
  function FromSextets(sextets: seq<Sextet>): seq<Byte> {
    if |sextets| <= 1 then []
    else if |sextets| == 2 then [Byte0(sextets[0], sextets[1])]
    else if |sextets| == 3 then [Byte0(sextets[0], sextets[1]), Byte1(sextets[1], sextets[2])]
    else
      [Byte0(sextets[0], sextets[1]), Byte1(sextets[1], sextets[2]), Byte2(sextets[2], sextets[3])]
      + FromSextets(sextets[4..])
  }

  /** The alphabet characters of a run of six-bit groups. */
  function ToChars(sextets: seq<Sextet>): (chars: string)
    ensures |chars| == |sextets|
    ensures forall k :: 0 <= k < |chars| ==> chars[k] == IndexChar(sextets[k])
  {
    if sextets == [] then [] else [IndexChar(sextets[0])] + ToChars(sextets[1..])
  }

  /** The six-bit values of a run of alphabet characters. */
  function ToIndices(chars: string): (sextets: seq<Sextet>)
    requires forall k :: 0 <= k < |chars| ==> IsAlphabetChar(chars[k])
    ensures |sextets| == |chars|
    ensures forall k :: 0 <= k < |chars| ==> sextets[k] == CharIndex(chars[k])
  {
    if chars == [] then [] else [CharIndex(chars[0])] + ToIndices(chars[1..])
  }

  /** The `=` characters that complete the last group of four. */
  function Padding(byteCount: nat): string {
    if byteCount % 3 == 1 then "==" else if byteCount % 3 == 2 then "=" else ""
  }

  /** The encoding without its padding. */
  function EncodeUnpadded(bytes: seq<Byte>): (chars: string)
    ensures forall k :: 0 <= k < |chars| ==> IsAlphabetChar(chars[k])
  {
    ToChars(ToSextets(bytes))
  }

  /** Standard base64 with padding (RFC 4648, section 4). */
  function Encode(bytes: seq<Byte>): (chars: string)
    ensures |chars| == 4 * ((|bytes| + 2) / 3)
    ensures |chars| % 4 == 0
    ensures bytes == [] <==> chars == []
  {
    ToSextetsLength(bytes);
    EncodedLength(|bytes|);
    EncodeUnpadded(bytes) + Padding(|bytes|)
  }

  predicate IsAsciiWhitespace(c: char) {
    c == '\t' || c == '\n' || c == '\U{C}' || c == '\r' || c == ' '
  }

  function RemoveAsciiWhitespace(s: string): (t: string)
    ensures forall k :: 0 <= k < |t| ==> !IsAsciiWhitespace(t[k])
    ensures (forall k :: 0 <= k < |s| ==> !IsAsciiWhitespace(s[k])) ==> t == s
  {
    if s == [] then []
    else if IsAsciiWhitespace(s[0]) then RemoveAsciiWhitespace(s[1..])
    else [s[0]] + RemoveAsciiWhitespace(s[1..])
  }

  /** Drop one or two trailing `=`. */
  function StripPadding(s: string): string {
    if |s| >= 2 && s[|s| - 2] == '=' && s[|s| - 1] == '=' then s[..|s| - 2]
    else if |s| >= 1 && s[|s| - 1] == '=' then s[..|s| - 1]
    else s
  }

  /** Forgiving-base64 decode; `None` is the failure `atob` reports as an exception. */
  function Decode(s: string): Option<seq<Byte>> {
    var data := RemoveAsciiWhitespace(s);
    var data' := if |data| % 4 == 0 then StripPadding(data) else data;
    if |data'| % 4 == 1 then None
    else if exists k :: 0 <= k < |data'| && !IsAlphabetChar(data'[k]) then None
    else Some(FromSextets(ToIndices(data')))
  }

  /** `atob`: decoded bytes as a binary string, or `None` where it throws. */
  function Atob(s: string): (r: Option<string>)
    ensures r.Some? ==> IsBinary(r.value)
  {
    match Decode(s)
    case None => None
    case Some(bytes) => Some(FromCharCodes(bytes))
  }

  /** `btoa`: the encoding of a binary string's bytes, or `None` where it throws. */
  function Btoa(s: string): Option<string> {
    if IsBinary(s) then Some(Encode(BytesOf(s))) else None
  }

  // ----- Proofs -----

  /** Splitting three bytes into four sextets and joining them again is the identity. */
  lemma SextetArithmetic(b0: Byte, b1: Byte, b2: Byte)
    ensures Byte0(Sextet0(b0), Sextet1(b0, b1)) == b0
    ensures Byte1(Sextet1(b0, b1), Sextet2(b1, b2)) == b1
    ensures Byte2(Sextet2(b1, b2), Sextet3(b2)) == b2
  {
  }

  lemma ToSextetsLength(bytes: seq<Byte>)
    ensures |ToSextets(bytes)| == 4 * (|bytes| / 3) + (if |bytes| % 3 == 0 then 0 else |bytes| % 3 + 1)
  {
    if |bytes| >= 3 {
      ToSextetsLength(bytes[3..]);
    }
  }

  lemma FromSextetsOne(bytes: seq<Byte>)
    requires |bytes| == 1
    ensures FromSextets(ToSextets(bytes)) == bytes
  {
    var b0 := bytes[0];
    assert ToSextets(bytes) == [Sextet0(b0), Sextet1(b0, 0)];
    FromSextetsLastOne(b0);
    SingletonSeq(bytes);
  }

  lemma FromSextetsLastOne(b0: Byte)
    ensures FromSextets([Sextet0(b0), Sextet1(b0, 0)]) == [b0]
  {
    SextetArithmetic(b0, 0, 0);
  }

  lemma FromSextetsTwo(bytes: seq<Byte>)
    requires |bytes| == 2
    ensures FromSextets(ToSextets(bytes)) == bytes
  {
    var b0, b1 := bytes[0], bytes[1];
    assert ToSextets(bytes) == [Sextet0(b0), Sextet1(b0, b1), Sextet2(b1, 0)];
    FromSextetsLastTwo(b0, b1);
    PairSeq(bytes);
  }

  lemma FromSextetsLastTwo(b0: Byte, b1: Byte)
    ensures FromSextets([Sextet0(b0), Sextet1(b0, b1), Sextet2(b1, 0)]) == [b0, b1]
  {
    SextetArithmetic(b0, b1, 0);
  }

  lemma SingletonSeq<T>(s: seq<T>)
    requires |s| == 1
    ensures s == [s[0]]
  {
  }

  lemma PairSeq<T>(s: seq<T>)
    requires |s| == 2
    ensures s == [s[0], s[1]]
  {
  }

  lemma FromSextetsGroup(b0: Byte, b1: Byte, b2: Byte, rest: seq<Sextet>)
    ensures FromSextets([Sextet0(b0), Sextet1(b0, b1), Sextet2(b1, b2), Sextet3(b2)] + rest)
            == [b0, b1, b2] + FromSextets(rest)
  {
    var t := [Sextet0(b0), Sextet1(b0, b1), Sextet2(b1, b2), Sextet3(b2)] + rest;
    assert t[4..] == rest;
    SextetArithmetic(b0, b1, b2);
  }

  lemma {:induction false} FromSextetsToSextets(bytes: seq<Byte>)
    ensures FromSextets(ToSextets(bytes)) == bytes
    decreases |bytes|
  {
    if |bytes| == 0 {
    } else if |bytes| == 1 {
      FromSextetsOne(bytes);
    } else if |bytes| == 2 {
      FromSextetsTwo(bytes);
    } else {
      var b0, b1, b2 := bytes[0], bytes[1], bytes[2];
      FromSextetsToSextets(bytes[3..]);
      FromSextetsGroup(b0, b1, b2, ToSextets(bytes[3..]));
      assert bytes == [b0, b1, b2] + bytes[3..];
    }
  }

  lemma ToIndicesToChars(sextets: seq<Sextet>)
    ensures ToIndices(ToChars(sextets)) == sextets
  {
    forall k | 0 <= k < |sextets| ensures ToIndices(ToChars(sextets))[k] == sextets[k] {
      CharIndexOfIndexChar(sextets[k]);
    }
  }

  lemma StripPaddingOfEncode(bytes: seq<Byte>)
    ensures StripPadding(Encode(bytes)) == EncodeUnpadded(bytes)
  {
    var u := EncodeUnpadded(bytes);
    var e := Encode(bytes);
    assert e[..|u|] == u;
    if |bytes| % 3 == 0 && |u| >= 1 {
      assert e[|e| - 1] == u[|u| - 1];
    }
    if |bytes| % 3 == 2 {
      assert e[|e| - 2] == u[|u| - 1];
    }
  }

  lemma EncodeHasNoWhitespace(bytes: seq<Byte>)
    ensures forall k :: 0 <= k < |Encode(bytes)| ==> !IsAsciiWhitespace(Encode(bytes)[k])
  {
    var u := EncodeUnpadded(bytes);
    var e := Encode(bytes);
    forall k | 0 <= k < |e| ensures !IsAsciiWhitespace(e[k]) {
      if k < |u| { assert e[k] == u[k]; }
    }
  }

  /** Decoding undoes encoding: `atob(btoa(x))` gives back the bytes of `x`. */
  lemma DecodeEncode(bytes: seq<Byte>)
    ensures Decode(Encode(bytes)) == Some(bytes)
  {
    var e, u := Encode(bytes), EncodeUnpadded(bytes);
    EncodeHasNoWhitespace(bytes);
    assert RemoveAsciiWhitespace(e) == e;
    StripPaddingOfEncode(bytes);
    UnpaddedLength(bytes);
    assert !exists k :: 0 <= k < |u| && !IsAlphabetChar(u[k]);
    ToIndicesToChars(ToSextets(bytes));
    FromSextetsToSextets(bytes);
  }

  lemma UnpaddedLength(bytes: seq<Byte>)
    ensures |EncodeUnpadded(bytes)| % 4 != 1
  {
    ToSextetsLength(bytes);
    var q, r := |bytes| / 3, |bytes| % 3;
    var tail: nat := if r == 0 then 0 else r + 1;
    assert |EncodeUnpadded(bytes)| == |ToSextets(bytes)| == 4 * q + tail;
    GroupRemainder(q, tail);
  }

  lemma GroupRemainder(q: nat, tail: nat)
    requires tail < 4
    ensures (4 * q + tail) % 4 == tail
  {
  }

  /** The unpadded length plus the padding is four characters per started group of three bytes. */
  lemma EncodedLength(n: nat)
    ensures 4 * (n / 3) + (if n % 3 == 0 then 0 else n % 3 + 1) + |Padding(n)| == 4 * ((n + 2) / 3)
    ensures 4 * ((n + 2) / 3) % 4 == 0
    ensures n == 0 <==> 4 * ((n + 2) / 3) == 0
  {
    var q, r := n / 3, n % 3;
    assert n == 3 * q + r;
    assert (n + 2) / 3 == q + (if r == 0 then 0 else 1);
  }

  /** The bytes-level round trip read through the binary-string bridge. */
  lemma AtobBtoa(bytes: seq<Byte>)
    ensures Btoa(FromCharCodes(bytes)) == Some(Encode(bytes))
    ensures Atob(Encode(bytes)) == Some(FromCharCodes(bytes))
  {
    FromCharCodesIsBinary(bytes);
    BytesOfFromCharCodes(bytes);
    DecodeEncode(bytes);
  }

  /** Encoding is injective. */
  lemma EncodeInjective(a: seq<Byte>, b: seq<Byte>)
    requires Encode(a) == Encode(b)
    ensures a == b
  {
    DecodeEncode(a);
    DecodeEncode(b);
  }
}
