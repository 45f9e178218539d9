/**
 * Bytes and the Latin-1 "binary string" bridge of the browser: `String.fromCharCode(...bytes)`
 * turns each byte into the character with that code, `s.split('').map(c => c.charCodeAt(0))`
 * reads the codes back, and `new Uint8Array(codes)` stores each code modulo 256.
 */
module BinaryString {

  type Byte = b: int | 0 <= b < 256

  /** A string every character of which has a code below 256 (what `btoa` accepts). */
  predicate IsBinary(s: string) {
    forall i :: 0 <= i < |s| ==> s[i] as int < 256
  }

  /** `String.fromCharCode(...bytes)`. */
  function FromCharCodes(bytes: seq<Byte>): (s: string)
    ensures |s| == |bytes|
    ensures forall i :: 0 <= i < |s| ==> s[i] as int == bytes[i]
  {
    if bytes == [] then [] else [bytes[0] as char] + FromCharCodes(bytes[1..])
  }

  /** `s.split('').map(c => c.charCodeAt(0))`. */
  function CharCodes(s: string): (codes: seq<int>)
    ensures |codes| == |s|
    ensures forall i :: 0 <= i < |s| ==> codes[i] == s[i] as int
  {
    if s == [] then [] else [s[0] as int] + CharCodes(s[1..])
  }

  /** `new Uint8Array(codes)`: each non-negative code is stored modulo 256. */
  function ToUint8Array(codes: seq<int>): (bytes: seq<Byte>)
    requires forall i :: 0 <= i < |codes| ==> 0 <= codes[i]
    ensures |bytes| == |codes|
    ensures forall i :: 0 <= i < |codes| ==> bytes[i] == codes[i] % 256
  {
    if codes == [] then [] else [codes[0] % 256] + ToUint8Array(codes[1..])
  }

  /** The bytes of a binary string: its character codes, read back through a `Uint8Array`. */
  function BytesOf(s: string): (bytes: seq<Byte>)
    ensures |bytes| == |s|
  {
    ToUint8Array(CharCodes(s))
  }

  lemma FromCharCodesIsBinary(bytes: seq<Byte>)
    ensures IsBinary(FromCharCodes(bytes))
  {
  }

  /** Reading a binary string's bytes back gives the bytes it was built from. */
  lemma BytesOfFromCharCodes(bytes: seq<Byte>)
    ensures BytesOf(FromCharCodes(bytes)) == bytes
  {
    assert forall i :: 0 <= i < |bytes| ==> BytesOf(FromCharCodes(bytes))[i] == bytes[i];
  }

  /** A binary string is determined by its bytes. */
  lemma FromCharCodesBytesOf(s: string)
    requires IsBinary(s)
    ensures FromCharCodes(BytesOf(s)) == s
  {
    var t := FromCharCodes(BytesOf(s));
    forall i | 0 <= i < |s|
      ensures t[i] == s[i]
    {
      var code := s[i] as int;
      assert code < 256;
      assert BytesOf(s)[i] == code % 256 == code;
      assert t[i] as int == code;
    }
    assert |t| == |s|;
  }
}
