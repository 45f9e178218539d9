/**
 * The browser primitives the encryption service relies on (WebCrypto's PBKDF2 and AES-GCM,
 * `TextEncoder` and `TextDecoder`), as mathematical functions of their inputs. Being functions,
 * they are deterministic; `Lawful` states the laws the service's round trip depends on.
 */
module WebCrypto {
  import opened Wrappers
  import opened BinaryString

  /** A non-extractable AES-GCM key; the model only compares keys. */
  datatype CryptoKey = CryptoKey(material: seq<Byte>)

  datatype Primitives = Primitives(
    // PBKDF2 with HMAC-SHA-256 (section 5.2 of RFC 8018): password, salt, iterations, key length
    // in bits; `None` where `importKey` or `deriveKey` rejects.
    pbkdf2Sha256: (seq<Byte>, seq<Byte>, nat, nat) -> Option<CryptoKey>,
    // AES-GCM authenticated encryption (NIST SP 800-38D): key, IV, plaintext; ciphertext ‖ tag.
    aesGcmEncrypt: (CryptoKey, seq<Byte>, seq<Byte>) -> Option<seq<Byte>>,
    // AES-GCM authenticated decryption: key, IV, ciphertext ‖ tag; `None` where the tag does not verify.
    aesGcmDecrypt: (CryptoKey, seq<Byte>, seq<Byte>) -> Option<seq<Byte>>,
    // `TextEncoder.encode`: UTF-8.
    utf8Encode: string -> seq<Byte>,
    // UTF-8 decoding that keeps a leading U+FEFF, as `new TextDecoder('utf-8', { ignoreBOM: true })`
    // does (not fatal: malformed input decodes to U+FFFD, it never throws). The default
    // `new TextDecoder()` is this followed by `DropBom`.
    utf8Decode: seq<Byte> -> string)

  /** The byte-order mark, U+FEFF; `TextEncoder` writes it as the bytes EF BB BF. */
  const BOM: char := '\U{FEFF}'

  /**
   * What the default `TextDecoder` (ignore BOM unset, WHATWG Encoding standard) adds to UTF-8
   * decoding: a leading EF BB BF is dropped. Since U+FEFF decodes from those three bytes only,
   * that is dropping one leading U+FEFF from the decoded text.
   */
  function DropBom(s: string): string {
    if s != [] && s[0] == BOM then s[1..] else s
  }

  /** WebCrypto's default AES-GCM tag: 128 bits. */
  const TAG_LENGTH: nat := 16

  /**
   * The laws of the primitives: what AES-GCM seals under a key and IV opens under the same key
   * and IV, with a 16-byte tag appended; UTF-8 takes at least one byte per scalar value and
   * decoding that keeps a leading U+FEFF undoes encoding. Dafny strings hold
   * Unicode scalar values only, so the lone surrogates `TextEncoder` would replace cannot occur.
   */
  ghost predicate Lawful(p: Primitives) {
    (forall key, iv, plaintext :: p.aesGcmEncrypt(key, iv, plaintext).Some? ==>
        |p.aesGcmEncrypt(key, iv, plaintext).value| == |plaintext| + TAG_LENGTH &&
        p.aesGcmDecrypt(key, iv, p.aesGcmEncrypt(key, iv, plaintext).value) == Some(plaintext)) &&
    (forall s :: p.utf8Decode(p.utf8Encode(s)) == s && |p.utf8Encode(s)| >= |s|)
  }

  // ----- A lawful instance, showing the laws are consistent. -----

  /** Byte `k` (0, 1 or 2) of the big-endian three-byte form of `c`. */
  function ToyByte(c: char, k: nat): Byte {
    var v := c as int;
    if k == 0 then v / 65536 else if k == 1 then (v / 256) % 256 else v % 256
  }

  /** Three bytes per scalar value, big-endian: an injective stand-in for UTF-8. */
  function ToyEncode(s: string): (bytes: seq<Byte>)
    ensures |bytes| == 3 * |s|
  {
    seq(3 * |s|, i requires 0 <= i < 3 * |s| => ToyByte(s[i / 3], i % 3))
  }

  function ToyDecode(bytes: seq<Byte>): string {
    if |bytes| < 3 then []
    else
      var v: int := (bytes[0] as int) * 65536 + (bytes[1] as int) * 256 + bytes[2];
      [if 0 <= v < 0xD800 || 0xE000 <= v < 0x11_0000 then v as char else '?'] + ToyDecode(bytes[3..])
  }

  /** The encoding of a non-empty string is its first character's three bytes, then the rest's. */
  lemma ToyEncodeCons(s: string)
    requires s != []
    ensures ToyEncode(s)[..3] == [ToyByte(s[0], 0), ToyByte(s[0], 1), ToyByte(s[0], 2)]
    ensures ToyEncode(s)[3..] == ToyEncode(s[1..])
  {
    var e, r := ToyEncode(s), ToyEncode(s[1..]);
    forall i | 0 <= i < |r| ensures e[3 + i] == r[i] {
      assert (3 + i) / 3 == 1 + i / 3 && (3 + i) % 3 == i % 3;
    }
  }

  lemma {:induction false} ToyDecodeEncode(s: string)
    ensures ToyDecode(ToyEncode(s)) == s
    decreases |s|
  {
    if s != [] {
      var v := s[0] as int;
      var e := ToyEncode(s);
      ToyEncodeCons(s);
      assert e[0] == ToyByte(s[0], 0) && e[1] == ToyByte(s[0], 1) && e[2] == ToyByte(s[0], 2);
      assert (v / 65536) * 65536 + ((v / 256) % 256) * 256 + v % 256 == v;
      ToyDecodeEncode(s[1..]);
    }
  }

  function ToyPrimitives(): Primitives {
    Primitives(
      (password: seq<Byte>, salt: seq<Byte>, iterations: nat, bits: nat) => Some(CryptoKey(password + salt)),
      (key: CryptoKey, iv: seq<Byte>, plaintext: seq<Byte>) => Some(plaintext + seq(TAG_LENGTH, _ => 0)),
      (key: CryptoKey, iv: seq<Byte>, sealed: seq<Byte>) =>
        if |sealed| >= TAG_LENGTH then Some(sealed[..|sealed| - TAG_LENGTH]) else None,
      ToyEncode,
      ToyDecode)
  }

  lemma ToyPrimitivesLawful()
    ensures Lawful(ToyPrimitives())
  {
    var p := ToyPrimitives();
    forall s ensures p.utf8Decode(p.utf8Encode(s)) == s && |p.utf8Encode(s)| >= |s| {
      ToyDecodeEncode(s);
    }
    forall key, iv, plaintext ensures
      |p.aesGcmEncrypt(key, iv, plaintext).value| == |plaintext| + TAG_LENGTH &&
      p.aesGcmDecrypt(key, iv, p.aesGcmEncrypt(key, iv, plaintext).value) == Some(plaintext)
    {
      var sealed := plaintext + seq(TAG_LENGTH, _ => 0);
      assert sealed[..|sealed| - TAG_LENGTH] == plaintext;
    }
  }

  lemma LawfulPrimitivesExist()
    ensures exists p :: Lawful(p)
  {
    ToyPrimitivesLawful();
  }
}
