/**
 * The field cipher of `EncryptionService`: a note field is sealed with AES-GCM under a key derived
 * by PBKDF2 from a password and a fixed salt, and stored as the base64 of IV ‖ ciphertext-with-tag.
 * Decryption is a chain of gates, each of which may hand the input back unchanged, so that fields
 * stored before encryption was introduced still display.
 */
module EncryptionService {
  import opened Wrappers
  import opened BinaryString
  import Base64
  import opened WebCrypto

  /** The static salt shared by every call. */
  const SALT: string := "note-app-salt-2024"
  const PBKDF2_ITERATIONS: nat := 100000
  const AES_KEY_LENGTH: nat := 256
  const IV_LENGTH: nat := 12

  /** The 12 bytes `getRandomValues(new Uint8Array(12))` fills. */
  type Nonce = iv: seq<Byte> | |iv| == IV_LENGTH witness [0, 0, 0, 0, 0, 0, 0, 0, 0, 0, 0, 0]

  /** The service: the browser primitives and the configured default password. */
  datatype Service = Service(crypto: Primitives, defaultPassword: string)

  /** The `Error('Échec du chiffrement')` that `encrypt` throws. */
  datatype EncryptError = EncryptionFailed

  /** `getKey`: PBKDF2-HMAC-SHA-256 over the UTF-8 password, the static salt, 100,000 iterations, 256 bits. */
  function GetKey(svc: Service, password: Option<string>): Option<CryptoKey> {
    var pw := password.GetOr(svc.defaultPassword);
    svc.crypto.pbkdf2Sha256(svc.crypto.utf8Encode(pw), svc.crypto.utf8Encode(SALT), PBKDF2_ITERATIONS, AES_KEY_LENGTH)
  }

  /** What `encrypt(text, password)` resolves to when `getRandomValues` produced `iv`. */
  function EncryptResult(svc: Service, text: string, password: Option<string>, iv: Nonce): Result<string, EncryptError> {
    if text == "" then Ok("")
    else match GetKey(svc, password)
      case None => Err(EncryptionFailed)
      case Some(key) =>
        match svc.crypto.aesGcmEncrypt(key, iv, svc.crypto.utf8Encode(text))
        case None => Err(EncryptionFailed)
        case Some(sealed) =>
          match Base64.Btoa(FromCharCodes(iv + sealed))
          case None => Err(EncryptionFailed)
          case Some(envelope) => Ok(envelope)
  }

  /** `encrypt`: the buffer `combined` is filled in place with the IV, then the sealed bytes after it. */
  method Encrypt(svc: Service, text: string, password: Option<string>, iv: Nonce)
    returns (r: Result<string, EncryptError>)
    ensures r == EncryptResult(svc, text, password, iv)
  {
    if text == "" {
      return Ok("");
    }
    var key := GetKey(svc, password);
    if key.None? {
      return Err(EncryptionFailed);
    }
    var encrypted := svc.crypto.aesGcmEncrypt(key.value, iv, svc.crypto.utf8Encode(text));
    if encrypted.None? {
      return Err(EncryptionFailed);
    }
    var sealed := encrypted.value;
    var combined := new Byte[|iv| + |sealed|];
    SetBytes(combined, iv, 0);
    SetBytes(combined, sealed, |iv|);
    assert combined[..] == iv + sealed by {
      forall k | 0 <= k < combined.Length ensures combined[..][k] == (iv + sealed)[k] {
      }
    }
    var envelope := Base64.Btoa(FromCharCodes(combined[..]));
    if envelope.None? {
      return Err(EncryptionFailed);
    }
    return Ok(envelope.value);
  }

  /** `target.set(source, offset)` on a `Uint8Array`. */
  method SetBytes(target: array<Byte>, source: seq<Byte>, offset: nat)
    requires offset + |source| <= target.Length
    modifies target
    ensures forall k :: 0 <= k < target.Length ==>
      target[k] == if offset <= k < offset + |source| then source[k - offset] else old(target[k])
  {
    var i := 0;
    while i < |source|
      invariant 0 <= i <= |source|
      invariant forall k :: 0 <= k < target.Length ==>
        target[k] == if offset <= k < offset + i then source[k - offset] else old(target[k])
    {
      target[offset + i] := source[i];
      i := i + 1;
    }
  }

  /** `isBase64`: a non-empty string of length 4k that `atob` accepts and `btoa` reproduces. */
  function IsBase64(str: string): bool {
    if str == "" || |str| % 4 != 0 then false
    else match Base64.Atob(str)
      case None => false
      case Some(decoded) => Base64.Btoa(decoded) == Some(str)
  }

  /**
   * `decrypt(encryptedText, password)` with the BOM-keeping decoder
   * `new TextDecoder('utf-8', { ignoreBOM: true })`: never throws; every failure hands back the
   * input. The source's default decoder also drops a leading U+FEFF (`DecryptAsWritten`); the
   * pages are modelled with this corrected form, for which `RoundTrip` holds for every text.
   */
  function Decrypt(svc: Service, encryptedText: string, password: Option<string>): string {
    if encryptedText == "" then ""
    else if !IsBase64(encryptedText) then encryptedText
    else match Base64.Atob(encryptedText)
      case None => encryptedText
      case Some(binary) =>
        var combined := BytesOf(binary);
        if |combined| < IV_LENGTH then encryptedText
        else match GetKey(svc, password)
          case None => encryptedText
          case Some(key) =>
            match svc.crypto.aesGcmDecrypt(key, combined[..IV_LENGTH], combined[IV_LENGTH..])
            case None => encryptedText
            case Some(decrypted) => svc.crypto.utf8Decode(decrypted)
  }

  /** Which gate of `decrypt` handed the input back. */
  datatype Gate = EmptyInput | NotBase64 | TooShort | Caught

  /** The outcome of `decrypt` with the two cases it collapses kept apart. */
  datatype Outcome = Recovered(text: string) | KeptAsIs(text: string, gate: Gate)

  function DecryptOutcome(svc: Service, encryptedText: string, password: Option<string>): Outcome {
    if encryptedText == "" then KeptAsIs("", EmptyInput)
    else if !IsBase64(encryptedText) then KeptAsIs(encryptedText, NotBase64)
    else match Base64.Atob(encryptedText)
      case None => KeptAsIs(encryptedText, Caught)
      case Some(binary) =>
        var combined := BytesOf(binary);
        if |combined| < IV_LENGTH then KeptAsIs(encryptedText, TooShort)
        else match GetKey(svc, password)
          case None => KeptAsIs(encryptedText, Caught)
          case Some(key) =>
            match svc.crypto.aesGcmDecrypt(key, combined[..IV_LENGTH], combined[IV_LENGTH..])
            case None => KeptAsIs(encryptedText, Caught)
            case Some(decrypted) => Recovered(svc.crypto.utf8Decode(decrypted))
  }

  /**
   * `decrypt` as written, with `new TextDecoder()`: the same gates, and a recovered text loses a
   * leading U+FEFF (`WebCrypto.DropBom`).
   */
  function DecryptAsWritten(svc: Service, encryptedText: string, password: Option<string>): string {
    match DecryptOutcome(svc, encryptedText, password)
    case Recovered(text) => DropBom(text)
    case KeptAsIs(text, _) => text
  }

  /** `decryptSync`: `text || ''`, which on a string is the string itself. */
  function DecryptSync(text: string): (r: string)
    ensures r == text
  {
    if text == "" then "" else text
  }

  // ----- Properties -----

  /** The bare string `decrypt` returns is the text of the tagged outcome. */
  lemma DecryptIsOutcomeText(svc: Service, encryptedText: string, password: Option<string>)
    ensures Decrypt(svc, encryptedText, password) == DecryptOutcome(svc, encryptedText, password).text
  {
  }

  /** An empty field is stored empty and read back empty, whatever the primitives do. */
  lemma EmptyField(svc: Service, password: Option<string>, iv: Nonce)
    ensures EncryptResult(svc, "", password, iv) == Ok("")
    ensures DecryptOutcome(svc, "", password) == KeptAsIs("", EmptyInput)
  {
  }

  /** `isBase64` accepts exactly the non-empty standard encodings of byte strings. */
  lemma IsBase64Iff(str: string)
    ensures IsBase64(str) <==> str != "" && exists bytes :: Base64.Encode(bytes) == str
    ensures |str| % 4 != 0 ==> !IsBase64(str)
  {
    if IsBase64(str) {
      var bytes := BytesOf(Base64.Atob(str).value);
      assert Base64.Encode(bytes) == str;
    }
    if str != "" && exists bytes :: Base64.Encode(bytes) == str {
      var bytes :| Base64.Encode(bytes) == str;
      Base64.AtobBtoa(bytes);
    }
  }

  /** Every non-empty encoding passes the probe, and decodes to the bytes it encodes. */
  lemma EncodingPassesProbe(bytes: seq<Byte>)
    requires bytes != []
    ensures IsBase64(Base64.Encode(bytes))
    ensures BytesOf(Base64.Atob(Base64.Encode(bytes)).value) == bytes
  {
    Base64.AtobBtoa(bytes);
    BytesOfFromCharCodes(bytes);
  }

  /**
   * The layout of an envelope: the base64 (length a multiple of 4) of the 12 IV bytes followed by
   * what AES-GCM sealed under the key derived from the password; the probe accepts it.
   */
  lemma EnvelopeLayout(svc: Service, text: string, password: Option<string>, iv: Nonce, envelope: string)
    returns (key: CryptoKey, sealed: seq<Byte>)
    requires text != ""
    requires EncryptResult(svc, text, password, iv) == Ok(envelope)
    ensures GetKey(svc, password) == Some(key)
    ensures svc.crypto.aesGcmEncrypt(key, iv, svc.crypto.utf8Encode(text)) == Some(sealed)
    ensures envelope == Base64.Encode(iv + sealed)
    ensures |envelope| % 4 == 0 && IsBase64(envelope)
    ensures BytesOf(Base64.Atob(envelope).value) == iv + sealed
    ensures |iv + sealed| == IV_LENGTH + |sealed|
  {
    key := GetKey(svc, password).value;
    sealed := svc.crypto.aesGcmEncrypt(key, iv, svc.crypto.utf8Encode(text)).value;
    Base64.AtobBtoa(iv + sealed);
    EncodingPassesProbe(iv + sealed);
  }

  /** With lawful primitives the envelope holds 12 + |UTF-8 text| + 16 bytes. */
  lemma EnvelopeSize(svc: Service, text: string, password: Option<string>, iv: Nonce, envelope: string)
    requires Lawful(svc.crypto)
    requires text != ""
    requires EncryptResult(svc, text, password, iv) == Ok(envelope)
    ensures Base64.Atob(envelope).Some?
    ensures |BytesOf(Base64.Atob(envelope).value)| == IV_LENGTH + |svc.crypto.utf8Encode(text)| + TAG_LENGTH
  {
    var key, sealed := EnvelopeLayout(svc, text, password, iv, envelope);
  }

  /** With lawful primitives the envelope is longer than the text, so a note never carries its own plaintext. */
  lemma EnvelopeConceals(svc: Service, text: string, password: Option<string>, iv: Nonce, envelope: string)
    requires Lawful(svc.crypto)
    requires text != ""
    requires EncryptResult(svc, text, password, iv) == Ok(envelope)
    ensures |envelope| > |text| && envelope != text
  {
    var key, sealed := EnvelopeLayout(svc, text, password, iv, envelope);
    var n := |iv + sealed|;
    assert n >= IV_LENGTH + |text| + TAG_LENGTH;
    var q := (n + 2) / 3;
    assert |envelope| == 4 * q;
    assert 3 * q >= n;
  }

  /** Round trip: decrypting what `encrypt` produced, with the same password, recovers the text. */
  lemma RoundTrip(svc: Service, text: string, password: Option<string>, iv: Nonce)
    requires Lawful(svc.crypto)
    requires EncryptResult(svc, text, password, iv).Ok?
    ensures Decrypt(svc, EncryptResult(svc, text, password, iv).value, password) == text
    ensures text != "" ==>
      DecryptOutcome(svc, EncryptResult(svc, text, password, iv).value, password) == Recovered(text)
  {
    if text != "" {
      var envelope := EncryptResult(svc, text, password, iv).value;
      var key, sealed := EnvelopeLayout(svc, text, password, iv, envelope);
      var combined := iv + sealed;
      assert combined[..IV_LENGTH] == iv && combined[IV_LENGTH..] == sealed;
      assert svc.crypto.aesGcmDecrypt(key, iv, sealed) == Some(svc.crypto.utf8Encode(text));
    }
  }

  /**
   * The source's `decrypt` and the corrected one differ only on a recovered text that starts
   * with U+FEFF, which the source drops.
   */
  lemma AsWrittenDiffersOnlyByBom(svc: Service, encryptedText: string, password: Option<string>)
    ensures DecryptOutcome(svc, encryptedText, password).KeptAsIs? ==>
      DecryptAsWritten(svc, encryptedText, password) == Decrypt(svc, encryptedText, password)
    ensures DecryptOutcome(svc, encryptedText, password).Recovered? ==>
      DecryptAsWritten(svc, encryptedText, password) == DropBom(Decrypt(svc, encryptedText, password))
    ensures var plain := Decrypt(svc, encryptedText, password);
      plain == [] || plain[0] != BOM ==> DecryptAsWritten(svc, encryptedText, password) == plain
  {
    DecryptIsOutcomeText(svc, encryptedText, password);
  }

  /** What the source's `decrypt` returns is the corrected result, or that result without a leading U+FEFF. */
  lemma AsWrittenIsDecryptOrDropped(svc: Service, encryptedText: string, password: Option<string>)
    ensures DecryptAsWritten(svc, encryptedText, password) in
      {Decrypt(svc, encryptedText, password), DropBom(Decrypt(svc, encryptedText, password))}
  {
    AsWrittenDiffersOnlyByBom(svc, encryptedText, password);
  }

  /** As written, the round trip gives back the text without a leading U+FEFF. */
  lemma AsWrittenRoundTrip(svc: Service, text: string, password: Option<string>, iv: Nonce)
    requires Lawful(svc.crypto)
    requires EncryptResult(svc, text, password, iv).Ok?
    ensures DecryptAsWritten(svc, EncryptResult(svc, text, password, iv).value, password) == DropBom(text)
  {
    RoundTrip(svc, text, password, iv);
  }

  /** As written, a text that starts with U+FEFF does not survive the round trip: it loses that character. */
  lemma BomIsLost(svc: Service, text: string, password: Option<string>, iv: Nonce)
    requires Lawful(svc.crypto)
    requires text != [] && text[0] == BOM
    requires EncryptResult(svc, text, password, iv).Ok?
    ensures DecryptAsWritten(svc, EncryptResult(svc, text, password, iv).value, password) == text[1..]
    ensures DecryptAsWritten(svc, EncryptResult(svc, text, password, iv).value, password) != text
  {
    AsWrittenRoundTrip(svc, text, password, iv);
    assert |text[1..]| != |text|;
  }

  /** On the toy primitives every encryption succeeds. */
  lemma ToyEncryptionSucceeds(svc: Service, text: string, password: Option<string>, iv: Nonce)
    requires svc.crypto == ToyPrimitives()
    ensures EncryptResult(svc, text, password, iv).Ok?
  {
    if text != "" {
      var encode := svc.crypto.utf8Encode;
      assert GetKey(svc, password).Some?;
      var key := GetKey(svc, password).value;
      var sealed := encode(text) + seq(TAG_LENGTH, _ => 0);
      assert svc.crypto.aesGcmEncrypt(key, iv, encode(text)) == Some(sealed);
      FromCharCodesIsBinary(iv + sealed);
      assert Base64.Btoa(FromCharCodes(iv + sealed)).Some?;
    }
  }

  /**
   * The counterexample, on the lawful toy primitives: a field holding only U+FEFF encrypts, and
   * the source's `decrypt` reads the envelope back as `""` where the corrected one gives U+FEFF.
   */
  lemma LoneBomReadsBackEmpty(svc: Service, password: Option<string>, iv: Nonce)
    requires svc.crypto == ToyPrimitives()
    ensures EncryptResult(svc, [BOM], password, iv).Ok?
    ensures DecryptAsWritten(svc, EncryptResult(svc, [BOM], password, iv).value, password) == ""
    ensures Decrypt(svc, EncryptResult(svc, [BOM], password, iv).value, password) == [BOM]
  {
    ToyPrimitivesLawful();
    ToyEncryptionSucceeds(svc, [BOM], password, iv);
    BomIsLost(svc, [BOM], password, iv);
    assert [BOM][1..] == [];
    RoundTrip(svc, [BOM], password, iv);
  }

  /** `decrypt` hands back its input unless AES-GCM authenticated what it decoded. */
  lemma DecryptKeepsOrAuthenticates(svc: Service, encryptedText: string, password: Option<string>)
    ensures DecryptOutcome(svc, encryptedText, password).KeptAsIs? ==>
      Decrypt(svc, encryptedText, password) == encryptedText
    ensures DecryptOutcome(svc, encryptedText, password).Recovered? ==>
      IsBase64(encryptedText) &&
      var combined := BytesOf(Base64.Atob(encryptedText).value);
      |combined| >= IV_LENGTH && GetKey(svc, password).Some? &&
      svc.crypto.aesGcmDecrypt(GetKey(svc, password).value, combined[..IV_LENGTH], combined[IV_LENGTH..]).Some?
  {
  }

  /** Wrong password or tampered data: when AES-GCM rejects, `decrypt` returns the envelope itself. */
  lemma WrongKeyKeepsEnvelope(svc: Service, text: string, password: Option<string>, iv: Nonce,
                              otherPassword: Option<string>)
    requires text != "" && EncryptResult(svc, text, password, iv).Ok?
    requires GetKey(svc, otherPassword).None? || exists sealed ::
      svc.crypto.aesGcmEncrypt(GetKey(svc, password).value, iv, svc.crypto.utf8Encode(text)) == Some(sealed) &&
      svc.crypto.aesGcmDecrypt(GetKey(svc, otherPassword).value, iv, sealed).None?
    ensures var envelope := EncryptResult(svc, text, password, iv).value;
      DecryptOutcome(svc, envelope, otherPassword) == KeptAsIs(envelope, Caught) &&
      Decrypt(svc, envelope, otherPassword) == envelope
  {
    var envelope := EncryptResult(svc, text, password, iv).value;
    var key, sealed := EnvelopeLayout(svc, text, password, iv, envelope);
    var combined := iv + sealed;
    assert combined[..IV_LENGTH] == iv && combined[IV_LENGTH..] == sealed;
  }

  /** Two encryptions of one text under different IVs give different envelopes, both of which decrypt to it. */
  lemma FreshNonceFreshEnvelope(svc: Service, text: string, password: Option<string>, iv1: Nonce, iv2: Nonce)
    requires Lawful(svc.crypto)
    requires text != "" && iv1 != iv2
    requires EncryptResult(svc, text, password, iv1).Ok? && EncryptResult(svc, text, password, iv2).Ok?
    ensures EncryptResult(svc, text, password, iv1).value != EncryptResult(svc, text, password, iv2).value
    ensures Decrypt(svc, EncryptResult(svc, text, password, iv1).value, password) == text
    ensures Decrypt(svc, EncryptResult(svc, text, password, iv2).value, password) == text
  {
    var e1 := EncryptResult(svc, text, password, iv1).value;
    var e2 := EncryptResult(svc, text, password, iv2).value;
    var k1, s1 := EnvelopeLayout(svc, text, password, iv1, e1);
    var k2, s2 := EnvelopeLayout(svc, text, password, iv2, e2);
    assert (iv1 + s1)[..IV_LENGTH] == iv1 && (iv2 + s2)[..IV_LENGTH] == iv2;
    Base64.DecodeEncode(iv1 + s1);
    Base64.DecodeEncode(iv2 + s2);
    RoundTrip(svc, text, password, iv1);
    RoundTrip(svc, text, password, iv2);
  }

  /** Text whose length is not a multiple of 4 fails the probe and is shown as it is. */
  lemma UnalignedTextPassesThrough(svc: Service, text: string, password: Option<string>)
    requires text != "" && |text| % 4 != 0
    ensures DecryptOutcome(svc, text, password) == KeptAsIs(text, NotBase64)
    ensures Decrypt(svc, text, password) == text
  {
    assert !IsBase64(text);
  }

  /** Example: "hello world" (length 11) is legacy plain text and is shown as it is. */
  lemma PlainTextPassesThrough(svc: Service, password: Option<string>)
    ensures Decrypt(svc, "hello world", password) == "hello world"
  {
    var plain := "hello world";
    assert |plain| == 11;
    UnalignedTextPassesThrough(svc, plain, password);
  }

  /** "QUJD" is canonical base64, but of three bytes only: too short to hold an IV, kept as it is. */
  lemma ShortEncodingPassesThrough(svc: Service, password: Option<string>)
    ensures DecryptOutcome(svc, "QUJD", password) == KeptAsIs("QUJD", TooShort)
  {
    var bytes: seq<Byte> := [65, 66, 67];
    var sextets: seq<Base64.Sextet> := [16, 20, 9, 3];
    assert Base64.ToSextets(bytes) == sextets + Base64.ToSextets([]);
    assert Base64.ToChars(sextets) == "QUJD";
    assert Base64.Encode(bytes) == "QUJD";
    EncodingPassesProbe(bytes);
  }
}
