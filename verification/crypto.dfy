/** The hybrid encryption layer of `src/crypto.ts`: RSA-OAEP key wrapping,
    AES-CBC payload encryption with the IV carried in front of the ciphertext,
    and base64 text for every key and ciphertext.

    The cipher and key-format algorithms themselves (RSA-OAEP with SHA-256,
    AES-CBC, SPKI and PKCS #8) are webcrypto calls and stay abstract: they are
    the fields of a `Primitives` record, and `Valid` states the only laws the
    protocol relies on. Everything `crypto.ts` does around those calls (base64,
    UTF-8, IV framing, key length checks) is modelled concretely, with two
    differences that README.md lists under "Left out": base64 decoding is
    strict where Node's is lenient, and strings are scalar values rather
    than UTF-16 code units. */
module Crypto {
  import opened Basics
  import Base64
  import Utf8

  /** `modulusLength: 2048`. */
  const ModulusBits: nat := 2048
  /** An RSA ciphertext is exactly as long as the modulus. */
  const ModulusBytes: nat := ModulusBits / 8
  /** SHA-256, the OAEP hash. */
  const HashBytes: nat := 32
  /** Longest message RSA-OAEP accepts (section 7.1.1 of RFC 8017). */
  const OaepMaxMessage: int := ModulusBytes - 2 * HashBytes - 2
  /** Width of an RSA ciphertext in base64: the relay splits envelopes here. */
  const RsaCiphertextChars: nat := 344
  /** The AES-CBC initialization vector drawn by `getRandomValues`. */
  const IvBytes: nat := 16
  /** `length: 256` for the session key. */
  const SymKeyBits: nat := 256
  const SymKeyBytes: nat := SymKeyBits / 8

  /** Key handles. Key generation is random; a pair is identified by the
      randomness it was generated from, and a public and a private key belong
      together when they carry the same identity. */
  datatype RsaPublicKey = RsaPublicKey(id: nat)
  datatype RsaPrivateKey = RsaPrivateKey(id: nat)
  datatype RsaKeyPair = RsaKeyPair(publicKey: RsaPublicKey, privateKey: RsaPrivateKey)

  predicate Matches(publicKey: RsaPublicKey, privateKey: RsaPrivateKey) {
    publicKey.id == privateKey.id
  }

  /** An AES key is its raw key material. */
  datatype SymKey = SymKey(raw: seq<Byte>)

  /** The raw AES key sizes `importKey` accepts: 128, 192 or 256 bits. */
  predicate IsAesKeyLength(n: int) {
    n == 16 || n == 24 || n == 32
  }

  /** The webcrypto operations `crypto.ts` calls: RSA-OAEP encrypt (whose
      padding draws randomness, here the `nat` seed) and decrypt, AES-CBC
      encrypt and decrypt under an IV, and the SPKI / PKCS #8 key formats. */
  datatype Primitives = Primitives(
    oaepEncrypt: (RsaPublicKey, seq<Byte>, nat) -> seq<Byte>,
    oaepDecrypt: (RsaPrivateKey, seq<Byte>) -> Option<seq<Byte>>,
    cbcEncrypt: (SymKey, seq<Byte>, seq<Byte>) -> seq<Byte>,
    cbcDecrypt: (SymKey, seq<Byte>, seq<Byte>) -> Option<seq<Byte>>,
    spkiExport: RsaPublicKey -> seq<Byte>,
    spkiImport: seq<Byte> -> Option<RsaPublicKey>,
    pkcs8Export: RsaPrivateKey -> seq<Byte>,
    pkcs8Import: seq<Byte> -> Option<RsaPrivateKey>
  )

  /** The laws of the abstract primitives: each decryption inverts its
      encryption under matching keys, an RSA ciphertext is as long as the
      modulus, and each key format reads back what it wrote. */
  ghost predicate Valid(p: Primitives) {
    && (forall pub, priv, m, seed ::
          Matches(pub, priv) && |m| <= OaepMaxMessage ==>
            p.oaepDecrypt(priv, p.oaepEncrypt(pub, m, seed)) == Some(m))
    && (forall pub, m, seed :: |m| <= OaepMaxMessage ==> |p.oaepEncrypt(pub, m, seed)| == ModulusBytes)
    && (forall k: SymKey, iv, m ::
          IsAesKeyLength(|k.raw|) && |iv| == IvBytes ==> p.cbcDecrypt(k, iv, p.cbcEncrypt(k, iv, m)) == Some(m))
    && (forall k :: p.spkiImport(p.spkiExport(k)) == Some(k))
    && (forall k :: p.pkcs8Import(p.pkcs8Export(k)) == Some(k))
  }

  // ---------------------------------------------------------------- RSA keys

  /** `generateRsaKeyPair`, with its randomness as `seed`. */
  function GenerateRsaKeyPair(seed: nat): (kp: RsaKeyPair)
    ensures Matches(kp.publicKey, kp.privateKey)
  {
    RsaKeyPair(RsaPublicKey(seed), RsaPrivateKey(seed))
  }

  /** `exportPubKey`: base64 of the SPKI encoding. */
  function ExportPubKey(p: Primitives, key: RsaPublicKey): string {
    Base64.Encode(p.spkiExport(key))
  }

  /** `exportPrvKey`: no key gives no text; otherwise base64 of the PKCS #8
      encoding. */
  function ExportPrvKey(p: Primitives, key: Option<RsaPrivateKey>): (r: Option<string>)
    ensures r.None? <==> key.None?
    ensures key.Some? ==> Base64.Decode(r.value) == Some(p.pkcs8Export(key.value))
  {
    match key
    case None => None
    case Some(k) =>
      Base64.DecodeEncode(p.pkcs8Export(k));
      Some(Base64.Encode(p.pkcs8Export(k)))
  }

  /** `importPubKey`. */
  function ImportPubKey(p: Primitives, strKey: string): Result<RsaPublicKey> {
    match Base64.Decode(strKey)
    case None => Err(InvalidBase64)
    case Some(der) =>
      match p.spkiImport(der)
      case None => Err(KeyImportFailed)
      case Some(k) => Ok(k)
  }

  /** `importPrvKey`. */
  function ImportPrvKey(p: Primitives, strKey: string): Result<RsaPrivateKey> {
    match Base64.Decode(strKey)
    case None => Err(InvalidBase64)
    case Some(der) =>
      match p.pkcs8Import(der)
      case None => Err(KeyImportFailed)
      case Some(k) => Ok(k)
  }

  /** An exported public key imports back to the same key. */
  lemma ImportExportPubKey(p: Primitives, key: RsaPublicKey)
    requires Valid(p)
    ensures ImportPubKey(p, ExportPubKey(p, key)) == Ok(key)
  {
    Base64.DecodeEncode(p.spkiExport(key));
  }

  /** An exported private key imports back to the same key. */
  lemma ImportExportPrvKey(p: Primitives, key: RsaPrivateKey)
    requires Valid(p)
    ensures ImportPrvKey(p, ExportPrvKey(p, Some(key)).value) == Ok(key)
  {
    Base64.DecodeEncode(p.pkcs8Export(key));
  }

  /** `rsaEncrypt`: decodes the base64 payload, imports the public key and
      returns the base64 of the RSA-OAEP ciphertext, which under `Valid` is
      always `RsaCiphertextChars` characters wide. */
  function RsaEncrypt(p: Primitives, b64Data: string, strPublicKey: string, seed: nat): (r: Result<string>)
    ensures Valid(p) && r.Ok? ==> |r.value| == RsaCiphertextChars
  {
    match Base64.Decode(b64Data)
    case None => Err(InvalidBase64)
    case Some(rawData) =>
      var publicKey :- ImportPubKey(p, strPublicKey);
      if |rawData| > OaepMaxMessage then Err(DataTooLong)
      else Ok(Base64.Encode(p.oaepEncrypt(publicKey, rawData, seed)))
  }

  /** `rsaDecrypt`: decodes the base64 ciphertext, decrypts it and returns the
      plaintext as base64. */
  function RsaDecrypt(p: Primitives, data: string, privateKey: RsaPrivateKey): Result<string> {
    match Base64.Decode(data)
    case None => Err(InvalidBase64)
    case Some(encryptedBuffer) =>
      match p.oaepDecrypt(privateKey, encryptedBuffer)
      case None => Err(DecryptFailed)
      case Some(decryptedData) => Ok(Base64.Encode(decryptedData))
  }

  /** What `rsaDecrypt` returns is canonical base64: it decodes, and to
      exactly the bytes the private key recovered. */
  lemma RsaDecryptIsBase64(p: Primitives, data: string, privateKey: RsaPrivateKey)
    ensures RsaDecrypt(p, data, privateKey).Ok? <==>
      Base64.Decode(data).Some? && p.oaepDecrypt(privateKey, Base64.Decode(data).value).Some?
    ensures RsaDecrypt(p, data, privateKey).Ok? ==>
      Base64.Decode(RsaDecrypt(p, data, privateKey).value)
        == p.oaepDecrypt(privateKey, Base64.Decode(data).value)
  {
    if RsaDecrypt(p, data, privateKey).Ok? {
      Base64.DecodeEncode(p.oaepDecrypt(privateKey, Base64.Decode(data).value).value);
    }
  }

  /** RSA round trip: canonical base64 of a short enough payload, encrypted
      for an exported public key, decrypts under the matching private key to
      exactly the same text. */
  lemma RsaRoundTrip(p: Primitives, kp: RsaKeyPair, b64Data: string, seed: nat)
    requires Valid(p)
    requires Matches(kp.publicKey, kp.privateKey)
    requires Base64.Decode(b64Data).Some? && |Base64.Decode(b64Data).value| <= OaepMaxMessage
    ensures RsaEncrypt(p, b64Data, ExportPubKey(p, kp.publicKey), seed).Ok?
    ensures RsaDecrypt(p, RsaEncrypt(p, b64Data, ExportPubKey(p, kp.publicKey), seed).value, kp.privateKey)
            == Ok(b64Data)
  {
    var raw := Base64.Decode(b64Data).value;
    ImportExportPubKey(p, kp.publicKey);
    var c := p.oaepEncrypt(kp.publicKey, raw, seed);
    Base64.DecodeEncode(c);
    Base64.EncodeDecode(b64Data);
  }

  // ---------------------------------------------------------- Symmetric keys

  /** `createRandomSymmetricKey`: a fresh 256-bit AES key; its key material is
      the randomness it was drawn from. */
  function CreateRandomSymmetricKey(random: seq<Byte>): (k: SymKey)
    requires |random| == SymKeyBytes
    ensures |k.raw| == SymKeyBytes && IsAesKeyLength(|k.raw|)
  {
    SymKey(random)
  }

  /** A fresh session key exports as 44 characters that decode to exactly
      the bytes it was drawn from and import back to the same key. */
  lemma FreshKeyExport(random: seq<Byte>)
    requires |random| == SymKeyBytes
    ensures |ExportSymKey(CreateRandomSymmetricKey(random))| == 44
    ensures Base64.Decode(ExportSymKey(CreateRandomSymmetricKey(random))) == Some(random)
    ensures ImportSymKey(ExportSymKey(CreateRandomSymmetricKey(random))) == Ok(CreateRandomSymmetricKey(random))
  {
    var key := CreateRandomSymmetricKey(random);
    ImportExportSymKey(key, ExportSymKey(key));
  }

  /** `exportSymKey`: base64 of the raw key. A 256-bit key becomes 44
      characters that decode to its 32 bytes. */
  function ExportSymKey(key: SymKey): (s: string)
    ensures |key.raw| == SymKeyBytes ==> |s| == 44
  {
    Base64.Encode(key.raw)
  }

  /** `importSymKey`: decodes the base64 and accepts 128, 192 or 256 bits of
      key material. */
  function ImportSymKey(strKey: string): Result<SymKey> {
    match Base64.Decode(strKey)
    case None => Err(InvalidBase64)
    case Some(keyBuffer) =>
      if IsAesKeyLength(|keyBuffer|) then Ok(SymKey(keyBuffer)) else Err(KeyImportFailed)
  }

  /** Exporting then importing a session key gives back the same key; text
      that does not decode to an AES key size is refused. */
  lemma ImportExportSymKey(key: SymKey, strKey: string)
    ensures Base64.Decode(ExportSymKey(key)) == Some(key.raw)
    ensures IsAesKeyLength(|key.raw|) ==> ImportSymKey(ExportSymKey(key)) == Ok(key)
    ensures ImportSymKey(strKey).Ok? <==>
      Base64.Decode(strKey).Some? && IsAesKeyLength(|Base64.Decode(strKey).value|)
  {
    Base64.DecodeEncode(key.raw);
  }

  /** `symEncrypt`: UTF-8 encodes `data`, encrypts it under `key` and the
      freshly drawn `iv`, and returns the base64 of the IV followed by the
      ciphertext. */
  function SymEncrypt(p: Primitives, key: SymKey, data: string, iv: seq<Byte>): (s: string)
    requires |iv| == IvBytes
  {
    Base64.Encode(iv + p.cbcEncrypt(key, iv, Utf8.Encode(data)))
  }

  /** The framing of a symmetric blob: its bytes are the 16-byte IV followed
      by the AES-CBC output for the UTF-8 bytes of the data. */
  lemma SymEncryptFraming(p: Primitives, key: SymKey, data: string, iv: seq<Byte>)
    requires |iv| == IvBytes
    ensures Base64.Decode(SymEncrypt(p, key, data, iv)).Some?
    ensures var blob := Base64.Decode(SymEncrypt(p, key, data, iv)).value;
      && |blob| >= IvBytes
      && blob[..IvBytes] == iv
      && blob[IvBytes..] == p.cbcEncrypt(key, iv, Utf8.Encode(data))
  {
    var ct := p.cbcEncrypt(key, iv, Utf8.Encode(data));
    Base64.DecodeEncode(iv + ct);
    assert (iv + ct)[..IvBytes] == iv;
    assert (iv + ct)[IvBytes..] == ct;
  }

  /** `symDecrypt`: imports the key, decodes the blob, takes bytes [0, 16) as
      the IV and the rest as ciphertext, decrypts and UTF-8 decodes. A blob
      shorter than an IV makes the `Uint8Array` view throw. */
  function SymDecrypt(p: Primitives, strKey: string, encryptedData: string): Result<string> {
    var key :- ImportSymKey(strKey);
    match Base64.Decode(encryptedData)
    case None => Err(InvalidBase64)
    case Some(encryptedBuffer) =>
      if |encryptedBuffer| < IvBytes then Err(IvOutOfRange)
      else
        match p.cbcDecrypt(key, encryptedBuffer[..IvBytes], encryptedBuffer[IvBytes..])
        case None => Err(DecryptFailed)
        case Some(decryptedBuffer) => Ok(Utf8.Decode(decryptedBuffer))
  }

  /** Symmetric round trip: decrypting with the exported key returns the
      message, except that `TextDecoder` drops a leading U+FEFF. */
  lemma SymRoundTrip(p: Primitives, key: SymKey, message: string, iv: seq<Byte>)
    requires Valid(p)
    requires IsAesKeyLength(|key.raw|) && |iv| == IvBytes
    ensures SymDecrypt(p, ExportSymKey(key), SymEncrypt(p, key, message, iv)) == Ok(Utf8.WithoutBom(message))
    ensures |message| == 0 || message[0] != Utf8.ByteOrderMark ==>
      SymDecrypt(p, ExportSymKey(key), SymEncrypt(p, key, message, iv)) == Ok(message)
  {
    var strKey := ExportSymKey(key);
    ImportExportSymKey(key, strKey);
    SymEncryptFraming(p, key, message, iv);
    var blob := Base64.Decode(SymEncrypt(p, key, message, iv)).value;
    var plain := Utf8.Encode(message);
    assert p.cbcDecrypt(key, blob[..IvBytes], blob[IvBytes..]) == Some(plain);
    Utf8.DecodeEncode(message);
    assert SymDecrypt(p, strKey, SymEncrypt(p, key, message, iv)) == Ok(Utf8.Decode(plain));
  }

  // ------------------------------------------------- the laws can be met

  /** A trivial instance of the primitives, used only to show that `Valid`
      is not contradictory: the "ciphers" copy their input, RSA pads it to the
      modulus width behind a length byte, and keys export as runs of zeros. */
  function ToyPrimitives(): Primitives {
    Primitives(
      (pub: RsaPublicKey, m: seq<Byte>, seed: nat) =>
        if |m| <= OaepMaxMessage then [|m|] + m + seq(ModulusBytes - 1 - |m|, _ => 0) else m,
      (priv: RsaPrivateKey, c: seq<Byte>) =>
        if |c| == ModulusBytes && c[0] <= OaepMaxMessage then Some(c[1..1 + c[0]]) else None,
      (k: SymKey, iv: seq<Byte>, m: seq<Byte>) => m,
      (k: SymKey, iv: seq<Byte>, c: seq<Byte>) => Some(c),
      (k: RsaPublicKey) => seq(k.id, _ => 0),
      (der: seq<Byte>) => Some(RsaPublicKey(|der|)),
      (k: RsaPrivateKey) => seq(k.id, _ => 0),
      (der: seq<Byte>) => Some(RsaPrivateKey(|der|))
    )
  }

  lemma ValidIsSatisfiable()
    ensures Valid(ToyPrimitives())
  {
    var p := ToyPrimitives();
    forall pub, priv, m, seed | Matches(pub, priv) && |m| <= OaepMaxMessage
      ensures p.oaepDecrypt(priv, p.oaepEncrypt(pub, m, seed)) == Some(m)
    {
      var c := p.oaepEncrypt(pub, m, seed);
      assert c[1..1 + |m|] == m;
    }
    forall k: RsaPublicKey
      ensures p.spkiImport(p.spkiExport(k)) == Some(k)
    {
      assert |p.spkiExport(k)| == k.id;
    }
    forall k: RsaPrivateKey
      ensures p.pkcs8Import(p.pkcs8Export(k)) == Some(k)
    {
      assert |p.pkcs8Export(k)| == k.id;
    }
  }
}
