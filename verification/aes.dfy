/**
 * `AesEncryption`: the `nonce(12) ++ ciphertext` framing around AES-256-GCM
 * with a 96-bit nonce (section 5.2.1.1 of NIST SP 800-38D).
 *
 * The cipher itself is a pair of functions `seal`/`open` passed in as an
 * `Aead`; `Correct` is the one property of it the model relies on. The
 * random nonce is an input too: None stands for `getrandom` failing.
 */
module Envelope {
  import opened Wrappers
  import opened Utf8

  const NonceSize: nat := 12
  const KeySize: nat := 32

  type Nonce = s: seq<byte> | |s| == NonceSize witness seq(12, _ => 0)

  /** Authenticated encryption; None stands for the library's error. */
  datatype Aead = Aead(
    seal: (seq<byte>, Nonce, seq<byte>) -> Option<seq<byte>>,
    open: (seq<byte>, Nonce, seq<byte>) -> Option<seq<byte>>)

  /** Opening what was sealed under the same key and nonce gives back the plaintext. */
  ghost predicate Correct(aead: Aead) {
    forall key, nonce, plain :: aead.seal(key, nonce, plain).Some? ==>
      aead.open(key, nonce, aead.seal(key, nonce, plain).value) == Some(plain)
  }

  /** An `Aes256Gcm` instance: its 32-byte key. */
  datatype Cipher = Cipher(key: seq<byte>)

  /**
   * `AesEncryption::new`: the key is the passphrase's UTF-8 bytes.
   * `Key::from_slice` panics unless there are exactly 32 of them; None
   * stands for that panic.
   */
  function New(passphrase: string): (r: Option<Cipher>)
    ensures r.Some? <==> ByteLen(passphrase) == KeySize
    ensures r.Some? ==> |r.value.key| == KeySize && Decode(r.value.key) == Some(passphrase)
  {
    var key := Encode(passphrase);
    ByteLenOfEncode(passphrase);
    if |key| == KeySize then
      DecodeEncode(passphrase);
      Some(Cipher(key))
    else None
  }

  datatype CryptoError = RandomFailed | SealFailed | TooShort | OpenFailed | NotUtf8

  /**
   * `AesEncryption::encrypt`: a fresh nonce followed by the sealed UTF-8
   * bytes of the text.
   */
  function Encrypt(aead: Aead, cipher: Cipher, nonce: Option<Nonce>, plain: string): (r: Result<seq<byte>, CryptoError>)
    ensures nonce.None? ==> r == Err(RandomFailed)
    ensures r.Ok? ==> (nonce.Some? && |r.value| >= NonceSize
      && r.value[..NonceSize] == nonce.value
      && aead.seal(cipher.key, nonce.value, Encode(plain)) == Some(r.value[NonceSize..]))
    ensures nonce.Some? && aead.seal(cipher.key, nonce.value, Encode(plain)).None? ==> r == Err(SealFailed)
    ensures nonce.Some? && aead.seal(cipher.key, nonce.value, Encode(plain)).Some? ==>
      r == Ok(nonce.value + aead.seal(cipher.key, nonce.value, Encode(plain)).value)
  {
    match nonce
    case None => Err(RandomFailed)
    case Some(n) =>
      match aead.seal(cipher.key, n, Encode(plain))
      case None => Err(SealFailed)
      case Some(body) =>
        assert (n + body)[..NonceSize] == n && (n + body)[NonceSize..] == body;
        Ok(n + body)
  }

  /**
   * `AesEncryption::decrypt`: rejects a blob shorter than the nonce, opens
   * bytes [12, n) under the nonce in bytes [0, 12), and accepts only UTF-8.
   * It fails closed: plaintext is returned only when the cipher
   * authenticated the body and the bytes decode.
   */
  function Decrypt(aead: Aead, cipher: Cipher, blob: seq<byte>): (r: Result<string, CryptoError>)
    ensures |blob| < NonceSize <==> r == Err(TooShort)
    ensures r.Ok? ==> (|blob| >= NonceSize
      && aead.open(cipher.key, blob[..NonceSize], blob[NonceSize..]) == Some(Encode(r.value)))
    ensures |blob| >= NonceSize && aead.open(cipher.key, blob[..NonceSize], blob[NonceSize..]).None?
      ==> r == Err(OpenFailed)
    ensures |blob| >= NonceSize && aead.open(cipher.key, blob[..NonceSize], blob[NonceSize..]).Some?
      ==> (r.Ok? <==> IsUtf8(aead.open(cipher.key, blob[..NonceSize], blob[NonceSize..]).value))
  {
    if |blob| < NonceSize then Err(TooShort)
    else
      var nonce: Nonce := blob[..NonceSize];
      match aead.open(cipher.key, nonce, blob[NonceSize..])
      case None => Err(OpenFailed)
      case Some(bytes) =>
        match Decode(bytes)
        case None => Err(NotUtf8)
        case Some(text) =>
          EncodeDecode(bytes);
          Ok(text)
  }

  /** A blob shorter than the nonce is refused without consulting the cipher. */
  lemma ShortBlobIgnoresCipher(a1: Aead, a2: Aead, c1: Cipher, c2: Cipher, blob: seq<byte>)
    requires |blob| < NonceSize
    ensures Decrypt(a1, c1, blob) == Decrypt(a2, c2, blob) == Err(TooShort)
  {
  }

  /** Round trip: under a correct cipher, decrypting an encryption gives back the text. */
  lemma RoundTrip(aead: Aead, cipher: Cipher, nonce: Option<Nonce>, plain: string)
    requires Correct(aead)
    requires Encrypt(aead, cipher, nonce, plain).Ok?
    ensures Decrypt(aead, cipher, Encrypt(aead, cipher, nonce, plain).value) == Ok(plain)
  {
    var blob := Encrypt(aead, cipher, nonce, plain).value;
    var n := nonce.value;
    assert blob[..NonceSize] == n;
    var body := blob[NonceSize..];
    assert aead.seal(cipher.key, n, Encode(plain)) == Some(body);
    assert aead.open(cipher.key, n, body) == Some(Encode(plain));
    DecodeEncode(plain);
  }
}
