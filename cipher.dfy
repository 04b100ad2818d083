/**
 * `encryptData` / `decryptData`: AES-256-CBC with a fresh random IV, the
 * result being the IV's 32 hexadecimal digits followed by the ciphertext's
 * hexadecimal text.  The block cipher itself is foreign and is passed in.
 */
module Cipher {
  import opened Wrappers
  import opened Hex

  /** A 16-byte initialisation vector (`crypto.randomBytes(16)`). */
  type IV = s: seq<byte> | |s| == 16 witness seq(16, _ => 0)

  /** A 32-byte AES-256 key. */
  type KeyBytes = s: seq<byte> | |s| == 32 witness seq(32, _ => 0)

  /**
   * The foreign cipher: `encrypt(key, iv, text)` is the hexadecimal ciphertext that
   * `update(text, 'utf8', 'hex') + final('hex')` produces; `decrypt(key, iv, hex)` is the
   * plaintext, or `None` when the decipher throws (bad padding, bad input).
   */
  datatype Aes = Aes(encrypt: (KeyBytes, IV, string) -> string,
                     decrypt: (KeyBytes, IV, string) -> Option<string>)

  /** The one property assumed of the cipher: decrypting with the same key and IV inverts encrypting. */
  ghost predicate Lawful(aes: Aes) {
    forall k: KeyBytes, iv: IV, p: string :: aes.decrypt(k, iv, aes.encrypt(k, iv, p)) == Some(p)
  }

  /** A key string that `Buffer.from(key, 'hex')` turns into the 32 bytes AES-256 needs. */
  predicate ValidKey(key: string) {
    |HexDecode(key)| == 32
  }

  /** `encryptData(data, key)` with the IV it draws; `None` is the exception `createCipheriv` throws. */
  function EncryptData(data: string, key: string, aes: Aes, iv: IV): (r: Option<string>)
    ensures r.Some? <==> ValidKey(key)
    ensures r.Some? ==> |r.value| >= 32 && r.value[..32] == HexEncode(iv)
  {
    var kb := HexDecode(key);
    if |kb| != 32 then None
    else
      var out := HexEncode(iv) + aes.encrypt(kb, iv, data);
      assert out[..32] == HexEncode(iv);
      Some(out)
  }

  /**
   * `decryptData(blob, key)`: the first 32 characters are the IV, the rest the
   * ciphertext; `None` is the rethrown exception.
   */
  function DecryptData(blob: string, key: string, aes: Aes): (r: Option<string>)
    ensures r.Some? ==> ValidKey(key) && |blob| >= 32 && |HexDecode(blob[..32])| == 16
  {
    var kb := HexDecode(key);
    var ivText := if |blob| < 32 then blob else blob[..32];
    var iv := HexDecode(ivText);
    if |kb| != 32 || |iv| != 16 then None
    else aes.decrypt(kb, iv, blob[|ivText|..])
  }

  /** Decrypting what `EncryptData` produced, with the same key, gives the plaintext back. */
  lemma RoundTrip(data: string, key: string, aes: Aes, iv: IV)
    requires Lawful(aes)
    requires ValidKey(key)
    ensures EncryptData(data, key, aes, iv).Some?
    ensures DecryptData(EncryptData(data, key, aes, iv).value, key, aes) == Some(data)
  {
    var blob := EncryptData(data, key, aes, iv).value;
    HexRoundTrip(iv);
    assert blob[32..] == aes.encrypt(HexDecode(key), iv, data);
  }

  /** A blob shorter than an IV's hexadecimal form (an empty file, say) never decrypts. */
  lemma ShortBlobFails(blob: string, key: string, aes: Aes)
    requires |blob| < 32
    ensures DecryptData(blob, key, aes).None?
  {
  }

  /** A key generated as `randomBytes(32).toString('hex')` is one AES-256 accepts. */
  lemma GeneratedKeyIsValid(bytes: KeyBytes)
    ensures ValidKey(HexEncode(bytes))
  {
    HexRoundTrip(bytes);
  }
}
