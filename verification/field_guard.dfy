/** What both schemas' hooks do to one sensitive text field: seal it before a
    save and open it after a read. The key is `process.env.ENCRYPTION_KEY`,
    passed in; an absent or empty key switches the guard off. */
module FieldGuard {
  import opened Wrappers
  import opened CryptoPrimitives
  import opened Encryption

  /** `!encryptionKey`: an unset and an empty variable both mean "no key". */
  function ActiveKey(key: Option<string>): (secret: Option<string>)
    ensures secret.Some? ==> secret == key && key.value != ""
  {
    if key.Some? && key.value != "" then key else None
  }

  /** The two `randomBytes` draws of one `encrypt` call. */
  datatype Draw = Draw(salt: Salt, iv: Iv)

  /** Pre-save, one field: a non-empty value that is not token-shaped is encrypted;
      an encryption error is returned for the hook to abort the save with. */
  function SealField(value: string, key: Option<string>, draw: Draw, c: Cipher): (r: Result<string, string>)
    ensures ActiveKey(key).None? || value == "" || IsEncrypted(value) ==> r == Success(value)
    ensures r.Failure? ==> r.error == ENCRYPT_FAILED
  {
    if ActiveKey(key).None? || value == "" || IsEncrypted(value) then Success(value)
    else Encrypt(value, key.value, draw.salt, draw.iv, c)
  }

  /** Post-read, one field: a token-shaped value is decrypted, anything else is kept. */
  function OpenField(value: string, key: Option<string>, c: Cipher): (r: string)
    ensures r != value ==> ActiveKey(key).Some? && IsEncrypted(value)
  {
    if ActiveKey(key).None? || value == "" || !IsEncrypted(value) then value
    else Decrypt(value, key.value, c)
  }

  /** After a successful pre-save with a key, the field holds a token or is empty:
      storage does not see a non-empty plaintext that is not token-shaped. */
  lemma SealFieldStoresToken(value: string, key: Option<string>, draw: Draw, c: Cipher)
    requires Correct(c) && ActiveKey(key).Some?
    requires SealField(value, key, draw, c).Success?
    ensures var stored := SealField(value, key, draw, c).value;
            stored == "" || IsEncrypted(stored)
  {
    if value != "" && !IsEncrypted(value) {
      EncryptProducesToken(value, key.value, draw.salt, draw.iv, c);
    }
  }

  /** Idempotence: sealing a sealed field again, with any fresh randomness, changes nothing;
      there is never a second layer of encryption. */
  lemma SealFieldIdempotent(value: string, key: Option<string>, first: Draw, second: Draw, c: Cipher)
    requires Correct(c)
    requires SealField(value, key, first, c).Success?
    ensures var stored := SealField(value, key, first, c).value;
            SealField(stored, key, second, c) == Success(stored)
  {
    if ActiveKey(key).Some? {
      SealFieldStoresToken(value, key, first, c);
    }
  }

  /** Write then read: a field that was not token-shaped is restored by opening what
      sealing stored, with or without a key. */
  lemma OpenSealedField(value: string, key: Option<string>, draw: Draw, c: Cipher)
    requires Correct(c)
    requires !IsEncrypted(value)
    requires SealField(value, key, draw, c).Success?
    ensures OpenField(SealField(value, key, draw, c).value, key, c) == value
  {
    if ActiveKey(key).Some? && value != "" {
      SealFieldStoresToken(value, key, draw, c);
      DecryptEncrypt(value, key.value, draw.salt, draw.iv, c);
    }
  }
}
