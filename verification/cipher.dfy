/** The cryptographic primitives the cipher engine calls, kept abstract:
    PBKDF2-SHA256 key derivation and AES-256-GCM sealing and opening are
    function values supplied by the caller, and what the engine relies on
    them for is stated as the predicates Correct and Authentic. The UTF-8
    encoding and decoding of the plaintext belong to `seal` and `open`. */
module CryptoPrimitives {
  import opened Wrappers
  import opened Hex

  const ALGORITHM: string := "aes-256-gcm"
  const IV_LENGTH: nat := 16
  const SALT_LENGTH: nat := 64
  const TAG_LENGTH: nat := 16
  const KEY_LENGTH: nat := 32
  const PBKDF2_ITERATIONS: nat := 100000
  const PBKDF2_DIGEST: string := "sha256"

  /** What `crypto.randomBytes(SALT_LENGTH)` yields. */
  type Salt = s: seq<byte> | |s| == SALT_LENGTH witness seq(SALT_LENGTH, _ => 0)

  /** What `crypto.randomBytes(IV_LENGTH)` yields. */
  type Iv = s: seq<byte> | |s| == IV_LENGTH witness seq(IV_LENGTH, _ => 0)

  type Key = seq<byte>

  /** Output of `cipher.update` + `cipher.final`, and `cipher.getAuthTag()`. */
  datatype Sealed = Sealed(ciphertext: seq<byte>, tag: seq<byte>)

  /** The three primitives; None stands for a thrown exception.
      - deriveKey(password, salt): `pbkdf2Sync(password, salt, PBKDF2_ITERATIONS, KEY_LENGTH, PBKDF2_DIGEST)`
      - seal(key, iv, plaintext): `createCipheriv(ALGORITHM, key, iv)` fed the UTF-8 plaintext
      - open(key, iv, tag, ciphertext): `createDecipheriv(ALGORITHM, key, iv)`, `setAuthTag(tag)`,
        `update` + `final`, decoded as UTF-8 */
  datatype Cipher = Cipher(
    deriveKey: (string, seq<byte>) -> Option<Key>,
    seal: (Key, seq<byte>, string) -> Option<Sealed>,
    open: (Key, seq<byte>, seq<byte>, seq<byte>) -> Option<string>)

  /** What the engine needs of a correct implementation: derived keys are KEY_LENGTH bytes;
      a sealed plaintext has a TAG_LENGTH-byte tag, a ciphertext at least one byte per
      character (UTF-8, and GCM keeps the length), and opens under the same key, IV and tag.
      A decipher given an empty IV, or a tag of a length GCM does not accept, throws:
      `open` fails. */
  ghost predicate Correct(c: Cipher) {
    DerivesFullKeys(c) && SealsAndOpens(c) && RejectsMalformed(c)
  }

  ghost predicate DerivesFullKeys(c: Cipher) {
    forall password, salt :: c.deriveKey(password, salt).Some? ==>
      |c.deriveKey(password, salt).value| == KEY_LENGTH
  }

  ghost predicate SealsAndOpens(c: Cipher) {
    forall key, iv, plaintext :: c.seal(key, iv, plaintext).Some? ==>
      var sealed := c.seal(key, iv, plaintext).value;
      |sealed.tag| == TAG_LENGTH && |plaintext| <= |sealed.ciphertext| &&
      c.open(key, iv, sealed.tag, sealed.ciphertext) == Some(plaintext)
  }

  ghost predicate RejectsMalformed(c: Cipher) {
    forall key, iv, tag, ciphertext :: |iv| == 0 || !ValidGcmTagLength(|tag|) ==>
      c.open(key, iv, tag, ciphertext).None?
  }

  /** Tag lengths, in bytes, that an AES-GCM decipher created without an explicit
      authentication tag length accepts: 4, 8, or 12 to 16. */
  predicate ValidGcmTagLength(n: nat) {
    n == 4 || n == 8 || 12 <= n <= 16
  }

  /** Authenticated encryption, idealised: a sealed ciphertext is rejected when opened
      with the tag it was sealed with under another key, or under the same key with
      another full-length tag. A tag forged for another key, and shorter tags (see
      AcceptsTagPrefixes), are not covered. */
  ghost predicate Authentic(c: Cipher) {
    forall key, iv, plaintext, otherKey, otherTag ::
      c.seal(key, iv, plaintext).Some? &&
      ((otherKey != key && otherTag == c.seal(key, iv, plaintext).value.tag) ||
        (otherKey == key && |otherTag| == TAG_LENGTH &&
          otherTag != c.seal(key, iv, plaintext).value.tag)) ==>
      c.open(otherKey, iv, otherTag, c.seal(key, iv, plaintext).value.ciphertext).None?
  }

  /** The behaviour of a GCM decipher whose expected tag length is not fixed: it checks
      only as many bytes of the tag as it is given, so any prefix of a valid length opens
      the ciphertext as the whole tag does. */
  ghost predicate AcceptsTagPrefixes(c: Cipher) {
    forall key, iv, plaintext, n: nat ::
      c.seal(key, iv, plaintext).Some? && ValidGcmTagLength(n) &&
      n <= |c.seal(key, iv, plaintext).value.tag| ==>
      c.open(key, iv, c.seal(key, iv, plaintext).value.tag[..n],
             c.seal(key, iv, plaintext).value.ciphertext)
      == c.open(key, iv, c.seal(key, iv, plaintext).value.tag,
                c.seal(key, iv, plaintext).value.ciphertext)
  }

  // A cipher that meets both predicates, so that they are not contradictory.
  // It uses one key and one tag and writes each character as three bytes.

  const WITNESS_KEY: Key := seq(KEY_LENGTH, _ => 0)
  const WITNESS_TAG: seq<byte> := seq(TAG_LENGTH, _ => 0)

  function EncodeChars(s: string): (bytes: seq<byte>)
    ensures |bytes| == 3 * |s|
  {
    if s == [] then []
    else
      var n := s[0] as int;
      [n / 65536, (n % 65536) / 256, n % 256] + EncodeChars(s[1..])
  }

  function DecodeChars(bytes: seq<byte>): Option<string> {
    if bytes == [] then Some("")
    else if |bytes| < 3 then None
    else
      var n := (bytes[0] as int) * 65536 + (bytes[1] as int) * 256 + bytes[2] as int;
      if !(0 <= n < 0xD800 || 0xE000 <= n < 0x11_0000) then None
      else match DecodeChars(bytes[3..])
        case None => None
        case Some(rest) => Some([n as char] + rest)
  }

  lemma {:induction false} DecodeEncodeChars(s: string)
    ensures DecodeChars(EncodeChars(s)) == Some(s)
  {
    if s != [] {
      var bytes := EncodeChars(s);
      assert bytes[3..] == EncodeChars(s[1..]);
      DecodeEncodeChars(s[1..]);
      var n := s[0] as int;
      assert (bytes[0] as int) * 65536 + (bytes[1] as int) * 256 + bytes[2] as int == n;
      assert [n as char] + s[1..] == s;
    }
  }

  function WitnessCipher(): Cipher {
    Cipher(
      (password, salt) => Some(WITNESS_KEY),
      (key, iv, plaintext) =>
        if key == WITNESS_KEY && |iv| > 0 then Some(Sealed(EncodeChars(plaintext), WITNESS_TAG))
        else None,
      (key, iv, tag, ciphertext) =>
        if key == WITNESS_KEY && |iv| > 0 && ValidGcmTagLength(|tag|) && tag == WITNESS_TAG[..|tag|]
        then DecodeChars(ciphertext) else None)
  }

  lemma WitnessCipherIsCorrectAndAuthentic()
    ensures Correct(WitnessCipher()) && Authentic(WitnessCipher())
    ensures AcceptsTagPrefixes(WitnessCipher())
  {
    WitnessCipherIsCorrect();
    WitnessCipherIsAuthentic();
    WitnessCipherAcceptsTagPrefixes();
  }

  lemma WitnessCipherIsCorrect()
    ensures Correct(WitnessCipher())
  {
    WitnessCipherSealsAndOpens();
    assert RejectsMalformed(WitnessCipher());
  }

  lemma WitnessCipherSealsAndOpens()
    ensures SealsAndOpens(WitnessCipher())
  {
    var c := WitnessCipher();
    forall key, iv, plaintext | c.seal(key, iv, plaintext).Some?
      ensures c.open(key, iv, c.seal(key, iv, plaintext).value.tag,
                     c.seal(key, iv, plaintext).value.ciphertext) == Some(plaintext)
    {
      assert key == WITNESS_KEY && |iv| > 0;
      assert WITNESS_TAG[..|WITNESS_TAG|] == WITNESS_TAG;
      DecodeEncodeChars(plaintext);
    }
  }

  lemma WitnessCipherIsAuthentic()
    ensures Authentic(WitnessCipher())
  {
  }

  lemma WitnessCipherAcceptsTagPrefixes()
    ensures AcceptsTagPrefixes(WitnessCipher())
  {
  }
}
