/** The cipher engine: `isEncrypted`, `encrypt` and `decrypt` over strings,
    with the token format `salt:iv:tag:ciphertext`, every segment lowercase hex. */
module Encryption {
  import opened Wrappers
  import opened Hex
  import opened Segments
  import opened CryptoPrimitives

  const ENCRYPT_FAILED: string := "Failed to encrypt data"

  /** The token layout `salt:iv:tag:ciphertext`. */
  function Token(salt: string, iv: string, tag: string, ciphertext: string): string {
    salt + [SEP] + iv + [SEP] + tag + [SEP] + ciphertext
  }

  /** The syntactic classifier: four colon-separated segments, each matching /^[0-9a-f]+$/. */
  predicate IsEncrypted(data: string) {
    data != "" &&
    var parts := Split(data);
    |parts| == 4 && forall i :: 0 <= i < 4 ==> IsLowerHex(parts[i])
  }

  /** Reference definition of a token-shaped string: four lowercase-hex strings joined by colons. */
  ghost predicate TokenShaped(s: string) {
    exists salt, iv, tag, ciphertext ::
      IsLowerHex(salt) && IsLowerHex(iv) && IsLowerHex(tag) && IsLowerHex(ciphertext) &&
      s == Token(salt, iv, tag, ciphertext)
  }

  /** `encrypt(data, encryptionKey)`, with the two `randomBytes` draws passed in as `salt` and `iv`. */
  function Encrypt(data: string, encryptionKey: string, salt: Salt, iv: Iv, c: Cipher): (r: Result<string, string>)
    ensures data == "" ==> r == Success(data)
    ensures r.Failure? ==> data != "" && r.error == ENCRYPT_FAILED
  {
    if data == "" then Success(data)
    else match c.deriveKey(encryptionKey, salt)
      case None => Failure(ENCRYPT_FAILED)
      case Some(key) =>
        match c.seal(key, iv, data)
        case None => Failure(ENCRYPT_FAILED)
        case Some(sealed) =>
          Success(Token(ToHex(salt), ToHex(iv), ToHex(sealed.tag), ToHex(sealed.ciphertext)))
  }

  /** `decrypt(ciphertext, encryptionKey)`: never fails; whatever it cannot decrypt it returns as given. */
  function Decrypt(ciphertext: string, encryptionKey: string, c: Cipher): (r: string)
    ensures Count(ciphertext) != 3 ==> r == ciphertext
  {
    if ciphertext == "" || SEP !in ciphertext then ciphertext
    else
      var parts := Split(ciphertext);
      if |parts| != 4 then ciphertext
      else match c.deriveKey(encryptionKey, FromHex(parts[0]))
        case None => ciphertext
        case Some(key) =>
          match DecipherInput(parts[3])
          case None => ciphertext
          case Some(encrypted) =>
            match c.open(key, FromHex(parts[1]), FromHex(parts[2]), encrypted)
            case None => ciphertext
            case Some(plaintext) => plaintext
  }

  /** The ciphertext bytes `decipher.update(encrypted, 'hex', ...)` reads: Node rejects a hex
      string whose JavaScript length (UTF-16 code units) is odd with an exception, and
      otherwise decodes it as `Buffer.from` does. */
  function DecipherInput(encrypted: string): (r: Option<seq<byte>>)
    ensures r.None? <==> Utf16Length(encrypted) % 2 == 1
    ensures r.Some? ==> r.value == FromHex(encrypted)
  {
    if Utf16Length(encrypted) % 2 == 1 then None else Some(FromHex(encrypted))
  }

  /** A ciphertext segment of odd JavaScript length makes `decrypt` return its input,
      whatever the other segments and the cipher are. */
  lemma DecryptOddCiphertext(ciphertext: string, encryptionKey: string, c: Cipher)
    requires |Split(ciphertext)| == 4 && Utf16Length(Split(ciphertext)[3]) % 2 == 1
    ensures Decrypt(ciphertext, encryptionKey, c) == ciphertext
  {
  }

  /** The parity test counts code units, not characters: "a" followed by U+1F600 has two
      characters but JavaScript length 3, and is rejected; U+1F600 alone has one character
      but length 2, and is let through (decoding to no bytes). */
  lemma DecipherInputCountsCodeUnits()
    ensures DecipherInput("a\U{1F600}").None?
    ensures DecipherInput("\U{1F600}") == Some([])
  {
  }

  /** Every hex rendering `encrypt` writes is accepted by the decipher and read back as
      the bytes it renders. */
  lemma DecipherInputToHex(bytes: seq<byte>)
    ensures DecipherInput(ToHex(bytes)) == Some(bytes)
  {
    FromHexToHex(bytes);
  }

  lemma TokenIsJoin(salt: string, iv: string, tag: string, ciphertext: string)
    ensures Join([salt, iv, tag, ciphertext]) == Token(salt, iv, tag, ciphertext)
  {
    var ps := [salt, iv, tag, ciphertext];
    assert ps[1..] == [iv, tag, ciphertext];
    assert ps[1..][1..] == [tag, ciphertext];
    assert ps[1..][1..][1..] == [ciphertext];
    assert Join([tag, ciphertext]) == tag + [SEP] + ciphertext;
    assert Join([iv, tag, ciphertext]) == iv + [SEP] + (tag + [SEP] + ciphertext);
    assert Join(ps) == salt + [SEP] + (iv + [SEP] + (tag + [SEP] + ciphertext));
  }

  /** The segments of a token of separator-free strings are those strings. */
  lemma SplitToken(salt: string, iv: string, tag: string, ciphertext: string)
    requires SEP !in salt && SEP !in iv && SEP !in tag && SEP !in ciphertext
    ensures Split(Token(salt, iv, tag, ciphertext)) == [salt, iv, tag, ciphertext]
  {
    TokenIsJoin(salt, iv, tag, ciphertext);
    SplitJoin([salt, iv, tag, ciphertext]);
  }

  lemma LowerHexHasNoSep(s: string)
    requires forall i :: 0 <= i < |s| ==> IsLowerHexDigit(s[i])
    ensures SEP !in s
  {
  }

  /** How `decrypt` reads a token built from hex renderings: it re-derives the key from the
      embedded salt and opens the ciphertext with the embedded IV and tag, falling back to
      the token itself when either step fails. */
  lemma DecryptOfToken(salt: seq<byte>, iv: seq<byte>, tag: seq<byte>, ciphertext: seq<byte>, secret: string, c: Cipher)
    ensures var token := Token(ToHex(salt), ToHex(iv), ToHex(tag), ToHex(ciphertext));
            Decrypt(token, secret, c) ==
              match c.deriveKey(secret, salt)
              case None => token
              case Some(key) =>
                match c.open(key, iv, tag, ciphertext)
                case None => token
                case Some(plaintext) => plaintext
  {
    var token := Token(ToHex(salt), ToHex(iv), ToHex(tag), ToHex(ciphertext));
    HexTokenSegments(salt, iv, tag, ciphertext);
    var parts := Split(token);
    FromHexToHex(salt);
    FromHexToHex(iv);
    FromHexToHex(tag);
    DecipherInputToHex(ciphertext);
    assert FromHex(parts[0]) == salt && FromHex(parts[1]) == iv && FromHex(parts[2]) == tag;
  }

  lemma HexTokenSegments(salt: seq<byte>, iv: seq<byte>, tag: seq<byte>, ciphertext: seq<byte>)
    ensures var token := Token(ToHex(salt), ToHex(iv), ToHex(tag), ToHex(ciphertext));
            token != "" && SEP in token &&
            Split(token) == [ToHex(salt), ToHex(iv), ToHex(tag), ToHex(ciphertext)]
  {
    var hs, hi, ht, hc := ToHex(salt), ToHex(iv), ToHex(tag), ToHex(ciphertext);
    LowerHexHasNoSep(hs);
    LowerHexHasNoSep(hi);
    LowerHexHasNoSep(ht);
    LowerHexHasNoSep(hc);
    SplitToken(hs, hi, ht, hc);
    assert Token(hs, hi, ht, hc)[|hs|] == SEP;
  }

  /** The classifier accepts exactly the token-shaped strings. */
  lemma IsEncryptedIffTokenShaped(s: string)
    ensures IsEncrypted(s) <==> TokenShaped(s)
  {
    if IsEncrypted(s) {
      var p := Split(s);
      JoinSplit(s);
      TokenIsJoin(p[0], p[1], p[2], p[3]);
      assert p == [p[0], p[1], p[2], p[3]];
      assert s == Token(p[0], p[1], p[2], p[3]);
    }
    if TokenShaped(s) {
      var salt, iv, tag, ciphertext :|
        IsLowerHex(salt) && IsLowerHex(iv) && IsLowerHex(tag) && IsLowerHex(ciphertext) &&
        s == Token(salt, iv, tag, ciphertext);
      LowerHexHasNoSep(salt);
      LowerHexHasNoSep(iv);
      LowerHexHasNoSep(tag);
      LowerHexHasNoSep(ciphertext);
      SplitToken(salt, iv, tag, ciphertext);
    }
  }

  /** A string the classifier accepts has exactly three colons and otherwise only
      lowercase hex digits, so uppercase hex or a segment count other than four is rejected. */
  lemma EncryptedCharacters(s: string)
    requires IsEncrypted(s)
    ensures Count(s) == 3
    ensures forall i :: 0 <= i < |s| ==> s[i] == SEP || IsLowerHexDigit(s[i])
  {
    var p := Split(s);
    JoinSplit(s);
    TokenIsJoin(p[0], p[1], p[2], p[3]);
    assert p == [p[0], p[1], p[2], p[3]];
    TokenCharacters(p[0], p[1], p[2], p[3]);
  }

  /** Every character of a token of lowercase-hex segments is a colon or a lowercase hex digit. */
  lemma TokenCharacters(salt: string, iv: string, tag: string, ciphertext: string)
    requires IsLowerHex(salt) && IsLowerHex(iv) && IsLowerHex(tag) && IsLowerHex(ciphertext)
    ensures var s := Token(salt, iv, tag, ciphertext);
            forall i :: 0 <= i < |s| ==> s[i] == SEP || IsLowerHexDigit(s[i])
  {
  }

  /** A successful `encrypt` of non-empty data yields `hex(salt):hex(iv):hex(tag):hex(ciphertext)`,
      with a 128-digit salt, a 32-digit IV and a 32-digit tag, which the classifier accepts
      and which is longer than the data. */
  lemma EncryptProducesToken(data: string, encryptionKey: string, salt: Salt, iv: Iv, c: Cipher)
    requires Correct(c)
    requires data != "" && Encrypt(data, encryptionKey, salt, iv, c).Success?
    ensures var token := Encrypt(data, encryptionKey, salt, iv, c).value;
            var parts := Split(token);
            && |parts| == 4
            && token == Token(parts[0], parts[1], parts[2], parts[3])
            && parts[0] == ToHex(salt) && |parts[0]| == 2 * SALT_LENGTH
            && parts[1] == ToHex(iv) && |parts[1]| == 2 * IV_LENGTH
            && |parts[2]| == 2 * TAG_LENGTH
            && |parts[3]| >= 2 * |data|
            && IsEncrypted(token)
            && |token| > |data|
  {
    var key := c.deriveKey(encryptionKey, salt).value;
    var sealed := c.seal(key, iv, data).value;
    var hs, hi, ht, hc := ToHex(salt), ToHex(iv), ToHex(sealed.tag), ToHex(sealed.ciphertext);
    LowerHexHasNoSep(hs);
    LowerHexHasNoSep(hi);
    LowerHexHasNoSep(ht);
    LowerHexHasNoSep(hc);
    SplitToken(hs, hi, ht, hc);
    ToHexIsLowerHex(salt);
    ToHexIsLowerHex(iv);
    ToHexIsLowerHex(sealed.tag);
    ToHexIsLowerHex(sealed.ciphertext);
  }

  /** Round trip: decrypting what `encrypt` produced, under the same secret, gives back the data.
      The token carries the salt (which re-derives the key), the IV and the tag. */
  lemma DecryptEncrypt(data: string, encryptionKey: string, salt: Salt, iv: Iv, c: Cipher)
    requires Correct(c)
    requires Encrypt(data, encryptionKey, salt, iv, c).Success?
    ensures Decrypt(Encrypt(data, encryptionKey, salt, iv, c).value, encryptionKey, c) == data
  {
    if data != "" {
      var key := c.deriveKey(encryptionKey, salt).value;
      var sealed := c.seal(key, iv, data).value;
      DecryptOfToken(salt, iv, sealed.tag, sealed.ciphertext, encryptionKey, c);
    }
  }

  /** Wrong-key safety: a token decrypted under a secret that derives another key from its
      salt comes back unchanged, neither raising nor yielding garbled plaintext. */
  lemma DecryptUnderOtherSecret(data: string, secret: string, otherSecret: string, salt: Salt, iv: Iv, c: Cipher)
    requires Authentic(c)
    requires Encrypt(data, secret, salt, iv, c).Success?
    requires c.deriveKey(otherSecret, salt) != c.deriveKey(secret, salt)
    ensures var token := Encrypt(data, secret, salt, iv, c).value;
            data != "" ==> Decrypt(token, otherSecret, c) == token
  {
    if data != "" {
      var key := c.deriveKey(secret, salt).value;
      var sealed := c.seal(key, iv, data).value;
      DecryptOfToken(salt, iv, sealed.tag, sealed.ciphertext, otherSecret, c);
    }
  }

  /** Tamper safety: a token whose tag segment is replaced by the hex of any other
      full-length tag decrypts to itself. */
  lemma DecryptTamperedTag(data: string, secret: string, salt: Salt, iv: Iv, c: Cipher, forged: seq<byte>)
    requires Authentic(c)
    requires c.deriveKey(secret, salt).Some?
    requires c.seal(c.deriveKey(secret, salt).value, iv, data).Some?
    requires |forged| == TAG_LENGTH
    requires forged != c.seal(c.deriveKey(secret, salt).value, iv, data).value.tag
    ensures var sealed := c.seal(c.deriveKey(secret, salt).value, iv, data).value;
            var tampered := Token(ToHex(salt), ToHex(iv), ToHex(forged), ToHex(sealed.ciphertext));
            Decrypt(tampered, secret, c) == tampered
  {
    var sealed := c.seal(c.deriveKey(secret, salt).value, iv, data).value;
    DecryptOfToken(salt, iv, forged, sealed.ciphertext, secret, c);
  }

  /** The limit of tamper safety: `decrypt` never fixes the tag length, so a token whose
      tag segment is cut down to a prefix of a length GCM accepts (4, 8 or 12 to 15 bytes)
      still decrypts to the data. Such a token is not what `encrypt` produced, yet it
      passes as genuine. */
  lemma DecryptTruncatedTag(data: string, secret: string, salt: Salt, iv: Iv, c: Cipher, n: nat)
    requires Correct(c) && AcceptsTagPrefixes(c)
    requires Encrypt(data, secret, salt, iv, c).Success? && data != ""
    requires ValidGcmTagLength(n) && n < TAG_LENGTH
    ensures var sealed := c.seal(c.deriveKey(secret, salt).value, iv, data).value;
            var truncated := Token(ToHex(salt), ToHex(iv), ToHex(sealed.tag[..n]), ToHex(sealed.ciphertext));
            truncated != Encrypt(data, secret, salt, iv, c).value &&
            Decrypt(truncated, secret, c) == data
  {
    var key := c.deriveKey(secret, salt).value;
    var sealed := c.seal(key, iv, data).value;
    var token := Encrypt(data, secret, salt, iv, c).value;
    var truncated := Token(ToHex(salt), ToHex(iv), ToHex(sealed.tag[..n]), ToHex(sealed.ciphertext));
    DecryptOfToken(salt, iv, sealed.tag[..n], sealed.ciphertext, secret, c);
    HexTokenSegments(salt, iv, sealed.tag[..n], sealed.ciphertext);
    HexTokenSegments(salt, iv, sealed.tag, sealed.ciphertext);
    assert |Split(truncated)[2]| != |Split(token)[2]|;
  }
}
