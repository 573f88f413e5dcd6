# Field-level encryption at rest, modelled in Dafny

This project models the encryption-at-rest layer of LibreChat's data schemas
(`packages/data-schemas`). It has two parts:

- **The cipher engine** (`utils/encryption.ts`). `encrypt` turns a non-empty string into a token
  `salt:iv:tag:ciphertext`, every segment lowercase hex: a 64-byte salt, a 16-byte IV, a 16-byte
  AES-256-GCM tag, then the ciphertext. `decrypt` reverses it and returns its input unchanged
  whenever it cannot. `isEncrypted` is the syntactic test "four colon-separated segments, each
  matching `/^[0-9a-f]+$/`".
- **The field guards** (`schema/message.ts`, `schema/convo.ts`). These are Mongoose hooks that
  encrypt the sensitive text fields before a save and decrypt them after reads. For messages the
  fields are `text` and `summary`. For conversations the field is `title`, and the default title
  "New Chat" is exempt.

Files:

- `wrappers.dfy`: `Option`, `Result`, and `Outcome`. `Outcome` stands for a hook's `next()` / `next(error)`.
- `hex.dfy`: Node's hex codec. `ToHex` is `buffer.toString('hex')`. `FromHex` is the lenient `Buffer.from(s, 'hex')` that `decrypt` applies to the salt, IV and tag segments: it reads pairs in either case and stops at the first pair that is not hex. The ciphertext segment goes to `decipher.update(encrypted, 'hex', ...)` instead, which throws on a hex string of odd JavaScript length (UTF-16 code units, so a character above U+FFFF counts twice); `Encryption.DecipherInput` models that.
- `segments.dfy`: JavaScript's `s.split(':')` and `join(':')`, with the lemmas that join and split undo each other, and `s.length` counted in UTF-16 code units (`Utf16Length`).
- `cipher.dfy`: the abstract primitives (PBKDF2 key derivation, AES-GCM seal and open) as a `Cipher` value of three functions. It also holds the two predicates the engine relies on: `Correct` (round trip, tag length, ciphertext at least as long as the plaintext) and `Authentic` (opening with the sealed tag under another key, or under the same key with another 16-byte tag, fails). `Correct` also says that `open` fails on an empty IV or on a tag length GCM does not accept. A third predicate, `AcceptsTagPrefixes`, states what a GCM decipher does when no tag length is fixed: a prefix of the tag of 4, 8 or 12 to 15 bytes opens the ciphertext as the whole tag does. `WitnessCipher` satisfies all three, which shows they are consistent.
- `encryption.dfy`: `IsEncrypted`, `Encrypt` and `Decrypt` as functions over strings, with their lemmas.
- `field_guard.dfy`: what every hook does to one field (`SealField`, `OpenField`), and the idempotence and write-then-read lemmas.
- `message.dfy`, `convo.dfy`: the two schemas. Each document is a class with mutable fields. The hooks are methods with `modifies` clauses, and a batch read is a loop over an `array` of documents.

Inputs that the source reads from the environment are parameters here:

- `process.env.ENCRYPTION_KEY` is a `key: Option<string>`. `None` and `Some("")` are both "no key", as `!encryptionKey` is in JavaScript.
- The two `crypto.randomBytes` draws of each `encrypt` call are a `Draw(salt, iv)`. Subset types fix their lengths at 64 and 16 bytes.
- The cryptographic functions are the `Cipher` parameter.

## Model

| member | source | states |
|---|---|---|
| `Hex.ToHex` | packages/data-schemas/src/utils/encryption.ts:38 | hex rendering has two characters per byte, all lowercase hex digits |
| `Hex.FromHexToHex` | packages/data-schemas/src/utils/encryption.ts:60-62 | `Buffer.from(hex, 'hex')` gives back exactly the bytes that `toString('hex')` rendered |
| `Segments.Split` | packages/data-schemas/src/utils/encryption.ts:55 | `split(':')` yields one more segment than there are colons, and no segment contains a colon |
| `Segments.SplitJoin` | packages/data-schemas/src/utils/encryption.ts:85 | splitting colon-free segments joined by ':' gives back the segments |
| `Segments.JoinSplit` | packages/data-schemas/src/utils/encryption.ts:85 | joining the segments of a split gives back the string |
| `CryptoPrimitives.WitnessCipherIsCorrectAndAuthentic` | packages/data-schemas/src/utils/encryption.ts:12-14 | the assumptions made of key derivation and the AEAD cipher, including GCM's acceptance of shortened tags, can be met together |
| `Encryption.IsEncryptedIffTokenShaped` | packages/data-schemas/src/utils/encryption.ts:83-87 | `isEncrypted(s)` holds iff `s` is four non-empty lowercase-hex strings joined by colons |
| `Encryption.EncryptedCharacters` | packages/data-schemas/src/utils/encryption.ts:84-86 | an accepted string has exactly three colons and only lowercase hex digits otherwise, so uppercase hex and 3 or 5 segments are rejected |
| `Encryption.Encrypt` | packages/data-schemas/src/utils/encryption.ts:22-43 | empty data is returned unchanged; every failure is the error "Failed to encrypt data" and only happens for non-empty data |
| `Encryption.Decrypt` | packages/data-schemas/src/utils/encryption.ts:51-58 | input without exactly three colons (empty, no ':', other than 4 parts) is returned unchanged; it never fails (an odd-length ciphertext segment: `DecryptOddCiphertext`) |
| `Encryption.EncryptProducesToken` | packages/data-schemas/src/utils/encryption.ts:26-38 | a successful encryption is `hex(salt):hex(iv):hex(tag):hex(ciphertext)` with 128, 32 and 32 digit segments; `isEncrypted` accepts it and it is longer than the data |
| `Segments.Utf16Length` | packages/data-schemas/src/utils/encryption.ts:70 | JavaScript's `length` of a string is between its character count and twice that, and equals the character count exactly when no character lies above U+FFFF |
| `Encryption.DecipherInputCountsCodeUnits` | packages/data-schemas/src/utils/encryption.ts:70 | the odd-length test of `decipher.update` counts code units: "a" followed by U+1F600 is rejected, U+1F600 alone is accepted |
| `Encryption.DecipherInputToHex` | packages/data-schemas/src/utils/encryption.ts:70 | every hex rendering that `encrypt` writes is accepted by `decipher.update(encrypted, 'hex', ...)` and reads back as exactly the bytes it renders |
| `Encryption.DecryptOddCiphertext` | packages/data-schemas/src/utils/encryption.ts:70-77 | a 4-segment input whose ciphertext segment has odd JavaScript length (which `decipher.update` rejects) is returned unchanged, whatever the key and cipher |
| `Encryption.DecryptOfToken` | packages/data-schemas/src/utils/encryption.ts:55-77 | on a token of hex segments, decrypt re-derives the key from the embedded salt, opens with the embedded IV and tag, and falls back to the token when either step fails |
| `Encryption.DecryptEncrypt` | packages/data-schemas/src/utils/encryption.ts:60-73 | round trip: decrypt(encrypt(d, k), k) == d |
| `Encryption.DecryptUnderOtherSecret` | packages/data-schemas/src/utils/encryption.ts:74-77 | a token decrypted under a secret deriving another key is returned unchanged |
| `Encryption.DecryptTamperedTag` | packages/data-schemas/src/utils/encryption.ts:67-77 | a token whose tag segment was replaced by another 16-byte tag decrypts to itself |
| `Encryption.DecryptTruncatedTag` | packages/data-schemas/src/utils/encryption.ts:62-73 | a token whose tag segment is cut to a 4, 8 or 12 to 15 byte prefix differs from the token `encrypt` wrote, yet decrypts to the data |
| `FieldGuard.SealField` | packages/data-schemas/src/schema/message.ts:177-184 | with no key, an empty value or a token-shaped value, the field is kept; a failure is "Failed to encrypt data" |
| `FieldGuard.OpenField` | packages/data-schemas/src/schema/message.ts:202-208 | a field changes on read only when a key is set and the value is token-shaped |
| `FieldGuard.SealFieldStoresToken` | packages/data-schemas/src/schema/message.ts:177-179 | with a key, a field that was saved is empty or token-shaped |
| `FieldGuard.SealFieldIdempotent` | packages/data-schemas/src/schema/message.ts:182-184 | sealing a sealed field again, with any randomness, leaves it unchanged: no double encryption |
| `FieldGuard.OpenSealedField` | packages/data-schemas/src/schema/message.ts:202-208 | reading back a sealed field that was not token-shaped restores it, with or without a key |
| `MessageSchema.Message.PreSave` | packages/data-schemas/src/schema/message.ts:167-190 | the pre-save hook leaves `outcome`, `text` and `summary` as `PreSaveEffect` of the old fields says, touching no other field |
| `MessageSchema.PreSaveEffect` | packages/data-schemas/src/schema/message.ts:168-189 | no key: save proceeds with both fields unchanged; the save proceeds iff both fields seal, so a failed encryption of `text` or `summary` aborts with "Failed to encrypt data"; a failure on `text` leaves both fields as they were, one on `summary` leaves `summary` as it was; empty or token-shaped fields are kept |
| `MessageSchema.PreSaveStoresTokens` | packages/data-schemas/src/schema/message.ts:175-186 | with a key, a save that proceeds stores only tokens or empty fields |
| `MessageSchema.PreSaveTwice` | packages/data-schemas/src/schema/message.ts:177-184 | saving the same document twice stores the same tokens as saving it once |
| `MessageSchema.SaveThenReadRestores` | packages/data-schemas/src/schema/message.ts:167-234 | a save followed by a find or findOne restores fields that were not token-shaped |
| `MessageSchema.Message.DecryptFields` | packages/data-schemas/src/schema/message.ts:201-208 | each of `text` and `summary` is decrypted on its own when token-shaped |
| `MessageSchema.PostFind` | packages/data-schemas/src/schema/message.ts:193-213 | every document of the batch gets `OpenField` on `text` and `summary`; the array's length and order and all other fields are unchanged; a failure on one field affects nothing else |
| `MessageSchema.PostFindOne` | packages/data-schemas/src/schema/message.ts:216-234 | a null document or a missing key changes nothing; otherwise the same per-field decryption |
| `ConvoSchema.Conversation.PreSave` | packages/data-schemas/src/schema/convo.ts:49-64 | the title becomes `SealTitle` of the old title; on an error the save is aborted with "Failed to encrypt data" and the title is unchanged |
| `ConvoSchema.SealTitle` | packages/data-schemas/src/schema/convo.ts:52-59 | no key, an empty title, "New Chat" or a token-shaped title is kept |
| `ConvoSchema.NewChatIsNotToken` | packages/data-schemas/src/schema/convo.ts:52 | the sentinel "New Chat" is not token-shaped, so reads leave it alone |
| `ConvoSchema.SealTitleStoresToken` | packages/data-schemas/src/schema/convo.ts:56-60 | with a key, a save that proceeds stores a token, "New Chat" or an empty title |
| `ConvoSchema.TitleSaveThenRead` | packages/data-schemas/src/schema/convo.ts:49-81 | pre-save followed by the post-save or any post-read hook restores a title that was not token-shaped, the sentinel and the no-key case included |
| `ConvoSchema.TitleResaveIsSingleLayer` | packages/data-schemas/src/schema/convo.ts:49-103 | save, post-save, save again stores exactly a single fresh encryption of the title |
| `ConvoSchema.DecryptConversation` | packages/data-schemas/src/schema/convo.ts:67-81 | a null document, an empty title or a missing key changes nothing; a token-shaped title is decrypted; other fields are unchanged |
| `ConvoSchema.PostFind` | packages/data-schemas/src/schema/convo.ts:84-87 | every document of the batch gets the title decryption, in order, with other fields unchanged |
| `ConvoSchema.PostSingleRead` | packages/data-schemas/src/schema/convo.ts:89-103 | after findOne, findOneAndUpdate, updateOne and save the document's title is decrypted |
| `ConvoSchema.SaveDocument` | packages/data-schemas/src/schema/convo.ts:49-103 | a save (pre-save, then post-save) proceeds iff encryption succeeded; after it the title is the read-back of what was stored, which is the title as written unless that was token-shaped; `conversationId` and `user` are unchanged |

## Notes on the source's behaviour

- `convo.ts` decrypts "after all query types" (line 83), while `message.ts` decrypts "after retrieving from database" (line 192) but wires only `find` and `findOne`, so a message returned by `findOneAndUpdate`, or a message after `save`, still holds tokens. The model follows the code: `MessageSchema` has only `PostFind` and `PostFindOne`.
- Saving the same document twice: for messages the second save stores the same token (`PreSaveTwice`), because nothing decrypts the document after a save. For conversations the post-save hook decrypts the title in memory, so a second save encrypts it again with fresh randomness. The stored token then differs but is still a single layer (`TitleResaveIsSingleLayer`).
- `decrypt` does not check the tag length (`createDecipheriv` is called without `authTagLength`), so AES-GCM authenticates a shortened tag against only its own bytes. A token whose tag segment is cut down to 8 bytes, say, is accepted as genuine (`DecryptTruncatedTag`), and a forger then has far fewer tag bits to guess. `isEncrypted` does not check segment lengths either.
- A plaintext that happens to look like a token (four lowercase-hex words joined by colons) is never encrypted, and on read `decrypt` is attempted on it. `decrypt` falls back to returning it. The write-then-read lemmas therefore assume the written value is not token-shaped.

## Left out

- Cryptography: PBKDF2-SHA256 (100,000 iterations, 32-byte key), AES-256-GCM and the random source are not implemented. They are the `Cipher` and `Draw` parameters, and the constants are recorded in `CryptoPrimitives`. `Authentic` is an idealisation that holds for real GCM only with overwhelming probability. It does not claim that a ciphertext opens under no other key: a tag computed for the same ciphertext under another key opens it there.
- UTF-8 encoding of the plaintext and decoding of the result belong to `seal` and `open`. So do Node's errors for an empty IV and for a tag whose length GCM does not accept (anything but 4, 8 or 12 to 16 bytes); `Correct` makes these `None` results of `open`. A bad key length cannot arise, because `Correct` fixes derived keys at 32 bytes. A tag of an accepted length shorter than 16 bytes is not an error: `AcceptsTagPrefixes` states how it is checked.
- `Encryption.DecryptTamperedTag`, `CryptoPrimitives.Authentic`: tamper safety is stated only for forged tags of the full 16 bytes. `decrypt` calls `setAuthTag` without fixing `authTagLength`, so in the source a token carrying a 4, 8 or 12 to 15 byte prefix of the real tag decrypts to the data; `DecryptTruncatedTag` proves this of the model.
- `Encryption.DecryptEncrypt`, `CryptoPrimitives.Correct`: a Dafny `string` holds Unicode scalar values only. A JavaScript string can also hold an unpaired surrogate, which `cipher.update(data, 'utf8', ...)` encodes as U+FFFD, so for such data the source's `decrypt(encrypt(d, k), k)` differs from `d`. The model cannot express such data, and its round trip covers only strings without unpaired surrogates.
- Exceptions are `None`/`Failure` values. `decrypt`'s `try/catch` is the fallback in `Decrypt`. The hooks' `catch` blocks around decryption never fire, because `Decrypt` is total.
- Logging (`console.warn`, `console.error`) is not modelled.
- `typeof data !== 'string'` in `isEncrypted`: every value in the model is a string.
- An unset (`undefined` or `null`) text field is modelled as the empty string. Both are falsy in the source and are handled alike.
- `MessageSchema.PostFind`, `ConvoSchema.PostFind`: require that the result array holds distinct documents, which Mongoose's hydration provides. The aliasing case is not modelled.
- Document fields other than `messageId`, `conversationId`, `sender` (messages) and `conversationId`, `user` (conversations) are not modelled. Those kept are there to show that the hooks leave other fields alone.
- Mongoose schema field declarations, defaults, validators, index and TTL declarations, and hook registration are not modelled. What Mongoose actually passes to each post hook is not modelled either: for `updateOne` it is a query result, but here it is treated as a document. This is ORM and database-engine behaviour.
- `rollup.config.js`, `src/index.ts`, `api/jest.config.js` and `api/jest.setup.js` are build and test tooling and are not part of this model.
