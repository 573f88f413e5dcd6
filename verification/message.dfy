/** The message schema's hooks over its two sensitive fields, `text` and `summary`.
    The schema decrypts after `find` and `findOne` only. */
module MessageSchema {
  import opened Wrappers
  import opened CryptoPrimitives
  import opened Encryption
  import opened FieldGuard

  /** A message document; an unset text field is the empty string. */
  class Message {
    var messageId: string
    var conversationId: string
    var sender: string
    var text: string
    var summary: string

    constructor (messageId: string, conversationId: string, sender: string, text: string, summary: string)
      ensures this.messageId == messageId && this.conversationId == conversationId
      ensures this.sender == sender && this.text == text && this.summary == summary
    {
      this.messageId := messageId;
      this.conversationId := conversationId;
      this.sender := sender;
      this.text := text;
      this.summary := summary;
    }

    /** The `pre('save')` hook: encrypts `text`, then `summary`; an error aborts the save,
        leaving `text` encrypted if only `summary` failed. */
    method PreSave(key: Option<string>, textDraw: Draw, summaryDraw: Draw, c: Cipher) returns (outcome: Outcome<string>)
      modifies this`text, this`summary
      ensures Saved(outcome, text, summary) ==
              PreSaveEffect(old(text), old(summary), key, textDraw, summaryDraw, c)
    {
      var secret := ActiveKey(key);
      if secret.None? {
        return Pass;
      }
      if text != "" && !IsEncrypted(text) {
        var r := Encrypt(text, secret.value, textDraw.salt, textDraw.iv, c);
        if r.Failure? {
          return Fail(r.error);
        }
        text := r.value;
      }
      if summary != "" && !IsEncrypted(summary) {
        var r := Encrypt(summary, secret.value, summaryDraw.salt, summaryDraw.iv, c);
        if r.Failure? {
          return Fail(r.error);
        }
        summary := r.value;
      }
      return Pass;
    }

    /** The per-document body of the post-read hooks. */
    method DecryptFields(secret: string, c: Cipher)
      requires secret != ""
      modifies this`text, this`summary
      ensures text == OpenField(old(text), Some(secret), c)
      ensures summary == OpenField(old(summary), Some(secret), c)
    {
      if text != "" && IsEncrypted(text) {
        text := Decrypt(text, secret, c);
      }
      if summary != "" && IsEncrypted(summary) {
        summary := Decrypt(summary, secret, c);
      }
    }
  }

  /** The state a pre-save leaves: what it hands to `next`, and the two fields. */
  datatype Saved = Saved(outcome: Outcome<string>, text: string, summary: string)

  function PreSaveEffect(text: string, summary: string, key: Option<string>,
                         textDraw: Draw, summaryDraw: Draw, c: Cipher): (r: Saved)
    ensures ActiveKey(key).None? ==> r == Saved(Pass, text, summary)
    ensures r.outcome.Pass? <==>
              SealField(text, key, textDraw, c).Success? && SealField(summary, key, summaryDraw, c).Success?
    ensures r.outcome.Fail? ==> r.outcome.error == ENCRYPT_FAILED && r.summary == summary
    ensures SealField(text, key, textDraw, c).Failure? ==> r == Saved(Fail(ENCRYPT_FAILED), text, summary)
    ensures text == "" || IsEncrypted(text) ==> r.text == text
    ensures summary == "" || IsEncrypted(summary) ==> r.summary == summary
  {
    match SealField(text, key, textDraw, c)
    case Failure(e) => Saved(Fail(e), text, summary)
    case Success(t) =>
      match SealField(summary, key, summaryDraw, c)
      case Failure(e) => Saved(Fail(e), t, summary)
      case Success(s) => Saved(Pass, t, s)
  }

  /** With a key, a pre-save that lets the save proceed stores tokens or empty fields only. */
  lemma PreSaveStoresTokens(text: string, summary: string, key: Option<string>,
                            textDraw: Draw, summaryDraw: Draw, c: Cipher)
    requires Correct(c) && ActiveKey(key).Some?
    requires PreSaveEffect(text, summary, key, textDraw, summaryDraw, c).outcome.Pass?
    ensures var r := PreSaveEffect(text, summary, key, textDraw, summaryDraw, c);
            (r.text == "" || IsEncrypted(r.text)) && (r.summary == "" || IsEncrypted(r.summary))
  {
    SealFieldStoresToken(text, key, textDraw, c);
    SealFieldStoresToken(summary, key, summaryDraw, c);
  }

  /** Saving the same document twice does not double-encrypt: the schema has no post-save
      hook, so the second pre-save sees the tokens and leaves them as they are. */
  lemma PreSaveTwice(text: string, summary: string, key: Option<string>,
                     d1: Draw, d2: Draw, d3: Draw, d4: Draw, c: Cipher)
    requires Correct(c)
    requires PreSaveEffect(text, summary, key, d1, d2, c).outcome.Pass?
    ensures var r := PreSaveEffect(text, summary, key, d1, d2, c);
            PreSaveEffect(r.text, r.summary, key, d3, d4, c) == r
  {
    SealFieldIdempotent(text, key, d1, d3, c);
    SealFieldIdempotent(summary, key, d2, d4, c);
  }

  /** Write then read: fields that were not token-shaped come back from a `find` or
      `findOne` after a successful save exactly as written, with or without a key. */
  lemma SaveThenReadRestores(text: string, summary: string, key: Option<string>,
                             textDraw: Draw, summaryDraw: Draw, c: Cipher)
    requires Correct(c)
    requires !IsEncrypted(text) && !IsEncrypted(summary)
    requires PreSaveEffect(text, summary, key, textDraw, summaryDraw, c).outcome.Pass?
    ensures var r := PreSaveEffect(text, summary, key, textDraw, summaryDraw, c);
            OpenField(r.text, key, c) == text && OpenField(r.summary, key, c) == summary
  {
    OpenSealedField(text, key, textDraw, c);
    OpenSealedField(summary, key, summaryDraw, c);
  }

  /** The `post('find')` hook: every document of the result, in place, in order; each
      field is decrypted on its own, so a token that fails to decrypt stays as it is
      without affecting any other field or document. */
  method PostFind(docs: array<Message>, key: Option<string>, c: Cipher)
    requires forall i, j :: 0 <= i < j < docs.Length ==> docs[i] != docs[j]
    modifies set i | 0 <= i < docs.Length :: docs[i]
    ensures docs[..] == old(docs[..])
    ensures forall i :: 0 <= i < docs.Length ==>
              docs[i].text == OpenField(old(docs[i].text), key, c) &&
              docs[i].summary == OpenField(old(docs[i].summary), key, c)
    ensures forall i :: 0 <= i < docs.Length ==>
              docs[i].messageId == old(docs[i].messageId) &&
              docs[i].conversationId == old(docs[i].conversationId) &&
              docs[i].sender == old(docs[i].sender)
  {
    var secret := ActiveKey(key);
    if secret.None? || docs.Length == 0 {
      return;
    }
    var i := 0;
    while i < docs.Length
      invariant 0 <= i <= docs.Length
      invariant forall j :: 0 <= j < i ==>
                  docs[j].text == OpenField(old(docs[j].text), key, c) &&
                  docs[j].summary == OpenField(old(docs[j].summary), key, c)
      invariant forall j :: i <= j < docs.Length ==>
                  docs[j].text == old(docs[j].text) && docs[j].summary == old(docs[j].summary)
      invariant forall j :: 0 <= j < docs.Length ==>
                  docs[j].messageId == old(docs[j].messageId) &&
                  docs[j].conversationId == old(docs[j].conversationId) &&
                  docs[j].sender == old(docs[j].sender)
    {
      docs[i].DecryptFields(secret.value, c);
      i := i + 1;
    }
  }

  /** The `post('findOne')` hook: nothing for a null result or without a key. */
  method PostFindOne(doc: Message?, key: Option<string>, c: Cipher)
    modifies doc
    ensures doc != null ==> doc.text == OpenField(old(doc.text), key, c)
    ensures doc != null ==> doc.summary == OpenField(old(doc.summary), key, c)
    ensures doc != null ==>
              doc.messageId == old(doc.messageId) &&
              doc.conversationId == old(doc.conversationId) && doc.sender == old(doc.sender)
  {
    var secret := ActiveKey(key);
    if secret.None? || doc == null {
      return;
    }
    doc.DecryptFields(secret.value, c);
  }
}
