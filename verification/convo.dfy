/** The conversation schema's hooks over its one sensitive field, `title`.
    The schema decrypts after `find`, `findOne`, `findOneAndUpdate`, `updateOne` and `save`. */
module ConvoSchema {
  import opened Wrappers
  import opened Segments
  import opened CryptoPrimitives
  import opened Encryption
  import opened FieldGuard

  /** The title's default, kept readable without a key. */
  const NEW_CHAT: string := "New Chat"

  /** The read operations that hand back a single document. */
  datatype SingleRead = FindOne | FindOneAndUpdate | UpdateOne | Save

  /** A conversation document; an unset title is the empty string. */
  class Conversation {
    var conversationId: string
    var user: string
    var title: string

    constructor (conversationId: string, user: string, title: string)
      ensures this.conversationId == conversationId && this.user == user && this.title == title
    {
      this.conversationId := conversationId;
      this.user := user;
      this.title := title;
    }

    /** The `pre('save')` hook: an error leaves the title as it was and aborts the save. */
    method PreSave(key: Option<string>, draw: Draw, c: Cipher) returns (outcome: Outcome<string>)
      modifies this`title
      ensures SealTitle(old(title), key, draw, c).Success? ==>
                outcome == Pass && title == SealTitle(old(title), key, draw, c).value
      ensures SealTitle(old(title), key, draw, c).Failure? ==>
                outcome == Fail(ENCRYPT_FAILED) && title == old(title)
    {
      var secret := ActiveKey(key);
      if secret.None? || title == "" || title == NEW_CHAT {
        return Pass;
      }
      if !IsEncrypted(title) {
        var r := Encrypt(title, secret.value, draw.salt, draw.iv, c);
        if r.Failure? {
          return Fail(r.error);
        }
        title := r.value;
      }
      return Pass;
    }
  }

  /** The title a pre-save stores: the sentinel, like an empty title or a missing key, is exempt. */
  function SealTitle(title: string, key: Option<string>, draw: Draw, c: Cipher): (r: Result<string, string>)
    ensures ActiveKey(key).None? || title == "" || title == NEW_CHAT || IsEncrypted(title) ==> r == Success(title)
    ensures r.Failure? ==> r.error == ENCRYPT_FAILED
  {
    if title == NEW_CHAT then Success(title) else SealField(title, key, draw, c)
  }

  lemma NewChatIsNotToken()
    ensures !IsEncrypted(NEW_CHAT)
  {
  }

  /** With a key, a pre-save that lets the save proceed stores a token, the sentinel or nothing. */
  lemma SealTitleStoresToken(title: string, key: Option<string>, draw: Draw, c: Cipher)
    requires Correct(c) && ActiveKey(key).Some?
    requires SealTitle(title, key, draw, c).Success?
    ensures var stored := SealTitle(title, key, draw, c).value;
            stored == "" || stored == NEW_CHAT || IsEncrypted(stored)
  {
    if title != NEW_CHAT {
      SealFieldStoresToken(title, key, draw, c);
    }
  }

  /** Write then read: a title that was not token-shaped, the sentinel included, comes back
      from the post-save or any post-read hook as written; without a key it is never touched. */
  lemma TitleSaveThenRead(title: string, key: Option<string>, draw: Draw, c: Cipher)
    requires Correct(c)
    requires !IsEncrypted(title)
    requires SealTitle(title, key, draw, c).Success?
    ensures OpenField(SealTitle(title, key, draw, c).value, key, c) == title
  {
    if title == NEW_CHAT {
      NewChatIsNotToken();
    } else {
      OpenSealedField(title, key, draw, c);
    }
  }

  /** The post-save hook restores the plaintext title, so a second save encrypts it again
      with fresh randomness: what it stores is exactly what a first save with that
      randomness would store, one layer of encryption and never two. */
  lemma TitleResaveIsSingleLayer(title: string, key: Option<string>, first: Draw, second: Draw, c: Cipher)
    requires Correct(c)
    requires !IsEncrypted(title)
    requires SealTitle(title, key, first, c).Success?
    ensures var readBack := OpenField(SealTitle(title, key, first, c).value, key, c);
            SealTitle(readBack, key, second, c) == SealTitle(title, key, second, c)
  {
    TitleSaveThenRead(title, key, first, c);
  }

  /** `decryptConversation`: nothing for a null document, an empty title or a missing key;
      a failed decryption leaves the title as it was. */
  method DecryptConversation(doc: Conversation?, key: Option<string>, c: Cipher)
    modifies doc
    ensures doc != null ==> doc.title == OpenField(old(doc.title), key, c)
    ensures doc != null ==> doc.conversationId == old(doc.conversationId) && doc.user == old(doc.user)
  {
    var secret := ActiveKey(key);
    if secret.None? || doc == null || doc.title == "" {
      return;
    }
    if IsEncrypted(doc.title) {
      doc.title := Decrypt(doc.title, secret.value, c);
    }
  }

  /** The `post('find')` hook: every document of the result, in place, in order. */
  method PostFind(docs: array<Conversation>, key: Option<string>, c: Cipher)
    requires forall i, j :: 0 <= i < j < docs.Length ==> docs[i] != docs[j]
    modifies set i | 0 <= i < docs.Length :: docs[i]
    ensures docs[..] == old(docs[..])
    ensures forall i :: 0 <= i < docs.Length ==> docs[i].title == OpenField(old(docs[i].title), key, c)
    ensures forall i :: 0 <= i < docs.Length ==>
              docs[i].conversationId == old(docs[i].conversationId) && docs[i].user == old(docs[i].user)
  {
    if docs.Length == 0 {
      return;
    }
    var i := 0;
    while i < docs.Length
      invariant 0 <= i <= docs.Length
      invariant forall j :: 0 <= j < i ==> docs[j].title == OpenField(old(docs[j].title), key, c)
      invariant forall j :: i <= j < docs.Length ==> docs[j].title == old(docs[j].title)
      invariant forall j :: 0 <= j < docs.Length ==>
                  docs[j].conversationId == old(docs[j].conversationId) && docs[j].user == old(docs[j].user)
    {
      DecryptConversation(docs[i], key, c);
      i := i + 1;
    }
  }

  /** The `post` hooks of `findOne`, `findOneAndUpdate`, `updateOne` and `save`: all four
      decrypt the document handed to them. */
  method PostSingleRead(op: SingleRead, doc: Conversation?, key: Option<string>, c: Cipher)
    modifies doc
    ensures doc != null ==> doc.title == OpenField(old(doc.title), key, c)
    ensures doc != null ==> doc.conversationId == old(doc.conversationId) && doc.user == old(doc.user)
  {
    DecryptConversation(doc, key, c);
  }

  /** `save()` on a conversation: the pre-save hook, then, if the save proceeds, the post-save
      hook. The caller sees the title it wrote, unless that title was itself token-shaped. */
  method SaveDocument(conv: Conversation, key: Option<string>, draw: Draw, c: Cipher) returns (outcome: Outcome<string>)
    requires Correct(c)
    modifies conv
    ensures outcome.Pass? <==> SealTitle(old(conv.title), key, draw, c).Success?
    ensures outcome.Fail? ==> outcome.error == ENCRYPT_FAILED
    ensures outcome.Pass? ==> conv.title == OpenField(SealTitle(old(conv.title), key, draw, c).value, key, c)
    ensures !IsEncrypted(old(conv.title)) ==> conv.title == old(conv.title)
    ensures conv.conversationId == old(conv.conversationId) && conv.user == old(conv.user)
  {
    ghost var written := conv.title;
    outcome := conv.PreSave(key, draw, c);
    if outcome.Pass? {
      PostSingleRead(Save, conv, key, c);
      if !IsEncrypted(written) {
        TitleSaveThenRead(written, key, draw, c);
      }
    }
  }
}
