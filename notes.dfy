/**
 * What the note pages share: the note records exchanged with the API, the "nothing to save"
 * guard, and the word counter shown under the editor.
 */
module NoteModel {
  import opened Wrappers
  import opened JsText
  import ES = EncryptionService
  import WC = WebCrypto

  /** A note as the API returns it; `title` and `content` hold envelopes, or legacy plain text. */
  datatype Note = Note(id: int, title: string, content: string, ownerId: int)

  /** The body of a create or update request. */
  datatype NoteCreate = NoteCreate(title: string, content: string, ownerId: int)

  /** `!s.trim()`: the field holds nothing but white space. */
  predicate IsBlank(s: string) {
    Trim(s) == []
  }

  /** The save guard: both fields are blank. */
  predicate IsBlankDraft(title: string, content: string) {
    IsBlank(title) && IsBlank(content)
  }

  /** `getWordCount`: trim `title + ' ' + content`, then count the pieces of `split(/\s+/)`. */
  function WordCount(title: string, content: string): nat {
    var text := Trim(title + " " + content);
    if text == [] then 0 else |Split(text)|
  }

  /**
   * The request body both pages build: the two fields encrypted with the default password, each
   * under its own IV; `None` where either encryption throws.
   */
  function EncryptedBody(svc: ES.Service, title: string, content: string,
                         titleIv: ES.Nonce, contentIv: ES.Nonce, ownerId: int): Option<NoteCreate> {
    match (ES.EncryptResult(svc, title, None, titleIv), ES.EncryptResult(svc, content, None, contentIv))
    case (Ok(t), Ok(c)) => Some(NoteCreate(t, c, ownerId))
    case _ => None
  }

  // ----- Proofs -----

  /** `EncryptedBody` in terms of the two encryptions: a body exactly when both succeed. */
  lemma EncryptedBodyCases(svc: ES.Service, title: string, content: string,
                           titleIv: ES.Nonce, contentIv: ES.Nonce, ownerId: int)
    ensures ES.EncryptResult(svc, title, None, titleIv).Err? ==>
      EncryptedBody(svc, title, content, titleIv, contentIv, ownerId) == None
    ensures ES.EncryptResult(svc, content, None, contentIv).Err? ==>
      EncryptedBody(svc, title, content, titleIv, contentIv, ownerId) == None
    ensures ES.EncryptResult(svc, title, None, titleIv).Ok? && ES.EncryptResult(svc, content, None, contentIv).Ok? ==>
      EncryptedBody(svc, title, content, titleIv, contentIv, ownerId)
        == Some(NoteCreate(ES.EncryptResult(svc, title, None, titleIv).value,
                           ES.EncryptResult(svc, content, None, contentIv).value, ownerId))
  {
  }

  /** A concatenation is all white space exactly when each part is. */
  lemma AllWhiteSpaceConcat(a: string, b: string)
    ensures AllWhiteSpace(a + b) <==> AllWhiteSpace(a) && AllWhiteSpace(b)
  {
    if AllWhiteSpace(a + b) {
      forall k | 0 <= k < |a| ensures IsWhiteSpace(a[k]) {
        assert a[k] == (a + b)[k];
      }
      forall k | 0 <= k < |b| ensures IsWhiteSpace(b[k]) {
        assert b[k] == (a + b)[|a| + k];
      }
    }
  }

  /** The word count is the number of maximal non-white-space runs of `title + ' ' + content`. */
  lemma WordCountIsWordRuns(title: string, content: string)
    ensures WordCount(title, content) == WordRuns(title + " " + content)
  {
    var joined := title + " " + content;
    var text := Trim(joined);
    WordRunsTrim(joined);
    if text == [] {
      TrimIsBlankIff(joined);
      RunsFromBlank(joined, true);
    } else {
      var start := TrimStart(joined);
      assert text == start[..|text|];
      assert text[0] == start[0];
      SplitCountsWords(text);
    }
  }

  /** The word count is zero exactly when the save guard would refuse the draft. */
  lemma WordCountZeroIff(title: string, content: string)
    ensures WordCount(title, content) == 0 <==> IsBlankDraft(title, content)
  {
    var joined := title + " " + content;
    TrimIsBlankIff(joined);
    TrimIsBlankIff(title);
    TrimIsBlankIff(content);
    AllWhiteSpaceConcat(title + " ", content);
    AllWhiteSpaceConcat(title, " ");
    assert AllWhiteSpace(" ");
  }

  /** The gap between the two fields keeps their words apart: the count is the sum of theirs. */
  lemma WordCountAdds(title: string, content: string)
    ensures WordCount(title, content) == WordRuns(title) + WordRuns(content)
  {
    WordCountIsWordRuns(title, content);
    RunsFromConcat(title + " ", content, true);
    RunsFromConcat(title, " ", true);
    assert (title + " ")[|title + " "| - 1] == ' ';
    RunsFromBlank(" ", if title == [] then true else IsWhiteSpace(title[|title| - 1]));
  }

  /** Example: blank fields count zero words. */
  lemma BlankFieldsCountNothing()
    ensures WordCount(" ", "\n") == 0
  {
    WordCountZeroIff(" ", "\n");
    TrimIsBlankIff(" ");
    TrimIsBlankIff("\n");
  }

  /**
   * The body sent decrypts back to the fields, and with lawful primitives a non-empty field is
   * never sent as itself.
   */
  lemma EncryptedBodyRoundTrip(svc: ES.Service, title: string, content: string,
                               titleIv: ES.Nonce, contentIv: ES.Nonce, ownerId: int, body: NoteCreate)
    requires WC.Lawful(svc.crypto)
    requires EncryptedBody(svc, title, content, titleIv, contentIv, ownerId) == Some(body)
    ensures ES.Decrypt(svc, body.title, None) == title && ES.Decrypt(svc, body.content, None) == content
    ensures body.ownerId == ownerId
    ensures title != "" ==> body.title != title
    ensures content != "" ==> body.content != content
  {
    ES.RoundTrip(svc, title, None, titleIv);
    ES.RoundTrip(svc, content, None, contentIv);
    if title != "" {
      ES.EnvelopeConceals(svc, title, None, titleIv, body.title);
    }
    if content != "" {
      ES.EnvelopeConceals(svc, content, None, contentIv, body.content);
    }
  }

  /**
   * As written: the source's `decrypt` reads the body back as the two fields with a leading
   * U+FEFF dropped.
   */
  lemma EncryptedBodyAsWrittenRoundTrip(svc: ES.Service, title: string, content: string,
                                        titleIv: ES.Nonce, contentIv: ES.Nonce, ownerId: int, body: NoteCreate)
    requires WC.Lawful(svc.crypto)
    requires EncryptedBody(svc, title, content, titleIv, contentIv, ownerId) == Some(body)
    ensures ES.DecryptAsWritten(svc, body.title, None) == WC.DropBom(title)
    ensures ES.DecryptAsWritten(svc, body.content, None) == WC.DropBom(content)
  {
    ES.AsWrittenRoundTrip(svc, title, None, titleIv);
    ES.AsWrittenRoundTrip(svc, content, None, contentIv);
  }
}
