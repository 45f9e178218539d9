/**
 * The note composer: it encrypts the two fields and sends them as a new note. Requests to the
 * API are appended to `outbox`; the response arrives later through `OnCreateSettled`.
 */
module CreateNotePage {
  import opened Wrappers
  import opened JsText
  import opened NoteModel
  import ES = EncryptionService

  class CreateNote {
    var noteTitle: string
    var noteContent: string
    var isLoading: bool
    var outbox: seq<NoteCreate>

    constructor ()
      ensures noteTitle == "" && noteContent == "" && !isLoading && outbox == []
    {
      noteTitle := "";
      noteContent := "";
      isLoading := false;
      outbox := [];
    }

    /** `getWordCount` on the composer's fields. */
    function GetWordCount(): (n: nat)
      reads this
      ensures n == WordRuns(noteTitle + " " + noteContent)
      ensures n == 0 <==> IsBlankDraft(noteTitle, noteContent)
    {
      WordCountIsWordRuns(noteTitle, noteContent);
      WordCountZeroIff(noteTitle, noteContent);
      WordCount(noteTitle, noteContent)
    }

    /**
     * `saveNote`: refuse when both fields are blank; otherwise set `isLoading`, encrypt the title,
     * then the content, and send them. There is no `catch`: when an encryption throws, the call
     * rejects there, nothing is sent and `isLoading` stays set.
     */
    method SaveNote(svc: ES.Service, titleIv: ES.Nonce, contentIv: ES.Nonce, ownerId: int)
      modifies this`isLoading, this`outbox
      ensures IsBlankDraft(noteTitle, noteContent) ==> isLoading == old(isLoading) && outbox == old(outbox)
      ensures !IsBlankDraft(noteTitle, noteContent) ==>
        isLoading &&
        match EncryptedBody(svc, noteTitle, noteContent, titleIv, contentIv, ownerId)
        case Some(body) => outbox == old(outbox) + [body]
        case None => outbox == old(outbox)
    {
      if IsBlankDraft(noteTitle, noteContent) {
        return;
      }
      var title0, content0 := noteTitle, noteContent;
      isLoading := true;
      EncryptedBodyCases(svc, noteTitle, noteContent, titleIv, contentIv, ownerId);
      var title := ES.Encrypt(svc, noteTitle, None, titleIv);
      if title.Err? {
        assert noteTitle == title0 && noteContent == content0;
        return;
      }
      var content := ES.Encrypt(svc, noteContent, None, contentIv);
      if content.Err? {
        assert noteTitle == title0 && noteContent == content0;
        return;
      }
      outbox := outbox + [NoteCreate(title.value, content.value, ownerId)];
      assert noteTitle == title0 && noteContent == content0;
    }

    /** Either callback of `createNote`'s request (the page then leaves for the dashboard). */
    method OnCreateSettled()
      modifies this`isLoading
      ensures !isLoading
    {
      isLoading := false;
    }
  }
}
