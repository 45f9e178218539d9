/**
 * The note editor: it loads a note, shows its decrypted fields, remembers them to detect
 * unsaved changes, and sends the re-encrypted fields back. Requests to the API are appended to
 * `outbox`; their responses arrive later through the `On...` methods.
 */
module EditNotePage {
  import opened Wrappers
  import opened JsText
  import opened NoteModel
  import ES = EncryptionService

  /** A request the page hands to the notes service. */
  datatype Request = FetchNote(id: int) | PutNote(id: int, body: NoteCreate)

  /** The decrypted pair `loadNote` shows and remembers. */
  datatype Loaded = Loaded(title: string, content: string)

  /**
   * What `loadNote` shows once the note has arrived: the decrypted pair when the decryption
   * settles (`Some`), the note's raw fields when it rejects (`None`).
   */
  function LoadedFields(note: Note, attempt: Option<Loaded>): (shown: Loaded)
    ensures attempt.Some? ==> shown == attempt.value
    ensures attempt.None? ==> shown == Loaded(note.title, note.content)
  {
    match attempt
    case Some(pair) => pair
    case None => Loaded(Or(note.title, ""), Or(note.content, ""))
  }

  class EditNote {
    /** The route's id; `None` is `null`. */
    var noteId: Option<int>
    var noteTitle: string
    var noteContent: string
    var isLoading: bool
    var isLoadingNote: bool
    var originalNote: Option<Note>
    var originalDecryptedTitle: string
    var originalDecryptedContent: string
    var outbox: seq<Request>

    constructor (noteId: Option<int>)
      ensures this.noteId == noteId && noteTitle == "" && noteContent == ""
      ensures !isLoading && isLoadingNote && originalNote == None
      ensures originalDecryptedTitle == "" && originalDecryptedContent == "" && outbox == []
    {
      this.noteId := noteId;
      noteTitle := "";
      noteContent := "";
      isLoading := false;
      isLoadingNote := true;
      originalNote := None;
      originalDecryptedTitle := "";
      originalDecryptedContent := "";
      outbox := [];
    }

    /** `!id` is false: the id is present and not 0. */
    predicate HasId()
      reads this
    {
      noteId.Some? && noteId.value != 0
    }

    /** `hasChanges`: a field differs from what was loaded. */
    predicate HasChanges()
      reads this
    {
      originalDecryptedTitle != noteTitle || originalDecryptedContent != noteContent
    }

    /** `getWordCount` on the editor's fields. */
    function GetWordCount(): (n: nat)
      reads this
      ensures n == WordRuns(noteTitle + " " + noteContent)
      ensures n == 0 <==> IsBlankDraft(noteTitle, noteContent)
    {
      WordCountIsWordRuns(noteTitle, noteContent);
      WordCountZeroIff(noteTitle, noteContent);
      WordCount(noteTitle, noteContent)
    }

    /** `loadNote`: without an id nothing happens; otherwise the note is requested. */
    method LoadNote()
      modifies this`isLoadingNote, this`outbox
      ensures !old(HasId()) ==> isLoadingNote == old(isLoadingNote) && outbox == old(outbox)
      ensures old(HasId()) ==> isLoadingNote && outbox == old(outbox) + [FetchNote(noteId.value)]
    {
      if !HasId() {
        return;
      }
      isLoadingNote := true;
      outbox := outbox + [FetchNote(noteId.value)];
    }

    /**
     * The `next` callback of `getNote`: decrypt both fields (one after the other), show them and
     * remember them as the originals. `decrypt` never rejects, so the attempt always settles.
     */
    method OnNoteLoaded(svc: ES.Service, note: Note)
      modifies this`originalNote, this`originalDecryptedTitle, this`originalDecryptedContent,
        this`noteTitle, this`noteContent, this`isLoadingNote
      ensures originalNote == Some(note)
      ensures noteTitle == ES.Decrypt(svc, note.title, None)
      ensures noteContent == ES.Decrypt(svc, note.content, None)
      ensures !HasChanges() && !isLoadingNote
    {
      originalNote := Some(note);
      var title := ES.Decrypt(svc, Or(note.title, ""), None);
      var content := ES.Decrypt(svc, Or(note.content, ""), None);
      var shown := LoadedFields(note, Some(Loaded(title, content)));
      originalDecryptedTitle := shown.title;
      originalDecryptedContent := shown.content;
      noteTitle := shown.title;
      noteContent := shown.content;
      isLoadingNote := false;
    }

    /** The `error` callback of `getNote` (the page then leaves for the dashboard). */
    method OnNoteLoadFailed()
      modifies this`isLoadingNote
      ensures !isLoadingNote
    {
      isLoadingNote := false;
    }

    /**
     * `updateNote`: refuse without an id or with both fields blank; otherwise encrypt both fields
     * (the two encryptions of `Promise.all`, each with its own fresh IV) and send them, or, if
     * either encryption fails, send nothing and clear `isLoading`.
     */
    method UpdateNote(svc: ES.Service, titleIv: ES.Nonce, contentIv: ES.Nonce, ownerId: int)
      modifies this`isLoading, this`outbox
      ensures !HasId() || IsBlankDraft(noteTitle, noteContent) ==>
        isLoading == old(isLoading) && outbox == old(outbox)
      ensures HasId() && !IsBlankDraft(noteTitle, noteContent) ==>
        match EncryptedBody(svc, noteTitle, noteContent, titleIv, contentIv, ownerId)
        case Some(body) => isLoading && outbox == old(outbox) + [PutNote(noteId.value, body)]
        case None => !isLoading && outbox == old(outbox)
    {
      if !HasId() || IsBlankDraft(noteTitle, noteContent) {
        return;
      }
      var id0, title0, content0 := noteId, noteTitle, noteContent;
      EncryptedBodyCases(svc, noteTitle, noteContent, titleIv, contentIv, ownerId);
      isLoading := true;
      var title := ES.Encrypt(svc, noteTitle, None, titleIv);
      var content := ES.Encrypt(svc, noteContent, None, contentIv);
      match (title, content)
      case (Ok(t), Ok(c)) =>
        outbox := outbox + [PutNote(noteId.value, NoteCreate(t, c, ownerId))];
      case _ =>
        isLoading := false;
      assert noteId == id0 && noteTitle == title0 && noteContent == content0;
    }

    /** Either callback of `updateNote`'s request. */
    method OnUpdateSettled()
      modifies this`isLoading
      ensures !isLoading
    {
      isLoading := false;
    }

    /** `canDeactivate`, with the answer the user would give to `confirm`. */
    method CanDeactivate(confirmed: bool) returns (leave: bool)
      ensures !HasChanges() ==> leave
      ensures HasChanges() ==> leave == confirmed
    {
      if HasChanges() {
        return confirmed;
      }
      return true;
    }
  }
}
