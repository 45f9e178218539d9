/**
 * The note card on the dashboard: it decrypts the note's two fields once, shows a fallback when
 * that fails, and previews the content with HTML tags removed and the length capped.
 */
module NoteItemView {
  import opened Wrappers
  import opened JsText
  import opened NoteModel
  import ES = EncryptionService

  const NO_CONTENT: string := "Aucun contenu..."
  const TITLE_UNAVAILABLE: string := "Titre indisponible"
  const CONTENT_UNAVAILABLE: string := "Contenu indisponible"
  const PREVIEW_LENGTH: nat := 150
  const ELLIPSIS: string := "..."

  /** Index of the first `>` of `s`, or `|s|`. */
  function FirstClose(s: string): (k: nat)
    ensures k <= |s|
    ensures forall j :: 0 <= j < k ==> s[j] != '>'
    ensures k < |s| ==> s[k] == '>'
  {
    if s == [] || s[0] == '>' then 0 else 1 + FirstClose(s[1..])
  }

  /**
   * `s.replace(/<[^>]*>/g, '')`: scanning from the left, a `<` that has a `>` somewhere after it
   * is dropped together with everything up to the first such `>`; any other character is kept.
   */
  function StripTags(s: string): string
    decreases |s|
  {
    if s == [] then []
    else if s[0] == '<' && FirstClose(s) < |s| then StripTags(s[FirstClose(s) + 1..])
    else [s[0]] + StripTags(s[1..])
  }

  /** `s` still holds something the tag pattern matches: a `<` with a `>` somewhere after it. */
  predicate HasTag(s: string) {
    exists i, j :: 0 <= i < j < |s| && s[i] == '<' && s[j] == '>'
  }

  /** `getContentPreview` on the given decrypted content. */
  function ContentPreview(content: string): string {
    if content == "" then NO_CONTENT
    else
      var clean := StripTags(content);
      if |clean| > PREVIEW_LENGTH then clean[..PREVIEW_LENGTH] + ELLIPSIS else clean
  }

  /** The two decrypted fields of a note. */
  datatype Decrypted = Decrypted(title: string, content: string)

  /**
   * What `decryptNoteData` displays: the decrypted pair when the decryption settles (`Some`), and
   * the note's own fields, or a placeholder for an empty one, when it rejects (`None`).
   */
  function Displayed(note: Note, attempt: Option<Decrypted>): (shown: Decrypted)
    ensures attempt.Some? ==> shown == attempt.value
    ensures attempt.None? ==> shown.title != "" && shown.content != ""
    ensures attempt.None? && note.title != "" ==> shown.title == note.title
    ensures attempt.None? && note.title == "" ==> shown.title == TITLE_UNAVAILABLE
    ensures attempt.None? && note.content != "" ==> shown.content == note.content
    ensures attempt.None? && note.content == "" ==> shown.content == CONTENT_UNAVAILABLE
  {
    match attempt
    case Some(pair) => pair
    case None => Decrypted(Or(note.title, TITLE_UNAVAILABLE), Or(note.content, CONTENT_UNAVAILABLE))
  }

  class NoteItem {
    /** The `@Input` note; the card never replaces it. */
    const note: Note
    var decryptedTitle: string
    var decryptedContent: string
    var isDecrypting: bool

    constructor (note: Note)
      ensures this.note == note
      ensures decryptedTitle == "" && decryptedContent == "" && isDecrypting
    {
      this.note := note;
      decryptedTitle := "";
      decryptedContent := "";
      isDecrypting := true;
    }

    /**
     * `decryptNoteData`, with the two decryptions of `Promise.all` run one after the other.
     * `decrypt` never rejects, so the attempt always settles; `isDecrypting` ends false.
     */
    method DecryptNoteData(svc: ES.Service)
      modifies this
      ensures decryptedTitle == ES.Decrypt(svc, note.title, None)
      ensures decryptedContent == ES.Decrypt(svc, note.content, None)
      ensures !isDecrypting
    {
      isDecrypting := true;
      var title := ES.Decrypt(svc, Or(note.title, ""), None);
      var content := ES.Decrypt(svc, Or(note.content, ""), None);
      var shown := Displayed(note, Some(Decrypted(title, content)));
      decryptedTitle := shown.title;
      decryptedContent := shown.content;
      isDecrypting := false;
    }

    /** The synchronous `decrypt`, which hands the message back through `decryptSync`. */
    function Decrypt(message: string): (r: string)
      ensures r == message
    {
      ES.DecryptSync(message)
    }

    /** `getContentPreview`: never shows a tag and never exceeds 153 characters. */
    function GetContentPreview(): (r: string)
      reads this
      ensures decryptedContent == "" ==> r == NO_CONTENT
      ensures !HasTag(r)
      ensures |r| <= PREVIEW_LENGTH + |ELLIPSIS|
    {
      PreviewHasNoTag(decryptedContent);
      PreviewBounded(decryptedContent);
      ContentPreview(decryptedContent)
    }
  }

  // ----- Proofs -----

  /** Tag stripping only removes characters. */
  lemma {:induction false} StripTagsKeepsChars(s: string)
    ensures |StripTags(s)| <= |s|
    ensures forall c :: c in StripTags(s) ==> c in s
    decreases |s|
  {
    if s != [] {
      if s[0] == '<' && FirstClose(s) < |s| {
        var rest := s[FirstClose(s) + 1..];
        StripTagsKeepsChars(rest);
        forall c | c in StripTags(rest) ensures c in s {
          var k :| 0 <= k < |rest| && rest[k] == c;
          assert s[FirstClose(s) + 1 + k] == c;
        }
      } else {
        StripTagsKeepsChars(s[1..]);
        forall c | c in StripTags(s[1..]) ensures c in s {
          var k :| 0 <= k < |s[1..]| && s[1..][k] == c;
          assert s[1 + k] == c;
        }
      }
    }
  }

  /** A string without `>` has no tag, whatever comes before it. */
  lemma NoCloseNoTag(lead: char, s: string)
    requires '>' !in s
    ensures !HasTag([lead] + s)
  {
    var t := [lead] + s;
    forall j | 0 < j < |t| ensures t[j] != '>' {
      assert t[j] == s[j - 1];
    }
  }

  /** After tag stripping nothing the pattern matches is left. */
  lemma {:induction false} StripTagsLeavesNoTag(s: string)
    ensures !HasTag(StripTags(s))
    decreases |s|
  {
    if s != [] {
      if s[0] == '<' && FirstClose(s) < |s| {
        StripTagsLeavesNoTag(s[FirstClose(s) + 1..]);
      } else if s[0] == '<' {
        StripTagsKeepsChars(s[1..]);
        assert '>' !in s[1..] by {
          forall k | 0 <= k < |s[1..]| ensures s[1..][k] != '>' {
            assert s[1..][k] == s[k + 1];
          }
        }
        NoCloseNoTag(s[0], StripTags(s[1..]));
      } else {
        var rest := StripTags(s[1..]);
        StripTagsLeavesNoTag(s[1..]);
        var t := [s[0]] + rest;
        forall i, j | 0 <= i < j < |t| && t[i] == '<' ensures t[j] != '>' {
          assert t[i] == rest[i - 1] && t[j] == rest[j - 1];
        }
      }
    }
  }

  /** Text without tags goes through unchanged. */
  lemma {:induction false} StripTagsKeepsUntagged(s: string)
    requires !HasTag(s)
    ensures StripTags(s) == s
    decreases |s|
  {
    if s != [] {
      if s[0] == '<' {
        assert FirstClose(s) == |s|;
      }
      assert !HasTag(s[1..]) by {
        forall i, j | 0 <= i < j < |s[1..]| && s[1..][i] == '<' ensures s[1..][j] != '>' {
          assert s[1..][i] == s[i + 1] && s[1..][j] == s[j + 1];
        }
      }
      StripTagsKeepsUntagged(s[1..]);
    }
  }

  /** Stripping twice is stripping once. */
  lemma StripTagsIdempotent(s: string)
    ensures StripTags(StripTags(s)) == StripTags(s)
  {
    StripTagsLeavesNoTag(s);
    StripTagsKeepsUntagged(StripTags(s));
  }

  /** A prefix of tag-free text is tag-free, and so is it with an ellipsis after it. */
  lemma PrefixEllipsisHasNoTag(clean: string, n: nat)
    requires n <= |clean| && !HasTag(clean)
    ensures !HasTag(clean[..n] + ELLIPSIS)
  {
    var t := clean[..n] + ELLIPSIS;
    forall i, j | 0 <= i < j < |t| && t[i] == '<' ensures t[j] != '>' {
      assert i < n && t[i] == clean[i];
      if j < n {
        assert t[j] == clean[j];
      } else {
        assert t[j] == ELLIPSIS[j - n];
      }
    }
  }

  /** The preview never shows a tag. */
  lemma PreviewHasNoTag(content: string)
    ensures !HasTag(ContentPreview(content))
  {
    if content == "" {
      assert forall j :: 0 <= j < |NO_CONTENT| ==> NO_CONTENT[j] != '<';
    } else {
      var clean := StripTags(content);
      StripTagsLeavesNoTag(content);
      if |clean| > PREVIEW_LENGTH {
        PrefixEllipsisHasNoTag(clean, PREVIEW_LENGTH);
      }
    }
  }

  /** The preview holds at most 150 characters of text and an ellipsis. */
  lemma PreviewBounded(content: string)
    ensures |ContentPreview(content)| <= PREVIEW_LENGTH + |ELLIPSIS|
  {
  }

  /**
   * Non-empty content previews as its stripped text when that fits in 150 characters, and as the
   * first 150 of them and an ellipsis otherwise.
   */
  lemma PreviewOfContent(content: string)
    requires content != ""
    ensures var clean := StripTags(content);
      |clean| <= PREVIEW_LENGTH ==> ContentPreview(content) == clean
    ensures var clean, r := StripTags(content), ContentPreview(content);
      |clean| > PREVIEW_LENGTH ==>
        |r| == PREVIEW_LENGTH + |ELLIPSIS| && r[..PREVIEW_LENGTH] == clean[..PREVIEW_LENGTH] && r[PREVIEW_LENGTH..] == ELLIPSIS
  {
  }

  /** Example: content made of tags only is not empty, so it previews as "" and not as the placeholder. */
  lemma TagsOnlyPreviewEmpty()
    ensures ContentPreview("<b></b>") == ""
  {
    var s := "<b></b>";
    assert FirstClose(s) == 2;
    assert s[3..] == "</b>";
    assert FirstClose("</b>") == 3;
    assert "</b>"[4..] == [];
  }
}
