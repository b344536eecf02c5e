/**
 * The body preview on a note card: `snippet(text, maxLen)` and the
 * placeholder the card shows when the preview is empty.
 */
module NoteItem {
  import opened Options
  import opened JsString

  /** The single character appended to a cut preview (U+2026). */
  const Ellipsis := "…"

  /** What a note card shows instead of an empty preview (U+2014). */
  const EmptyPreview := "—"

  /** The preview length a note card asks for. */
  const CardPreviewLength: nat := 90

  /** `text ?? ""`: a missing text reads as the empty string. */
  function TextOrEmpty(text: Option<string>): string {
    match text
    case Some(s) => s
    case None => ""
  }

  /** The cleaned text: whitespace runs collapsed to one space, then trimmed. */
  function Clean(text: Option<string>): (r: string)
    ensures Trimmed(r) && NoDoubleSpace(r)
    ensures forall i :: 0 <= i < |r| && IsSpace(r[i]) ==> r[i] == ' '
    ensures NonSpace(r) == NonSpace(TextOrEmpty(text))
  {
    var collapsed := CollapseSpaces(TextOrEmpty(text));
    TrimKeepsNoDoubleSpace(collapsed);
    TrimKeepsPlainSpaces(collapsed);
    TrimKeepsNonSpace(collapsed);
    CollapseKeepsNonSpace(TextOrEmpty(text));
    Trim(collapsed)
  }

  /**
   * The cleaned text is the text's words (its maximal whitespace-free runs),
   * in order, joined by single spaces.
   */
  lemma CleanIsJoinedWords(text: Option<string>)
    ensures Clean(text) == JoinWords(Words(TextOrEmpty(text)))
  {
    var collapsed := CollapseSpaces(TextOrEmpty(text));
    PlainIsJoinedWords(Clean(text));
    WordsOfTrim(collapsed);
    CollapseKeepsWords(TextOrEmpty(text));
  }

  /** The preview: the cleaned text if it fits in `maxLen`, else its first `maxLen` characters and an ellipsis. */
  function Snippet(text: Option<string>, maxLen: nat): (r: string)
    ensures |r| <= maxLen + 1
    ensures |Clean(text)| <= maxLen ==> r == Clean(text)
    ensures |Clean(text)| > maxLen ==>
              |r| == maxLen + 1 && IsPrefix(r[..maxLen], Clean(text)) && r[maxLen..] == Ellipsis
  {
    var cleaned := Clean(text);
    if |cleaned| <= maxLen then cleaned else cleaned[..maxLen] + Ellipsis
  }

  /** The preview is empty exactly when the text has no non-whitespace character. */
  lemma SnippetEmptyIffBlank(text: Option<string>, maxLen: nat)
    ensures Snippet(text, maxLen) == "" <==> NonSpace(TextOrEmpty(text)) == []
  {
    var cleaned := Clean(text);
    var r := Snippet(text, maxLen);
    if NonSpace(TextOrEmpty(text)) == [] {
      TrimmedBlankIsEmpty(cleaned);
      assert |cleaned| <= maxLen;
    } else {
      assert NonSpace(cleaned) != [];
      assert cleaned != [];
      assert |r| > 0;
    }
  }

  /** The text shown on a note card for `body`: its preview, or the placeholder when that is empty. */
  function CardPreview(body: Option<string>): (r: string)
    ensures NonSpace(TextOrEmpty(body)) == [] ==> r == EmptyPreview
    ensures NonSpace(TextOrEmpty(body)) != [] ==> r == Snippet(body, CardPreviewLength) && r != ""
  {
    SnippetEmptyIffBlank(body, CardPreviewLength);
    var s := Snippet(body, CardPreviewLength);
    if s == "" then EmptyPreview else s
  }
}
