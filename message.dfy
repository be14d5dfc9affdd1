/**
 * The message loader (`read_message`): the message file's contents with
 * leading and trailing whitespace removed, or nothing when that leaves the
 * empty string or the file cannot be read.
 */
module Message {
  import opened Optional
  import opened Trimming

  /**
   * Python's `str.isspace` for one character: the code points `str.strip()`
   * removes when called without arguments.
   */
  predicate IsSpace(c: char) {
    ('\t' <= c <= '\r') || ('\U{1C}' <= c <= ' ')
    || c == '\U{85}' || c == '\U{A0}' || c == '\U{1680}'
    || ('\U{2000}' <= c <= '\U{200A}') || c == '\U{2028}' || c == '\U{2029}'
    || c == '\U{202F}' || c == '\U{205F}' || c == '\U{3000}'
  }

  /** The message file as the loader sees it. */
  datatype TextFile = NoTextFile | TextUnreadable(error: string) | TextRead(text: string)

  /**
   * read_message: a message exactly when the file was read and is not all
   * whitespace; the message is the stripped text, non-empty, without leading
   * or trailing whitespace, and a fixed point of stripping.
   */
  function ReadMessage(file: TextFile): (r: Option<string>)
    ensures r.Some? <==> file.TextRead? && !AllIn(IsSpace, file.text)
    ensures r.Some? ==> r.value == Strip(IsSpace, file.text)
    ensures r.Some? ==> r.value != "" && !IsSpace(r.value[0]) && !IsSpace(r.value[|r.value| - 1])
    ensures r.Some? ==> Strip(IsSpace, r.value) == r.value
  {
    match file
    case TextRead(text) =>
      var message := Strip(IsSpace, text);
      StripEmpty(IsSpace, text);
      StripIdempotent(IsSpace, text);
      if message == "" then None else Some(message)
    case _ => None
  }
}
