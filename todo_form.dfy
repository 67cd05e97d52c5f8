/**
 * TodoForm.tsx: one text field and a submit handler that trims the text,
 * ignores it when blank, and otherwise hands it to onAdd and clears the field.
 */
module TodoForm {
  import opened Options
  import opened JsString

  /**
   * The argument handleSubmit passes to onAdd for the field's text, or None
   * when it calls nothing (text.trim() is the empty string, which is falsy).
   */
  function Submission(text: string): (added: Option<string>)
    ensures added.None? <==> AllWhiteSpace(text)
    ensures added.Some? ==> added.value == Trim(text)
  {
    TrimBlank(text);
    var t := Trim(text);
    if t == [] then None else Some(t)
  }

  /** What reaches onAdd is non-empty, starts and ends with no whitespace, and is its own trim. */
  lemma SubmittedIsClean(text: string)
    requires Submission(text).Some?
    ensures var a := Submission(text).value;
      a != [] && !AllWhiteSpace(a) && IsTrimmed(a) && Trim(a) == a
  {
    var a := Submission(text).value;
    TrimIdempotent(text);
    TrimBlank(a);
  }

  /** Padding a text with whitespace does not change what is submitted. */
  lemma SubmissionIgnoresPadding(a: string, text: string, b: string)
    requires AllWhiteSpace(a) && AllWhiteSpace(b)
    ensures Submission(a + text + b) == Submission(text)
  {
    TrimIgnoresPadding(a, text, b);
  }

  class Form {
    /** The controlled input's value. */
    var text: string

    /** useState(''): the field starts empty. */
    constructor ()
      ensures text == []
    {
      text := [];
    }

    /** onChange: setText(e.target.value). */
    method Change(value: string)
      modifies this
      ensures text == value
    {
      text := value;
    }

    /**
     * onSubmit. The result is the argument of the one onAdd call, or None if
     * onAdd is not called; the field is cleared only when onAdd was called.
     */
    method HandleSubmit() returns (added: Option<string>)
      modifies this
      ensures added == Submission(old(text))
      ensures text == if added.Some? then [] else old(text)
    {
      added := Submission(text);
      if added.Some? {
        text := [];
      }
    }
  }
}
