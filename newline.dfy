/** `detect_newline`: the line-break style of a file. */
module Newline {
  import opened Text

  predicate HasCrLfAt(text: string, i: int) {
    0 <= i < |text| - 1 && text[i] == '\r' && text[i + 1] == '\n'
  }

  lemma {:induction false} CrLfOccurrence(text: string)
    ensures Contains(text, "\r\n") <==> exists i :: HasCrLfAt(text, i)
  {
    if Contains(text, "\r\n") {
      var i: nat :| i <= |text| && OccursAt(text, "\r\n", i);
      assert text[i..i + 2][0] == text[i] && text[i..i + 2][1] == text[i + 1];
      assert HasCrLfAt(text, i);
    }
    if i :| HasCrLfAt(text, i) {
      assert text[i..i + 2] == "\r\n";
      assert OccursAt(text, "\r\n", i);
    }
  }

  /** "\r\n" exactly when some '\r' is directly followed by '\n'; "\n" otherwise. */
  function DetectNewline(text: string): (nl: string)
    ensures nl == "\r\n" || nl == "\n"
    ensures nl == "\r\n" <==> exists i :: HasCrLfAt(text, i)
  {
    CrLfOccurrence(text);
    if Contains(text, "\r\n") then "\r\n" else "\n"
  }
}
