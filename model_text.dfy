/**
 * One text container of the editor's model together with the document
 * selection inside it. Offsets count characters; inserted text merges with
 * its neighbours, as adjacent text nodes of the model do.
 */
module ModelText {

  /** Where a position at offset `p` lands after `n` characters are inserted at `at`: positions at or after `at` move along. */
  function Shifted(p: nat, at: nat, n: nat): (r: nat)
    ensures p < at ==> r == p
    ensures at <= p ==> r == p + n
  {
    if at <= p then p + n else p
  }

  /**
   * Where the end of the selection `[start, end]` lands after `n` characters
   * are inserted at `at`. A collapsed selection moves along when the text is
   * inserted at it; the end of a non-collapsed one sticks to the text before
   * it and stays when the text is inserted right at it.
   */
  function EndShifted(start: nat, end: nat, at: nat, n: nat): (r: nat)
    ensures at < end ==> r == end + n
    ensures end < at ==> r == end
    ensures at == end ==> r == if start == end then end + n else end
  {
    if at < end || (at == end && start == end) then end + n else end
  }

  class TextBuffer {
    var text: string
    /** `selection.getFirstPosition()` */
    var selectionStart: nat
    /** `selection.getLastPosition()` */
    var selectionEnd: nat

    predicate Valid()
      reads this
    {
      selectionStart <= selectionEnd <= |text|
    }

    constructor (text: string, selectionStart: nat, selectionEnd: nat)
      requires selectionStart <= selectionEnd <= |text|
      ensures Valid()
      ensures this.text == text && this.selectionStart == selectionStart && this.selectionEnd == selectionEnd
    {
      this.text := text;
      this.selectionStart := selectionStart;
      this.selectionEnd := selectionEnd;
    }

    /**
     * `writer.insert(createText(s), position)`: returns the range the new text
     * occupies. The document selection is a live range: its start moves with
     * text inserted at or before it, its end as `EndShifted` says.
     */
    method Insert(s: string, at: nat) returns (start: nat, end: nat)
      requires Valid() && at <= |text|
      modifies this
      ensures Valid()
      ensures text == old(text)[..at] + s + old(text)[at..]
      ensures selectionStart == Shifted(old(selectionStart), at, |s|)
      ensures selectionEnd == EndShifted(old(selectionStart), old(selectionEnd), at, |s|)
      ensures start == at && end == at + |s| && text[start..end] == s
    {
      text := text[..at] + s + text[at..];
      selectionStart, selectionEnd := Shifted(selectionStart, at, |s|), EndShifted(selectionStart, selectionEnd, at, |s|);
      start, end := at, at + |s|;
      assert text[start..end] == s;
    }

    /** `writer.setSelection(createRange(p))`: a collapsed selection at `p`. */
    method SetSelection(p: nat)
      requires Valid() && p <= |text|
      modifies this
      ensures Valid() && text == old(text)
      ensures selectionStart == p && selectionEnd == p
    {
      selectionStart, selectionEnd := p, p;
    }
  }
}
