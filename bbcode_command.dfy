/**
 * The `insertBbcode` command: a cancelable `ckeditor5:bbcode` event is
 * dispatched first; unless a listener prevents its default, `[name]` is
 * inserted at the start of the selection, `[/name]` at its end, and the
 * caret is put right before the closing tag. The command is enabled where
 * bold text would be allowed.
 */
module BbcodeCommand {
  import opened Wrappers
  import opened ModelText
  import opened Metacode
  import opened SpoilerEditing

  /** The text with the selection `[s, e)` enclosed in the tags of `bbcode`. */
  function Tagged(text: string, s: nat, e: nat, bbcode: string): string
    requires s <= e <= |text|
  {
    text[..s] + OpeningTag(bbcode, "") + text[s..e] + ClosingTag(bbcode) + text[e..]
  }

  /**
   * The tagged text holds the text before the selection, the opening tag,
   * the selected text, the closing tag and the text after, in that order;
   * removing the two tags gives back the text.
   */
  lemma {:induction false} TaggedParts(text: string, s: nat, e: nat, bbcode: string)
    requires s <= e <= |text|
    ensures var t, o, c := Tagged(text, s, e, bbcode), OpeningTag(bbcode, ""), ClosingTag(bbcode);
      && |t| == |text| + |o| + |c|
      && t[..s] == text[..s] && t[s..s + |o|] == o
      && t[s + |o|..e + |o|] == text[s..e]
      && t[e + |o|..e + |o| + |c|] == c
      && t[e + |o| + |c|..] == text[e..]
      && t[..s] + t[s + |o|..e + |o|] + t[e + |o| + |c|..] == text
  {
    var t, o, c := Tagged(text, s, e, bbcode), OpeningTag(bbcode, ""), ClosingTag(bbcode);
    var a, b, d := text[..s], text[s..e], text[e..];
    assert t == a + o + b + c + d;
    assert t[..s] == a;
    assert t[s..s + |o|] == o;
    assert t[s + |o|..e + |o|] == b;
    assert t[e + |o|..e + |o| + |c|] == c;
    assert t[e + |o| + |c|..] == d;
    assert a + b + d == text;
  }

  /** `schema.checkAttribute` for one context: the spoiler title's check, then the other rules `base`. */
  predicate AttributeAllowed(context: seq<string>, attribute: string, base: (seq<string>, string) -> bool) {
    !RejectsAttribute(context) && base(context, attribute)
  }

  /**
   * `#getIsEnabled`, `schema.checkAttributeInSelection(selection, "bold")`:
   * `contexts` are what the schema checks, the position's ancestors and a
   * text for a collapsed selection, every selected item for another one;
   * bold must be allowed in one of them.
   */
  predicate GetIsEnabled(contexts: seq<seq<string>>, base: (seq<string>, string) -> bool) {
    exists i :: 0 <= i < |contexts| && AttributeAllowed(contexts[i], "bold", base)
  }

  /** In a spoiler title, which takes plain text only, the command is disabled whatever the other rules say. */
  lemma DisabledInSpoilerTitle(ancestors: seq<string>, base: (seq<string>, string) -> bool)
    ensures !GetIsEnabled([ancestors + ["spoilerTitle", "$text"]], base)
  {
    TitleTextHasNoAttributes(ancestors, "spoilerTitle");
  }

  /** Elsewhere the spoiler rules do not interfere: a collapsed selection is enabled exactly when the other rules allow bold. */
  lemma EnabledOutsideTitle(ancestors: seq<string>, parent: string, base: (seq<string>, string) -> bool)
    requires parent != "spoilerTitle"
    ensures GetIsEnabled([ancestors + [parent, "$text"]], base) <==> base(ancestors + [parent, "$text"], "bold")
  {
    TitleTextHasNoAttributes(ancestors, parent);
    var context := ancestors + [parent, "$text"];
    if base(context, "bold") {
      assert AttributeAllowed([context][0], "bold", base);
    }
  }

  class Command {
    var isEnabled: bool

    constructor ()
      ensures !isEnabled
    {
      isEnabled := false;
    }

    /** `refresh`. */
    method Refresh(contexts: seq<seq<string>>, base: (seq<string>, string) -> bool)
      modifies this
      ensures isEnabled == GetIsEnabled(contexts, base)
    {
      isEnabled := exists i :: 0 <= i < |contexts| && AttributeAllowed(contexts[i], "bold", base);
    }

    /**
     * `execute(bbcode)` on one text container. `prevented` is whether a
     * listener of the dispatched event called `preventDefault`: then the
     * document is left alone. Otherwise the tags enclose the selected text
     * and the selection is collapsed at the start of the closing tag.
     */
    method Execute(buffer: TextBuffer, bbcode: string, prevented: bool)
      requires buffer.Valid()
      modifies buffer
      ensures buffer.Valid()
      ensures prevented ==> unchanged(buffer)
      ensures !prevented ==>
        && buffer.text == Tagged(old(buffer.text), old(buffer.selectionStart), old(buffer.selectionEnd), bbcode)
        && buffer.selectionStart == buffer.selectionEnd == old(buffer.selectionEnd) + |OpeningTag(bbcode, "")|
        && buffer.text[buffer.selectionStart..buffer.selectionStart + |ClosingTag(bbcode)|] == ClosingTag(bbcode)
    {
      if prevented {
        return;
      }
      ghost var text, s, e := buffer.text, buffer.selectionStart, buffer.selectionEnd;
      var openingTag := OpeningTag(bbcode, "");
      var _, _ := buffer.Insert(openingTag, buffer.selectionStart);
      assert buffer.selectionEnd == e + |openingTag|;
      var start, _ := buffer.Insert(ClosingTag(bbcode), buffer.selectionEnd);
      buffer.SetSelection(start);
      TaggedParts(text, s, e, bbcode);
      assert buffer.text == Tagged(text, s, e, bbcode) by {
        var mid := text[..s] + openingTag + text[s..];
        assert mid[..e + |openingTag|] == text[..s] + openingTag + text[s..e];
        assert mid[e + |openingTag|..] == text[e..];
      }
    }
  }
}
