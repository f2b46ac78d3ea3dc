/**
 * The spoiler widget's schema rules and its data conversion: a `spoiler`
 * model element holds a plain-text `spoilerTitle` and a `spoilerContent`,
 * and is stored as `<woltlab-spoiler data-label="…">`.
 */
module SpoilerEditing {
  import opened Wrappers
  import opened Js
  import opened ModelTree
  import opened Engine

  predicate EndsWith(context: seq<string>, name: string) {
    |context| > 0 && context[|context| - 1] == name
  }

  /**
   * The plugin's child check: `false` (reject) for a spoiler wherever a
   * spoiler is already an ancestor, for a spoiler directly in a
   * `spoilerContent`, and for anything but text in a `spoilerTitle`; in
   * every other case it gives no verdict.
   */
  predicate RejectsChild(context: seq<string>, child: string) {
    || (child == "spoiler" && "spoiler" in context)
    || (EndsWith(context, "spoilerContent") && child == "spoiler")
    || (EndsWith(context, "spoilerTitle") && child != "$text")
  }

  /** `schema.checkChild`: the plugin's check rejects, or else the schema's own rules `base` decide. */
  predicate CheckChild(context: seq<string>, child: string, base: (seq<string>, string) -> bool) {
    !RejectsChild(context, child) && base(context, child)
  }

  /** The plugin's attribute check: no attribute at all on text inside a `spoilerTitle`. */
  predicate RejectsAttribute(context: seq<string>) {
    |context| >= 2 && context[|context| - 2] == "spoilerTitle" && context[|context| - 1] == "$text"
  }

  /** Spoilers never nest: wherever a spoiler is an ancestor, another spoiler is refused. */
  lemma NoNestedSpoiler(context: seq<string>, k: nat, base: (seq<string>, string) -> bool)
    requires k < |context| && context[k] == "spoiler"
    ensures !CheckChild(context, "spoiler", base)
  {
  }

  /** A `spoilerTitle` accepts text and nothing else, whatever its ancestors. */
  lemma TitleAcceptsOnlyText(context: seq<string>, child: string)
    ensures RejectsChild(context + ["spoilerTitle"], child) <==> child != "$text"
  {
    assert EndsWith(context + ["spoilerTitle"], "spoilerTitle");
  }

  /** Every text in a title is refused every attribute, and text elsewhere is not affected. */
  lemma TitleTextHasNoAttributes(context: seq<string>, parent: string)
    ensures RejectsAttribute(context + [parent, "$text"]) <==> parent == "spoilerTitle"
  {
    var c := context + [parent, "$text"];
    assert c[|c| - 2] == parent && c[|c| - 1] == "$text";
  }

  /** The well-formed spoiler: a title followed by the content, nothing else. */
  predicate IsSpoiler(n: Node) {
    && n.Element? && n.name == "spoiler" && |n.children| == 2
    && n.children[0].Element? && n.children[0].name == "spoilerTitle"
    && n.children[1].Element? && n.children[1].name == "spoilerContent"
  }

  /**
   * Upcast of `<woltlab-spoiler>`: a spoiler whose title holds the trimmed
   * `data-label` (or `""`) and whose content is still empty (the view
   * children are converted into it afterwards). `appendText` of an empty
   * label inserts nothing, so such a title has no children. Nothing is
   * created when the view element cannot be consumed or `safeInsert`
   * refuses the spoiler.
   */
  function Upcast(consumable: bool, dataLabel: Option<string>, safeInsert: bool,
                  spoilerId: nat, titleId: nat, contentId: nat): (r: Option<Node>)
    ensures r.Some? <==> consumable && safeInsert
    ensures r.Some? ==> IsSpoiler(r.value) && r.value.id == spoilerId && r.value.children[1].children == []
    ensures r.Some? && Trim(dataLabel.GetOr("")) == "" ==> r.value.children[0].children == []
    ensures r.Some? && Trim(dataLabel.GetOr("")) != "" ==> r.value.children[0].children == [Text(Trim(dataLabel.GetOr("")))]
  {
    if !consumable then None
    else
      var text := Trim(dataLabel.GetOr(""));
      var title := Element(titleId, "spoilerTitle", if text == "" then [] else [Text(text)]);
      var spoiler := Element(spoilerId, "spoiler", [title, Element(contentId, "spoilerContent", [])]);
      if !safeInsert then None else Some(spoiler)
  }

  /** The `data-label` written for a title: its text when it has exactly one text child, otherwise `""`. */
  function TitleLabel(title: Node): (text: string)
    ensures title.Element? && |title.children| == 1 && title.children[0].Text? ==> text == title.children[0].data
    ensures !(title.Element? && |title.children| == 1 && title.children[0].Text?) ==> text == ""
  {
    if title.Element? && |title.children| == 1 && title.children[0].Text? then title.children[0].data else ""
  }

  /**
   * Data downcast of a spoiler: `<woltlab-spoiler data-label>` when the
   * spoiler has exactly two children, the first a `spoilerTitle`, and can
   * still be consumed; no output otherwise.
   */
  function DataDowncast(spoiler: Node, consumable: bool): (r: Option<ElementSpec>)
    requires spoiler.Element?
    ensures r.Some? <==>
      && |spoiler.children| == 2 && spoiler.children[0].Element?
      && spoiler.children[0].name == "spoilerTitle" && consumable
    ensures r.Some? ==>
      && r.value.name == "woltlab-spoiler" && r.value.children == []
      && r.value.attributes == map["data-label" := TitleLabel(spoiler.children[0])]
  {
    if |spoiler.children| != 2 then None
    else if !(spoiler.children[0].Element? && spoiler.children[0].name == "spoilerTitle") then None
    else if !consumable then None
    else Some(ElementSpec("woltlab-spoiler", map["data-label" := TitleLabel(spoiler.children[0])], []))
  }

  /** Storing an upcast spoiler writes back the trimmed label it was read from. */
  lemma LabelRoundTrip(dataLabel: Option<string>, safeInsert: bool, spoilerId: nat, titleId: nat, contentId: nat)
    requires safeInsert
    ensures Upcast(true, dataLabel, safeInsert, spoilerId, titleId, contentId).Some?
    ensures DataDowncast(Upcast(true, dataLabel, safeInsert, spoilerId, titleId, contentId).value, true)
      == Some(ElementSpec("woltlab-spoiler", map["data-label" := Trim(dataLabel.GetOr(""))], []))
  {
  }

  /** Reading back a stored spoiler label rebuilds the same title: the label is already trimmed. */
  lemma TitleRoundTrip(dataLabel: Option<string>, spoilerId: nat, titleId: nat, contentId: nat)
    ensures
      var first := Upcast(true, dataLabel, true, spoilerId, titleId, contentId).value;
      var stored := DataDowncast(first, true).value.attributes["data-label"];
      Upcast(true, Some(stored), true, spoilerId, titleId, contentId) == Some(first)
  {
    var first := Upcast(true, dataLabel, true, spoilerId, titleId, contentId).value;
    TrimIdempotent(dataLabel.GetOr(""));
    assert TitleLabel(first.children[0]) == Trim(dataLabel.GetOr(""));
  }

  /**
   * Storing a spoiler and reading it back rebuilds its title, for a title
   * without children (as the spoiler command creates it) as well as for one
   * holding a single trimmed, non-empty text.
   */
  lemma StoredTitleRoundTrip(spoiler: Node, spoilerId: nat, titleId: nat, contentId: nat)
    requires IsSpoiler(spoiler)
    requires var t := spoiler.children[0].children;
      t == [] || (|t| == 1 && t[0].Text? && t[0].data != "" && Trim(t[0].data) == t[0].data)
    ensures
      var stored := DataDowncast(spoiler, true).value.attributes["data-label"];
      Upcast(true, Some(stored), true, spoilerId, titleId, contentId).value.children[0].children == spoiler.children[0].children
  {
    var t := spoiler.children[0].children;
    if t == [] {
      assert TitleLabel(spoiler.children[0]) == "";
      TrimEmpty();
    }
  }
}
