/**
 * Block quotes with two extra attributes, `author` and `link`. The editing
 * view shows their combination as `data-source`; the data view carries both
 * verbatim on `<woltlab-ckeditor-blockquote>`.
 */
module BlockQuote {
  import opened Wrappers
  import opened Js
  import opened Engine

  /** `getSource`: the non-empty ones of author and link, in that order, joined by ", ". */
  function GetSource(author: string, link: string): (r: string)
    ensures author == "" && link == "" ==> r == ""
    ensures author != "" && link == "" ==> r == author
    ensures author == "" && link != "" ==> r == link
    ensures author != "" && link != "" ==> r == author + ", " + link
  {
    var components := (if author != "" then [author] else []) + (if link != "" then [link] else []);
    assert author != "" && link != "" ==> components[1..] == [link] && Join(components[1..], ", ") == link;
    Join(components, ", ")
  }

  /** The source is empty exactly when both parts are, and it always begins with the author. */
  lemma SourceParts(author: string, link: string)
    ensures GetSource(author, link) == "" <==> author == "" && link == ""
    ensures author <= GetSource(author, link)
    ensures link != "" ==> |GetSource(author, link)| >= |link| && GetSource(author, link)[|GetSource(author, link)| - |link|..] == link
  {
    var r := GetSource(author, link);
    if author != "" && link != "" {
      assert r == author + (", " + link);
      assert r[|r| - |link|..] == link;
    }
  }

  /** The attributes upcast gives the new `blockQuote`: a missing or empty view attribute becomes "". */
  function UpcastAttributes(author: Option<string>, link: Option<string>): (r: map<string, Value>)
    ensures r.Keys == {"author", "link"}
    ensures r["author"] == Str(author.GetOr("")) && r["link"] == Str(link.GetOr(""))
  {
    map["author" := Str(author.GetOr("")), "link" := Str(link.GetOr(""))]
  }

  /** The source of a model block quote, from its current attributes. */
  function SourceOf(item: ModelElement): string
    reads item
  {
    GetSource(AttributeValueToString(item.GetAttribute("author")), AttributeValueToString(item.GetAttribute("link")))
  }

  /** The editing downcast of `insert:blockQuote`: a `<blockquote>` that has `data-source` exactly when the source is not empty. */
  function EditingDowncast(item: ModelElement): (r: ElementSpec)
    reads item
    ensures r.name == "blockquote" && r.children == []
    ensures "data-source" in r.attributes <==> SourceOf(item) != ""
    ensures "data-source" in r.attributes ==> r.attributes["data-source"] == SourceOf(item)
    ensures r.attributes.Keys <= {"data-source"}
  {
    var source := SourceOf(item);
    ElementSpec("blockquote", if source != "" then map["data-source" := source] else map[], [])
  }

  /** The data downcast of `insert:blockQuote`: `author` and `link` as strings on `<woltlab-ckeditor-blockquote>`. */
  function DataDowncast(item: ModelElement): (r: ElementSpec)
    reads item
    ensures r.name == "woltlab-ckeditor-blockquote" && r.children == []
    ensures r.attributes.Keys == {"author", "link"}
    ensures r.attributes["author"] == AttributeValueToString(item.GetAttribute("author"))
    ensures r.attributes["link"] == AttributeValueToString(item.GetAttribute("link"))
  {
    ElementSpec("woltlab-ckeditor-blockquote", map[
      "author" := AttributeValueToString(item.GetAttribute("author")),
      "link" := AttributeValueToString(item.GetAttribute("link"))], [])
  }

  /** Data upcast followed by data downcast writes back what was read, with missing attributes as "". */
  lemma DataRoundTrip(item: ModelElement, author: Option<string>, link: Option<string>)
    requires item.attributes == UpcastAttributes(author, link)
    ensures DataDowncast(item).attributes == map["author" := author.GetOr(""), "link" := link.GetOr("")]
  {
    assert item.GetAttribute("author") == Str(author.GetOr(""));
    assert item.GetAttribute("link") == Str(link.GetOr(""));
  }

  /**
   * The editing downcast of a change to `author` (`changed == "author"`) or
   * `link`: the new value replaces the changed part of the source, and
   * `data-source` is removed when the source is empty and set otherwise.
   */
  method AttributeChanged(item: ModelElement, changed: string, newValue: Value, blockquote: ViewElement?)
    returns (r: Result<(), Exception>)
    requires changed == "author" || changed == "link"
    modifies blockquote
    ensures blockquote == null ==> r == Err(TypeError)
    ensures blockquote != null ==>
              var author := if changed == "author" then AttributeValueToString(newValue) else AttributeValueToString(item.GetAttribute("author"));
              var link := if changed == "link" then AttributeValueToString(newValue) else AttributeValueToString(item.GetAttribute("link"));
              && r.Ok?
              && blockquote.attributes == (if GetSource(author, link) == "" then old(blockquote.attributes) - {"data-source"}
                                           else old(blockquote.attributes)["data-source" := GetSource(author, link)])
              && blockquote.name == old(blockquote.name) && blockquote.classes == old(blockquote.classes)
              && blockquote.children == old(blockquote.children)
  {
    var author := if changed == "author" then AttributeValueToString(newValue) else AttributeValueToString(item.GetAttribute("author"));
    var link := if changed == "link" then AttributeValueToString(newValue) else AttributeValueToString(item.GetAttribute("link"));
    var source := GetSource(author, link);
    if blockquote == null {
      return Err(TypeError);
    }
    if source == "" {
      blockquote.RemoveAttribute("data-source");
    } else {
      blockquote.SetAttribute("data-source", source);
    }
    return Ok(());
  }

  /** `#findBlockQuoteParent(chain[i])`, where `chain` lists an element and then its ancestors, innermost first. */
  function FindBlockQuoteParent(chain: seq<string>, i: nat): (r: Option<nat>)
    requires i < |chain|
    ensures r.Some? ==> i <= r.value < |chain| && chain[r.value] == "blockQuote"
    ensures r.Some? ==> forall k | i <= k < r.value :: chain[k] != "blockQuote"
    ensures r.Some? ==> forall m | i < m <= r.value :: chain[m] != "$root"
    ensures r.None? <==> forall k | i <= k < |chain| :: chain[k] == "blockQuote" ==> exists m | i < m <= k :: chain[m] == "$root"
    decreases |chain| - i
  {
    if chain[i] == "blockQuote" then Some(i)
    else if i + 1 < |chain| && chain[i + 1] != "$root" then FindBlockQuoteParent(chain, i + 1)
    else None
  }

  /** The values of the form the block quote was submitted from. */
  datatype PanelValues = PanelValues(author: string, link: string)

  function Names(chain: seq<ModelElement>): (r: seq<string>)
    reads set k | 0 <= k < |chain| :: chain[k]
    ensures |r| == |chain| && forall k | 0 <= k < |chain| :: r[k] == chain[k].name
  {
    seq(|chain|, k reads chain requires 0 <= k < |chain| => chain[k].name)
  }

  /**
   * `#updateCustomAttributes`: `chain` is the first selected block followed by
   * its ancestors (empty when nothing is selected, where the non-null
   * assertion fails); with a block quote among them and a last panel, its
   * author and link become the panel's values.
   */
  method UpdateCustomAttributes(chain: seq<ModelElement>, lastView: Option<PanelValues>) returns (r: Result<(), Exception>)
    modifies set k | 0 <= k < |chain| :: chain[k]
    ensures |chain| == 0 ==> r == Err(TypeError)
    ensures |chain| > 0 ==> r.Ok?
    ensures |chain| > 0 && FindBlockQuoteParent(old(Names(chain)), 0).Some? && lastView.Some? ==>
              var q := chain[FindBlockQuoteParent(old(Names(chain)), 0).value];
              q.attributes == old(q.attributes)["author" := Str(lastView.value.author)]["link" := Str(lastView.value.link)]
    ensures |chain| > 0 && FindBlockQuoteParent(old(Names(chain)), 0).Some? && lastView.Some? ==>
              forall k | 0 <= k < |chain| && chain[k] != chain[FindBlockQuoteParent(old(Names(chain)), 0).value] :: unchanged(chain[k])
    ensures (|chain| == 0 || FindBlockQuoteParent(old(Names(chain)), 0).None? || lastView.None?) ==>
              forall k | 0 <= k < |chain| :: unchanged(chain[k])
    ensures forall k | 0 <= k < |chain| :: chain[k].name == old(chain[k].name)
  {
    if |chain| == 0 {
      return Err(TypeError);
    }
    var found := FindBlockQuoteParent(Names(chain), 0);
    if found.Some? && lastView.Some? {
      var blockQuote := chain[found.value];
      blockQuote.SetAttribute("author", Str(lastView.value.author));
      blockQuote.SetAttribute("link", Str(lastView.value.link));
    }
    return Ok(());
  }
}
