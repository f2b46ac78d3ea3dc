/**
 * Code blocks with two extra attributes, `file` and `line`. The editing view
 * labels the block with the language and both attributes; the data view
 * carries `file`, `language` and `line` verbatim on
 * `<woltlab-ckeditor-codeblock>`.
 */
module CodeBlock {
  import opened Wrappers
  import opened Js
  import opened Engine

  /** An entry of the normalized and localized language definitions. */
  datatype LanguageDefinition = LanguageDefinition(language: string, labelText: string)

  /** `localizedLanguageDefs.find(def => def.language === language)`. */
  function FindLanguage(defs: seq<LanguageDefinition>, language: string): (r: Option<LanguageDefinition>)
    ensures r.None? <==> forall k | 0 <= k < |defs| :: defs[k].language != language
    ensures r.Some? ==> r.value.language == language && exists k | 0 <= k < |defs| :: defs[k] == r.value && forall j | 0 <= j < k :: defs[j].language != language
  {
    if |defs| == 0 then None
    else if defs[0].language == language then Some(defs[0])
    else
      var r := FindLanguage(defs[1..], language);
      assert r.Some? ==> exists k | 0 <= k < |defs| :: defs[k] == r.value && forall j | 0 <= j < k :: defs[j].language != language by {
        if r.Some? {
          var k :| 0 <= k < |defs[1..]| && defs[1..][k] == r.value && forall j | 0 <= j < k :: defs[1..][j].language != language;
          assert defs[k + 1] == r.value;
          forall j | 0 <= j < k + 1 ensures defs[j].language != language {
            if j > 0 {
              assert defs[j] == defs[1..][j - 1];
            }
          }
        }
      }
      r
  }

  /** The label of a code block: the language, then file and line in parentheses when either is set. */
  function Label(languageLabel: string, file: string, line: string): string {
    if file == "" && line == "" then languageLabel
    else if line == "" then languageLabel + " (" + file + ")"
    else if file == "" then languageLabel + " (@ " + line + ")"
    else languageLabel + " (" + file + " @ " + line + ")"
  }

  /** The `data-language` label the editing downcast builds, one `+=` at a time. */
  method BuildLabel(languageLabel: string, file: string, line: string) returns (labelText: string)
    ensures labelText == Label(languageLabel, file, line)
    ensures file == "" && line == "" ==> labelText == languageLabel
    ensures file != "" && line == "" ==> labelText == languageLabel + " (" + file + ")"
    ensures file == "" && line != "" ==> labelText == languageLabel + " (" + "@ " + line + ")"
    ensures file != "" && line != "" ==> labelText == languageLabel + " (" + file + " " + "@ " + line + ")"
  {
    labelText := languageLabel;
    if file != "" || line != "" {
      labelText := labelText + " (";
      if file != "" {
        labelText := labelText + file;
      }
      if line != "" {
        if file != "" {
          labelText := labelText + " ";
        }
        labelText := labelText + "@ " + line;
      }
      labelText := labelText + ")";
    }
    assert file == "" && line != "" ==> languageLabel + " (" + "@ " + line + ")" == languageLabel + " (@ " + line + ")";
    assert file != "" && line != "" ==> languageLabel + " (" + file + " " + "@ " + line + ")" == languageLabel + " (" + file + " @ " + line + ")";
  }

  /**
   * The editing downcast of `insert:codeBlock`: `<pre data-language spellcheck>`
   * around `<code class="language-…">`. The language must be among the
   * definitions; `find(...)!` throws a TypeError otherwise.
   */
  method EditingDowncast(item: ModelElement, defs: seq<LanguageDefinition>) returns (r: Result<ElementSpec, Exception>)
    ensures var language := AttributeValueToString(item.GetAttribute("language"));
            FindLanguage(defs, language).None? <==> r == Err(TypeError)
    ensures r.Ok? ==>
              var language := AttributeValueToString(item.GetAttribute("language"));
              && r.value.name == "pre"
              && r.value.attributes.Keys == {"data-language", "spellcheck"}
              && r.value.attributes["spellcheck"] == "false"
              && r.value.attributes["data-language"] == Label(FindLanguage(defs, language).value.labelText,
                   AttributeValueToString(item.GetAttribute("file")), AttributeValueToString(item.GetAttribute("line")))
              && r.value.children == [ElementSpec("code", map["class" := "language-" + language], [])]
  {
    var file := AttributeValueToString(item.GetAttribute("file"));
    var language := AttributeValueToString(item.GetAttribute("language"));
    var line := AttributeValueToString(item.GetAttribute("line"));
    var code := ElementSpec("code", map["class" := "language-" + language], []);
    var localized := FindLanguage(defs, language);
    if localized.None? {
      return Err(TypeError);
    }
    var labelText := BuildLabel(localized.value.labelText, file, line);
    return Ok(ElementSpec("pre", map["data-language" := labelText, "spellcheck" := "false"], [code]));
  }

  /** The attributes upcast gives the new `codeBlock`: a missing or empty view attribute becomes "". */
  function UpcastAttributes(file: Option<string>, language: Option<string>, line: Option<string>): (r: map<string, Value>)
    ensures r.Keys == {"file", "language", "line"}
    ensures r["file"] == Str(file.GetOr("")) && r["language"] == Str(language.GetOr("")) && r["line"] == Str(line.GetOr(""))
  {
    map["file" := Str(file.GetOr("")), "language" := Str(language.GetOr("")), "line" := Str(line.GetOr(""))]
  }

  /** The data downcast of `insert:codeBlock`: the three attributes as strings on `<woltlab-ckeditor-codeblock>`. */
  function DataDowncast(item: ModelElement): (r: ElementSpec)
    reads item
    ensures r.name == "woltlab-ckeditor-codeblock" && r.children == []
    ensures r.attributes.Keys == {"file", "language", "line"}
    ensures r.attributes["file"] == AttributeValueToString(item.GetAttribute("file"))
    ensures r.attributes["language"] == AttributeValueToString(item.GetAttribute("language"))
    ensures r.attributes["line"] == AttributeValueToString(item.GetAttribute("line"))
  {
    ElementSpec("woltlab-ckeditor-codeblock", map[
      "file" := AttributeValueToString(item.GetAttribute("file")),
      "language" := AttributeValueToString(item.GetAttribute("language")),
      "line" := AttributeValueToString(item.GetAttribute("line"))], [])
  }

  /** Data upcast followed by data downcast writes back what was read, with missing attributes as "". */
  lemma DataRoundTrip(item: ModelElement, file: Option<string>, language: Option<string>, line: Option<string>)
    requires item.attributes == UpcastAttributes(file, language, line)
    ensures DataDowncast(item).attributes == map["file" := file.GetOr(""), "language" := language.GetOr(""), "line" := line.GetOr("")]
  {
    assert item.GetAttribute("file") == Str(file.GetOr(""));
    assert item.GetAttribute("language") == Str(language.GetOr(""));
    assert item.GetAttribute("line") == Str(line.GetOr(""));
  }

  /** `#getActiveCodeBlock`: the first selected block when it is itself a `codeBlock`; no ancestor is searched. */
  function ActiveCodeBlock(firstBlock: ModelElement?): (r: ModelElement?)
    reads firstBlock
    ensures r != null <==> firstBlock != null && firstBlock.name == "codeBlock"
    ensures r != null ==> r == firstBlock
  {
    if firstBlock != null && firstBlock.name == "codeBlock" then firstBlock else null
  }

  /** The values of the form the code block was submitted from. */
  datatype PanelValues = PanelValues(file: string, line: string)

  /** `#updateCustomAttributes`: `file` and `line`, never `language`, and only with an active code block and a last panel. */
  method UpdateCustomAttributes(firstBlock: ModelElement?, lastView: Option<PanelValues>)
    modifies firstBlock
    ensures ActiveCodeBlock(firstBlock) != null && lastView.Some? ==>
              firstBlock.attributes == old(firstBlock.attributes)["file" := Str(lastView.value.file)]["line" := Str(lastView.value.line)]
    ensures (ActiveCodeBlock(firstBlock) == null || lastView.None?) && firstBlock != null ==> unchanged(firstBlock)
    ensures firstBlock != null ==> firstBlock.name == old(firstBlock.name)
  {
    var codeBlock := ActiveCodeBlock(firstBlock);
    if codeBlock != null && lastView.Some? {
      codeBlock.SetAttribute("file", Str(lastView.value.file));
      codeBlock.SetAttribute("line", Str(lastView.value.line));
    }
  }
}
