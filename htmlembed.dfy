/**
 * Raw HTML blocks (`<pre class="woltlabHtml">`): the stored markup has its
 * HTML entities escaped, and is unescaped once when it is read into the
 * model's `rawHtml` element.
 */
module HtmlEmbed {
  import opened Wrappers
  import opened Js

  /** Whether `pat` occurs in `s` at index `i`. */
  predicate OccursAt(s: string, pat: string, i: nat) {
    i + |pat| <= |s| && s[i..i + |pat|] == pat
  }

  /**
   * `s.replace(/pat/g, rep)`: scanning from the left, every occurrence of
   * `pat` that does not overlap an earlier replaced one becomes `rep`.
   */
  function ReplaceAll(s: string, pat: string, rep: string): (r: string)
    requires |pat| > 0
    decreases |s|
  {
    if |s| < |pat| then s
    else if s[..|pat|] == pat then rep + ReplaceAll(s[|pat|..], pat, rep)
    else [s[0]] + ReplaceAll(s[1..], pat, rep)
  }

  /** A string in which the pattern never occurs is left as it is. */
  lemma {:induction false} ReplaceAbsent(s: string, pat: string, rep: string)
    requires |pat| > 0 && forall i :: 0 <= i <= |s| ==> !OccursAt(s, pat, i)
    ensures ReplaceAll(s, pat, rep) == s
    decreases |s|
  {
    if |s| >= |pat| {
      assert !OccursAt(s, pat, 0);
      forall i | 0 <= i <= |s[1..]| ensures !OccursAt(s[1..], pat, i) {
        assert !OccursAt(s, pat, i + 1);
        if i + |pat| <= |s[1..]| {
          assert s[1..][i..i + |pat|] == s[i + 1..i + 1 + |pat|];
        }
      }
      ReplaceAbsent(s[1..], pat, rep);
    }
  }

  /** A pattern starting with `&` cannot occur in a string without `&`. */
  lemma AbsentWithoutAmpersand(s: string, pat: string)
    requires |pat| > 0 && pat[0] == '&' && '&' !in s
    ensures forall i :: 0 <= i <= |s| ==> !OccursAt(s, pat, i)
  {
    forall i | 0 <= i <= |s| ensures !OccursAt(s, pat, i) {
      if i + |pat| <= |s| {
        assert s[i..i + |pat|][0] == s[i];
      }
    }
  }

  /** Replacing by something no longer than the pattern never makes the string longer. */
  lemma {:induction false} ReplaceShrinks(s: string, pat: string, rep: string)
    requires |pat| > 0 && |rep| <= |pat|
    ensures |ReplaceAll(s, pat, rep)| <= |s|
    decreases |s|
  {
    if |s| >= |pat| {
      if s[..|pat|] == pat {
        ReplaceShrinks(s[|pat|..], pat, rep);
      } else {
        ReplaceShrinks(s[1..], pat, rep);
      }
    }
  }

  /** The first four replacements of `#unescapeHTML`, which all leave `&amp;` alone. */
  function UnescapeNamed(s: string): string {
    var quot := ReplaceAll(s, "&quot;", "\"");
    var apos := ReplaceAll(quot, "&#039;", "'");
    var lt := ReplaceAll(apos, "&lt;", "<");
    ReplaceAll(lt, "&gt;", ">")
  }

  /** `#unescapeHTML`: `&quot;`, `&#039;`, `&lt;`, `&gt;` and, last of all, `&amp;`, each replaced everywhere. */
  function Unescape(s: string): string {
    ReplaceAll(UnescapeNamed(s), "&amp;", "&")
  }

  /** Without an `&` the pattern of each step is absent, so every step is the identity. */
  lemma ReplaceWithoutAmpersand(s: string, pat: string, rep: string)
    requires |pat| > 0 && pat[0] == '&' && '&' !in s
    ensures ReplaceAll(s, pat, rep) == s
  {
    AbsentWithoutAmpersand(s, pat);
    ReplaceAbsent(s, pat, rep);
  }

  /** A string without `&` is returned unchanged. */
  lemma UnescapePlain(s: string)
    requires '&' !in s
    ensures Unescape(s) == s
  {
    ReplaceWithoutAmpersand(s, "&quot;", "\"");
    ReplaceWithoutAmpersand(s, "&#039;", "'");
    ReplaceWithoutAmpersand(s, "&lt;", "<");
    ReplaceWithoutAmpersand(s, "&gt;", ">");
    ReplaceWithoutAmpersand(s, "&amp;", "&");
  }

  /** Unescaping never makes the markup longer. */
  lemma UnescapeShrinks(s: string)
    ensures |Unescape(s)| <= |s|
  {
    var quot := ReplaceAll(s, "&quot;", "\"");
    var apos := ReplaceAll(quot, "&#039;", "'");
    var lt := ReplaceAll(apos, "&lt;", "<");
    var gt := ReplaceAll(lt, "&gt;", ">");
    ReplaceShrinks(s, "&quot;", "\"");
    ReplaceShrinks(quot, "&#039;", "'");
    ReplaceShrinks(apos, "&lt;", "<");
    ReplaceShrinks(lt, "&gt;", ">");
    ReplaceShrinks(gt, "&amp;", "&");
  }

  /** An `&amp;` in front of `&`-free text does not start a named entity: none of the first four steps touches it. */
  lemma {:induction false} NamedStepSkipsAmp(t: string, pat: string, rep: string)
    requires |pat| > 1 && pat[0] == '&' && pat[1] != 'a' && '&' !in t
    ensures ReplaceAll("&amp;" + t, pat, rep) == "&amp;" + t
  {
    var s := "&amp;" + t;
    assert s[0] == '&' && s[1] == 'a' && s[2] == 'm' && s[3] == 'p' && s[4] == ';';
    forall i | 0 <= i <= |s| ensures !OccursAt(s, pat, i) {
      if i + |pat| <= |s| {
        if i == 0 {
          assert s[i..i + |pat|][1] == s[1];
        } else if i < 5 {
          assert s[i..i + |pat|][0] == s[i];
        } else {
          assert s[i..i + |pat|][0] == s[i] == t[i - 5];
        }
      }
    }
    ReplaceAbsent(s, pat, rep);
  }

  /**
   * Decoding is single-level: `&amp;` followed by text without `&` gives a
   * plain `&` followed by that text, so `&amp;lt;` becomes `&lt;` and not `<`.
   */
  lemma AmpersandDecodedOnce(t: string)
    requires '&' !in t
    ensures Unescape("&amp;" + t) == "&" + t
  {
    var s := "&amp;" + t;
    NamedStepSkipsAmp(t, "&quot;", "\"");
    NamedStepSkipsAmp(t, "&#039;", "'");
    NamedStepSkipsAmp(t, "&lt;", "<");
    NamedStepSkipsAmp(t, "&gt;", ">");
    assert UnescapeNamed(s) == s;
    assert s[..5] == "&amp;" && s[5..] == t;
    ReplaceWithoutAmpersand(t, "&amp;", "&");
  }

  /** The example the single-level decoding is about. */
  lemma AmpLtExample()
    ensures Unescape("&amp;lt;") == "&lt;"
  {
    AmpersandDecodedOnce("lt;");
    assert "&amp;" + "lt;" == "&amp;lt;";
  }

  /** The `value` of the `rawHtml` element read from `$rawContent`: the unescaped string, or `""` for anything else. */
  function UpcastValue(rawContent: Value): (value: string)
    ensures rawContent.Str? ==> value == Unescape(rawContent.s)
    ensures !rawContent.Str? ==> value == ""
  {
    match rawContent
    case Str(s) => Unescape(s)
    case _ => ""
  }

  /** The text content written for a `rawHtml` element: its `value`, or `""` when it has none. */
  function DowncastText(value: Option<string>): (text: string)
    ensures value.Some? ==> text == value.value
    ensures value.None? ==> text == ""
  {
    if value.Some? && value.value != "" then value.value else ""
  }

  /** Storing what was read writes back the markup unescaped once, never longer than what was read. */
  lemma UpcastDowncast(rawContent: Value)
    ensures DowncastText(Some(UpcastValue(rawContent))) == (if rawContent.Str? then Unescape(rawContent.s) else "")
    ensures rawContent.Str? ==> |DowncastText(Some(UpcastValue(rawContent)))| <= |rawContent.s|
  {
    if rawContent.Str? {
      UnescapeShrinks(rawContent.s);
    }
  }
}
