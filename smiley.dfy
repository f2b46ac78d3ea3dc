/**
 * The smiley trigger: a colon followed by a word character, as the last
 * colon of the line before the caret, places the `smiley` marker on that
 * colon.
 */
module Smiley {
  import opened Wrappers
  import opened Js
  import opened Markers

  const MarkerName := "smiley"

  /** `\w`, which already holds `_`: ASCII letters, digits and the underscore. */
  predicate IsWordChar(c: char) {
    ('a' <= c <= 'z') || ('A' <= c <= 'Z') || ('0' <= c <= '9') || c == '_'
  }

  /** `t.match(/:[\w_]+/g)` is not `null`: somewhere in `t` a colon is followed by a word character. */
  predicate HasMatch(t: string) {
    exists k :: 0 <= k < |t| - 1 && t[k] == ':' && IsWordChar(t[k + 1])
  }

  /** `getLastPosition`: the index of the last colon, when the pattern matches from just before it. */
  function GetLastPosition(text: string): (r: Option<nat>)
  {
    var lastIndex := LastIndexOf(text, ':');
    if lastIndex == -1 || !HasMatch(Substring(text, lastIndex - 1)) then None
    else Some(lastIndex as nat)
  }

  /** A trigger at `i`: the last colon of the text, followed by a word character. */
  predicate TriggerAt(text: string, i: nat) {
    && i + 1 < |text| && text[i] == ':' && IsWordChar(text[i + 1])
    && forall j :: i < j < |text| ==> text[j] != ':'
  }

  /**
   * `getLastPosition` gives `i` exactly when the last colon is at `i` and a
   * word character follows it; without a colon it is undefined.
   */
  lemma {:induction false} LastPositionIff(text: string, i: nat)
    ensures GetLastPosition(text) == Some(i) <==> TriggerAt(text, i)
  {
    var last := LastIndexOf(text, ':');
    if last >= 0 {
      var t := Substring(text, last - 1);
      var base := if last == 0 then 0 else last - 1;
      assert t == text[base..];
      if HasMatch(t) {
        var k :| 0 <= k < |t| - 1 && t[k] == ':' && IsWordChar(t[k + 1]);
        assert t[k] == text[base + k];
        assert t[k + 1] == text[base + k + 1];
        assert base + k == last;
      }
      if last + 1 < |text| && IsWordChar(text[last + 1]) {
        assert t[last - base] == ':' && t[last - base + 1] == text[last + 1];
      }
    }
    if TriggerAt(text, i) {
      assert LastIndexOf(text, ':') == i;
    }
  }

  /** The watcher's test: a last position, and the pattern matching from it. */
  predicate WatcherTest(text: string) {
    var position := GetLastPosition(text);
    position.Some? && HasMatch(Substring(text, position.value))
  }

  /** The second match in the test is implied by the first: the test holds exactly when there is a last position. */
  lemma {:induction false} WatcherTestIff(text: string)
    ensures WatcherTest(text) <==> GetLastPosition(text).Some?
  {
    var position := GetLastPosition(text);
    if position.Some? {
      var p := position.value;
      LastPositionIff(text, p);
      var t := Substring(text, p);
      assert t[0] == ':' && t[1] == text[p + 1];
    }
  }

  /**
   * The marker range as the `matched` handler computes it: offset `position`
   * of the block and one character long. The position counts from the start
   * of the matched text line, which begins at `lineStart` in the block.
   */
  function MarkerRangeAsWritten(text: string, lineStart: nat): (r: MarkerRange)
    requires GetLastPosition(text).Some?
    ensures r.end == r.start + 1
  {
    var p := GetLastPosition(text).value;
    MarkerRange(p, p + 1)
  }

  /**
   * A line after a soft break: the block holds a soft break (in this string
   * the `'\n'` at offset 0) and then the line `:a`, whose colon is at offset
   * 1. The marker computed as written lies on the soft break instead.
   */
  lemma MarkerMissesColonAfterBreak()
    ensures GetLastPosition(":a").Some?
    ensures var block, r := "\n:a", MarkerRangeAsWritten(":a", 1);
      block[1..] == ":a" && r.start == 0 && block[r.start] != ':'
  {
    LastPositionIff(":a", 0);
  }

  /** The marker range counted from the start of the line, as the emoji trigger counts it. */
  function LineMarkerRange(text: string, lineStart: nat): (r: MarkerRange)
    requires GetLastPosition(text).Some?
  {
    var p := GetLastPosition(text).value;
    MarkerRange(lineStart + p, lineStart + p + 1)
  }

  /** Wherever the line starts in its block, the marker covers exactly its last colon. */
  lemma {:induction false} MarkerCoversColon(block: string, text: string, lineStart: nat)
    requires GetLastPosition(text).Some?
    requires lineStart + |text| <= |block| && block[lineStart..lineStart + |text|] == text
    ensures var r := LineMarkerRange(text, lineStart);
      r.end == r.start + 1 && r.end <= |block| && block[r.start] == ':'
      && r.start == lineStart + LastIndexOf(text, ':')
  {
    var p := GetLastPosition(text).value;
    LastPositionIff(text, p);
    assert text[p] == ':';
    var line := block[lineStart..lineStart + |text|];
    assert block[lineStart + p] == line[p];
    assert LineMarkerRange(text, lineStart) == MarkerRange(lineStart + p, lineStart + p + 1);
  }

  /**
   * The watcher's `matched` handler: the `smiley` marker is updated when it
   * exists and added otherwise, so afterwards exactly one marker of that
   * name spans the colon. The range is `LineMarkerRange`, counted from the
   * start of the line; the block offset the handler computes as written is
   * `MarkerRangeAsWritten`.
   */
  method OnMatched(markers: MarkerCollection, text: string, lineStart: nat)
    requires WatcherTest(text)
    modifies markers
    ensures GetLastPosition(text).Some?
    ensures markers.ranges == old(markers.ranges)[MarkerName := LineMarkerRange(text, lineStart)]
  {
    WatcherTestIff(text);
    markers.Put(MarkerName, LineMarkerRange(text, lineStart));
  }
}
