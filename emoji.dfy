/**
 * The emoji autocompletion: typing `:` after a space or an opening
 * punctuation mark, followed by a lower-case code, places the `emoji`
 * marker on the colon, searches the emoji database for the code and lists
 * at most ten results in a balloon next to the caret.
 */
module Emoji {
  import opened Wrappers
  import opened Js
  import opened Markers

  const MarkerName := "emoji"

  /** The list shows no more than this many results. */
  const MaxListed := 10

  predicate IsLowerLetter(c: char) {
    'a' <= c <= 'z'
  }

  /** The language of `[a-z]+(?:_[a-z]+)*`: lower-case words joined by single underscores. */
  predicate IsCode(s: string) {
    && |s| > 0 && IsLowerLetter(s[0]) && IsLowerLetter(s[|s| - 1])
    && (forall i :: 0 <= i < |s| ==> IsLowerLetter(s[i]) || s[i] == '_')
    && (forall i :: 0 <= i && i + 1 < |s| && s[i] == '_' ==> s[i + 1] != '_')
  }

  lemma CodeHasNoColon(s: string)
    requires IsCode(s)
    ensures ':' !in s
  {
    forall i | 0 <= i < |s| ensures s[i] != ':' {
      assert IsLowerLetter(s[i]) || s[i] == '_';
    }
  }

  /** The opening punctuation used when the engine has no Unicode property escapes: `(`, `[` and `{`. */
  const FallbackOpeners: set<char> := {'(', '[', '{'}

  /**
   * `getRegexExp()` reduced to what varies: the characters that may stand
   * right before the colon. These are a space, the opening punctuation and
   * the two quotes. `openPunctuation` is the set of the Unicode categories
   * `Ps` and `Pi`, used when the engine supports property escapes.
   */
  function LeadingCharacters(unicodePropertySupported: bool, openPunctuation: set<char>): (lead: set<char>)
    ensures ' ' in lead && '"' in lead && '\'' in lead
    ensures lead == {' ', '"', '\''} + (if unicodePropertySupported then openPunctuation else FallbackOpeners)
  {
    {' '} + (if unicodePropertySupported then openPunctuation else FallbackOpeners) + {'"', '\''}
  }

  /**
   * The pattern `(?:^|[lead])(:)([a-z]+(?:_[a-z]+)*)$` has a match starting at
   * index `m` of `t`: the empty alternative at the very start, or one
   * leading character, then the colon and a code running to the end.
   */
  predicate MatchAt(t: string, lead: set<char>, m: nat) {
    || (m == 0 && |t| > 0 && t[0] == ':' && IsCode(t[1..]))
    || (m + 1 < |t| && t[m] in lead && t[m + 1] == ':' && IsCode(t[m + 2..]))
  }

  /** The leftmost start at or after `from` of a match, as `String.prototype.match` finds it. */
  function FirstMatch(t: string, lead: set<char>, from: nat): (r: Option<nat>)
    ensures r.Some? ==> from <= r.value < |t| && MatchAt(t, lead, r.value)
    ensures r.Some? ==> forall m :: from <= m < r.value ==> !MatchAt(t, lead, m)
    ensures r.None? ==> forall m :: from <= m < |t| ==> !MatchAt(t, lead, m)
    decreases |t| - from
  {
    if from >= |t| then None
    else if MatchAt(t, lead, from) then Some(from)
    else FirstMatch(t, lead, from + 1)
  }

  /** `t.match(pattern)[0]`: the text of the leftmost match, which always runs to the end. */
  function MatchedText(t: string, lead: set<char>): (r: Option<string>)
    ensures r.Some? <==> FirstMatch(t, lead, 0).Some?
    ensures r.Some? ==> r.value == t[FirstMatch(t, lead, 0).value..]
  {
    var m := FirstMatch(t, lead, 0);
    if m.None? then None else Some(t[m.value..])
  }

  /** `getLastPosition`: the index of the last colon when the text before the caret ends in a trigger there. */
  function GetLastPosition(text: string, lead: set<char>): (r: Option<nat>)
  {
    var lastIndex := LastIndexOf(text, ':');
    if lastIndex == -1 || FirstMatch(Substring(text, lastIndex - 1), lead, 0).None? then None
    else Some(lastIndex as nat)
  }

  /**
   * A trigger at `i`: a colon at the start of the text or after a leading
   * character, and a code from there to the end of the text.
   */
  predicate TriggerAt(text: string, lead: set<char>, i: nat) {
    && i < |text| && text[i] == ':'
    && (i == 0 || text[i - 1] in lead)
    && IsCode(text[i + 1..])
  }

  /** A trigger is always at the last colon of the text. */
  lemma TriggerIsLastColon(text: string, lead: set<char>, i: nat)
    requires TriggerAt(text, lead, i)
    ensures LastIndexOf(text, ':') == i
  {
    CodeHasNoColon(text[i + 1..]);
    forall j | i < j < |text| ensures text[j] != ':' {
      assert text[j] == text[i + 1..][j - i - 1];
    }
  }

  /**
   * `getLastPosition` gives `i` exactly when there is a trigger at `i`; so it
   * is undefined without a colon and, when defined, it is the last colon.
   */
  lemma {:induction false} LastPositionIff(text: string, lead: set<char>, i: nat)
    ensures GetLastPosition(text, lead) == Some(i) <==> TriggerAt(text, lead, i)
  {
    if TriggerAt(text, lead, i) {
      TriggerIsLastColon(text, lead, i);
      LastColonMatch(text, lead);
    }
    if GetLastPosition(text, lead) == Some(i) {
      assert LastIndexOf(text, ':') == i;
      LastColonMatch(text, lead);
    }
  }

  /** The pattern matches the text from just before the last colon exactly when the last colon is a trigger. */
  lemma {:induction false} LastColonMatch(text: string, lead: set<char>)
    requires LastIndexOf(text, ':') >= 0
    ensures FirstMatch(Substring(text, LastIndexOf(text, ':') - 1), lead, 0).Some?
        <==> TriggerAt(text, lead, LastIndexOf(text, ':'))
  {
    var i := LastIndexOf(text, ':');
    var t := Substring(text, i - 1);
    if i == 0 {
      assert t == text;
      forall m | 0 < m < |t| ensures !MatchAt(t, lead, m) {
        assert m + 1 >= |t| || t[m + 1] != ':';
      }
      if t[1..] != [] {
        assert t[1] != ':';
      }
      assert MatchAt(t, lead, 0) <==> TriggerAt(text, lead, 0);
    } else {
      assert t == text[i - 1..];
      assert t[1] == ':';
      forall m | 0 < m < |t| ensures !MatchAt(t, lead, m) {
        if m + 1 < |t| {
          assert t[m + 1] == text[i + m];
        }
      }
      assert t[1..][0] == ':';
      assert t[2..] == text[i + 1..];
      assert MatchAt(t, lead, 0) <==> TriggerAt(text, lead, i);
    }
  }

  /**
   * The code searched for after a match: the pattern applied from the colon
   * matches the colon and the code, and the code is that match without its
   * colon, the rest of the text.
   */
  lemma {:induction false} MatchedCode(text: string, lead: set<char>, p: nat)
    requires GetLastPosition(text, lead) == Some(p)
    ensures MatchedText(Substring(text, p), lead) == Some(text[p..])
    ensures Substring(text[p..], 1) == text[p + 1..] && IsCode(text[p + 1..])
  {
    LastPositionIff(text, lead, p);
    var t := Substring(text, p);
    assert t[0] == ':' && t[1..] == text[p + 1..];
    assert MatchAt(t, lead, 0);
  }

  /**
   * With the leading characters of `getRegexExp()`, a colon followed by a
   * code at the end of the text triggers exactly when the character before
   * it is one of them: after a space or a quote always, after `(` always
   * when the engine has no property escapes, and after a letter or a digit
   * never, since the categories `Ps` and `Pi` hold none.
   */
  lemma {:induction false} ColonAfter(unicodePropertySupported: bool, openPunctuation: set<char>,
                                      before: string, c: char, code: string)
    requires IsCode(code)
    ensures var lead := LeadingCharacters(unicodePropertySupported, openPunctuation);
      GetLastPosition(before + [c, ':'] + code, lead) == if c in lead then Some(|before| + 1) else None
  {
    var lead := LeadingCharacters(unicodePropertySupported, openPunctuation);
    var text := before + [c, ':'] + code;
    var i := |before| + 1;
    assert text[i + 1..] == code && text[i] == ':' && text[i - 1] == c;
    LastPositionIff(text, lead, i);
    if GetLastPosition(text, lead).Some? {
      var j := GetLastPosition(text, lead).value;
      LastPositionIff(text, lead, j);
      TriggerIsLastColon(text, lead, j);
      CodeHasNoColon(code);
      assert text[i..][1..] == code;
      assert j == i;
    }
  }

  /** `a:smile` never opens the list, nor does any code right after a letter or a digit: `Ps` and `Pi` hold none. */
  lemma NoTriggerAfterLetter(unicodePropertySupported: bool, openPunctuation: set<char>,
                             before: string, c: char, code: string)
    requires forall x :: x in openPunctuation ==> !('a' <= x <= 'z' || 'A' <= x <= 'Z' || '0' <= x <= '9')
    requires 'a' <= c <= 'z' || 'A' <= c <= 'Z' || '0' <= c <= '9'
    requires IsCode(code)
    ensures GetLastPosition(before + [c, ':'] + code, LeadingCharacters(unicodePropertySupported, openPunctuation)) == None
  {
    ColonAfter(unicodePropertySupported, openPunctuation, before, c, code);
  }

  /** ` :smile` always opens the list at the colon, and so does `(:smile` without property escapes. */
  lemma TriggerAfterSpaceOrOpener(unicodePropertySupported: bool, openPunctuation: set<char>, before: string, code: string)
    requires IsCode(code)
    ensures GetLastPosition(before + [' ', ':'] + code, LeadingCharacters(unicodePropertySupported, openPunctuation))
      == Some(|before| + 1)
    ensures GetLastPosition(before + ['(', ':'] + code, LeadingCharacters(false, openPunctuation)) == Some(|before| + 1)
  {
    ColonAfter(unicodePropertySupported, openPunctuation, before, ' ', code);
    ColonAfter(false, openPunctuation, before, '(', code);
  }

  /** A balloon position around the caret: south or north, east or west. */
  datatype BalloonPosition = CaretSe | CaretSw | CaretNe | CaretNw

  function PositionName(p: BalloonPosition): string {
    match p
    case CaretSe => "caret_se"
    case CaretSw => "caret_sw"
    case CaretNe => "caret_ne"
    case CaretNw => "caret_nw"
  }

  /** The position of that name among the four, as `hasOwnProperty` on the table tests it; the missing name `undefined` is none. */
  function PositionNamed(name: Option<string>): (r: Option<BalloonPosition>)
    ensures r.Some? ==> name == Some(PositionName(r.value))
    ensures r.None? ==> forall p: BalloonPosition :: name != Some(PositionName(p))
  {
    if name == Some("caret_se") then Some(CaretSe)
    else if name == Some("caret_sw") then Some(CaretSw)
    else if name == Some("caret_ne") then Some(CaretNe)
    else if name == Some("caret_nw") then Some(CaretNw)
    else None
  }

  /** The same position seen from the other side: east and west exchanged. */
  function Mirror(p: BalloonPosition): BalloonPosition {
    match p
    case CaretSe => CaretSw
    case CaretSw => CaretSe
    case CaretNe => CaretNw
    case CaretNw => CaretNe
  }

  predicate IsSouth(p: BalloonPosition) {
    p.CaretSe? || p.CaretSw?
  }

  /** `getBalloonPanelPositions`: the preferred position alone when it is one of the four, else all four by direction. */
  function GetBalloonPanelPositions(preferredPosition: Option<string>, uiLanguageDirection: string): (r: seq<BalloonPosition>)
  {
    var preferred := PositionNamed(preferredPosition);
    if preferred.Some? then [preferred.value]
    else if uiLanguageDirection != "rtl" then [CaretSe, CaretSw, CaretNe, CaretNw]
    else [CaretSw, CaretSe, CaretNw, CaretNe]
  }

  /** A matched preferred position is kept alone, so the panel does not jump to another one. */
  lemma PreferredPositionOnly(preferredPosition: Option<string>, uiLanguageDirection: string, p: BalloonPosition)
    requires preferredPosition == Some(PositionName(p))
    ensures GetBalloonPanelPositions(preferredPosition, uiLanguageDirection) == [p]
  {
  }

  /**
   * Without a matching preferred position all four positions are offered,
   * each once, south before north; left-to-right text starts south-east,
   * and right-to-left text uses the left-to-right order mirrored.
   */
  lemma DefaultPositions(preferredPosition: Option<string>, uiLanguageDirection: string)
    requires forall p: BalloonPosition :: preferredPosition != Some(PositionName(p))
    ensures |GetBalloonPanelPositions(preferredPosition, uiLanguageDirection)| == 4
    ensures forall p: BalloonPosition :: p in GetBalloonPanelPositions(preferredPosition, uiLanguageDirection)
    ensures var r := GetBalloonPanelPositions(preferredPosition, uiLanguageDirection);
      && IsSouth(r[0]) && IsSouth(r[1]) && !IsSouth(r[2]) && !IsSouth(r[3])
      && (uiLanguageDirection != "rtl" ==> r[0] == CaretSe)
      && (uiLanguageDirection == "rtl" ==> forall i :: 0 <= i < 4 ==> r[i] == Mirror(GetBalloonPanelPositions(preferredPosition, "ltr")[i]))
  {
    assert PositionNamed(preferredPosition).None?;
    var r := GetBalloonPanelPositions(preferredPosition, uiLanguageDirection);
    forall p: BalloonPosition ensures p in r {
      if uiLanguageDirection != "rtl" {
        assert r == [CaretSe, CaretSw, CaretNe, CaretNw];
      } else {
        assert r == [CaretSw, CaretSe, CaretNw, CaretNe];
      }
      match p
      case CaretSe => assert r[0] == p || r[1] == p;
      case CaretSw => assert r[0] == p || r[1] == p;
      case CaretNe => assert r[2] == p || r[3] == p;
      case CaretNw => assert r[2] == p || r[3] == p;
    }
  }

  const KeyTab := 9
  const KeyEnter := 13
  const KeyEsc := 27
  const KeyArrowUp := 38
  const KeyArrowDown := 40

  const CommitKeyCodes: seq<int> := [KeyEnter, KeyTab]
  const HandledKeyCodes: seq<int> := [KeyArrowUp, KeyArrowDown, KeyEsc] + CommitKeyCodes

  /** `isHandledKey`: the key is one in the list the balloon reacts to. */
  function IsHandledKey(keyCode: int): bool {
    keyCode in HandledKeyCodes
  }

  /** An entry of the result list: the emoji's annotation and its character. */
  datatype EmojiItem = EmojiItem(id: string, text: string)

  /** An emoji the database search yields: a Unicode emoji, or a custom one without a character. */
  datatype SearchResult = UnicodeEmoji(annotation: string, unicode: string) | CustomEmoji(name: string)

  /** The entries the search results become: one per Unicode emoji, in order; custom emojis are skipped. */
  function UnicodeItems(results: seq<SearchResult>): (r: seq<EmojiItem>)
    ensures |r| <= |results|
    ensures (forall i :: 0 <= i < |results| ==> results[i].UnicodeEmoji?) ==> |r| == |results|
    ensures (forall i :: 0 <= i < |results| ==> results[i].CustomEmoji?) ==> r == []
  {
    if |results| == 0 then []
    else
      var init := UnicodeItems(results[..|results| - 1]);
      var last := results[|results| - 1];
      if last.UnicodeEmoji? then init + [EmojiItem(last.annotation, last.unicode)] else init
  }

  lemma UnicodeItemsStep(results: seq<SearchResult>, k: nat)
    requires k < |results|
    ensures UnicodeItems(results[..k + 1]) == UnicodeItems(results[..k])
      + (if results[k].UnicodeEmoji? then [EmojiItem(results[k].annotation, results[k].unicode)] else [])
  {
    assert results[..k + 1][..k] == results[..k];
  }

  /** The list view bound to `items`: the view factory declines every entry once ten are shown. */
  function Listed(items: seq<EmojiItem>): (r: seq<EmojiItem>)
    ensures |r| <= MaxListed
  {
    if |items| <= MaxListed then items else items[..MaxListed]
  }

  /** Adding an entry shows it exactly when fewer than ten are shown. */
  lemma ListedAppend(items: seq<EmojiItem>, item: EmojiItem)
    ensures Listed(items + [item]) == if |Listed(items)| < MaxListed then Listed(items) + [item] else Listed(items)
  {
    if |items| > MaxListed {
      assert (items + [item])[..MaxListed] == items[..MaxListed];
    }
  }

  /** The shown entries are the first entries, all of them up to ten. */
  lemma ListedPrefix(items: seq<EmojiItem>)
    ensures |Listed(items)| == if |items| < MaxListed then |items| else MaxListed
    ensures forall i :: 0 <= i < |Listed(items)| ==> Listed(items)[i] == items[i]
  {
  }

  /** The plugin's state: the result entries, the list view showing them and whether the balloon shows the list. */
  class EmojiUi {
    var items: seq<EmojiItem>
    var listed: seq<EmojiItem>
    var visible: bool

    predicate Valid()
      reads this
    {
      listed == Listed(items)
    }

    constructor ()
      ensures Valid() && items == [] && !visible
    {
      items, listed, visible := [], [], false;
    }

    /** `#items.add(...)`, with the bound list view adding the entry while fewer than ten are shown. */
    method AddItem(item: EmojiItem)
      requires Valid()
      modifies this
      ensures Valid() && items == old(items) + [item] && visible == old(visible)
      ensures listed == if |old(listed)| < MaxListed then old(listed) + [item] else old(listed)
    {
      ListedAppend(items, item);
      items := items + [item];
      if |listed| < MaxListed {
        listed := listed + [item];
      }
    }

    /** `#hideBalloon`: the list leaves the balloon and the marker is removed when it exists. */
    method HideBalloon(markers: MarkerCollection)
      modifies this, markers
      ensures !visible && items == old(items) && listed == old(listed)
      ensures markers.ranges == old(markers.ranges) - {MarkerName}
    {
      visible := false;
      markers.RemoveIfPresent(MarkerName);
    }

    /** `#showBalloon`: without the marker the balloon is hidden instead; positioning is not modelled. */
    method ShowBalloon(markers: MarkerCollection)
      modifies this, markers
      ensures items == old(items) && listed == old(listed)
      ensures visible <==> MarkerName in old(markers.ranges)
      ensures markers.ranges == old(markers.ranges) - (if visible then {} else {MarkerName})
    {
      if !markers.Has(MarkerName) {
        HideBalloon(markers);
      } else {
        visible := true;
      }
    }

    /**
     * The watcher's `matched` handler for the text of the line up to the
     * caret, which starts at offset `lineStart` of its block: the marker is
     * put on the colon, the entries are cleared and the code to search for
     * is returned (the search itself runs elsewhere).
     */
    method OnMatched(markers: MarkerCollection, text: string, lineStart: nat, lead: set<char>) returns (query: string)
      requires GetLastPosition(text, lead).Some?
      modifies this, markers
      ensures Valid() && items == [] && visible == old(visible)
      ensures var p := GetLastPosition(text, lead).value;
        && markers.ranges == old(markers.ranges)[MarkerName := MarkerRange(lineStart + p, lineStart + p + 1)]
        && query == text[p + 1..]
      ensures IsCode(query) && query == text[|text| - |query|..]
    {
      var position := GetLastPosition(text, lead).value;
      MatchedCode(text, lead, position);
      var emojiCode := MatchedText(Substring(text, position), lead).value;
      assert emojiCode == text[position..];
      var start := lineStart + position;
      markers.Put(MarkerName, MarkerRange(start, start + 1));
      items, listed := [], [];
      query := Substring(emojiCode, 1);
      assert query == text[position + 1..] && |text| - |query| == position + 1;
    }

    /**
     * When the search is done: each Unicode emoji becomes an entry, and the
     * balloon is shown when there are entries and hidden otherwise.
     */
    method OnSearchDone(markers: MarkerCollection, results: seq<SearchResult>)
      requires Valid()
      modifies this, markers
      ensures Valid() && items == old(items) + UnicodeItems(results)
      ensures visible <==> |items| > 0 && MarkerName in old(markers.ranges)
      ensures markers.ranges == old(markers.ranges) - (if visible then {} else {MarkerName})
    {
      var k := 0;
      while k < |results|
        invariant k <= |results| && Valid()
        invariant items == old(items) + UnicodeItems(results[..k])
        invariant markers.ranges == old(markers.ranges)
      {
        UnicodeItemsStep(results, k);
        if results[k].UnicodeEmoji? {
          AddItem(EmojiItem(results[k].annotation, results[k].unicode));
        }
        k := k + 1;
      }
      assert results[..k] == results;
      if |items| > 0 {
        ShowBalloon(markers);
      } else {
        HideBalloon(markers);
      }
    }

    /**
     * The key handler: with the list showing, a handled key is consumed
     * (the default is prevented); enter and tab execute the selected entry,
     * whose `execute` handler hides the balloon before inserting the emoji,
     * and escape hides the balloon. The arrow keys only move the selection
     * in the list, which is not modelled, and neither is the insertion.
     */
    method OnKeyDown(markers: MarkerCollection, keyCode: int) returns (prevented: bool)
      modifies this, markers
      ensures prevented <==> IsHandledKey(keyCode) && old(visible)
      ensures items == old(items) && listed == old(listed)
      ensures prevented && (keyCode == KeyEsc || keyCode in CommitKeyCodes) ==>
        !visible && markers.ranges == old(markers.ranges) - {MarkerName}
      ensures !(prevented && (keyCode == KeyEsc || keyCode in CommitKeyCodes)) ==>
        visible == old(visible) && markers.ranges == old(markers.ranges)
    {
      prevented := IsHandledKey(keyCode) && visible;
      if prevented && keyCode in CommitKeyCodes {
        // executeSelected(): the `execute` handler of the list
        HideBalloon(markers);
      }
      if prevented && keyCode == KeyEsc {
        HideBalloon(markers);
      }
    }
  }

  /** The list never shows more than ten entries, whatever the search returned. */
  lemma ListedAtMostTen(ui: EmojiUi)
    requires ui.Valid()
    ensures |ui.listed| <= MaxListed
    ensures forall i :: 0 <= i < |ui.listed| ==> ui.listed[i] == ui.items[i]
  {
    ListedPrefix(ui.items);
  }
}
