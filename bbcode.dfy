/**
 * The BBCode toolbar buttons: for every configured BBCode a button
 * `woltlabBbcode_<name>` is registered that runs `insertBbcode` with that
 * name; its label is its text, or a Font Awesome `<fa-icon>` when an icon is
 * configured as `name` or `name;true` (solid).
 */
module Bbcode {
  import opened Wrappers
  import opened Js
  import opened ModelText
  import opened BbcodeCommand

  /** An entry of the `woltlabBbcode` configuration; an empty `icon` counts as none. */
  datatype ButtonConfig = ButtonConfig(icon: Option<string>, name: string, labelText: string)

  /** The `<fa-icon>` label template: its `name` attribute and whether `solid="true"` is set. */
  datatype IconTemplate = IconTemplate(attributes: map<string, string>)

  /** The button a registered factory creates. `icon` is its label template, `None` for the text label. */
  datatype Button = Button(labelText: string, tooltip: bool, withText: bool, icon: Option<IconTemplate>, bbcode: string)

  /** The first `;` of `s`, or `|s|` when there is none. */
  function FirstSemicolon(s: string): (r: nat)
    ensures r <= |s| && ';' !in s[..r]
    ensures r < |s| ==> s[r] == ';'
  {
    if |s| == 0 || s[0] == ';' then 0 else 1 + FirstSemicolon(s[1..])
  }

  /** `const [iconName, useSolid] = icon.split(";", 2)`, with `useSolid` undefined for an icon without `;`. */
  function IconParts(icon: string): (parts: (string, Option<string>))
  {
    var pieces := Split(icon, ';', 2);
    (pieces[0], if |pieces| >= 2 then Some(pieces[1]) else None)
  }

  /** The template for a configured icon: always the name, and `solid` exactly when the second piece is `"true"`. */
  function IconTemplateFor(icon: string): (t: IconTemplate)
  {
    var (iconName, useSolid) := IconParts(icon);
    IconTemplate(map["name" := iconName] + (if useSolid == Some("true") then map["solid" := "true"] else map[]))
  }

  /** The split of `[c] + s` at its separators, when `c` is none of them. */
  lemma {:induction false} SplitAllCons(c: char, s: string, sep: char)
    requires c != sep
    ensures SplitAll([c] + s, sep) == [[c] + SplitAll(s, sep)[0]] + SplitAll(s, sep)[1..]
  {
    assert ([c] + s)[1..] == s;
  }

  /**
   * The first piece ends at the first `;`; a second piece exists exactly
   * when there is a `;`, and runs to the next `;` or the end.
   */
  lemma {:induction false} SplitPieces(s: string)
    ensures SplitAll(s, ';')[0] == s[..FirstSemicolon(s)]
    ensures |SplitAll(s, ';')| >= 2 <==> FirstSemicolon(s) < |s|
    ensures FirstSemicolon(s) < |s| ==> SplitAll(s, ';')[1] == SplitAll(s[FirstSemicolon(s) + 1..], ';')[0]
    decreases |s|
  {
    if |s| > 0 {
      if s[0] == ';' {
        assert SplitAll(s, ';') == [""] + SplitAll(s[1..], ';');
      } else {
        SplitPieces(s[1..]);
        SplitAllCons(s[0], s[1..], ';');
        assert s == [s[0]] + s[1..];
        assert s[..FirstSemicolon(s)] == [s[0]] + s[1..][..FirstSemicolon(s[1..])];
        if FirstSemicolon(s) < |s| {
          assert s[FirstSemicolon(s) + 1..] == s[1..][FirstSemicolon(s[1..]) + 1..];
        }
      }
    }
  }

  /**
   * The icon name is the text before the first `;`; the icon is solid
   * exactly when there is a `;` and the text after it, up to a further `;`,
   * is `true`.
   */
  lemma {:induction false} IconNameAndSolid(icon: string)
    ensures IconTemplateFor(icon).attributes["name"] == icon[..FirstSemicolon(icon)]
    ensures "solid" in IconTemplateFor(icon).attributes <==>
      FirstSemicolon(icon) < |icon| && SplitAll(icon[FirstSemicolon(icon) + 1..], ';')[0] == "true"
    ensures IconTemplateFor(icon).attributes.Keys <= {"name", "solid"}
  {
    SplitPieces(icon);
    var all, pieces := SplitAll(icon, ';'), Split(icon, ';', 2);
    assert pieces[0] == all[0];
    assert |pieces| >= 2 <==> |all| >= 2;
    if |pieces| >= 2 {
      assert pieces[1] == all[1];
    }
  }

  /** The button for a configuration entry; without an icon its text label is kept. */
  function ButtonFor(item: ButtonConfig): (b: Button)
    ensures b.bbcode == item.name && b.labelText == item.labelText && b.tooltip && b.withText
    ensures item.icon.None? || item.icon == Some("") ==> b.icon.None?
    ensures item.icon.Some? && item.icon.value != "" ==> b.icon == Some(IconTemplateFor(item.icon.value))
  {
    var icon := if item.icon.Some? && item.icon.value != "" then Some(IconTemplateFor(item.icon.value)) else None;
    Button(item.labelText, true, true, icon, item.name)
  }

  /** The component name of a configured BBCode. */
  function ComponentName(name: string): string {
    "woltlabBbcode_" + name
  }

  lemma ComponentNameInjective(a: string, b: string)
    requires ComponentName(a) == ComponentName(b)
    ensures a == b
  {
    var prefix := "woltlabBbcode_";
    assert a == ComponentName(a)[|prefix|..];
    assert b == ComponentName(b)[|prefix|..];
  }

  /** The UI's component factory: the buttons registered so far, by name. */
  class ComponentFactory {
    var components: map<string, Button>

    constructor ()
      ensures components == map[]
    {
      components := map[];
    }

    /**
     * `componentFactory.add(name, callback)`: the button is registered under
     * the name, replacing an earlier registration of the same name.
     */
    method Add(name: string, button: Button)
      modifies this
      ensures components == old(components)[name := button]
    {
      components := components[name := button];
    }
  }

  /** The components after registering the buttons of `items` one by one into `base`. */
  function Registered(base: map<string, Button>, items: seq<ButtonConfig>): map<string, Button>
  {
    if |items| == 0 then base
    else Registered(base, items[..|items| - 1])[ComponentName(items[|items| - 1].name) := ButtonFor(items[|items| - 1])]
  }

  /** No entry's component name is taken, neither beforehand nor by an earlier entry. */
  predicate Fresh(base: map<string, Button>, items: seq<ButtonConfig>) {
    && (forall i :: 0 <= i < |items| ==> ComponentName(items[i].name) !in base)
    && (forall i, j :: 0 <= i < j < |items| ==> items[i].name != items[j].name)
  }

  /** The names registered for `items`: exactly their component names on top of `base`. */
  lemma {:induction false} RegisteredKeys(base: map<string, Button>, items: seq<ButtonConfig>)
    ensures forall n :: n in Registered(base, items) <==> n in base || exists i :: 0 <= i < |items| && n == ComponentName(items[i].name)
  {
    if |items| > 0 {
      var init := items[..|items| - 1];
      RegisteredKeys(base, init);
      forall n | n in Registered(base, items) ensures n in base || exists i :: 0 <= i < |items| && n == ComponentName(items[i].name) {
        if n != ComponentName(items[|items| - 1].name) && n !in base {
          var i :| 0 <= i < |init| && n == ComponentName(init[i].name);
          assert items[i] == init[i];
        }
      }
      forall n | n in base || exists i :: 0 <= i < |items| && n == ComponentName(items[i].name) ensures n in Registered(base, items) {
        if n !in base && n != ComponentName(items[|items| - 1].name) {
          var i :| 0 <= i < |items| && n == ComponentName(items[i].name);
          assert i < |init| && init[i] == items[i];
        }
      }
    }
  }

  /** With fresh names, every entry gets its own button and there is one new component per entry. */
  lemma {:induction false} RegisteredButtons(base: map<string, Button>, items: seq<ButtonConfig>)
    requires Fresh(base, items)
    ensures forall i :: 0 <= i < |items| ==>
      ComponentName(items[i].name) in Registered(base, items) && Registered(base, items)[ComponentName(items[i].name)] == ButtonFor(items[i])
    ensures forall n :: n in base ==> n in Registered(base, items) && Registered(base, items)[n] == base[n]
    ensures |Registered(base, items)| == |base| + |items|
  {
    if |items| > 0 {
      var init := items[..|items| - 1];
      FreshPrefix(base, items);
      RegisteredButtons(base, init);
      assert items[..|items| - 1 + 1] == items;
      NextNameFree(base, items, |items| - 1);
      RegisteredStep(base, items, init);
    }
  }

  lemma {:induction false} FreshPrefix(base: map<string, Button>, items: seq<ButtonConfig>)
    requires |items| > 0 && Fresh(base, items)
    ensures Fresh(base, items[..|items| - 1])
  {
    var init := items[..|items| - 1];
    forall i | 0 <= i < |init| ensures init[i] == items[i] {
    }
  }

  /** Registering the last entry under a free name keeps the buttons of the entries before it. */
  lemma {:induction false} RegisteredStep(base: map<string, Button>, items: seq<ButtonConfig>, init: seq<ButtonConfig>)
    requires |items| > 0 && init == items[..|items| - 1] && Fresh(base, items)
    requires ComponentName(items[|items| - 1].name) !in Registered(base, init)
    requires forall i :: 0 <= i < |init| ==>
      ComponentName(init[i].name) in Registered(base, init) && Registered(base, init)[ComponentName(init[i].name)] == ButtonFor(init[i])
    requires forall n :: n in base ==> n in Registered(base, init) && Registered(base, init)[n] == base[n]
    requires |Registered(base, init)| == |base| + |init|
    ensures forall i :: 0 <= i < |items| ==>
      ComponentName(items[i].name) in Registered(base, items) && Registered(base, items)[ComponentName(items[i].name)] == ButtonFor(items[i])
    ensures forall n :: n in base ==> n in Registered(base, items) && Registered(base, items)[n] == base[n]
    ensures |Registered(base, items)| == |base| + |items|
  {
    var last := items[|items| - 1];
    var before := Registered(base, init);
    assert Registered(base, items) == before[ComponentName(last.name) := ButtonFor(last)];
    forall i | 0 <= i < |items|
      ensures ComponentName(items[i].name) in Registered(base, items) && Registered(base, items)[ComponentName(items[i].name)] == ButtonFor(items[i])
    {
      if i < |init| {
        assert items[i] == init[i];
        if ComponentName(items[i].name) == ComponentName(last.name) {
          ComponentNameInjective(items[i].name, last.name);
        }
      }
    }
  }

  /**
   * An entry that no later entry repeats has its button registered under
   * its name: with a repeated name, the last entry's button wins.
   */
  lemma {:induction false} RegisteredLastWins(base: map<string, Button>, items: seq<ButtonConfig>, i: nat)
    requires i < |items|
    requires forall j :: i < j < |items| ==> items[j].name != items[i].name
    ensures ComponentName(items[i].name) in Registered(base, items)
    ensures Registered(base, items)[ComponentName(items[i].name)] == ButtonFor(items[i])
    decreases |items|
  {
    var last := |items| - 1;
    if i < last {
      var init := items[..last];
      assert init[i] == items[i];
      forall j | i < j < |init| ensures init[j].name != init[i].name {
        assert init[j] == items[j];
      }
      RegisteredLastWins(base, init, i);
      if ComponentName(items[last].name) == ComponentName(items[i].name) {
        ComponentNameInjective(items[last].name, items[i].name);
      }
    }
  }

  /** A component whose name no entry takes keeps its registration. */
  lemma {:induction false} RegisteredKeepsOthers(base: map<string, Button>, items: seq<ButtonConfig>, n: string)
    requires n in base && forall j :: 0 <= j < |items| ==> ComponentName(items[j].name) != n
    ensures n in Registered(base, items) && Registered(base, items)[n] == base[n]
    decreases |items|
  {
    if |items| > 0 {
      var init := items[..|items| - 1];
      forall j | 0 <= j < |init| ensures ComponentName(init[j].name) != n {
        assert init[j] == items[j];
      }
      RegisteredKeepsOthers(base, init, n);
    }
  }

  /**
   * `init`: without a `woltlabBbcode` configuration nothing is registered;
   * otherwise the `insertBbcode` command is, and then one button per entry
   * in order.
   */
  method Init(factory: ComponentFactory, options: Option<seq<ButtonConfig>>) returns (command: Option<Command>)
    modifies factory
    ensures options.None? ==> command.None? && factory.components == old(factory.components)
    ensures options.Some? ==> command.Some? && fresh(command.value) && !command.value.isEnabled
    ensures options.Some? ==> factory.components == Registered(old(factory.components), options.value)
  {
    if options.None? {
      return None;
    }
    var c := new Command();
    command := Some(c);
    var items := options.value;
    ghost var base := factory.components;
    var k := 0;
    while k < |items|
      invariant k <= |items| && !c.isEnabled
      invariant factory.components == Registered(base, items[..k])
    {
      assert items[..k + 1][..k] == items[..k];
      factory.Add(ComponentName(items[k].name), ButtonFor(items[k]));
      k := k + 1;
    }
    assert items[..k] == items;
  }

  /** Among fresh entries, the name of entry `k` is not registered by the entries before it. */
  lemma {:induction false} NextNameFree(base: map<string, Button>, items: seq<ButtonConfig>, k: nat)
    requires k < |items| && Fresh(base, items[..k + 1])
    ensures ComponentName(items[k].name) !in Registered(base, items[..k])
  {
    RegisteredKeys(base, items[..k]);
    forall i | 0 <= i < k ensures ComponentName(items[k].name) != ComponentName(items[..k][i].name) {
      assert items[..k + 1][i] == items[..k][i] && items[..k + 1][k] == items[k];
      if ComponentName(items[k].name) == ComponentName(items[..k][i].name) {
        ComponentNameInjective(items[k].name, items[..k][i].name);
      }
    }
    assert items[..k + 1][k] == items[k];
  }

  /** A button's `execute`: `editor.execute("insertBbcode", name)`, which does nothing while the command is disabled. */
  method Press(button: Button, command: Command, buffer: TextBuffer, prevented: bool)
    requires buffer.Valid()
    modifies buffer
    ensures buffer.Valid()
    ensures !command.isEnabled || prevented ==> unchanged(buffer)
    ensures command.isEnabled && !prevented ==>
      buffer.text == Tagged(old(buffer.text), old(buffer.selectionStart), old(buffer.selectionEnd), button.bbcode)
  {
    if command.isEnabled {
      command.Execute(buffer, button.bbcode, prevented);
    }
  }
}
