/**
 * The literal fallback for BBCodes the editor has no plugin for: a
 * `<woltlab-metacode data-name data-attributes>` element becomes the text
 * `[name=…]` followed by `[/name]`. The attribute payload is base64 over the
 * JSON text of an array of values.
 */
module Metacode {
  import opened Wrappers
  import opened Numbers
  import opened Js
  import opened Json
  import opened JsonFacts
  import opened Base64
  import opened ModelText

  /** The template literal `${v}` for a value `JSON.parse` can return; an array is its elements joined with "," and null inside it is empty. */
  function TemplateString(v: Json): string
    decreases v, 1
  {
    match v
    case Null => "null"
    case Boolean(b) => if b then "true" else "false"
    case Number(n) => NumberToString(n)
    case String(s) => s
    case Array(items) => Join(ElementStrings(v, items), ",")
    case Object(_) => "[object Object]"
  }

  /** The pieces `Array.prototype.toString` joins: null elements become "". */
  function ElementStrings(parent: Json, items: seq<Json>): (r: seq<string>)
    requires forall k | 0 <= k < |items| :: items[k] < parent
    ensures |r| == |items|
    decreases parent, 0, |items|
  {
    if |items| == 0 then []
    else [if items[0].Null? then "" else TemplateString(items[0])] + ElementStrings(parent, items[1..])
  }

  /** One decoded value as written after "=": a number with `toString()`, anything else inside single quotes. */
  function RenderValue(v: Json): string {
    if v.Number? then NumberToString(v.n) else "'" + TemplateString(v) + "'"
  }

  function RenderValues(values: seq<Json>): (r: seq<string>)
    ensures |r| == |values|
    ensures forall k | 0 <= k < |values| :: r[k] == RenderValue(values[k])
  {
    seq(|values|, k requires 0 <= k < |values| => RenderValue(values[k]))
  }

  /**
   * `#serializedAttributesToString`: "" for no payload; `atob` runs outside the
   * `try`, so a payload that is not base64 throws; text that is not JSON gives
   * ""; a value without `.map` (anything but an array) throws a TypeError.
   */
  function SerializedAttributesToString(serialized: string): (r: Result<string, Exception>)
    ensures serialized == "" ==> r == Ok("")
    ensures serialized != "" && Atob(serialized).Err? ==> r == Err(InvalidCharacterError)
    ensures serialized != "" && Atob(serialized).Ok? && Parse(Atob(serialized).value).None? ==> r == Ok("")
    ensures serialized != "" && Atob(serialized).Ok? && Parse(Atob(serialized).value).Some?
            ==> match Parse(Atob(serialized).value).value
                case Array(values) => r == Ok("=" + Join(RenderValues(values), ","))
                case _ => r == Err(TypeError)
  {
    if serialized == "" then Ok("")
    else
      var decoded := Atob(serialized);
      if decoded.Err? then Err(decoded.error)
      else
        var values := Parse(decoded.value);
        if values.None? then Ok("")
        else if !values.value.Array? then Err(TypeError)
        else Ok("=" + Join(RenderValues(values.value.items), ","))
  }

  function OpeningTag(name: string, attributes: string): string {
    "[" + name + attributes + "]"
  }

  function ClosingTag(name: string): string {
    "[/" + name + "]"
  }

  /** The part of the upcast conversion data the handler reads and writes. */
  class ConversionData {
    var modelCursor: nat

    constructor (modelCursor: nat)
      ensures this.modelCursor == modelCursor
    {
      this.modelCursor := modelCursor;
    }
  }

  /**
   * The `element:woltlab-metacode` upcast handler. `consumable` is the answer of
   * `consumable.test(viewItem, { name: true })`; `name` and `serialized` are the
   * `data-name` and `data-attributes` attributes of the view element.
   */
  method UpcastMetacode(model: TextBuffer, data: ConversionData, consumable: bool, name: Option<string>, serialized: Option<string>)
    returns (r: Result<(), Exception>)
    requires model.Valid() && data.modelCursor <= |model.text|
    modifies model, data
    ensures model.Valid()
    ensures (!consumable || name.None?) ==> r.Ok? && unchanged(model, data)
    ensures consumable && name.Some? && SerializedAttributesToString(serialized.GetOr("")).Err?
            ==> r == Err(SerializedAttributesToString(serialized.GetOr("")).error) && unchanged(model, data)
    ensures consumable && name.Some? && SerializedAttributesToString(serialized.GetOr("")).Ok?
            ==> var opening := OpeningTag(name.value, SerializedAttributesToString(serialized.GetOr("")).value);
                var at := old(data.modelCursor);
                && r.Ok?
                && model.text == old(model.text)[..at] + opening + ClosingTag(name.value) + old(model.text)[at..]
                && data.modelCursor == at + |opening|
  {
    if !consumable || name.None? {
      return Ok(());
    }
    var attributes := SerializedAttributesToString(serialized.GetOr(""));
    if attributes.Err? {
      return Err(attributes.error);
    }
    var opening := OpeningTag(name.value, attributes.value);
    var closing := ClosingTag(name.value);
    var modelCursor := data.modelCursor;
    ghost var before := model.text;
    var _, _ := model.Insert(opening, modelCursor);
    modelCursor := modelCursor + |opening|;
    var _, _ := model.Insert(closing, modelCursor);
    assert model.text == before[..data.modelCursor] + opening + closing + before[data.modelCursor..] by {
      assert (before[..data.modelCursor] + opening + before[data.modelCursor..])[..modelCursor] == before[..data.modelCursor] + opening;
      assert (before[..data.modelCursor] + opening + before[data.modelCursor..])[modelCursor..] == before[data.modelCursor..];
    }
    data.modelCursor := modelCursor;
    return Ok(());
  }

  /** A payload written by `btoa(JSON.stringify(values))` for an array of scalars renders those values, in order, after "=". */
  lemma PayloadOfArray(values: seq<Json>)
    requires forall k | 0 <= k < |values| :: IsScalar(values[k])
    requires IsBinaryString(Stringify(Array(values)))
    ensures Btoa(Stringify(Array(values))).Ok?
    ensures SerializedAttributesToString(Btoa(Stringify(Array(values))).value) == Ok("=" + Join(RenderValues(values), ","))
  {
    var t := Stringify(Array(values));
    AtobBtoa(t);
    BtoaNonEmpty(t);
    ParseStringifyArray(values);
  }

  lemma BtoaNonEmpty(t: string)
    requires IsBinaryString(t) && t != ""
    ensures Btoa(t).Ok? && Btoa(t).value != ""
  {
    AtobBtoa(t);
  }

  /** A JSON `[]` yields the suffix "=". */
  lemma EmptyArrayPayload(empty: seq<Json>)
    requires |empty| == 0
    ensures Stringify(Array(empty)) == "[]"
    ensures Btoa(Stringify(Array(empty))).Ok?
    ensures SerializedAttributesToString(Btoa(Stringify(Array(empty))).value) == Ok("=")
  {
    var t := Stringify(Array(empty));
    assert StringifyItems(Array(empty), empty) == "";
    assert t == "[" + "" + "]";
    BinaryConcat("[", "]");
    PayloadOfArray(empty);
    var r := RenderValues(empty);
    assert |r| == 0;
    assert Join(r, ",") == "";
    assert "=" + Join(r, ",") == "=";
    assert SerializedAttributesToString(Btoa(t).value) == Ok("=" + Join(r, ","));
  }

  /** A single string is written between single quotes with embedded quotes left alone. */
  lemma StringPayload(x: string)
    requires IsBinaryString(x)
    ensures Btoa(Stringify(Array([String(x)]))).Ok?
    ensures SerializedAttributesToString(Btoa(Stringify(Array([String(x)]))).value) == Ok("=" + ("'" + x + "'"))
  {
    StringifiedStringIsBinary(x);
    var values := [String(x)];
    var t := Stringify(Array(values));
    PayloadOfArray(values);
    var r := RenderValues(values);
    assert r[0] == "'" + x + "'";
    assert Join(r, ",") == "'" + x + "'";
    assert SerializedAttributesToString(Btoa(t).value) == Ok("=" + Join(r, ","));
  }

  /** JSON.stringify writes an array of one string as Latin-1 text exactly when the string is Latin-1. */
  lemma StringifiedStringIsBinary(x: string)
    ensures IsBinaryString(Stringify(Array([String(x)]))) <==> IsBinaryString(x)
  {
    EscapeStringIsBinary(x);
    var v := Array([String(x)]);
    assert StringifyItems(v, [String(x)]) == Quote(x);
    EnclosedIsBinary("\"", EscapeString(x), "\"");
    EnclosedIsBinary("[", Quote(x), "]");
  }

  /** Text between two Latin-1 delimiters is Latin-1 exactly when the text is. */
  lemma EnclosedIsBinary(open: string, t: string, close: string)
    requires IsBinaryString(open) && IsBinaryString(close)
    ensures IsBinaryString(open + t + close) <==> IsBinaryString(t)
  {
    BinaryConcat(open, t);
    BinaryConcat(open + t, close);
  }

  /** JSON escaping keeps a string Latin-1 exactly when it was Latin-1. */
  lemma {:induction false} EscapeStringIsBinary(x: string)
    ensures IsBinaryString(EscapeString(x)) <==> IsBinaryString(x)
  {
    if |x| > 0 {
      EscapeStringIsBinary(x[1..]);
      EscapeCharIsBinary(x[0]);
      BinaryConcat(EscapeChar(x[0]), EscapeString(x[1..]));
      assert x == [x[0]] + x[1..];
      BinaryConcat([x[0]], x[1..]);
    }
  }

  lemma EscapeCharIsBinary(c: char)
    ensures IsBinaryString(EscapeChar(c)) <==> (c as int) < 256
  {
    var e := EscapeChar(c);
    if c < ' ' && c != '\U{0008}' && c != '\U{000C}' && c != '\n' && c != '\r' && c != '\t' {
      assert e == "\\u00" + [HexDigit(c as int / 16), HexDigit(c as int % 16)];
      assert IsBinaryString(e);
    } else if c >= ' ' && c != '"' && c != '\\' {
      assert e == [c] && e[0] == c;
    }
  }

  lemma BinaryConcat(a: string, b: string)
    ensures IsBinaryString(a + b) <==> IsBinaryString(a) && IsBinaryString(b)
  {
    if IsBinaryString(a + b) {
      forall i | 0 <= i < |b| ensures (b[i] as int) < 256 {
        assert (a + b)[|a| + i] == b[i];
      }
      forall i | 0 <= i < |a| ensures (a[i] as int) < 256 {
        assert (a + b)[i] == a[i];
      }
    }
    if IsBinaryString(a) && IsBinaryString(b) {
      forall i | 0 <= i < |a + b| ensures ((a + b)[i] as int) < 256 {
        if i >= |a| {
          assert (a + b)[i] == b[i - |a|];
        }
      }
    }
  }
}
