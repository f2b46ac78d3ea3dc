/**
 * User mentions. Upcast claims a `[user=…]` metacode whose single attribute
 * `parseInt` accepts and puts a mention attribute on the converted text;
 * data downcast wraps mentioned text in a `<woltlab-metacode>` element whose
 * payload is `btoa(JSON.stringify([objectId]))`.
 */
module Mention {
  import opened Wrappers
  import opened Numbers
  import opened Js
  import opened Json
  import opened JsonFacts
  import opened Base64
  import opened Metacode

  /** The `mention` model attribute; `mentionType` is the source's `type`. */
  datatype MentionAttribute = MentionAttribute(id: string, objectId: Value, mentionType: string, uid: string, text: string)

  /** An item of the converted model range. */
  datatype Item =
    | TextNode(data: string, mention: Option<MentionAttribute>)
    | TextProxy(data: string, mention: Option<MentionAttribute>)
    | Element(name: string)

  /** The element the downcast writer creates: name, attributes, priority and id. */
  datatype AttributeElement = AttributeElement(name: string, attributes: map<string, string>, priority: int, id: string)

  /** The handler on the metacode "upcast" event takes the tag exactly when this holds. */
  predicate Claims(name: string, attributes: seq<Value>) {
    name == "user" && |attributes| == 1 && ParseIntIsNumber(ToString(attributes[0]))
  }

  /** A numeric user id is always claimed; another tag name or attribute count never is. */
  lemma ClaimsNumericId(d: Decimal, other: string, attributes: seq<Value>)
    requires other != "user" && |attributes| != 1
    ensures Claims("user", [Num(d)])
    ensures !Claims(other, [Num(d)]) && !Claims("user", attributes)
  {
    NumberParsesAsInt(d);
  }

  /** `parseInt` reads leading digits, so "12abc" is claimed, while "abc" is declined. */
  lemma ClaimsLeadingDigits()
    ensures Claims("user", [Str("12abc")])
    ensures !Claims("user", [Str("abc")])
  {
    DigitTextParses("12abc");
    assert !IsWhiteSpace('a');
  }

  /** The attribute record `#upcastMention` builds; `uid()` and the first view child's text come in as parameters. */
  function MentionOf(attributes: seq<Value>, name: string, uid: string, text: string): (m: MentionAttribute)
    requires |attributes| >= 1
    ensures m.id == ToString(attributes[0]) && m.objectId == attributes[0]
    ensures m.mentionType == name && m.uid == uid && m.text == text
  {
    MentionAttribute(ToString(attributes[0]), attributes[0], name, uid, text)
  }

  /** `writer.setAttribute("mention", m, node)` on text and text proxies; other items are skipped. */
  function WithMention(item: Item, m: MentionAttribute): (r: Item)
    ensures item.Element? ==> r == item
    ensures !item.Element? ==> !r.Element? && r.mention == Some(m) && r.data == item.data && r.TextNode? == item.TextNode?
  {
    match item
    case TextNode(data, _) => TextNode(data, Some(m))
    case TextProxy(data, _) => TextProxy(data, Some(m))
    case Element(_) => item
  }

  /** `#upcastMention`: the items of the converted range, in order, with the mention set on every text item. */
  method UpcastMention(items: array<Item>, attributes: seq<Value>, name: string, uid: string, text: string)
    requires |attributes| >= 1
    modifies items
    ensures forall k | 0 <= k < items.Length :: items[k] == WithMention(old(items[k]), MentionOf(attributes, name, uid, text))
  {
    var m := MentionOf(attributes, name, uid, text);
    var i := 0;
    while i < items.Length
      invariant 0 <= i <= items.Length
      invariant forall k | 0 <= k < i :: items[k] == WithMention(old(items[k]), m)
      invariant forall k | i <= k < items.Length :: items[k] == old(items[k])
    {
      items[i] := WithMention(items[i], m);
      i := i + 1;
    }
  }

  class EventInfo {
    var stopped: bool

    constructor ()
      ensures !stopped
    {
      stopped := false;
    }
  }

  /** The listener on the metacode "upcast" event: a claimed tag stops the event and becomes a mention; any other tag is left alone. */
  method OnUpcast(eventInfo: EventInfo, name: string, attributes: seq<Value>, items: array<Item>, uid: string, text: string)
    modifies eventInfo, items
    ensures Claims(name, attributes) ==>
              && eventInfo.stopped
              && forall k | 0 <= k < items.Length :: items[k] == WithMention(old(items[k]), MentionOf(attributes, name, uid, text))
    ensures !Claims(name, attributes) ==> unchanged(eventInfo) && unchanged(items)
  {
    if name == "user" && |attributes| == 1 {
      if ParseIntIsNumber(ToString(attributes[0])) {
        eventInfo.stopped := true;
        UpcastMention(items, attributes, name, uid, text);
      }
    }
  }

  /** The JSON value `JSON.stringify` sees for an attribute value; `undefined` inside an array is written as null. */
  function ToJson(v: Value): (j: Json)
    ensures v.Num? ==> j == Number(v.n)
    ensures v.Str? ==> j == String(v.s)
  {
    match v
    case Undefined => Null
    case Bool(b) => Boolean(b)
    case Num(n) => Number(n)
    case Str(s) => String(s)
  }

  /** `btoa(JSON.stringify([id]))`. */
  function Payload(id: Value): Result<string, Exception> {
    Btoa(Stringify(Array([ToJson(id)])))
  }

  /** The data downcast of the `mention` attribute: nothing for a falsy value, otherwise the metacode element; `btoa` throws on an id that is not Latin-1. */
  function Downcast(value: Option<MentionAttribute>): (r: Result<Option<AttributeElement>, Exception>)
    ensures value.None? ==> r == Ok(None)
    ensures value.Some? ==> (r.Ok? <==> Payload(value.value.objectId).Ok?)
    ensures value.Some? && r.Ok? ==>
      && r.value.Some?
      && r.value.value.name == "woltlab-metacode"
      && r.value.value.attributes == map["data-name" := value.value.mentionType, "data-attributes" := Payload(value.value.objectId).value]
      && r.value.value.priority == 20
      && r.value.value.id == value.value.uid
  {
    if value.None? then Ok(None)
    else
      var m := value.value;
      var payload := Payload(m.objectId);
      if payload.Err? then Err(payload.error)
      else Ok(Some(AttributeElement("woltlab-metacode", map["data-name" := m.mentionType, "data-attributes" := payload.value], 20, m.uid)))
  }

  /** The metacode decoder reads an integer user id written by the downcast back as "=" followed by its digits. */
  lemma {:induction false} IntegerIdRoundTrip(m: MentionAttribute, n: int)
    requires m.objectId == Num(FromInt(n)) && -(Pow10(21) as int) < n < Pow10(21)
    ensures Downcast(Some(m)).Ok? && Downcast(Some(m)).value.Some?
    ensures SerializedAttributesToString(Downcast(Some(m)).value.value.attributes["data-attributes"]) == Ok("=" + IntToString(n))
  {
    var values := [Number(FromInt(n))];
    FromIntIsIntegral(n);
    IntegerToString(n);
    IntegerArrayIsBinary(n);
    PayloadOfArray(values);
    var r := RenderValues(values);
    assert r[0] == IntToString(n);
    assert Join(r, ",") == IntToString(n);
    assert ToJson(m.objectId) == Number(FromInt(n));
    assert Payload(m.objectId) == Btoa(Stringify(Array(values)));
    assert Downcast(Some(m)).value.value.attributes["data-attributes"] == Btoa(Stringify(Array(values))).value;
  }

  /** The metacode decoder reads a Latin-1 string id back between single quotes. */
  lemma StringIdRoundTrip(m: MentionAttribute, x: string)
    requires m.objectId == Str(x) && IsBinaryString(x)
    ensures Downcast(Some(m)).Ok? && Downcast(Some(m)).value.Some?
    ensures SerializedAttributesToString(Downcast(Some(m)).value.value.attributes["data-attributes"]) == Ok("=" + ("'" + x + "'"))
  {
    StringPayload(x);
  }

  /** A string id with a character above U+00FF makes `btoa` throw, so the downcast fails. */
  lemma WideStringIdThrows(m: MentionAttribute, x: string)
    requires m.objectId == Str(x) && !IsBinaryString(x)
    ensures Downcast(Some(m)) == Err(InvalidCharacterError)
  {
    StringifiedStringIsBinary(x);
  }

  /** JSON.stringify writes `[n]` for an integer n with digits and brackets only. */
  lemma IntegerArrayIsBinary(n: int)
    requires -(Pow10(21) as int) < n < Pow10(21)
    ensures IsBinaryString(Stringify(Array([Number(FromInt(n))])))
  {
    IntegerToString(n);
    var v := Array([Number(FromInt(n))]);
    assert StringifyItems(v, [Number(FromInt(n))]) == IntToString(n);
    IntTextIsBinary(n);
    EnclosedIsBinary("[", IntToString(n), "]");
  }

  lemma IntTextIsBinary(n: int)
    ensures IsBinaryString(IntToString(n))
  {
    var t := IntToString(n);
    forall i | 0 <= i < |t| ensures (t[i] as int) < 256 {
      if n < 0 {
        assert t == "-" + NatToString(-n);
        if i > 0 {
          assert t[i] == NatToString(-n)[i - 1];
        }
      }
    }
  }
}
