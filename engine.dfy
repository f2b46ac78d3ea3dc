/**
 * The few objects of the host editor engine the plugins write to: model
 * elements with attributes, view elements with attributes, classes and
 * children, and the schema's table of allowed attributes.
 */
module Engine {
  import opened Js

  /** A model element; attribute values keep their JavaScript type. */
  class ModelElement {
    var name: string
    var attributes: map<string, Value>

    constructor (name: string, attributes: map<string, Value>)
      ensures this.name == name && this.attributes == attributes
    {
      this.name := name;
      this.attributes := attributes;
    }

    /** `element.getAttribute(key)`: undefined when the attribute is absent. */
    function GetAttribute(key: string): (v: Value)
      reads this
      ensures key !in attributes ==> v == Undefined
    {
      if key in attributes then attributes[key] else Undefined
    }

    /**
     * `writer.setAttribute(key, value, element)`: the attribute operation
     * turns an undefined value into null, which removes the attribute.
     */
    method SetAttribute(key: string, value: Value)
      modifies this
      ensures value.Undefined? ==> attributes == old(attributes) - {key}
      ensures !value.Undefined? ==> attributes == old(attributes)[key := value]
      ensures name == old(name)
    {
      if value.Undefined? {
        attributes := attributes - {key};
      } else {
        attributes := attributes[key := value];
      }
    }
  }

  /** A view element; view attributes hold the `String()` of the value written. */
  class ViewElement {
    var name: string
    var attributes: map<string, string>
    var classes: set<string>
    var children: seq<ViewElement>

    constructor (name: string, attributes: map<string, string>, classes: set<string>, children: seq<ViewElement>)
      ensures this.name == name && this.attributes == attributes && this.classes == classes && this.children == children
    {
      this.name := name;
      this.attributes := attributes;
      this.classes := classes;
      this.children := children;
    }

    /** `writer.setAttribute(key, value, element)` */
    method SetAttribute(key: string, value: string)
      modifies this
      ensures attributes == old(attributes)[key := value]
      ensures name == old(name) && classes == old(classes) && children == old(children)
    {
      attributes := attributes[key := value];
    }

    /** `writer.removeAttribute(key, element)` */
    method RemoveAttribute(key: string)
      modifies this
      ensures attributes == old(attributes) - {key}
      ensures name == old(name) && classes == old(classes) && children == old(children)
    {
      attributes := attributes - {key};
    }

    /** `writer.addClass(c, element)` */
    method AddClass(c: string)
      modifies this
      ensures classes == old(classes) + {c}
      ensures name == old(name) && attributes == old(attributes) && children == old(children)
    {
      classes := classes + {c};
    }
  }

  /** A view element as a downcast converter creates it, before it is inserted. */
  datatype ElementSpec = ElementSpec(name: string, attributes: map<string, string>, children: seq<ElementSpec>)

  /** For each element name, the attributes the schema allows on it. */
  type Schema = map<string, set<string>>

  /** `names.forEach(n => schema.extend(n, { allowAttributes }))`. */
  function Extend(schema: Schema, names: seq<string>, allowAttributes: set<string>): (r: Schema)
    ensures r.Keys == schema.Keys + set n | n in names
    ensures forall n | n in names :: allowAttributes <= r[n]
    ensures forall n | n in schema :: schema[n] <= r[n]
    ensures forall n | n in schema && n !in names :: r[n] == schema[n]
    ensures forall n | n in r :: r[n] <= allowAttributes + (if n in schema then schema[n] else {})
    decreases |names|
  {
    if |names| == 0 then schema
    else
      var before := if names[0] in schema then schema[names[0]] else {};
      Extend(schema[names[0] := before + allowAttributes], names[1..], allowAttributes)
  }
}
