/**
 * The attribute-downcast handler the attachment and media plugins share: it
 * mirrors one model attribute of an image onto the view `<img>`, reaching
 * through the `<figure>` of a block image.
 */
module ImageAttribute {
  import opened Wrappers
  import opened Js
  import opened Engine

  /** The element the handler writes to: the first child of a figure, the mapped element otherwise; null for a figure without children. */
  function Target(mapped: ViewElement): (t: ViewElement?)
    reads mapped
  {
    if mapped.name == "figure" then (if |mapped.children| > 0 then mapped.children[0] else null) else mapped
  }

  function Footprint(mapped: ViewElement?): set<object>
    reads mapped
  {
    if mapped == null then {} else if |mapped.children| > 0 then {mapped, mapped.children[0]} else {mapped}
  }

  /**
   * `consumable` is the answer of `consumable.consume(data.item, evt.name)`,
   * `mapped` the result of `mapper.toViewElement(data.item)`, `newValue` the
   * new attribute value (None for null). A non-null value sets `viewKey`
   * (and adds `className`, when given); null removes `viewKey` only.
   */
  method Downcast(consumable: bool, mapped: ViewElement?, viewKey: string, className: Option<string>, newValue: Option<Value>)
    returns (r: Result<(), Exception>)
    modifies Footprint(mapped)
    ensures mapped != null ==> mapped.name == old(mapped.name) && mapped.children == old(mapped.children)
    ensures !consumable ==> r.Ok? && unchanged(Footprint(mapped))
    ensures consumable && (mapped == null || Target(mapped) == null) ==> r == Err(TypeError) && unchanged(Footprint(mapped))
    ensures consumable && mapped != null && Target(mapped) != null ==>
              var img := Target(mapped);
              && r.Ok?
              && (img.name != "img" ==> unchanged(Footprint(mapped)))
              && (img.name == "img" && newValue.Some? ==>
                    && img.attributes == old(img.attributes)[viewKey := ToString(newValue.value)]
                    && img.classes == old(img.classes) + (if className.Some? then {className.value} else {}))
              && (img.name == "img" && newValue.None? ==>
                    img.attributes == old(img.attributes) - {viewKey} && img.classes == old(img.classes))
              && (img != mapped ==> unchanged(mapped))
  {
    if !consumable {
      return Ok(());
    }
    if mapped == null {
      return Err(TypeError);
    }
    var img := mapped;
    if img.name == "figure" {
      if |img.children| == 0 {
        return Err(TypeError);
      }
      img := img.children[0];
    }
    if img.name != "img" {
      return Ok(());
    }
    if newValue.Some? {
      img.SetAttribute(viewKey, ToString(newValue.value));
      if className.Some? {
        img.AddClass(className.value);
      }
    } else {
      img.RemoveAttribute(viewKey);
    }
    return Ok(());
  }
}
