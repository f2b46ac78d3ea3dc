/**
 * Image integration: attachment and media images cannot be replaced or
 * re-uploaded through the stock image commands, and a resized width is
 * mirrored onto `data-width` of the view `<img>`.
 */
module Image {
  import opened Wrappers
  import opened Js
  import opened Engine

  /** `#isAttachment` */
  predicate IsAttachment(element: ModelElement)
    reads element
  {
    element.GetAttribute("classList") == Str("woltlabAttachment") || "attachmentId" in element.attributes
  }

  /** `#isMedia` */
  predicate IsMedia(element: ModelElement)
    reads element
  {
    element.GetAttribute("classList") == Str("woltlabSuiteMedia") || "mediaId" in element.attributes
  }

  /**
   * The value `isEnabled` takes after the `set:isEnabled` listener of
   * `#decorateCommand`: `value` is the value being set and `selected` the
   * closest selected image element (null for none).
   */
  function DecoratedIsEnabled(value: bool, selected: ModelElement?): (r: bool)
    reads selected
    ensures r <==> value && (selected == null || !(IsAttachment(selected) || IsMedia(selected)))
  {
    if !value then value
    else if selected == null then value
    else !(IsAttachment(selected) || IsMedia(selected))
  }

  /**
   * `#setResizeWidth`: `isElement` is `item.is("element")`, `mapped` the view
   * element the mapper yields and `img` what `findViewImgElement` finds in it.
   */
  method SetResizeWidth(isElement: bool, width: Value, mapped: ViewElement?, img: ViewElement?)
    returns (r: Result<(), Exception>)
    modifies img
    ensures (!isElement || !width.Str? || mapped == null) ==> r.Ok? && (img != null ==> unchanged(img))
    ensures isElement && width.Str? && mapped != null && img == null ==> r == Err(TypeError)
    ensures isElement && width.Str? && mapped != null && img != null ==>
              && r.Ok?
              && img.attributes == old(img.attributes)["data-width" := width.s]
              && img.name == old(img.name) && img.classes == old(img.classes) && img.children == old(img.children)
  {
    if !isElement || !width.Str? || mapped == null {
      return Ok(());
    }
    if img == null {
      return Err(TypeError);
    }
    img.SetAttribute("data-width", width.s);
    return Ok(());
  }
}
