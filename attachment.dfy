/**
 * Images uploaded as attachments carry the model attribute `attachmentId`,
 * mirrored onto the view `<img>` as `data-attachment-id` together with the
 * class `woltlabAttachment`.
 */
module Attachment {
  import opened Wrappers
  import opened Js
  import opened Engine
  import opened ImageAttribute

  const ImageTypes: seq<string> := ["imageBlock", "imageInline"]

  /** The schema after `init`: `attachmentId` allowed on both image types, nothing else changed. */
  function ExtendSchema(schema: Schema): (r: Schema)
    ensures r.Keys == schema.Keys + {"imageBlock", "imageInline"}
    ensures "imageBlock" in r && "attachmentId" in r["imageBlock"]
    ensures "imageInline" in r && "attachmentId" in r["imageInline"]
    ensures forall n | n in schema :: schema[n] <= r[n]
    ensures forall n | n in schema && n != "imageBlock" && n != "imageInline" :: r[n] == schema[n]
  {
    assert "imageBlock" == ImageTypes[0] && "imageInline" == ImageTypes[1];
    assert (set n | n in ImageTypes) == {"imageBlock", "imageInline"};
    Extend(schema, ImageTypes, {"attachmentId"})
  }

  /** The downcast handler of `attribute:attachmentId:imageBlock` and `…:imageInline`. */
  method DowncastAttachmentId(consumable: bool, mapped: ViewElement?, newValue: Option<Value>)
    returns (r: Result<(), Exception>)
    modifies Footprint(mapped)
    ensures mapped != null ==> mapped.name == old(mapped.name) && mapped.children == old(mapped.children)
    ensures !consumable ==> r.Ok? && unchanged(Footprint(mapped))
    ensures consumable && (mapped == null || Target(mapped) == null) ==> r == Err(TypeError) && unchanged(Footprint(mapped))
    ensures consumable && mapped != null && Target(mapped) != null ==>
              var img := Target(mapped);
              && r.Ok?
              && (img.name != "img" ==> unchanged(Footprint(mapped)))
              && (img.name == "img" && newValue.Some? ==>
                    && img.attributes == old(img.attributes)["data-attachment-id" := ToString(newValue.value)]
                    && img.classes == old(img.classes) + {"woltlabAttachment"})
              && (img.name == "img" && newValue.None? ==>
                    img.attributes == old(img.attributes) - {"data-attachment-id"} && img.classes == old(img.classes))
              && (img != mapped ==> unchanged(mapped))
  {
    r := Downcast(consumable, mapped, "data-attachment-id", Some("woltlabAttachment"), newValue);
  }

  /**
   * The `uploadComplete` listener: the image's `attachmentId` becomes the
   * response's `data-attachment-id`; a response without one (or with an
   * undefined one) removes the attribute.
   */
  method UploadComplete(imageElement: ModelElement, data: map<string, Value>)
    modifies imageElement
    ensures "data-attachment-id" in data && !data["data-attachment-id"].Undefined? ==>
      imageElement.attributes == old(imageElement.attributes)["attachmentId" := data["data-attachment-id"]]
    ensures "data-attachment-id" !in data || data["data-attachment-id"].Undefined? ==>
      imageElement.attributes == old(imageElement.attributes) - {"attachmentId"}
    ensures imageElement.name == old(imageElement.name)
  {
    var value := if "data-attachment-id" in data then data["data-attachment-id"] else Undefined;
    imageElement.SetAttribute("attachmentId", value);
  }
}
