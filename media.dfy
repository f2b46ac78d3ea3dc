/**
 * Images inserted from the media library carry `mediaId` and `mediaSize`,
 * mirrored onto the view `<img>` as `data-media-id` and `data-media-size`.
 */
module Media {
  import opened Wrappers
  import opened Js
  import opened Engine
  import opened ImageAttribute

  const ImageTypes: seq<string> := ["imageBlock", "imageInline"]

  /** Model attribute to view attribute. */
  const AttributeMapping: map<string, string> := map["mediaId" := "data-media-id", "mediaSize" := "data-media-size"]

  /** The schema after `init`: both attributes allowed on both image types, nothing else changed. */
  function ExtendSchema(schema: Schema): (r: Schema)
    ensures r.Keys == schema.Keys + {"imageBlock", "imageInline"}
    ensures "imageBlock" in r && "mediaId" in r["imageBlock"] && "mediaSize" in r["imageBlock"]
    ensures "imageInline" in r && "mediaId" in r["imageInline"] && "mediaSize" in r["imageInline"]
    ensures forall n | n in schema :: schema[n] <= r[n]
    ensures forall n | n in schema && n != "imageBlock" && n != "imageInline" :: r[n] == schema[n]
  {
    assert "imageBlock" == ImageTypes[0] && "imageInline" == ImageTypes[1];
    assert (set n | n in ImageTypes) == {"imageBlock", "imageInline"};
    Extend(schema, ImageTypes, {"mediaId", "mediaSize"})
  }

  /** The downcast handler of `attribute:<modelKey>:imageBlock` and `…:imageInline`, one per entry of the mapping. */
  method DowncastMediaAttribute(modelKey: string, consumable: bool, mapped: ViewElement?, newValue: Option<Value>)
    returns (r: Result<(), Exception>)
    requires modelKey in AttributeMapping
    modifies Footprint(mapped)
    ensures mapped != null ==> mapped.name == old(mapped.name) && mapped.children == old(mapped.children)
    ensures !consumable ==> r.Ok? && unchanged(Footprint(mapped))
    ensures consumable && (mapped == null || Target(mapped) == null) ==> r == Err(TypeError) && unchanged(Footprint(mapped))
    ensures consumable && mapped != null && Target(mapped) != null ==>
              var img := Target(mapped);
              var viewKey := AttributeMapping[modelKey];
              && r.Ok?
              && (img.name != "img" ==> unchanged(Footprint(mapped)))
              && (img.name == "img" && newValue.Some? ==>
                    img.attributes == old(img.attributes)[viewKey := ToString(newValue.value)] && img.classes == old(img.classes))
              && (img.name == "img" && newValue.None? ==>
                    img.attributes == old(img.attributes) - {viewKey} && img.classes == old(img.classes))
              && (img != mapped ==> unchanged(mapped))
  {
    r := Downcast(consumable, mapped, AttributeMapping[modelKey], None, newValue);
  }
}
