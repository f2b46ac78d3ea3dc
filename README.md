# WoltLab CKEditor 5 plugins — a verified model

WoltLab Suite ships a set of CKEditor 5 plugins that adapt the editor to the
forum's BBCode-based markup. This project models their core logic in Dafny and
proves what each plugin promises:

- **Metacode.** It reads `<woltlab-metacode data-name data-attributes>`, the
  fallback for BBCodes without a plugin, back into the literal text
  `[name=…][/name]`. The payload is `btoa(JSON.stringify(values))`. Base64 and
  JSON are modelled in full, and the round trip from the mention downcast is
  proved.
- **Mention.** It claims `[user=…]` metacodes, sets the `mention` attribute on
  the converted text, and writes the mention back as a metacode element.
- **Attachment, media and image.** These plugins extend the schema, convert the
  `attachmentId`, `mediaId` and `mediaSize` attributes onto the `<img>`, react
  to finished uploads, and disable image resizing for attachments and media.
- **Block quote and code block.** They convert the custom attributes (`author`
  and `link`; `file`, `language` and `line`) to and from the editing and data
  views, and update them from the panel.
- **Spoiler.** The schema rules forbid nested spoilers and keep spoiler titles
  as plain text. The converters work in both directions. The command wraps
  sibling groups of blocks in spoilers, merges adjacent spoilers, and unwraps a
  spoiler. The main theorem: every command keeps the text content of the
  document.
- **HTML embed.** The upcast unescapes the stored markup exactly once, and the
  downcast writes the value back.
- **Font size.** Sizes in `px`, `pt`, `em` and `%` are converted and snapped to
  the closest configured size.
- **Emoji and smiley.** Each has a text watcher for `:code`, a marker on the
  colon, and a result list of at most ten entries. The emoji plugin also has a
  key handler and the balloon positions.
- **Magic paragraph.** A click in the margin above or below a block quote,
  code block, spoiler or table inserts or reuses a paragraph there.
- **BBCode buttons.** Configured BBCodes become toolbar buttons. The
  `insertBbcode` command wraps the selection in `[name]…[/name]`.

Each source file becomes one module. Support modules hold what several plugins
share:

- `Wrappers`: Option and Result.
- `Js`: JavaScript values and the string built-ins that are used.
- `Numbers`: exact decimals and `Number.prototype.toString`.
- `Base64`: `btoa` and `atob`.
- `Json`: `JSON.parse` and `JSON.stringify`.
- `JsonFacts`: the parse-of-stringify round trip.
- `Engine`: model and view elements, and the schema.
- `ModelTree`: the model document as a tree, with paths and ids.
- `ModelText`: a text block with its selection.
- `Markers`: the marker collection.

Objects the source mutates are classes with `modifies` clauses. These include
the model and view elements, the document, the marker collection, the emoji
UI, the commands and the component factory. Pure conversions are functions.

Decoding a metacode payload can throw. Only `JSON.parse` is inside the
`try`; `atob` runs before it (`woltlabmetacode.ts:62`), so a payload that is
not base64 throws. A JSON value other than an array has no `.map`, so it
throws a TypeError. Both cases are `Err` results in
`Metacode.SerializedAttributesToString`.

## Model

| member | source | states |
|---|---|---|
| Metacode.SerializedAttributesToString | plugins/ckeditor5-woltlab-metacode/src/woltlabmetacode.ts:57-82 | Empty payload gives ""; non-base64 payload throws InvalidCharacterError; text that is not JSON gives ""; a JSON non-array throws TypeError; an array gives "=" and its values joined by ",", numbers bare and everything else in single quotes |
| Metacode.RenderValues | plugins/ckeditor5-woltlab-metacode/src/woltlabmetacode.ts:71-79 | One rendered piece per decoded value, in order, each rendered as the `map` callback renders it |
| Metacode.ElementStrings | plugins/ckeditor5-woltlab-metacode/src/woltlabmetacode.ts:78 | Array template string: one piece per element, and null elements become "" |
| Metacode.ClosingTag | plugins/ckeditor5-woltlab-metacode/src/woltlabmetacode.ts:44 | The closing tag `[/name]` |
| Metacode.ConversionData.constructor | plugins/ckeditor5-woltlab-metacode/src/woltlabmetacode.ts:46-52 | The conversion data carries the model cursor |
| Metacode.UpcastMetacode | plugins/ckeditor5-woltlab-metacode/src/woltlabmetacode.ts:30-52 | A non-consumable element or a missing name changes nothing. A throwing payload propagates and changes nothing. Otherwise `[name…]` and `[/name]` are inserted at the cursor, and the cursor ends between them |
| Metacode.PayloadOfArray | plugins/ckeditor5-woltlab-metacode/src/woltlabmetacode.ts:62-81 | For every array of scalars whose JSON text is Latin-1, decoding `btoa(JSON.stringify(values))` yields "=" and the rendered values |
| Metacode.EmptyArrayPayload | plugins/ckeditor5-woltlab-metacode/src/woltlabmetacode.ts:62-81 | The payload of `[]` decodes to "=" |
| Metacode.StringPayload | plugins/ckeditor5-woltlab-metacode/src/woltlabmetacode.ts:78 | A single Latin-1 string decodes to that string in single quotes, with embedded quotes not escaped |
| Metacode.StringifiedStringIsBinary | plugins/ckeditor5-woltlab-mention/src/woltlabmention.ts:98 | `JSON.stringify([s])` is Latin-1 if and only if `s` is |
| Mention.ClaimsNumericId | plugins/ckeditor5-woltlab-mention/src/woltlabmention.ts:39-46 | A numeric id with tag `user` and one attribute is claimed; another tag name or another attribute count is not |
| Mention.ClaimsLeadingDigits | plugins/ckeditor5-woltlab-mention/src/woltlabmention.ts:40 | `parseInt` reads leading digits: "12abc" is claimed and "abc" is declined |
| Mention.MentionOf | plugins/ckeditor5-woltlab-mention/src/woltlabmention.ts:70-78 | The mention record: id is the `toString` of the attribute, objectId the attribute itself, type the tag name, plus the given uid and text |
| Mention.WithMention | plugins/ckeditor5-woltlab-mention/src/woltlabmention.ts:65-80 | Text and text proxies get the mention and keep their data; other items are untouched |
| Mention.UpcastMention | plugins/ckeditor5-woltlab-mention/src/woltlabmention.ts:53-82 | Every item of the converted range is its old self with the mention set on it if it is text |
| Mention.EventInfo.constructor | plugins/ckeditor5-woltlab-mention/src/woltlabmention.ts:38 | A new event is not stopped |
| Mention.OnUpcast | plugins/ckeditor5-woltlab-mention/src/woltlabmention.ts:36-46 | A claimed tag stops the event and upcasts the mention; any other tag leaves the event and the items unchanged |
| Mention.ToJson | plugins/ckeditor5-woltlab-mention/src/woltlabmention.ts:98 | Numbers and strings reach `JSON.stringify` as JSON numbers and strings |
| Mention.Downcast | plugins/ckeditor5-woltlab-mention/src/woltlabmention.ts:84-108 | A falsy value gives nothing. Otherwise the result succeeds exactly when `btoa` does, and is a `woltlab-metacode` element with name, payload, priority 20 and the uid as id |
| Mention.IntegerIdRoundTrip | plugins/ckeditor5-woltlab-mention/src/woltlabmention.ts:92-104 | The metacode decoder reads the payload of an integer id back as "=" and its decimal digits |
| Mention.StringIdRoundTrip | plugins/ckeditor5-woltlab-mention/src/woltlabmention.ts:92-104 | The metacode decoder reads the payload of a Latin-1 string id back as "=" and the id in single quotes |
| Mention.WideStringIdThrows | plugins/ckeditor5-woltlab-mention/src/woltlabmention.ts:98 | A string id with a character above U+00FF makes the downcast throw InvalidCharacterError |
| Mention.IntegerArrayIsBinary | plugins/ckeditor5-woltlab-mention/src/woltlabmention.ts:98 | The JSON text of `[n]` for an integer id is Latin-1, so `btoa` accepts it |
| Base64.AtobBtoa | plugins/ckeditor5-woltlab-metacode/src/woltlabmetacode.ts:62 | `atob(btoa(t)) == t` for every Latin-1 text, and `btoa` refuses exactly the non-Latin-1 texts |
| JsonFacts.ParseStringifyArray | plugins/ckeditor5-woltlab-metacode/src/woltlabmetacode.ts:64 | `JSON.parse(JSON.stringify(values))` gives back an array of scalars unchanged |
| Engine.Extend | plugins/ckeditor5-woltlab-attachment/src/woltlabattachment.ts:30-35 | `schema.extend` adds the allowed attributes to every named element and changes no other element |
| Engine.ModelElement.SetAttribute | plugins/ckeditor5-woltlab-attachment/src/woltlabattachment.ts:80-84 | Sets exactly one attribute, or removes it when the value is undefined, and keeps the name |
| Engine.ViewElement.SetAttribute | plugins/ckeditor5-woltlab-attachment/src/woltlabattachment.ts:65 | Sets exactly one view attribute; name, classes and children are kept |
| Engine.ViewElement.RemoveAttribute | plugins/ckeditor5-woltlab-attachment/src/woltlabattachment.ts:68 | Removes exactly one view attribute; name, classes and children are kept |
| Engine.ViewElement.AddClass | plugins/ckeditor5-woltlab-attachment/src/woltlabattachment.ts:66 | Adds exactly one class; name, attributes and children are kept |
| Attachment.ExtendSchema | plugins/ckeditor5-woltlab-attachment/src/woltlabattachment.ts:30-35 | `attachmentId` is allowed on both image types; other elements keep their attributes |
| ImageAttribute.Downcast | plugins/ckeditor5-woltlab-attachment/src/woltlabattachment.ts:45-73 | A non-consumable change does nothing. A figure without a child throws TypeError. A target that is not an `<img>` is left alone. Otherwise the image, or the first child of the figure, gets the class and the attribute, or loses the attribute when the value is removed |
| Attachment.DowncastAttachmentId | plugins/ckeditor5-woltlab-attachment/src/woltlabattachment.ts:45-73 | The attachment handler: `data-attachment-id` and the class `woltlabAttachment` on the image, with the same cases |
| Attachment.UploadComplete | plugins/ckeditor5-woltlab-attachment/src/woltlabattachment.ts:76-86 | The image's `attachmentId` becomes the response's `data-attachment-id`. A response without one, or with an undefined one, removes the attribute. Nothing else changes |
| Media.ExtendSchema | plugins/ckeditor5-woltlab-media/src/woltlabmedia.ts:30-33 | `mediaId` and `mediaSize` are allowed on both image types; other elements keep their attributes |
| Media.DowncastMediaAttribute | plugins/ckeditor5-woltlab-media/src/woltlabmedia.ts:41-69 | Writes `data-media-id` or `data-media-size` onto the image, with the same three cases as the attachment handler |
| Image.DecoratedIsEnabled | plugins/ckeditor5-woltlab-image/src/woltlabimage.ts:165-175 | The resize command is enabled exactly when it was, and the selected image is neither an attachment nor a media image |
| Image.SetResizeWidth | plugins/ckeditor5-woltlab-image/src/woltlabimage.ts:139-158 | A string width on an element sets `data-width` on the `<img>`, and throws TypeError without one; in every other case nothing changes |
| BlockQuote.GetSource | plugins/ckeditor5-woltlab-block-quote/src/woltlabblockquote.ts:301-311 | Author and link, empty ones skipped, joined by ", " |
| BlockQuote.SourceParts | plugins/ckeditor5-woltlab-block-quote/src/woltlabblockquote.ts:301-311 | The source is empty exactly when both parts are; it starts with the author and ends with the link |
| BlockQuote.UpcastAttributes | plugins/ckeditor5-woltlab-block-quote/src/woltlabblockquote.ts:143-170 | `author` and `link`, missing ones as "" |
| BlockQuote.EditingDowncast | plugins/ckeditor5-woltlab-block-quote/src/woltlabblockquote.ts:172-204 | `<blockquote>` with `data-source` exactly when the source is not empty |
| BlockQuote.DataDowncast | plugins/ckeditor5-woltlab-block-quote/src/woltlabblockquote.ts:243-270 | `<woltlab-ckeditor-blockquote>` with `author` and `link` as strings |
| BlockQuote.DataRoundTrip | plugins/ckeditor5-woltlab-block-quote/src/woltlabblockquote.ts:143-270 | Data upcast then data downcast writes back what was read |
| BlockQuote.AttributeChanged | plugins/ckeditor5-woltlab-block-quote/src/woltlabblockquote.ts:206-240 | The changed part replaces its old value in the source; `data-source` is removed when the source is empty and set otherwise; a missing view element throws TypeError |
| BlockQuote.FindBlockQuoteParent | plugins/ckeditor5-woltlab-block-quote/src/woltlabblockquote.ts:289-299 | The nearest `blockQuote` at or above the element that has no `$root` in between; none exactly when every quote lies above a root |
| BlockQuote.UpdateCustomAttributes | plugins/ckeditor5-woltlab-block-quote/src/woltlabblockquote.ts:272-280 | With a quote and a last panel, author and link become the panel's values; otherwise nothing changes; no selected block throws TypeError |
| CodeBlock.FindLanguage | plugins/ckeditor5-woltlab-code-block/src/woltlabcodeblock.ts:204-206 | The first definition with the language, none exactly when no definition has it |
| CodeBlock.BuildLabel | plugins/ckeditor5-woltlab-code-block/src/woltlabcodeblock.ts:208-228 | The language label, then "(file @ line)" with the missing parts left out |
| CodeBlock.EditingDowncast | plugins/ckeditor5-woltlab-code-block/src/woltlabcodeblock.ts:180-247 | Throws TypeError exactly when the language is not defined. Otherwise `<pre data-language spellcheck="false">` around `<code class="language-…">` |
| CodeBlock.UpcastAttributes | plugins/ckeditor5-woltlab-code-block/src/woltlabcodeblock.ts:150-178 | `file`, `language` and `line`, missing ones as "" |
| CodeBlock.DataDowncast | plugins/ckeditor5-woltlab-code-block/src/woltlabcodeblock.ts:249-287 | `<woltlab-ckeditor-codeblock>` with the three attributes as strings |
| CodeBlock.DataRoundTrip | plugins/ckeditor5-woltlab-code-block/src/woltlabcodeblock.ts:150-287 | Data upcast then data downcast writes back what was read |
| CodeBlock.ActiveCodeBlock | plugins/ckeditor5-woltlab-code-block/src/woltlabcodeblock.ts:299-305 | The first selected block if it is a `codeBlock`; ancestors are not searched |
| CodeBlock.UpdateCustomAttributes | plugins/ckeditor5-woltlab-code-block/src/woltlabcodeblock.ts:289-297 | With an active code block and a last panel, `file` and `line` (never `language`) are set; otherwise nothing changes |
| SpoilerEditing.NoNestedSpoiler | plugins/ckeditor5-woltlab-spoiler/src/woltlabspoilerediting.ts:93-99 | Under any spoiler ancestor, a spoiler child is refused whatever the other rules say |
| SpoilerEditing.TitleAcceptsOnlyText | plugins/ckeditor5-woltlab-spoiler/src/woltlabspoilerediting.ts:101-106 | A `spoilerTitle` refuses a child exactly when it is not `$text` |
| SpoilerEditing.TitleTextHasNoAttributes | plugins/ckeditor5-woltlab-spoiler/src/woltlabspoilerediting.ts:117-121 | Text refuses every attribute exactly when its parent is a `spoilerTitle` |
| SpoilerEditing.Upcast | plugins/ckeditor5-woltlab-spoiler/src/woltlabspoilerediting.ts:129-166 | A spoiler is created exactly when the element is consumable and `safeInsert` accepts it. The spoiler is well-formed: a title, then an empty content. The title holds the trimmed label as its one text, and has no children when that label is empty |
| SpoilerEditing.TitleLabel | plugins/ckeditor5-woltlab-spoiler/src/woltlabspoilerediting.ts:188-198 | The title's text when it holds exactly one text, otherwise "" |
| SpoilerEditing.DataDowncast | plugins/ckeditor5-woltlab-spoiler/src/woltlabspoilerediting.ts:169-205 | `<woltlab-spoiler data-label>` exactly when the spoiler has two children, the first a title, and is consumable |
| SpoilerEditing.LabelRoundTrip | plugins/ckeditor5-woltlab-spoiler/src/woltlabspoilerediting.ts:142-198 | Storing an upcast spoiler writes the trimmed label it was read from |
| SpoilerEditing.TitleRoundTrip | plugins/ckeditor5-woltlab-spoiler/src/woltlabspoilerediting.ts:142-198 | Reading a stored label back rebuilds the same spoiler |
| SpoilerEditing.StoredTitleRoundTrip | plugins/ckeditor5-woltlab-spoiler/src/woltlabspoilerediting.ts:142-198 | Storing a spoiler and reading it back rebuilds its title. This holds for a title with no children, as the spoiler command creates, and for one with a single trimmed, non-empty text |
| SpoilerCommand.FindSpoilerContent | plugins/ckeditor5-woltlab-spoiler/src/woltlabspoilercommand.ts:169-179 | The nearest `spoilerContent` ancestor; none exactly when no ancestor is one |
| SpoilerCommand.ContextOf | plugins/ckeditor5-woltlab-spoiler/src/woltlabspoilercommand.ts:181-189 | The schema context of a block: the names from the root down to it |
| SpoilerCommand.InsideSpoilerCannotBeSpoiler | plugins/ckeditor5-woltlab-spoiler/src/woltlabspoilercommand.ts:181-189 | A block with a spoiler ancestor can never be wrapped in a spoiler |
| SpoilerCommand.Bounds | plugins/ckeditor5-woltlab-spoiler/src/woltlabspoilercommand.ts:118-142 | The group bounds start at 0 and increase strictly, one per group end |
| SpoilerCommand.GetRangesOfBlockGroups | plugins/ckeditor5-woltlab-spoiler/src/woltlabspoilercommand.ts:118-142 | One range per maximal run of sibling blocks, in order, each from before its first block to after its last |
| SpoilerCommand.ScanBlock | plugins/ckeditor5-woltlab-spoiler/src/woltlabspoilercommand.ts:124-138 | One loop iteration keeps `Scanned`. After block `i`, the bounds are those of the first `i + 1` blocks and the ranges are those of the groups closed so far. The start position is the open group's first block, and there is none exactly when block `i` closed a group |
| SpoilerCommand.RangesGrow | plugins/ckeditor5-woltlab-spoiler/src/woltlabspoilercommand.ts:128-137 | Closing a group appends its range and keeps the earlier ranges |
| SpoilerCommand.BoundsAreGroups | plugins/ckeditor5-woltlab-spoiler/src/woltlabspoilercommand.ts:118-142 | The bounds cut the blocks into maximal sibling runs |
| SpoilerCommand.GroupIsSiblingRun | plugins/ckeditor5-woltlab-spoiler/src/woltlabspoilercommand.ts:124-127 | Inside a group, every block is the next sibling of the one before it |
| SpoilerCommand.NoGroupsIffNoBlocks | plugins/ckeditor5-woltlab-spoiler/src/woltlabspoilercommand.ts:99-115 | There is no group exactly when there is no block |
| SpoilerCommand.Wrapped | plugins/ckeditor5-woltlab-spoiler/src/woltlabspoilercommand.ts:191-202 | The siblings with the run `s..e` replaced by a well-formed spoiler: an empty title, then a content that holds the run |
| SpoilerCommand.WrappedKeepsContent | plugins/ckeditor5-woltlab-spoiler/src/woltlabspoilercommand.ts:191-202 | Wrapping keeps the content of the siblings |
| SpoilerCommand.WrapInSpoiler | plugins/ckeditor5-woltlab-spoiler/src/woltlabspoilercommand.ts:191-202 | The document's parent element gets the wrapped children; three fresh ids are used |
| SpoilerCommand.Merged | plugins/ckeditor5-woltlab-spoiler/src/woltlabspoilercommand.ts:104-111 | The merged spoiler keeps its title and content id; the next spoiler's content children follow its own |
| SpoilerCommand.MergedKeepsContent | plugins/ckeditor5-woltlab-spoiler/src/woltlabspoilercommand.ts:104-111 | Merging keeps the content; only the later title disappears |
| SpoilerCommand.MergeSpoilers | plugins/ckeditor5-woltlab-spoiler/src/woltlabspoilercommand.ts:99-115 | The document's parent element gets the merged children |
| SpoilerCommand.LiftedKeepsContent | plugins/ckeditor5-woltlab-spoiler/src/woltlabspoilercommand.ts:78-80 | Removing the title and unwrapping spoiler and content keeps the content |
| SpoilerCommand.Unwrapped | plugins/ckeditor5-woltlab-spoiler/src/woltlabspoilercommand.ts:51-80 | Error "missing title" exactly when the content has no title before it, error "missing spoiler" exactly when there is a title but the parent is not a spoiler; a document it produces keeps the content |
| SpoilerCommand.UnwrapSpoiler | plugins/ckeditor5-woltlab-spoiler/src/woltlabspoilercommand.ts:51-80 | Error "missing title" exactly when the content has no title before it. Error "missing spoiler" exactly when there is a title but the parent is not a spoiler. Errors change nothing. Otherwise the spoiler's parent gets `Lifted` children: the title is gone, and the spoiler's other children and the content's children stand where the spoiler stood. The content is kept |
| SpoilerCommand.FindSpoiler | plugins/ckeditor5-woltlab-spoiler/src/woltlabspoilercommand.ts:101-103 | The well-formed spoiler with this id, none exactly when the id is absent or not such a spoiler |
| SpoilerCommand.GroupStep | plugins/ckeditor5-woltlab-spoiler/src/woltlabspoilercommand.ts:87-97 | A group already in a spoiler content changes nothing. A wrappable group uses three fresh ids, and the spoiler pushed is the middle one. The content is kept |
| SpoilerCommand.GroupStepWraps | plugins/ckeditor5-woltlab-spoiler/src/woltlabspoilercommand.ts:90-96 | A wrappable group in no spoiler content ends up as the content of a new spoiler at its first block: an empty title, then a content holding exactly the group's blocks |
| SpoilerCommand.SpoilerForGroup | plugins/ckeditor5-woltlab-spoiler/src/woltlabspoilercommand.ts:87-97 | The document, the next id and the spoiler pushed are those of `GroupStep`; the content is kept, and everything before the group is untouched |
| SpoilerCommand.Grouped | plugins/ckeditor5-woltlab-spoiler/src/woltlabspoilercommand.ts:87-97 | One spoiler pushed per group; the content is kept |
| SpoilerCommand.GroupedLast | plugins/ckeditor5-woltlab-spoiler/src/woltlabspoilercommand.ts:87-89 | The reversed `forEach` handles the last remaining group first |
| SpoilerCommand.HandleGroups | plugins/ckeditor5-woltlab-spoiler/src/woltlabspoilercommand.ts:87-97 | The document, the next id and `spoilersToMerge` are those of `Grouped`; the content is kept |
| SpoilerCommand.GroupRanges | plugins/ckeditor5-woltlab-spoiler/src/woltlabspoilercommand.ts:118-142 | One range per group end; none exactly when there are no blocks |
| SpoilerCommand.MergeStep | plugins/ckeditor5-woltlab-spoiler/src/woltlabspoilercommand.ts:100-114 | One `reduce` call: when the next spoiler is the current one's next sibling, the current one is carried on, and otherwise the next one becomes current and nothing is merged. The content is kept |
| SpoilerCommand.MergeStepMerges | plugins/ckeditor5-woltlab-spoiler/src/woltlabspoilercommand.ts:100-114 | When the next spoiler is the current one's next sibling, the current one's place holds `Merged` of the two (title kept, the next content's children appended) and the parent has one child less |
| SpoilerCommand.MergedRun | plugins/ckeditor5-woltlab-spoiler/src/woltlabspoilercommand.ts:99-115 | The `reduce` over the spoilers, one `MergeStep` per spoiler; the content is kept |
| SpoilerCommand.MergeNext | plugins/ckeditor5-woltlab-spoiler/src/woltlabspoilercommand.ts:100-114 | The document and the spoiler carried on are those of `MergeStep`; no id is used |
| SpoilerCommand.MergeRun | plugins/ckeditor5-woltlab-spoiler/src/woltlabspoilercommand.ts:99-115 | The document becomes `MergedRun` of the spoilers in order; no id is used; the content is kept |
| SpoilerCommand.Applied | plugins/ckeditor5-woltlab-spoiler/src/woltlabspoilercommand.ts:84-116 | TypeError exactly when there are no blocks (`reduce` without an initial value); otherwise the document keeps its content |
| SpoilerCommand.ApplySpoiler | plugins/ckeditor5-woltlab-spoiler/src/woltlabspoilercommand.ts:84-116 | The document and the next id become those of `Applied`: the groups handled last first, then the spoilers merged in order. It fails with TypeError, changing nothing, exactly when there are no blocks. The content is kept |
| SpoilerCommand.RemoveStep | plugins/ckeditor5-woltlab-spoiler/src/woltlabspoilercommand.ts:45-80 | A block in no spoiler content is skipped; otherwise the spoiler around its content is unwrapped. Errors are only "missing title" and "missing spoiler"; the content is kept |
| SpoilerCommand.Removed | plugins/ckeditor5-woltlab-spoiler/src/woltlabspoilercommand.ts:44-82 | Blocks are handled in turn by `RemoveStep`, and the first error stops. Nothing changes when no block is in a spoiler content. The content is kept |
| SpoilerCommand.RemoveOne | plugins/ckeditor5-woltlab-spoiler/src/woltlabspoilercommand.ts:45-80 | The document is that of `RemoveStep`; an error changes nothing |
| SpoilerCommand.RemoveSpoiler | plugins/ckeditor5-woltlab-spoiler/src/woltlabspoilercommand.ts:44-82 | The result and the document are those of `Removed`: errors are only "missing title" and "missing spoiler", blocks outside spoilers are skipped, and the content is kept |
| SpoilerCommand.PathsOf | plugins/ckeditor5-woltlab-spoiler/src/woltlabspoilercommand.ts:22 | The selected blocks' positions, one each, all in the document |
| SpoilerCommand.GetValue | plugins/ckeditor5-woltlab-spoiler/src/woltlabspoilercommand.ts:162-167 | True exactly when the first selected block is inside a spoiler content |
| SpoilerCommand.GetIsEnabled | plugins/ckeditor5-woltlab-spoiler/src/woltlabspoilercommand.ts:144-160 | Enabled inside a spoiler, disabled without blocks, otherwise exactly when the first block can be a spoiler |
| SpoilerCommand.Candidates | plugins/ckeditor5-woltlab-spoiler/src/woltlabspoilercommand.ts:28-32 | The filter keeps a sub-list of the blocks |
| SpoilerCommand.CandidatesKept | plugins/ckeditor5-woltlab-spoiler/src/woltlabspoilercommand.ts:28-32 | The filter keeps exactly the blocks inside a spoiler content or able to be a spoiler |
| SpoilerCommand.CandidatesOrdered | plugins/ckeditor5-woltlab-spoiler/src/woltlabspoilercommand.ts:28-32 | The filter keeps document order |
| SpoilerCommand.Command.constructor | plugins/ckeditor5-woltlab-spoiler/src/woltlabspoilercommand.ts:16 | A new command has value false and is disabled |
| SpoilerCommand.Command.Refresh | plugins/ckeditor5-woltlab-spoiler/src/woltlabspoilercommand.ts:39-42 | `value` and `isEnabled` are recomputed from the selection |
| SpoilerCommand.Command.Execute | plugins/ckeditor5-woltlab-spoiler/src/woltlabspoilercommand.ts:17-37 | With `value` the document is that of `Removed` for the selected blocks; otherwise that of `Applied` for the blocks the filter keeps. The content is always kept, an enabled apply succeeds, and only the documented errors occur |
| HtmlEmbed.ReplaceAbsent | plugins/ckeditor5-woltlab-html-embed/src/woltlabhtmlembed.ts:74-81 | Replacing a pattern that does not occur leaves the string as it is |
| HtmlEmbed.ReplaceShrinks | plugins/ckeditor5-woltlab-html-embed/src/woltlabhtmlembed.ts:74-81 | Replacing by something no longer than the pattern never lengthens the string |
| HtmlEmbed.UnescapePlain | plugins/ckeditor5-woltlab-html-embed/src/woltlabhtmlembed.ts:74-81 | Text without `&` is unchanged |
| HtmlEmbed.UnescapeShrinks | plugins/ckeditor5-woltlab-html-embed/src/woltlabhtmlembed.ts:74-81 | Unescaping never lengthens the markup |
| HtmlEmbed.AmpersandDecodedOnce | plugins/ckeditor5-woltlab-html-embed/src/woltlabhtmlembed.ts:74-81 | `&amp;` before text without `&` becomes a single `&`, and the result is not decoded again |
| HtmlEmbed.AmpLtExample | plugins/ckeditor5-woltlab-html-embed/src/woltlabhtmlembed.ts:80 | `&amp;lt;` becomes `&lt;`, not `<` |
| HtmlEmbed.UpcastValue | plugins/ckeditor5-woltlab-html-embed/src/woltlabhtmlembed.ts:39-56 | The raw content unescaped, or "" when it is not a string |
| HtmlEmbed.DowncastText | plugins/ckeditor5-woltlab-html-embed/src/woltlabhtmlembed.ts:58-71 | The stored value, or "" when there is none |
| HtmlEmbed.UpcastDowncast | plugins/ckeditor5-woltlab-html-embed/src/woltlabhtmlembed.ts:39-71 | Storing what was read writes the markup unescaped once, never longer than what was read |
| FontSize.FontSizes | plugins/ckeditor5-woltlab-font-size/src/woltlabfontsize.ts:22-29 | One size per option, with "default" read as 15 |
| FontSize.MatchNumberIff | plugins/ckeditor5-woltlab-font-size/src/woltlabfontsize.ts:66-73 | The number parse succeeds exactly on the texts `\d*\.?\d+` matches |
| FontSize.IntegerTextParses | plugins/ckeditor5-woltlab-font-size/src/woltlabfontsize.ts:73 | The digits of an integer parse back to it |
| FontSize.ConvertNumberWithUnit | plugins/ckeditor5-woltlab-font-size/src/woltlabfontsize.ts:61-86 | A number followed by px, pt, em or % converts to the number times 1, 1.33, 16 or 0.15 |
| FontSize.ConvertRefuses | plugins/ckeditor5-woltlab-font-size/src/woltlabfontsize.ts:66-71 | Every text the pattern does not match gives no size |
| FontSize.ClosestIndex | plugins/ckeditor5-woltlab-font-size/src/woltlabfontsize.ts:43-47 | The `reduce` picks a size at least as close as every other, and the first of equally close ones |
| FontSize.UpcastFontSize | plugins/ckeditor5-woltlab-font-size/src/woltlabfontsize.ts:34-49 | Nothing without a size. `reduce` on no options throws TypeError. Otherwise the closest option with "px" |
| FontSize.UpcastPicksOption | plugins/ckeditor5-woltlab-font-size/src/woltlabfontsize.ts:42-47 | The upcast size is always one of the configured options |
| Markers.MarkerCollection.Put | plugins/ckeditor5-woltlab-emoji/src/woltlabemoji.ts:266-281 | The named marker is updated if it exists and added otherwise; other markers are kept |
| Markers.MarkerCollection.RemoveIfPresent | plugins/ckeditor5-woltlab-emoji/src/woltlabemoji.ts:315-323 | The named marker is removed if it exists; nothing else changes |
| Emoji.CodeHasNoColon | plugins/ckeditor5-woltlab-emoji/src/woltlabemoji.ts:499-505 | An emoji code holds no colon |
| Emoji.ColonAfter | plugins/ckeditor5-woltlab-emoji/src/woltlabemoji.ts:405-412 | With the pattern's leading characters, a colon and a code at the end of the text trigger exactly when the character before the colon is a space, a quote or opening punctuation (`(`, `[`, `{` without property escapes) |
| Emoji.NoTriggerAfterLetter | plugins/ckeditor5-woltlab-emoji/src/woltlabemoji.ts:499-505 | A colon and a code right after a letter or a digit (`a:smile`) never trigger, with or without property escapes |
| Emoji.TriggerAfterSpaceOrOpener | plugins/ckeditor5-woltlab-emoji/src/woltlabemoji.ts:499-505 | A colon and a code after a space (` :smile`) trigger at the colon; so do they after `(` without property escapes |
| Emoji.FirstMatch | plugins/ckeditor5-woltlab-emoji/src/woltlabemoji.ts:258-264 | The leftmost match start, none exactly when nothing matches |
| Emoji.MatchedText | plugins/ckeditor5-woltlab-emoji/src/woltlabemoji.ts:258-264 | `match(...)[0]` is the text from the leftmost match to the end |
| Emoji.TriggerIsLastColon | plugins/ckeditor5-woltlab-emoji/src/woltlabemoji.ts:405-412 | A trigger is always the last colon of the text |
| Emoji.LastPositionIff | plugins/ckeditor5-woltlab-emoji/src/woltlabemoji.ts:405-412 | The last position is `i` exactly when the text is a trigger at `i`: the last colon at the start or after a leading character, followed by a code to the end |
| Emoji.LastColonMatch | plugins/ckeditor5-woltlab-emoji/src/woltlabemoji.ts:254-256 | The watcher's pattern matches from before the last colon exactly when it is a trigger |
| Emoji.MatchedCode | plugins/ckeditor5-woltlab-emoji/src/woltlabemoji.ts:258-264 | The matched text is the text from the colon, and the query after it is an emoji code |
| Emoji.PositionNamed | plugins/ckeditor5-woltlab-emoji/src/woltlabemoji.ts:476-478 | The position with that name, none exactly when no position has it |
| Emoji.PreferredPositionOnly | plugins/ckeditor5-woltlab-emoji/src/woltlabemoji.ts:476-478 | A known preferred position is used alone |
| Emoji.DefaultPositions | plugins/ckeditor5-woltlab-emoji/src/woltlabemoji.ts:481-493 | Otherwise all four positions, south ones first, mirrored for right-to-left |
| Emoji.UnicodeItems | plugins/ckeditor5-woltlab-emoji/src/woltlabemoji.ts:289-299 | One entry per Unicode emoji, in order; custom emojis are skipped |
| Emoji.ListedAppend | plugins/ckeditor5-woltlab-emoji/src/woltlabemoji.ts:195-200 | A new entry is shown exactly when fewer than ten are shown |
| Emoji.ListedPrefix | plugins/ckeditor5-woltlab-emoji/src/woltlabemoji.ts:195-219 | The list shows the first entries, up to ten |
| Emoji.EmojiUi.AddItem | plugins/ckeditor5-woltlab-emoji/src/woltlabemoji.ts:195-219 | The entry is added; the list gains it while fewer than ten are shown |
| Emoji.EmojiUi.HideBalloon | plugins/ckeditor5-woltlab-emoji/src/woltlabemoji.ts:315-323 | The list is hidden and the marker removed if present |
| Emoji.EmojiUi.ShowBalloon | plugins/ckeditor5-woltlab-emoji/src/woltlabemoji.ts:328-352 | Shown exactly when the marker exists; otherwise the balloon is hidden |
| Emoji.EmojiUi.OnMatched | plugins/ckeditor5-woltlab-emoji/src/woltlabemoji.ts:257-285 | The marker covers the trigger colon, counted from the line start; the entries are cleared; the query is the code after the colon |
| Emoji.EmojiUi.OnSearchDone | plugins/ckeditor5-woltlab-emoji/src/woltlabemoji.ts:285-308 | The Unicode results are appended as entries; the balloon shows exactly when there are entries and the marker exists |
| Emoji.EmojiUi.OnKeyDown | plugins/ckeditor5-woltlab-emoji/src/woltlabemoji.ts:121-146 | The handled keys are exactly arrow up (38), arrow down (40), escape (27), enter (13) and tab (9), and a handled key is consumed exactly while the list shows. Escape, and enter or tab through the list's `execute` handler, hide the balloon and remove the marker; the arrow keys and unhandled keys change nothing |
| Emoji.ListedAtMostTen | plugins/ckeditor5-woltlab-emoji/src/woltlabemoji.ts:198-200 | The list never shows more than ten entries, and they are the first entries |
| Smiley.LastPositionIff | plugins/ckeditor5-woltlab-smiley/src/woltlabsmileyui.ts:91-98 | The last position is `i` exactly when `i` is the last colon and a word character follows it |
| Smiley.WatcherTestIff | plugins/ckeditor5-woltlab-smiley/src/woltlabsmileyui.ts:49-56 | The watcher fires exactly when there is a last position |
| Smiley.MarkerRangeAsWritten | plugins/ckeditor5-woltlab-smiley/src/woltlabsmileyui.ts:58-66 | The marker as written: one character at the line offset, taken as a block offset |
| Smiley.MarkerMissesColonAfterBreak | plugins/ckeditor5-woltlab-smiley/src/woltlabsmileyui.ts:58-66 | After a soft break, the marker as written lies on the break, not on the colon |
| Smiley.MarkerCoversColon | plugins/ckeditor5-woltlab-smiley/src/woltlabsmileyui.ts:58-66 | With the offset counted from the line start, the marker covers exactly the last colon |
| Smiley.OnMatched | plugins/ckeditor5-woltlab-smiley/src/woltlabsmileyui.ts:57-84 | The `smiley` marker is added or updated with the corrected, line-relative range (see Findings), so it covers the colon; other markers are kept |
| MagicParagraph.WalkIff | plugins/ckeditor5-woltlab-magic-paragraph/src/woltlabmagicparagraph.ts:129-131 | The walker meets every element below the root and nothing else |
| MagicParagraph.PossibleBlocksIff | plugins/ckeditor5-woltlab-magic-paragraph/src/woltlabmagicparagraph.ts:128-150 | A block is possible exactly when it is a container mapped to a block quote, code block, spoiler or table |
| MagicParagraph.FindPossibleBlocks | plugins/ckeditor5-woltlab-magic-paragraph/src/woltlabmagicparagraph.ts:128-150 | The possible blocks, in document order |
| MagicParagraph.VisitNode | plugins/ckeditor5-woltlab-magic-paragraph/src/woltlabmagicparagraph.ts:132-148 | A walked node is yielded exactly when it is a container element that the mapper maps to a block quote, code block, spoiler or table (`IsCandidate`) |
| MagicParagraph.HitSide | plugins/ckeditor5-woltlab-magic-paragraph/src/woltlabmagicparagraph.ts:59-72 | Before, exactly when the click is in the top margin; after, exactly when it is in the bottom margin and not the top one |
| MagicParagraph.FirstHit | plugins/ckeditor5-woltlab-magic-paragraph/src/woltlabmagicparagraph.ts:53-73 | The first block whose margin is hit; none exactly when no margin is hit |
| MagicParagraph.HitsParagraphOrItem | plugins/ckeditor5-woltlab-magic-paragraph/src/woltlabmagicparagraph.ts:41-47 | True exactly when the target or an ancestor is a `p` or `li` |
| MagicParagraph.FindHit | plugins/ckeditor5-woltlab-magic-paragraph/src/woltlabmagicparagraph.ts:53-73 | The first hit block and its side |
| MagicParagraph.InsertedParagraphAdjacent | plugins/ckeditor5-woltlab-magic-paragraph/src/woltlabmagicparagraph.ts:78-126 | After the insertion, the selection is at an empty paragraph directly before or after the block |
| MagicParagraph.InsertParagraph | plugins/ckeditor5-woltlab-magic-paragraph/src/woltlabmagicparagraph.ts:78-126 | A neighbouring paragraph is reused; otherwise a new one is inserted beside the block; the selection moves to it |
| MagicParagraph.OnClick | plugins/ckeditor5-woltlab-magic-paragraph/src/woltlabmagicparagraph.ts:34-74 | A click in a paragraph or list item changes nothing. Otherwise the first block whose margin is hit gets a paragraph on that side, and no hit changes nothing |
| Bbcode.FirstSemicolon | plugins/ckeditor5-woltlab-bbcode/src/woltlabbbcode.ts:55 | The first `;`, or the length when there is none |
| Bbcode.SplitPieces | plugins/ckeditor5-woltlab-bbcode/src/woltlabbbcode.ts:55 | `split(";", 2)`: the first piece is everything before the first `;`; a second piece exists exactly when there is a `;` |
| Bbcode.IconNameAndSolid | plugins/ckeditor5-woltlab-bbcode/src/woltlabbbcode.ts:54-67 | The icon name is the text before the first `;`; `solid` is set exactly when the second piece is "true" |
| Bbcode.ButtonFor | plugins/ckeditor5-woltlab-bbcode/src/woltlabbbcode.ts:49-67 | The button keeps the label with a tooltip; it gets an icon template exactly when the icon is non-empty |
| Bbcode.ComponentNameInjective | plugins/ckeditor5-woltlab-bbcode/src/woltlabbbcode.ts:48 | Different BBCodes get different component names |
| Bbcode.ComponentFactory.Add | plugins/ckeditor5-woltlab-bbcode/src/woltlabbbcode.ts:48 | The button is registered under the name, replacing an earlier registration of that name; no other component changes |
| Bbcode.RegisteredKeys | plugins/ckeditor5-woltlab-bbcode/src/woltlabbbcode.ts:36-38 | The registered names are the old ones plus one per entry |
| Bbcode.RegisteredButtons | plugins/ckeditor5-woltlab-bbcode/src/woltlabbbcode.ts:36-38 | With fresh names, every entry gets its own button and the old ones are kept |
| Bbcode.RegisteredLastWins | plugins/ckeditor5-woltlab-bbcode/src/woltlabbbcode.ts:36-48 | An entry that no later entry repeats has its own button under its component name, so for a repeated name the last entry's button is the one registered |
| Bbcode.RegisteredKeepsOthers | plugins/ckeditor5-woltlab-bbcode/src/woltlabbbcode.ts:36-48 | A component registered beforehand under a name that no entry takes keeps its registration |
| Bbcode.Init | plugins/ckeditor5-woltlab-bbcode/src/woltlabbbcode.ts:23-39 | No options does nothing. Otherwise a disabled command is created, and every entry's button is registered in order (`Registered`), a repeated name replacing the earlier button |
| Bbcode.Press | plugins/ckeditor5-woltlab-bbcode/src/woltlabbbcode.ts:71-73 | A disabled command or a prevented event changes nothing; otherwise the selection is wrapped in the tags |
| BbcodeCommand.TaggedParts | plugins/ckeditor5-woltlab-bbcode/src/woltlabbbcodecommand.ts:33-45 | The tagged text is the text before, the opening tag, the selection, the closing tag and the text after |
| BbcodeCommand.DisabledInSpoilerTitle | plugins/ckeditor5-woltlab-bbcode/src/woltlabbbcodecommand.ts:58-67 | Inside a spoiler title the command is disabled |
| BbcodeCommand.EnabledOutsideTitle | plugins/ckeditor5-woltlab-bbcode/src/woltlabbbcodecommand.ts:58-67 | Elsewhere it is enabled exactly when the schema allows `bold` |
| BbcodeCommand.Command.constructor | plugins/ckeditor5-woltlab-bbcode/src/woltlabbbcodecommand.ts:15 | A new command is disabled |
| BbcodeCommand.Command.Refresh | plugins/ckeditor5-woltlab-bbcode/src/woltlabbbcodecommand.ts:54-56 | `isEnabled` is recomputed from the selection |
| BbcodeCommand.Command.Execute | plugins/ckeditor5-woltlab-bbcode/src/woltlabbbcodecommand.ts:21-48 | A prevented event changes nothing. Otherwise `[name]` goes before the selection and `[/name]` after it, and the selection is collapsed at the start of the closing tag |
| ModelText.TextBuffer.Insert | plugins/ckeditor5-woltlab-bbcode/src/woltlabbbcodecommand.ts:33-45 | The text is inserted at the offset; positions at or after it move along |
| ModelText.TextBuffer.SetSelection | plugins/ckeditor5-woltlab-bbcode/src/woltlabbbcodecommand.ts:47-48 | The selection collapses at the offset; the text is kept |

## Left out

- The editor engine itself is not part of this model. This covers schema inference beyond the plugin checks, `safeInsert` (an input), `convertChildren`, consumables (inputs), the mapper, undo, and change batching.
- The `insert:blockQuote` and `insert:codeBlock` downcasts (editing and data) are modelled as the element they create. Their `consumable.consume(data.item, "insert")` guard is not: `BlockQuote.EditingDowncast`, `BlockQuote.DataDowncast`, `CodeBlock.EditingDowncast` and `CodeBlock.DataDowncast` assume the item is still unconsumed.
- Views and UI are not modelled. This covers the block quote and code block panels, the emoji picker element, the balloon's geometry and positioning, toolbar rendering and icon loading.
- Layout is modelled as integer inputs: `getBoundingClientRect` and the margins parsed by `parseInt` are given as whole pixels.
- The emoji database search is asynchronous; its results are an input to `Emoji.EmojiUi.OnSearchDone`. Moving the list selection and the `insertText` of a committed entry are not modelled.
- Emoji.EmojiUi.OnKeyDown: enter and tab are taken to execute a selected entry, as the list always has one while it shows; only the hiding of the balloon is modelled.
- Smiley.OnMatched: places the marker with the corrected line-relative offset, not the block offset the source computes (see Findings; `Smiley.MarkerRangeAsWritten` is the range as written).
- Numbers are exact decimals, and font sizes use exact rationals instead of IEEE doubles. Rounding such as `1.33 * x` is not reproduced. `Number.prototype.toString` is modelled for integers and short decimals.
- `console.clear()` in the magic-paragraph handler has no effect on the model.
- Mention.UpcastMention: `uid()` is called once per text node in the source. The model takes one uid parameter for all of them.
- Bbcode.ComponentFactory.Add: CKEditor's component factory stores names in lower case, so two names that differ only in case replace each other there. The model keys components by the exact name.
- Element identity is modelled by ids. Ids are assumed unique, and the id counter is assumed fresh.
- `woltlabmetacode.ts` as shown fires no `upcast` event, does no paragraph wrapping and has no `attach`/`wsm` handlers. The listener of `woltlabmention.ts:36-46` is modelled on its own as `Mention.OnUpcast`; how it would combine with `Metacode.UpcastMetacode` is not modelled.
- BbcodeCommand.Command.Execute: the model's `TextBuffer` is one text container, so a selection whose first and last positions lie in different paragraphs (woltlabbbcodecommand.ts:37-45) is modelled as one concatenated text, and the paragraph boundaries between them are not represented.
- A `CustomEvent` dispatched before a command runs is modelled by its `prevented` flag.
- The Unicode classes `\p{Ps}\p{Pi}` are a set parameter of `Emoji.LeadingCharacters`.
- The spoiler command's `#getRangesOfBlockGroups` works on model ranges. The model uses child-index paths, all taken before any change.
- SpoilerCommand.MergeRun: the `reduce` compares element objects and reads `getChild(1)` of both spoilers unchecked. The model finds the spoilers by id and merges only well-formed ones (a title and a content); a removed spoiler, or one of another shape, becomes the current one instead. What the source does with a malformed spoiler there is not modelled.
- SpoilerCommand.ApplySpoiler: the result is tied to `Applied`, but that every selected block ends up inside a spoiler content is not proved as a separate theorem, because the blocks' paths shift as groups are wrapped and merged.
- SpoilerCommand.GroupStep: a group that is neither inside a spoiler content nor wrappable leaves the document as it is. `SpoilerForGroup` shows that such a group never occurs.
- Json.ParseUnicodeEscape: strings are sequences of Unicode scalar values, not UTF-16 code units. A `\u` escape of an unpaired surrogate is rejected, where `JSON.parse` accepts it and yields a lone surrogate. So for a metacode payload such as the base64 of `["\ud800"]`, `Metacode.SerializedAttributesToString` gives `""`, where the source renders the lone surrogate.
- The autolink, autosave, upload, code, toolbar-group and smiley-command plugins are not part of this model.

## Findings

| source | as written | input that shows it | evidently intended | confidence | as-written member | corrected member |
|---|---|---|---|---|---|---|
| plugins/ckeditor5-woltlab-smiley/src/woltlabsmileyui.ts:58-66 | The marker is created at `createPositionAt(focus.parent, position)`. Here `position` counts from the start of the text line up to the caret, not from the start of the block. | A block `"\n:a"` (a soft break, then the line `:a`). The marker lands at block offset 0, on the soft break, not on the colon at offset 1. | Count from the line start, as the emoji plugin does with `data.range.start.getShiftedBy(position)` (`woltlabemoji.ts:266-281`). The marker then covers the last colon. | not executed | Smiley.MarkerRangeAsWritten, Smiley.MarkerMissesColonAfterBreak | Smiley.LineMarkerRange, Smiley.MarkerCoversColon |
