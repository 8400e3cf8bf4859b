/** The details panel's choice of view for a file's analysis metadata: no
    metadata, a partial view while the analysis for the file's kind is still
    missing something, or the complete view. */
module MetadataDisplay {
  import opened Wrappers
  import opened Media

  /** `x && Array.isArray(x) && x.length > 0` on a list field. */
  predicate HasItems(field: Option<seq<string>>) {
    field.Some? && |field.value| > 0
  }

  /** `x && x.length > 0` on a text field. */
  predicate HasText(field: Option<string>) {
    field.Some? && |field.value| > 0
  }

  /** `checkIfMetadataIncomplete`: which analysis fields a kind requires to
      be present and non-empty. `fileType` is the file's kind as a string. */
  function IsIncomplete(doc: MetadataDoc, fileType: string): (r: bool)
    ensures fileType == "image" ==>
              (r <==> doc.tags.None? || doc.tags.value == [] || doc.objectTags.None? || doc.objectTags.value == [])
    ensures fileType == "video" ==>
              (r <==> || doc.tags.None? || doc.tags.value == []
                      || doc.objectTags.None? || doc.objectTags.value == []
                      || doc.transcription.None? || doc.transcription.value == []
                      || doc.topics.None? || doc.topics.value == [])
    ensures fileType == "audio" ==>
              (r <==> doc.transcription.None? || doc.transcription.value == [] || doc.topics.None? || doc.topics.value == [])
    ensures fileType != "image" && fileType != "video" && fileType != "audio" ==> !r
  {
    if fileType == "image" then
      !(HasItems(doc.tags) && HasItems(doc.objectTags))
    else if fileType == "video" then
      !(HasItems(doc.tags) && HasItems(doc.objectTags) && HasText(doc.transcription) && HasItems(doc.topics))
    else if fileType == "audio" then
      !(HasText(doc.transcription) && HasItems(doc.topics))
    else
      false
  }

  /** A video needs everything an image needs and everything audio needs. */
  lemma VideoNeedsImageAndAudio(doc: MetadataDoc)
    ensures IsIncomplete(doc, "video") <==> IsIncomplete(doc, "image") || IsIncomplete(doc, "audio")
  {
  }

  /** Audio completeness does not look at tags, object tags, scenes or
      extracted text; image completeness does not look at transcription,
      topics, scenes or extracted text. */
  lemma IrrelevantFields(doc: MetadataDoc, tags: Option<seq<string>>, objectTags: Option<seq<string>>,
                         transcription: Option<string>, topics: Option<seq<string>>,
                         scenes: Option<seq<string>>, extractedText: Option<string>)
    ensures IsIncomplete(doc.(tags := tags, objectTags := objectTags, scenes := scenes, extractedText := extractedText), "audio")
         == IsIncomplete(doc, "audio")
    ensures IsIncomplete(doc.(transcription := transcription, topics := topics, scenes := scenes, extractedText := extractedText), "image")
         == IsIncomplete(doc, "image")
  {
  }

  /** `later` has every analysis field that `earlier` has filled in. */
  predicate Extends(earlier: MetadataDoc, later: MetadataDoc) {
    && (HasItems(earlier.tags) ==> HasItems(later.tags))
    && (HasItems(earlier.objectTags) ==> HasItems(later.objectTags))
    && (HasText(earlier.transcription) ==> HasText(later.transcription))
    && (HasItems(earlier.topics) ==> HasItems(later.topics))
  }

  /** As the analysis fills in more fields, a complete document stays
      complete, whatever the kind. */
  lemma MoreAnalysisStaysComplete(earlier: MetadataDoc, later: MetadataDoc, fileType: string)
    requires Extends(earlier, later)
    ensures !IsIncomplete(earlier, fileType) ==> !IsIncomplete(later, fileType)
  {
  }

  /** A document the pipeline has not filled in at all is incomplete for
      every kind that has requirements. */
  lemma EmptyDocIncomplete(fileName: Option<string>, fileType: string)
    requires fileType == "image" || fileType == "video" || fileType == "audio"
    ensures IsIncomplete(MetadataDoc(fileName, None, None, None, None, None, None), fileType)
  {
  }

  /** The three views the panel can show. */
  datatype View = NoMetadataView | PartialView | CompleteView

  /** `MetadataDisplay`: no metadata shows the notice without consulting the
      completeness rule; otherwise the rule picks the partial or complete
      view. */
  function SelectView(metadata: Option<MetadataDoc>, fileType: string): (v: View)
    ensures metadata.None? <==> v == NoMetadataView
    ensures metadata.Some? ==> (v == PartialView <==> IsIncomplete(metadata.value, fileType))
    ensures metadata.Some? ==> (v == CompleteView <==> !IsIncomplete(metadata.value, fileType))
  {
    if metadata.None? then NoMetadataView
    else if IsIncomplete(metadata.value, fileType) then PartialView
    else CompleteView
  }

  /** A file whose kind has no requirements never shows the partial view. */
  lemma OtherKindsShowComplete(doc: MetadataDoc, fileType: string)
    requires fileType != "image" && fileType != "video" && fileType != "audio"
    ensures SelectView(Some(doc), fileType) == CompleteView
  {
  }
}
