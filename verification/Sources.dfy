/** The retrieved sources an answer may cite, and what citation checking says about each marker. */
module Sources {
  import opened Wrappers

  datatype LegalSource = LegalSource(
    sourceId: string,
    documentId: string,
    documentTitle: string,
    articleNumber: string,
    articleTitle: Option<string>,
    content: string,
    effectiveFrom: string,
    effectiveTo: Option<string>,
    versionStatus: string)

  datatype CitationStatus = Valid | Invalid

  datatype CitationInvalidReason =
    InvalidSyntax | Duplicate | NotFound | NotInContext | VersionMismatch | DateOutOfRange | ParagraphNotFound

  datatype ValidatedCitation = ValidatedCitation(
    rawMarker: string,
    sourceId: string,
    status: CitationStatus,
    reason: Option<CitationInvalidReason>,
    source: Option<LegalSource>)
}
