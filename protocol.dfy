/**
 * The messages the content script sends to the background script. A message
 * is a plain tagged record: the background script reads its `type` as an
 * arbitrary string, so the tag is a string here too.
 */
module Protocol {
  import opened Wrappers

  const MARKDOWN_FOUND: string := "markdown-found"
  const MARKDOWN_LIKELY: string := "markdown-likely"
  const MARKDOWN_NOT_FOUND: string := "markdown-not-found"

  /** `{ type: tag, url }`; `url == None` is a record without a `url` field. */
  datatype Message = Message(tag: string, url: Option<string>)
}
