/**
 The page the content script reads, abstracted: a query scope maps a CSS
 selector to what `root.querySelector(selector)` does with it (no element,
 an element, or an exception for a selector the browser rejects), and the
 few `<meta>` values the generic extractor reads are plain optional strings.
 */
module Dom {

  datatype Option<+T> = None | Some(value: T)

  /** The two text properties getCleanText reads from an element. */
  datatype Element = Element(textContent: string, innerText: string)

  /** The outcome of `root.querySelector(selector)`. */
  datatype Query = NoMatch | Match(element: Element) | Throws

  /** A query root (the document or a container element): the outcome of every
      selector it has been asked about; any other selector finds nothing. */
  type Scope = map<string, Query>

  function QuerySelector(root: Scope, selector: string): Query {
    if selector in root then root[selector] else NoMatch
  }

  /** `el.textContent || el.innerText || ''`. */
  function RawText(e: Element): string {
    if e.textContent != "" then e.textContent else e.innerText
  }

  /** One page load as the detector sees it.
      `container` is the first of `main`, `[role="main"]`, `#content` and
      `body` that exists; the `<meta>` fields hold the `content` of the tag
      when the tag exists. */
  datatype Page = Page(
    hostname: string,
    pathname: string,
    document: Scope,
    container: Scope,
    ogTitle: Option<string>,
    ogSiteName: Option<string>,
    twitterSite: Option<string>)
}
