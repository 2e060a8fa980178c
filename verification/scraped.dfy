/** Records shared by the crawlers and the offline scripts that read their output. */
module Scraped {
  import opened Common

  /** One scraped document as the offline scripts load it from JSON. Only `url` and `text` are read;
      a key that is missing is `None`. */
  datatype RawDoc = RawDoc(url: Option<string>, text: Option<string>)

  /** What fetching and parsing one URL yields before its links are resolved: the page text and
      the `href` of every anchor that has one, in document order. */
  datatype Rendered = Rendered(text: string, hrefs: seq<string>)

  /** A scraped page record: its URL, text and resolved links. The `images` field is not modelled. */
  datatype Page = Page(url: string, text: string, links: seq<string>)

  /** No URL is recorded twice. */
  predicate DistinctUrls(pages: seq<Page>) {
    forall i, j :: 0 <= i < j < |pages| ==> pages[i].url != pages[j].url
  }
}
