/** The abstract web the scraper runs against. HTTP requests and HTML parsing
    are replaced by an oracle that maps a URL to the page it serves, and a
    page by exactly what the scraper's CSS selectors read from it. */
module Web {

  datatype Option<+T> = None | Some(value: T)

  /** An anchor of the category side bar: its string and its `href`. */
  datatype Anchor = Anchor(text: string, href: string)

  datatype Page = Page(
    heading: string,                // text of the first `h1`
    descriptions: seq<string>,      // texts matched by `#product_description + p`
    imageSrc: string,               // `src` of the first `img`
    cells: seq<string>,             // texts of every `td`, in document order
    productHrefs: seq<string>,      // `href`s of `.product_pod h3 a`
    pagerCurrent: Option<string>,   // text of `.pager .current`; None when there is no `.pager`
    categoryAnchors: seq<Anchor>    // `.side_categories ul li ul li a`
  )

  /** The fetch oracle: `None` stands for a response whose `ok` is false. */
  type Site = map<string, Option<Page>>

  /** `requests.get(url)` followed by `response.ok`; a URL the site does not
      list answers with an error status. */
  function Fetch(site: Site, url: string): (r: Option<Page>) {
    if url in site then site[url] else None
  }

  /** The site root, `URL` in the scraper. */
  const URL: string := "https://books.toscrape.com"
}
