/** scraping.py: the product scraper, the category scraper with its
    pagination, and the discovery of categories on the index page. */
module Scraping {
  import opened Text
  import opened Web

  /** The keys of the product dictionary, each standing for the string `Name` gives. */
  datatype Key =
    | Upc | ProductPageUrl | Title | PriceIncludingTax | PriceExcludingTax | NumberAvailable
    | ProductDescription | CategoryName | ReviewRating | ImageUrl | Type | Tax

  function Name(k: Key): (r: string) {
    match k
    case Upc => "upc"
    case ProductPageUrl => "product_page_url"
    case Title => "title"
    case PriceIncludingTax => "price_including_tax"
    case PriceExcludingTax => "price_excluding_tax"
    case NumberAvailable => "number_available"
    case ProductDescription => "product_description"
    case CategoryName => "category"
    case ReviewRating => "review_rating"
    case ImageUrl => "image_url"
    case Type => "type"
    case Tax => "tax"
  }

  /** A product record: the dictionary `self.product`, from key to text. */
  type Product = map<Key, string>

  /** The ten keys of the record built by `_set_empty_product`. */
  const ProductKeys: set<Key> :=
    {Upc, ProductPageUrl, Title, PriceIncludingTax, PriceExcludingTax, NumberAvailable,
     ProductDescription, CategoryName, ReviewRating, ImageUrl}

  /** `keys` of `_extract_data`: the key that the i-th table cell is meant for. */
  const TableKeys: seq<Key> :=
    [Upc, Type, PriceExcludingTax, PriceIncludingTax, Tax, NumberAvailable, ReviewRating]

  /** The character set of `lstrip('../')`. */
  const PathChars: set<char> := {'.', '/'}

  /** The character set of `lstrip('Â£')`: the pound sign and the `Â` that a
      Latin-1 decoding of its UTF-8 bytes puts before it. */
  const CurrencyChars: set<char> := {'\U{00C2}', '\U{00A3}'}

  /** `URL + '/' + src.lstrip('../')`: the absolute URL of a cover image. */
  function ImageUrlOf(src: string): (r: string) {
    URL + "/" + LStrip(src, PathChars)
  }

  /** A price cell with its leading currency characters removed. */
  function StripCurrency(text: string): (r: string) {
    LStrip(text, CurrencyChars)
  }

  /** `dict.get(key, default)`. */
  function Get(p: Product, key: Key, default: string): (r: string) {
    if key in p then p[key] else default
  }

  /** `_set_empty_product`: every field empty except the page URL and the category. */
  function EmptyProduct(route: string, categoryName: string): (r: Product) {
    map[Upc := "", ProductPageUrl := route, Title := "", PriceIncludingTax := "",
        PriceExcludingTax := "", NumberAvailable := "", ProductDescription := "",
        CategoryName := categoryName, ReviewRating := "", ImageUrl := ""]
  }

  /** The fresh record has the ten keys, the page URL and the category, and
      every other field empty. */
  lemma EmptyProductFields(route: string, categoryName: string)
    ensures var p := EmptyProduct(route, categoryName);
      && p.Keys == ProductKeys
      && p[ProductPageUrl] == route && p[CategoryName] == categoryName
      && p[Upc] == "" && p[Title] == "" && p[PriceIncludingTax] == "" && p[PriceExcludingTax] == ""
      && p[NumberAvailable] == "" && p[ProductDescription] == "" && p[ReviewRating] == ""
      && p[ImageUrl] == ""
  {
  }

  // ---------------------------------------------------------------------------
  // Extraction from one product page

  /** The `enumerate(tds)` loop: cell i is stored under `TableKeys[i]` when the
      record already has that key. Defined on prefixes, as the loop runs. */
  function AssignCells(p: Product, cells: seq<string>): (r: Product)
    requires |cells| <= |TableKeys|
    decreases |cells|
  {
    if cells == [] then p
    else
      var q := AssignCells(p, cells[..|cells| - 1]);
      var key := TableKeys[|cells| - 1];
      if key in q then q[key := cells[|cells| - 1]] else q
  }

  /** The title, the description and the image URL, set before the table is read. */
  function Described(p: Product, page: Page): (r: Product) {
    var p1 := p[Title := page.heading];
    var p2 := if |page.descriptions| > 0 then p1[ProductDescription := page.descriptions[0]] else p1;
    p2[ImageUrl := ImageUrlOf(page.imageSrc)]
  }

  /** The three assignments after the table loop. */
  function Finished(p: Product): (r: Product) {
    var p1 := p[PriceIncludingTax := StripCurrency(Get(p, PriceIncludingTax, ""))];
    var p2 := p1[PriceExcludingTax := StripCurrency(Get(p1, PriceExcludingTax, ""))];
    p2[ReviewRating := Get(p2, ReviewRating, "0")]
  }

  /** The record `_extract_data` leaves after starting from `p`. */
  function Extracted(p: Product, page: Page): (r: Product)
    requires |page.cells| <= |TableKeys|
  {
    Finished(AssignCells(Described(p, page), page.cells))
  }

  /** The i-th cell, or `default` when the table is shorter. */
  function CellOr(cells: seq<string>, i: nat, default: string): (r: string) {
    if i < |cells| then cells[i] else default
  }

  /** The positional contract of the product table, written out key by key
      as a reference for `TableKeys`: the cell a key reads, or -1 when no
      cell is meant for it. `SlotOfTableKeys` shows the two agree. */
  function Slot(k: Key): (r: int) {
    match k
    case Upc => 0
    case Type => 1
    case PriceExcludingTax => 2
    case PriceIncludingTax => 3
    case Tax => 4
    case NumberAvailable => 5
    case ReviewRating => 6
    case _ => -1
  }

  lemma SlotOfTableKeys()
    ensures forall i :: 0 <= i < |TableKeys| ==> Slot(TableKeys[i]) == i
  {
  }

  /** Cells are stored by position only: a key of the record gets the cell at
      its position in `TableKeys` when there is one, and keeps its value
      otherwise. No key is added. */
  lemma {:induction false} AssignCellsAt(p: Product, cells: seq<string>)
    requires |cells| <= |TableKeys|
    ensures AssignCells(p, cells).Keys == p.Keys
    ensures forall k :: k in p ==>
              AssignCells(p, cells)[k] == if 0 <= Slot(k) < |cells| then cells[Slot(k)] else p[k]
  {
    if cells != [] {
      var n := |cells| - 1;
      var init := cells[..n];
      var q := AssignCells(p, init);
      AssignCellsAt(p, init);
      SlotOfTableKeys();
      forall k | k in p
        ensures AssignCells(p, cells)[k] == if 0 <= Slot(k) < |cells| then cells[Slot(k)] else p[k]
      {
        if k == TableKeys[n] {
          assert Slot(k) == n;
        } else {
          assert AssignCells(p, cells)[k] == q[k];
          assert Slot(k) != n;
          if 0 <= Slot(k) < n { assert init[Slot(k)] == cells[Slot(k)]; }
        }
      }
    }
  }

  lemma DescribedFields(p: Product, page: Page)
    requires p.Keys == ProductKeys
    ensures var d := Described(p, page);
      && d.Keys == ProductKeys
      && d[Title] == page.heading
      && d[ProductDescription] ==
           (if |page.descriptions| > 0 then page.descriptions[0] else p[ProductDescription])
      && d[ImageUrl] == ImageUrlOf(page.imageSrc)
  {
  }

  /** The fields other than the title, the description and the image URL are untouched. */
  lemma DescribedKeeps(p: Product, page: Page, k: Key)
    requires k in p && k != Title && k != ProductDescription && k != ImageUrl
    ensures k in Described(p, page) && Described(p, page)[k] == p[k]
  {
  }

  lemma FinishedFields(a: Product)
    requires a.Keys == ProductKeys
    ensures var q := Finished(a);
      && q.Keys == ProductKeys
      && q[PriceIncludingTax] == StripCurrency(a[PriceIncludingTax])
      && q[PriceExcludingTax] == StripCurrency(a[PriceExcludingTax])
      && q[ReviewRating] == a[ReviewRating]
  {
  }

  /** The fields other than the two prices and the rating are untouched. */
  lemma FinishedKeeps(a: Product, k: Key)
    requires k in a && k != PriceIncludingTax && k != PriceExcludingTax && k != ReviewRating
    ensures k in Finished(a) && Finished(a)[k] == a[k]
  {
  }

  /** The five table fields of a complete record after the table loop. */
  lemma AssignedFields(d: Product, cells: seq<string>)
    requires d.Keys == ProductKeys && |cells| <= |TableKeys|
    ensures var a := AssignCells(d, cells);
      && a.Keys == ProductKeys
      && a[Upc] == CellOr(cells, 0, d[Upc])
      && a[PriceExcludingTax] == CellOr(cells, 2, d[PriceExcludingTax])
      && a[PriceIncludingTax] == CellOr(cells, 3, d[PriceIncludingTax])
      && a[NumberAvailable] == CellOr(cells, 5, d[NumberAvailable])
      && a[ReviewRating] == CellOr(cells, 6, d[ReviewRating])
  {
    AssignCellsAt(d, cells);
    var a := AssignCells(d, cells);
    FieldFromCell(d, cells, Upc, 0);
    FieldFromCell(d, cells, PriceExcludingTax, 2);
    FieldFromCell(d, cells, PriceIncludingTax, 3);
    FieldFromCell(d, cells, NumberAvailable, 5);
    FieldFromCell(d, cells, ReviewRating, 6);
  }

  /** A key no cell is meant for keeps its value through the table loop. */
  lemma FieldKept(d: Product, cells: seq<string>, k: Key)
    requires k in d && |cells| <= |TableKeys| && Slot(k) < 0
    ensures k in AssignCells(d, cells) && AssignCells(d, cells)[k] == d[k]
  {
    AssignCellsAt(d, cells);
  }

  lemma FieldFromCell(d: Product, cells: seq<string>, k: Key, i: nat)
    requires k in d && |cells| <= |TableKeys| && Slot(k) == i
    ensures k in AssignCells(d, cells) && AssignCells(d, cells)[k] == CellOr(cells, i, d[k])
  {
    AssignCellsAt(d, cells);
  }

  /** What extraction does to the fields that come from outside the table. */
  lemma ExtractedFields(p: Product, page: Page)
    requires p.Keys == ProductKeys && |page.cells| <= |TableKeys|
    ensures Extracted(p, page).Keys == ProductKeys
    ensures var q := Extracted(p, page);
      && q[ProductPageUrl] == p[ProductPageUrl]
      && q[CategoryName] == p[CategoryName]
      && q[Title] == page.heading
      && q[ProductDescription] ==
           (if |page.descriptions| > 0 then page.descriptions[0] else p[ProductDescription])
      && q[ImageUrl] == ImageUrlOf(page.imageSrc)
  {
    var d := Described(p, page);
    DescribedFields(p, page);
    DescribedKeeps(p, page, ProductPageUrl);
    DescribedKeeps(p, page, CategoryName);
    var a := AssignCells(d, page.cells);
    AssignedFields(d, page.cells);
    FieldKept(d, page.cells, ProductPageUrl);
    FieldKept(d, page.cells, CategoryName);
    FieldKept(d, page.cells, Title);
    FieldKept(d, page.cells, ProductDescription);
    FieldKept(d, page.cells, ImageUrl);
    FinishedFields(a);
    FinishedKeeps(a, ProductPageUrl);
    FinishedKeeps(a, CategoryName);
    FinishedKeeps(a, Title);
    FinishedKeeps(a, ProductDescription);
    FinishedKeeps(a, ImageUrl);
  }

  /** What extraction does to the fields read from the table: cells 0, 2, 3,
      5 and 6, the two prices without their currency sign. */
  lemma ExtractedCells(p: Product, page: Page)
    requires p.Keys == ProductKeys && |page.cells| <= |TableKeys|
    ensures Extracted(p, page).Keys == ProductKeys
    ensures var q := Extracted(p, page);
      && q[Upc] == CellOr(page.cells, 0, p[Upc])
      && q[PriceExcludingTax] == StripCurrency(CellOr(page.cells, 2, p[PriceExcludingTax]))
      && q[PriceIncludingTax] == StripCurrency(CellOr(page.cells, 3, p[PriceIncludingTax]))
      && q[NumberAvailable] == CellOr(page.cells, 5, p[NumberAvailable])
      && q[ReviewRating] == CellOr(page.cells, 6, p[ReviewRating])
  {
    var d := Described(p, page);
    DescribedFields(p, page);
    DescribedKeeps(p, page, Upc);
    DescribedKeeps(p, page, PriceExcludingTax);
    DescribedKeeps(p, page, PriceIncludingTax);
    DescribedKeeps(p, page, NumberAvailable);
    DescribedKeeps(p, page, ReviewRating);
    var a := AssignCells(d, page.cells);
    AssignedFields(d, page.cells);
    FinishedFields(a);
    FinishedKeeps(a, Upc);
    FinishedKeeps(a, NumberAvailable);
  }

  /** A fresh record filled from a page: the ten fields, with the page URL and
      the category left as the constructor set them and `review_rating` never
      given its `'0'` default. */
  lemma FreshProductFields(route: string, categoryName: string, page: Page)
    requires |page.cells| <= |TableKeys|
    ensures Extracted(EmptyProduct(route, categoryName), page).Keys == ProductKeys
    ensures var q := Extracted(EmptyProduct(route, categoryName), page);
      && q[ProductPageUrl] == route
      && q[CategoryName] == categoryName
      && q[Title] == page.heading
      && q[ProductDescription] == (if |page.descriptions| > 0 then page.descriptions[0] else "")
      && q[ImageUrl] == ImageUrlOf(page.imageSrc)
      && q[Upc] == CellOr(page.cells, 0, "")
      && q[PriceExcludingTax] == StripCurrency(CellOr(page.cells, 2, ""))
      && q[PriceIncludingTax] == StripCurrency(CellOr(page.cells, 3, ""))
      && q[NumberAvailable] == CellOr(page.cells, 5, "")
      && q[ReviewRating] == CellOr(page.cells, 6, "")
  {
    EmptyProductFields(route, categoryName);
    ExtractedFields(EmptyProduct(route, categoryName), page);
    ExtractedCells(EmptyProduct(route, categoryName), page);
  }

  /** `lstrip('Â£')` turns the price cell `"Â£51.77"` into `"51.77"`. */
  lemma PriceExample()
    ensures StripCurrency("\U{00C2}\U{00A3}51.77") == "51.77"
    ensures StripCurrency("\U{00A3}51.77") == "51.77"
  {
  }

  /** `_fetch_links` and `_extract_data` keep only a suffix of the `href` or
      `src` that is empty or starts with neither `.` nor `/`. */
  lemma TrimmedPathSpec(path: string)
    ensures var t := LStrip(path, PathChars);
      && |t| <= |path| && t == path[|path| - |t|..]
      && (t == [] || (t[0] != '.' && t[0] != '/'))
  {
    LStripSpec(path, PathChars);
  }

  /** A page can be scraped without an exception: `keys[index]` would go out
      of range on an eighth table cell. */
  predicate ProductPageSafe(site: Site, url: string) {
    match Fetch(site, url)
    case None => true
    case Some(page) => |page.cells| <= |TableKeys|
  }

  /** What `ProductScraping(url, categoryName)` yields: the record after a
      successful `retrieve_product`, or None when the fetch is not ok. */
  function ScrapeProduct(site: Site, url: string, categoryName: string): (r: Option<Product>)
    requires ProductPageSafe(site, url)
  {
    match Fetch(site, url)
    case None => None
    case Some(page) => Some(Extracted(EmptyProduct(url, categoryName), page))
  }

  class ProductScraping {
    const categoryName: string
    const route: string
    var product: Product

    constructor (route: string, categoryName: string)
      ensures this.route == route && this.categoryName == categoryName
      ensures product == EmptyProduct(route, categoryName)
    {
      this.categoryName := categoryName;
      this.route := route;
      product := EmptyProduct(route, categoryName);
    }

    /** `retrieve_product`: on a failed fetch the record is left as it was. */
    method RetrieveProduct(site: Site) returns (ok: bool)
      requires ProductPageSafe(site, route)
      modifies this`product
      ensures ok <==> Fetch(site, route).Some?
      ensures !ok ==> product == old(product)
      ensures ok ==> product == Extracted(old(product), Fetch(site, route).value)
    {
      var response := Fetch(site, route);
      if response.Some? {
        ExtractData(response.value);
        return true;
      }
      return false;
    }

    /** `_extract_data`: the record is updated key by key. */
    method ExtractData(page: Page)
      requires |page.cells| <= |TableKeys|
      modifies this`product
      ensures product == Extracted(old(product), page)
    {
      product := product[Title := page.heading];
      var description := page.descriptions;
      if |description| > 0 {
        product := product[ProductDescription := description[0]];
      }
      var trimUrl := LStrip(page.imageSrc, PathChars);
      product := product[ImageUrl := URL + "/" + trimUrl];
      assert product == Described(old(product), page);
      ghost var described := product;
      var tds := page.cells;
      for index := 0 to |tds|
        invariant product == AssignCells(described, tds[..index])
      {
        assert tds[..index + 1][..index] == tds[..index];
        if TableKeys[index] in product {
          product := product[TableKeys[index] := tds[index]];
        }
      }
      assert tds[..|tds|] == tds;
      product := product[PriceIncludingTax := LStrip(Get(product, PriceIncludingTax, ""), CurrencyChars)];
      product := product[PriceExcludingTax := LStrip(Get(product, PriceExcludingTax, ""), CurrencyChars)];
      product := product[ReviewRating := Get(product, ReviewRating, "0")];
    }
  }

  // ---------------------------------------------------------------------------
  // Listing pages and pagination

  /** `'/catalogue/' + href.lstrip('../')` for every `href`, in order. */
  function CardLinks(hrefs: seq<string>): (r: seq<string>)
    decreases |hrefs|
  {
    if hrefs == [] then []
    else CardLinks(hrefs[..|hrefs| - 1]) + ["/catalogue/" + LStrip(hrefs[|hrefs| - 1], PathChars)]
  }

  /** One link per card, in card order: the card's `href` without its
      leading run of `.` and `/`, under `/catalogue/`. */
  lemma {:induction false} CardLinksAt(hrefs: seq<string>)
    ensures |CardLinks(hrefs)| == |hrefs|
    ensures forall i :: 0 <= i < |hrefs| ==>
              CardLinks(hrefs)[i] == "/catalogue/" + LStrip(hrefs[i], PathChars)
    decreases |hrefs|
  {
    if hrefs != [] {
      var n := |hrefs| - 1;
      CardLinksAt(hrefs[..n]);
      forall i | 0 <= i < n
        ensures CardLinks(hrefs)[i] == "/catalogue/" + LStrip(hrefs[i], PathChars)
      {
        assert hrefs[..n][i] == hrefs[i];
      }
    }
  }

  /** The links of the product cards of a listing page. */
  function LinksOf(page: Page): (r: seq<string>) {
    CardLinks(page.productHrefs)
  }

  /** `f"{self.route}/page-{i}.html"`. */
  function PageUrl(route: string, i: nat): (r: string) {
    route + "/page-" + NatToString(i) + ".html"
  }

  /** The links page i adds: those of its cards, or none when its fetch fails. */
  function PageLinks(site: Site, route: string, i: nat): (r: seq<string>) {
    match Fetch(site, PageUrl(route, i))
    case None => []
    case Some(page) => LinksOf(page)
  }

  /** The links added by pages lo .. hi - 1, in page order. */
  function PagesLinks(site: Site, route: string, lo: nat, hi: nat): (r: seq<string>)
    decreases hi
  {
    if hi <= lo then [] else PagesLinks(site, route, lo, hi - 1) + PageLinks(site, route, hi - 1)
  }

  /** The URLs requested for pages lo .. hi - 1, in that order. */
  function PageUrls(route: string, lo: nat, hi: nat): (r: seq<string>)
    decreases hi
  {
    if hi <= lo then [] else PageUrls(route, lo, hi - 1) + [PageUrl(route, hi - 1)]
  }

  /** The pager text can be read without an exception: `split()[-1]` needs a
      token and `int()` is given decimal digits. */
  predicate PagerSafe(page: Page) {
    page.pagerCurrent.Some? ==>
      HasToken(page.pagerCurrent.value) && IsDigits(LastToken(page.pagerCurrent.value))
  }

  /** `int(pagination.split()[-1])`. */
  function LastPage(page: Page): (r: nat)
    requires page.pagerCurrent.Some? && PagerSafe(page)
  {
    ParseNat(LastToken(page.pagerCurrent.value))
  }

  /** The links `_fetch_next_pages` adds: those of pages 2 .. last when there is a pager. */
  function NextPagesLinks(site: Site, route: string, page: Page): (r: seq<string>)
    requires PagerSafe(page)
  {
    if page.pagerCurrent.None? then [] else PagesLinks(site, route, 2, LastPage(page) + 1)
  }

  /** The URLs `_fetch_next_pages` requests. */
  function NextPagesUrls(route: string, page: Page): (r: seq<string>)
    requires PagerSafe(page)
  {
    if page.pagerCurrent.None? then [] else PageUrls(route, 2, LastPage(page) + 1)
  }

  predicate ListingSafe(site: Site, route: string) {
    match Fetch(site, route)
    case None => true
    case Some(page) => PagerSafe(page)
  }

  /** The links `_retrieve_all_books` collects: page 1's, then the other pages'. */
  function ListingLinks(site: Site, route: string): (r: seq<string>)
    requires ListingSafe(site, route)
  {
    match Fetch(site, route)
    case None => []
    case Some(page) => LinksOf(page) + NextPagesLinks(site, route, page)
  }

  /** The URLs `_retrieve_all_books` requests, in order. */
  function ListingRequests(site: Site, route: string): (r: seq<string>)
    requires ListingSafe(site, route)
  {
    [route] + match Fetch(site, route)
              case None => []
              case Some(page) => NextPagesUrls(route, page)
  }

  /** The product page URLs `get_books` requests for the given links. */
  function ProductUrls(links: seq<string>): (r: seq<string>) {
    seq(|links|, i requires 0 <= i < |links| => URL + links[i])
  }

  /** The values of the `Some` entries, in order. */
  function Successes<T>(s: seq<Option<T>>): (r: seq<T>)
    decreases |s|
  {
    if s == [] then []
    else Successes(s[..|s| - 1]) + (if s[|s| - 1].Some? then [s[|s| - 1].value] else [])
  }

  lemma {:induction false} SuccessesAppend<T>(a: seq<Option<T>>, b: seq<Option<T>>)
    ensures Successes(a + b) == Successes(a) + Successes(b)
    decreases |b|
  {
    if b != [] {
      var n := |b| - 1;
      assert (a + b)[..|a + b| - 1] == a + b[..n];
      SuccessesAppend(a, b[..n]);
    } else {
      assert a + b == a;
    }
  }

  /** Every value kept comes from an entry, and no more values than entries are kept. */
  lemma {:induction false} SuccessesFrom<T>(s: seq<Option<T>>)
    ensures |Successes(s)| <= |s|
    ensures forall e :: e in Successes(s) ==> exists j :: 0 <= j < |s| && s[j] == Some(e)
    decreases |s|
  {
    if s != [] {
      var n := |s| - 1;
      SuccessesFrom(s[..n]);
      forall e | e in Successes(s)
        ensures exists j :: 0 <= j < |s| && s[j] == Some(e)
      {
        if e in Successes(s[..n]) {
          var j :| 0 <= j < n && s[..n][j] == Some(e);
          assert s[j] == Some(e);
        } else {
          assert s[n] == Some(e);
        }
      }
    }
  }

  /** With no `None` entry, every value is kept, in place. */
  lemma {:induction false} SuccessesAllSome<T>(s: seq<Option<T>>)
    requires forall j :: 0 <= j < |s| ==> s[j].Some?
    ensures |Successes(s)| == |s|
    ensures forall k :: 0 <= k < |s| ==> Successes(s)[k] == s[k].value
    decreases |s|
  {
    if s != [] {
      var n := |s| - 1;
      var init := s[..n];
      SuccessesAllSome(init);
      forall k | 0 <= k < |s|
        ensures Successes(s)[k] == s[k].value
      {
        if k < n {
          assert init[k] == s[k];
        }
      }
    }
  }

  /** The outcome of scraping each link's product page, in link order. */
  function Scrapes(site: Site, links: seq<string>, categoryName: string): (r: seq<Option<Product>>)
    requires forall l :: l in links ==> ProductPageSafe(site, URL + l)
    decreases |links|
  {
    if links == [] then []
    else Scrapes(site, links[..|links| - 1], categoryName) +
         [ScrapeProduct(site, URL + links[|links| - 1], categoryName)]
  }

  lemma {:induction false} ScrapesAt(site: Site, links: seq<string>, categoryName: string)
    requires forall l :: l in links ==> ProductPageSafe(site, URL + l)
    ensures |Scrapes(site, links, categoryName)| == |links|
    ensures forall j :: 0 <= j < |links| ==>
              Scrapes(site, links, categoryName)[j] == ScrapeProduct(site, URL + links[j], categoryName)
    decreases |links|
  {
    if links != [] {
      var n := |links| - 1;
      var init := links[..n];
      ScrapesAt(site, init, categoryName);
      forall j | 0 <= j < |links|
        ensures Scrapes(site, links, categoryName)[j] == ScrapeProduct(site, URL + links[j], categoryName)
      {
        if j < n {
          assert init[j] == links[j];
        }
      }
    }
  }

  /** The records `get_books` returns for the given links: the successes only,
      in link order. */
  function ProductsOf(site: Site, links: seq<string>, categoryName: string): (r: seq<Product>)
    requires forall l :: l in links ==> ProductPageSafe(site, URL + l)
  {
    Successes(Scrapes(site, links, categoryName))
  }

  /** One more link: its record, if any, comes after those of the earlier links. */
  lemma ProductsOfStep(site: Site, links: seq<string>, i: nat, categoryName: string)
    requires i < |links|
    requires forall l :: l in links ==> ProductPageSafe(site, URL + l)
    ensures ProductsOf(site, links[..i + 1], categoryName) ==
            ProductsOf(site, links[..i], categoryName) +
            (if Fetch(site, URL + links[i]).Some?
             then [ScrapeProduct(site, URL + links[i], categoryName).value] else [])
    ensures ProductUrls(links[..i + 1]) == ProductUrls(links[..i]) + [URL + links[i]]
  {
    assert links[..i + 1][..i] == links[..i];
    var s := Scrapes(site, links[..i + 1], categoryName);
    assert s[..|s| - 1] == Scrapes(site, links[..i], categoryName);
  }

  /** `get_books` runs without an exception. */
  predicate BooksSafe(site: Site, route: string, links: seq<string>) {
    && ListingSafe(site, route)
    && forall l :: l in links + ListingLinks(site, route) ==> ProductPageSafe(site, URL + l)
  }

  /** A listing whose first page fails gives no link, and only that page is
      requested; a first page without a pager gives exactly its own links. */
  lemma ListingWithoutPages(site: Site, route: string)
    requires ListingSafe(site, route)
    ensures Fetch(site, route).None? ==> ListingLinks(site, route) == [] && ListingRequests(site, route) == [route]
    ensures Fetch(site, route).Some? && Fetch(site, route).value.pagerCurrent.None? ==>
              ListingLinks(site, route) == LinksOf(Fetch(site, route).value) &&
              ListingRequests(site, route) == [route]
  {
  }

  /** A first listing page without a pager and with N product cards gives
      exactly N product page requests, one per card in card order, at
      `URL + '/catalogue/' + href.lstrip('../')`. */
  lemma SinglePageProductUrls(site: Site, route: string, page: Page)
    requires Fetch(site, route) == Some(page) && page.pagerCurrent.None?
    ensures ListingSafe(site, route)
    ensures ListingRequests(site, route) == [route]
    ensures var urls := ProductUrls(ListingLinks(site, route));
      && |urls| == |page.productHrefs|
      && forall i :: 0 <= i < |page.productHrefs| ==>
           urls[i] == URL + "/catalogue/" + LStrip(page.productHrefs[i], PathChars)
  {
    ListingWithoutPages(site, route);
    CardLinksAt(page.productHrefs);
  }

  /** Splitting a page range splits its links, so each page's links stay in
      place whatever the other pages return. */
  lemma {:induction false} PagesLinksSplit(site: Site, route: string, lo: nat, mid: nat, hi: nat)
    requires lo <= mid <= hi
    ensures PagesLinks(site, route, lo, hi) ==
            PagesLinks(site, route, lo, mid) + PagesLinks(site, route, mid, hi)
    decreases hi
  {
    if hi != mid {
      PagesLinksSplit(site, route, lo, mid, hi - 1);
    }
  }

  /** The links of one more page come after those already collected. */
  lemma PagesLinksNext(site: Site, route: string, start: seq<string>, lo: nat, hi: nat)
    requires lo <= hi
    ensures start + PagesLinks(site, route, lo, hi) + PageLinks(site, route, hi) ==
            start + PagesLinks(site, route, lo, hi + 1)
  {
  }

  /** The URL of one more page is requested after those already requested. */
  lemma PageUrlsNext(route: string, start: seq<string>, lo: nat, hi: nat)
    requires lo <= hi
    ensures start + PageUrls(route, lo, hi) + [PageUrl(route, hi)] == start + PageUrls(route, lo, hi + 1)
  {
  }

  /** A page whose fetch fails adds nothing and leaves the pages around it alone. */
  lemma FailedPageSkipped(site: Site, route: string, lo: nat, i: nat, hi: nat)
    requires lo <= i < hi
    requires Fetch(site, PageUrl(route, i)).None?
    ensures PagesLinks(site, route, lo, hi) ==
            PagesLinks(site, route, lo, i) + PagesLinks(site, route, i + 1, hi)
  {
    PagesLinksSplit(site, route, lo, i, hi);
    PagesLinksSplit(site, route, i, i + 1, hi);
    calc {
      PagesLinks(site, route, i, i + 1);
      PagesLinks(site, route, i, i) + PageLinks(site, route, i);
      [];
    }
  }

  /** Pages lo .. hi - 1 are requested exactly once each, in ascending order. */
  lemma {:induction false} PageUrlsAt(route: string, lo: nat, hi: nat)
    requires lo <= hi
    ensures |PageUrls(route, lo, hi)| == hi - lo
    ensures forall k :: 0 <= k < hi - lo ==> PageUrls(route, lo, hi)[k] == PageUrl(route, lo + k)
    decreases hi
  {
    if hi != lo {
      PageUrlsAt(route, lo, hi - 1);
    }
  }

  /** Distinct page numbers give distinct URLs. */
  lemma PageUrlInjective(route: string, i: nat, j: nat)
    requires PageUrl(route, i) == PageUrl(route, j)
    ensures i == j
  {
    var a, b := NatToString(i), NatToString(j);
    var n := |route + "/page-"|;
    assert |a| == |b|;
    assert a == PageUrl(route, i)[n..n + |a|];
    assert b == PageUrl(route, j)[n..n + |b|];
    ParseNatToString(i);
    ParseNatToString(j);
  }

  /** The pager text `"Page 1 of 3"` names 3 as the last page. */
  lemma PagerTextExample()
    ensures HasToken("Page 1 of 3")
    ensures LastToken("Page 1 of 3") == "3"
    ensures IsDigits("3") && ParseNat("3") == 3
  {
    var text := "Page 1 of 3";
    assert text[10] == '3';
    assert RStrip(text, Whitespace) == text;
    assert TrailingRun(text) == "3" by {
      assert text[..10] == "Page 1 of ";
      assert TrailingRun(text[..10]) == [];
    }
    assert "3"[..0] == "";
  }

  /** A pager reading "Page 1 of 3" whose page 2 fails: the links are those of
      page 1 followed by those of page 3, and pages 2 and 3 are both requested. */
  lemma ThreePagesSecondFails(site: Site, route: string, first: Page, third: Page)
    requires Fetch(site, route) == Some(first)
    requires first.pagerCurrent == Some("Page 1 of 3")
    requires Fetch(site, PageUrl(route, 2)).None?
    requires Fetch(site, PageUrl(route, 3)) == Some(third)
    ensures ListingSafe(site, route)
    ensures ListingLinks(site, route) == LinksOf(first) + LinksOf(third)
    ensures ListingRequests(site, route) == [route, PageUrl(route, 2), PageUrl(route, 3)]
  {
    PagerTextExample();
    assert PagerSafe(first) && LastPage(first) == 3;
    assert NextPagesLinks(site, route, first) == PagesLinks(site, route, 2, 4);
    assert NextPagesUrls(route, first) == PageUrls(route, 2, 4);
    calc {
      PagesLinks(site, route, 2, 4);
      PagesLinks(site, route, 2, 3) + PageLinks(site, route, 3);
      { assert PagesLinks(site, route, 2, 3) == PagesLinks(site, route, 2, 2) + PageLinks(site, route, 2); }
      [] + LinksOf(third);
    }
    calc {
      PageUrls(route, 2, 4);
      PageUrls(route, 2, 3) + [PageUrl(route, 3)];
      { assert PageUrls(route, 2, 3) == PageUrls(route, 2, 2) + [PageUrl(route, 2)]; }
      [PageUrl(route, 2), PageUrl(route, 3)];
    }
  }

  lemma {:induction false} ScrapesAppend(site: Site, a: seq<string>, b: seq<string>, categoryName: string)
    requires forall l :: l in a + b ==> ProductPageSafe(site, URL + l)
    ensures Scrapes(site, a + b, categoryName) ==
            Scrapes(site, a, categoryName) + Scrapes(site, b, categoryName)
    decreases |b|
  {
    if b != [] {
      var n := |b| - 1;
      assert (a + b)[..|a + b| - 1] == a + b[..n];
      ScrapesAppend(site, a, b[..n], categoryName);
    } else {
      assert a + b == a;
    }
  }

  /** The records of a concatenation of links are the records of each part, in order. */
  lemma ProductsOfAppend(site: Site, a: seq<string>, b: seq<string>, categoryName: string)
    requires forall l :: l in a + b ==> ProductPageSafe(site, URL + l)
    ensures ProductsOf(site, a + b, categoryName) ==
            ProductsOf(site, a, categoryName) + ProductsOf(site, b, categoryName)
  {
    ScrapesAppend(site, a, b, categoryName);
    SuccessesAppend(Scrapes(site, a, categoryName), Scrapes(site, b, categoryName));
  }

  /** Every record returned is complete, belongs to the category and comes
      from one of the links; there are at most as many records as links. */
  lemma ProductsOfFields(site: Site, links: seq<string>, categoryName: string)
    requires forall l :: l in links ==> ProductPageSafe(site, URL + l)
    ensures |ProductsOf(site, links, categoryName)| <= |links|
    ensures forall e :: e in ProductsOf(site, links, categoryName) ==>
              && e.Keys == ProductKeys
              && e[CategoryName] == categoryName
              && exists j :: 0 <= j < |links| && e[ProductPageUrl] == URL + links[j]
  {
    var s := Scrapes(site, links, categoryName);
    ScrapesAt(site, links, categoryName);
    SuccessesFrom(s);
    forall e | e in ProductsOf(site, links, categoryName)
      ensures && e.Keys == ProductKeys
              && e[CategoryName] == categoryName
              && exists j :: 0 <= j < |links| && e[ProductPageUrl] == URL + links[j]
    {
      var j :| 0 <= j < |links| && s[j] == Some(e);
      var url := URL + links[j];
      EmptyProductFields(url, categoryName);
      ExtractedFields(EmptyProduct(url, categoryName), Fetch(site, url).value);
    }
  }

  /** When every product fetch succeeds, there is one record per link, in link order. */
  lemma ProductsOfAllOk(site: Site, links: seq<string>, categoryName: string)
    requires forall l :: l in links ==> ProductPageSafe(site, URL + l)
    requires forall l :: l in links ==> Fetch(site, URL + l).Some?
    ensures |ProductsOf(site, links, categoryName)| == |links|
    ensures forall k :: 0 <= k < |links| ==>
              ProductsOf(site, links, categoryName)[k] == ScrapeProduct(site, URL + links[k], categoryName).value
  {
    var s := Scrapes(site, links, categoryName);
    ScrapesAt(site, links, categoryName);
    forall j | 0 <= j < |s| ensures s[j].Some? {
      assert links[j] in links;
    }
    SuccessesAllSome(s);
  }

  class CategoryScraping {
    const categoryName: string
    const route: string
    var links: seq<string>
    /** Every URL requested so far, in order (listing pages and product pages). */
    ghost var requests: seq<string>

    /** `self.route = URL + '/' + route`: the listing URL as the code builds it. */
    constructor (route: string, categoryName: string)
      ensures this.categoryName == categoryName && this.route == URL + "/" + route
      ensures links == [] && requests == []
    {
      this.categoryName := categoryName;
      this.route := URL + "/" + route;
      links := [];
      requests := [];
    }

    /** `get_books`: collects the links of the listing, then scrapes one product
        page per link, in link order, keeping the records of the successes. */
    method GetBooks(site: Site) returns (elements: seq<Product>)
      requires BooksSafe(site, route, links)
      modifies this
      ensures links == old(links) + ListingLinks(site, route)
      ensures requests == old(requests) + ListingRequests(site, route) + ProductUrls(links)
      ensures elements == ProductsOf(site, links, categoryName)
    {
      var status := RetrieveAllBooks(site);
      ghost var before := requests;
      elements := [];
      var i := 0;
      while i < |links|
        invariant 0 <= i <= |links|
        invariant links == old(links) + ListingLinks(site, route)
        invariant requests == before + ProductUrls(links[..i])
        invariant elements == ProductsOf(site, links[..i], categoryName)
      {
        var booksLink := links[i];
        ProductsOfStep(site, links, i, categoryName);
        var isSuccess, product := ScrapeBook(site, URL + booksLink);
        requests := requests + [URL + booksLink];
        if isSuccess {
          elements := elements + [product];
        }
        i := i + 1;
      }
      assert links[..i] == links;
    }

    /** One turn of the `get_books` loop: a `ProductScraping` for the link,
        and its record when `retrieve_product` succeeds. */
    method ScrapeBook(site: Site, url: string) returns (isSuccess: bool, product: Product)
      requires ProductPageSafe(site, url)
      ensures isSuccess == ScrapeProduct(site, url, categoryName).Some?
      ensures isSuccess ==> product == ScrapeProduct(site, url, categoryName).value
    {
      var productScraping := new ProductScraping(url, categoryName);
      isSuccess := productScraping.RetrieveProduct(site);
      product := productScraping.product;
    }

    /** `_retrieve_all_books`: false when the first listing page fails, and
        then nothing is collected. */
    method RetrieveAllBooks(site: Site) returns (ok: bool)
      requires ListingSafe(site, route)
      modifies this`links, this`requests
      ensures ok <==> Fetch(site, route).Some?
      ensures links == old(links) + ListingLinks(site, route)
      ensures requests == old(requests) + ListingRequests(site, route)
    {
      var response := Fetch(site, route);
      requests := requests + [route];
      if response.None? {
        return false;
      }
      FetchLinks(response.value);
      var hasPager := FetchNextPages(site, response.value);
      return true;
    }

    /** `_fetch_next_pages`: with a pager, pages 2 .. last are fetched in
        ascending order and the links of each ok page appended. */
    method FetchNextPages(site: Site, page: Page) returns (hasPager: bool)
      requires PagerSafe(page)
      modifies this`links, this`requests
      ensures hasPager <==> page.pagerCurrent.Some?
      ensures links == old(links) + NextPagesLinks(site, route, page)
      ensures requests == old(requests) + NextPagesUrls(route, page)
    {
      if page.pagerCurrent.None? {
        return false;
      }
      var lastPage := LastPage(page);
      FetchPageRange(site, lastPage);
      return true;
    }

    /** The `range(2, last_page + 1)` loop of `_fetch_next_pages`. */
    method FetchPageRange(site: Site, lastPage: nat)
      modifies this`links, this`requests
      ensures links == old(links) + PagesLinks(site, route, 2, lastPage + 1)
      ensures requests == old(requests) + PageUrls(route, 2, lastPage + 1)
    {
      var i := 2;
      while i <= lastPage
        invariant 2 <= i <= if lastPage < 2 then 2 else lastPage + 1
        invariant links == old(links) + PagesLinks(site, route, 2, i)
        invariant requests == old(requests) + PageUrls(route, 2, i)
      {
        FetchPage(site, i);
        PagesLinksNext(site, route, old(links), 2, i);
        PageUrlsNext(route, old(requests), 2, i);
        i := i + 1;
      }
      if lastPage < 2 {
        assert PagesLinks(site, route, 2, lastPage + 1) == [] && PageUrls(route, 2, lastPage + 1) == [];
      }
    }

    /** One turn of the `_fetch_next_pages` loop: page i is requested and, when
        its fetch is ok, its links are appended. */
    method FetchPage(site: Site, i: nat)
      modifies this`links, this`requests
      ensures links == old(links) + PageLinks(site, route, i)
      ensures requests == old(requests) + [PageUrl(route, i)]
    {
      var url := PageUrl(route, i);
      var response := Fetch(site, url);
      requests := requests + [url];
      if response.Some? {
        FetchLinks(response.value);
      }
    }

    /** `_fetch_links`: appends the rewritten link of every product card. */
    method FetchLinks(page: Page)
      modifies this`links
      ensures links == old(links) + LinksOf(page)
    {
      var productsLinks := page.productHrefs;
      for j := 0 to |productsLinks|
        invariant links == old(links) + CardLinks(productsLinks[..j])
      {
        var href := productsLinks[j];
        assert productsLinks[..j + 1][..j] == productsLinks[..j];
        links := links + ["/catalogue/" + LStrip(href, PathChars)];
      }
      assert productsLinks[..|productsLinks|] == productsLinks;
    }
  }

  // ---------------------------------------------------------------------------
  // Category discovery

  /** A category link of the index page's side bar. */
  datatype Category = Category(title: string, url: string)

  /** The character set of `strip("\n ")`. */
  const TitleChars: set<char> := {'\n', ' '}

  /** The index page `get_all_categories` fetches. */
  const IndexUrl: string := URL + "/index.html"

  /** The entry built from one side-bar anchor. */
  function CategoryOf(a: Anchor): (r: Category) {
    Category(Strip(a.text, TitleChars), "/" + a.href)
  }

  /** What `get_all_categories` returns: nothing when the index fetch fails,
      otherwise one entry per side-bar anchor, in markup order. */
  function Categories(site: Site): (r: seq<Category>) {
    match Fetch(site, IndexUrl)
    case None => []
    case Some(page) =>
      seq(|page.categoryAnchors|, i requires 0 <= i < |page.categoryAnchors| =>
        CategoryOf(page.categoryAnchors[i]))
  }

  /** An entry's URL is `/` and the `href`; its title is the anchor text
      without its leading and trailing newlines and spaces. */
  lemma CategoryOfSpec(anchor: Anchor)
    ensures var c := CategoryOf(anchor);
      var text := anchor.text;
      var a := |text| - |LStrip(text, TitleChars)|;
      && c.url == "/" + anchor.href
      && 0 <= a && a + |c.title| <= |text| && c.title == text[a..a + |c.title|]
      && (forall j :: 0 <= j < a ==> text[j] in TitleChars)
      && (forall j :: a + |c.title| <= j < |text| ==> text[j] in TitleChars)
      && (c.title == [] || (c.title[0] !in TitleChars && c.title[|c.title| - 1] !in TitleChars))
  {
    StripSpec(anchor.text, TitleChars);
  }

  /** No category without the index page; otherwise one per anchor, in
      markup order. */
  lemma CategoriesShape(site: Site)
    ensures Fetch(site, IndexUrl).None? ==> Categories(site) == []
    ensures Fetch(site, IndexUrl).Some? ==>
      var anchors := Fetch(site, IndexUrl).value.categoryAnchors;
      && |Categories(site)| == |anchors|
      && forall i :: 0 <= i < |anchors| ==> Categories(site)[i] == CategoryOf(anchors[i])
  {
  }

  /** `get_all_categories`. */
  method GetAllCategories(site: Site) returns (categories: seq<Category>)
    ensures categories == Categories(site)
  {
    categories := [];
    var response := Fetch(site, URL + "/index.html");
    if response.None? {
      return categories;
    }
    var categoriesLinks := response.value.categoryAnchors;
    for i := 0 to |categoriesLinks|
      invariant categories == Categories(site)[..i]
    {
      var categoryLink := categoriesLinks[i];
      categories := categories + [Category(Strip(categoryLink.text, TitleChars), "/" + categoryLink.href)];
    }
  }
}
