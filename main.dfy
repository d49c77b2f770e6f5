/** main.py: one CSV export per category, and the overall success flag. */
module Driver {
  import opened Web
  import opened Scraping
  import opened DataHandler
  import opened Text

  /** `self.route` of the `CategoryScraping` built for a category. */
  function CategoryRoute(category: Category): (r: string) {
    URL + "/" + category.url
  }

  /** The route keeps the leading `/` of the category URL after `URL + '/'`,
      so it holds a double slash, and page i of the pager is looked up under
      the `href` itself, `index.html` included. */
  lemma CategoryPageUrl(anchor: Anchor, i: nat)
    ensures PageUrl(CategoryRoute(CategoryOf(anchor)), i) ==
            URL + "//" + anchor.href + "/page-" + NatToString(i) + ".html"
  {
    assert "/" + "/" == "//";
  }

  /** What the scraping of a category needs in order not to raise: a
      well-formed pager and product pages with at most seven cells. */
  predicate CategorySafe(site: Site, category: Category) {
    BooksSafe(site, CategoryRoute(category), [])
  }

  /** Every record scraped can be written by `writerow` and names a title and
      an image URL. */
  lemma BooksWritable(site: Site, links: seq<string>, categoryName: string)
    requires forall l :: l in links ==> ProductPageSafe(site, URL + l)
    ensures AllWritable(ProductsOf(site, links, categoryName))
  {
    ProductsOfFields(site, links, categoryName);
    ColumnsAreProductKeys();
    var books := ProductsOf(site, links, categoryName);
    forall i | 0 <= i < |books| ensures Writable(books[i]) {
      assert books[i] in books;
    }
  }

  /** The records `get_books` returns for a category. */
  function CategoryBooks(site: Site, category: Category): (r: seq<Product>)
    requires CategorySafe(site, category)
  {
    ProductsOf(site, ListingLinks(site, CategoryRoute(category)), category.title)
  }

  /** What `export_category(category)` leaves: the export of the category's
      records to `title + '.csv'`. */
  function CategoryExport(site: Site, replies: Replies, disk: Disk, category: Category): (r: Export)
    requires CategorySafe(site, category)
  {
    BooksWritable(site, ListingLinks(site, CategoryRoute(category)), category.title);
    ExportOf(CategoryBooks(site, category), category.title + ".csv", replies, disk)
  }

  /** `export_category`: scrapes the category under its URL and title, exports
      the records to `title + '.csv'` and returns exactly the export status.
      `exported` is what the `export_to_csv` call left. */
  method ExportCategory(site: Site, replies: Replies, disk: Disk, category: Category)
    returns (status: bool, ghost exported: Export)
    requires CategorySafe(site, category)
    ensures status == CategoryExport(site, replies, disk, category).ok
    ensures exported == CategoryExport(site, replies, disk, category)
  {
    var categoryScraping := new CategoryScraping(category.url, category.title);
    var categoryBooks := categoryScraping.GetBooks(site);
    assert categoryScraping.links == ListingLinks(site, CategoryRoute(category));
    BooksWritable(site, categoryScraping.links, category.title);
    var result := ExportToCsv(categoryBooks, category.title + ".csv", replies, disk);
    exported := result;
    if result.ok {
      return true, exported;
    } else {
      return false, exported;
    }
  }

  predicate AllSafe(site: Site, categories: seq<Category>) {
    forall i :: 0 <= i < |categories| ==> CategorySafe(site, categories[i])
  }

  /** The status `export_category` returns for each of `categories`. */
  function Statuses(site: Site, replies: Replies, disk: Disk, categories: seq<Category>): (r: seq<bool>)
    requires AllSafe(site, categories)
  {
    seq(|categories|, i requires 0 <= i < |categories| => CategoryExport(site, replies, disk, categories[i]).ok)
  }

  /** What `export_category` leaves for each of `categories`. */
  function CategoryExports(site: Site, replies: Replies, disk: Disk, categories: seq<Category>): (r: seq<Export>)
    requires AllSafe(site, categories)
  {
    seq(|categories|, i requires 0 <= i < |categories| => CategoryExport(site, replies, disk, categories[i]))
  }

  predicate AllTrue(statuses: seq<bool>) {
    forall i :: 0 <= i < |statuses| ==> statuses[i]
  }

  /** `main`: exports every category found, in order, whatever the earlier
      exports returned, and succeeds exactly when all of them succeed.
      `exports` holds what each `export_category` call left, in order. */
  method ScrapeAll(site: Site, replies: Replies, disk: Disk)
    returns (success: bool, ghost exports: seq<Export>)
    requires AllSafe(site, Categories(site))
    ensures exports == CategoryExports(site, replies, disk, Categories(site))
    ensures success <==> AllTrue(Statuses(site, replies, disk, Categories(site)))
  {
    var categories := GetAllCategories(site);
    success, exports := ExportAll(site, replies, disk, categories);
  }

  /** The loop of `main` over the categories found. */
  method ExportAll(site: Site, replies: Replies, disk: Disk, categories: seq<Category>)
    returns (success: bool, ghost exports: seq<Export>)
    requires AllSafe(site, categories)
    ensures exports == CategoryExports(site, replies, disk, categories)
    ensures success <==> AllTrue(Statuses(site, replies, disk, categories))
  {
    success := true;
    ghost var statuses := Statuses(site, replies, disk, categories);
    ghost var all := CategoryExports(site, replies, disk, categories);
    exports := [];
    for i := 0 to |categories|
      invariant exports == all[..i]
      invariant success <==> AllTrue(statuses[..i])
    {
      var category := categories[i];
      var status, exported := ExportCategory(site, replies, disk, category);
      assert status == statuses[i];
      AllTrueSnoc(statuses, i);
      assert all[..i + 1] == all[..i] + [exported];
      exports := exports + [exported];
      if !status {
        success := false;
      }
    }
    assert statuses[..|categories|] == statuses;
    assert all[..|categories|] == all;
  }

  /** One more status: all hold exactly when the earlier ones and this one do. */
  lemma AllTrueSnoc(statuses: seq<bool>, i: nat)
    requires i < |statuses|
    ensures AllTrue(statuses[..i + 1]) <==> AllTrue(statuses[..i]) && statuses[i]
  {
    assert statuses[..i + 1][i] == statuses[i];
    assert forall j :: 0 <= j < i ==> statuses[..i + 1][j] == statuses[..i][j];
  }

  /** `main` succeeds exactly when every export does: a single failed export
      makes it fail. */
  lemma StatusesSpec(site: Site, replies: Replies, disk: Disk, categories: seq<Category>)
    requires AllSafe(site, categories)
    ensures AllTrue(Statuses(site, replies, disk, categories)) <==>
            forall i :: 0 <= i < |categories| ==> CategoryExport(site, replies, disk, categories[i]).ok
  {
    var statuses := Statuses(site, replies, disk, categories);
    assert forall i :: 0 <= i < |categories| ==> statuses[i] == CategoryExport(site, replies, disk, categories[i]).ok;
  }

  /** With no category (among them when the index page cannot be fetched)
      `main` has nothing to fail on. */
  lemma NothingToExport(site: Site, replies: Replies, disk: Disk)
    requires Fetch(site, IndexUrl).None?
    ensures Categories(site) == []
    ensures AllTrue(Statuses(site, replies, disk, Categories(site)))
  {
  }
}
