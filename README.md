# books.toscrape.com scraper — a verified model

The scraper visits the side-bar categories of the books.toscrape.com index
page. For each category it collects product links from listing page 1 and
from the pager pages 2 .. N. It then scrapes every product page into a
ten-field record, writes the records to `<category title>.csv` and
downloads each book's cover. `main` succeeds when every category export
succeeds.

This model keeps the program's own shape:

- `ProductScraping` and `CategoryScraping` are classes whose methods update
  `product` and `links` in place.
- `get_all_categories`, `download_cover`, `export_to_csv` and `main` are
  methods with the loops the source has.
- Each method is proved against a specification function, and the
  properties are proved about those functions as lemmas.

The web is an oracle: `Web.Site` maps a URL to the `Page` it serves, or to
`None` when `response.ok` is false. A URL the map does not list counts as a
failed fetch. A `Page` holds exactly what the CSS selectors of the scraper
read: the `h1` text, the description paragraphs, the first `img` `src`, the
`td` texts, the product-card `href`s, the pager's `.current` text and the
side-bar anchors.

The image server is a map from URL to a status code or a transport error
(`DataHandler.Replies`). A URL it does not list answers 404. The file
system is the set of CSV names and image file names that cannot be opened
for writing (`DataHandler.Disk`).

Modules:

- `Text`: the Python string operations (`lstrip`, `rstrip`, `strip`,
  `split()[-1]`, `int`, `str`, `lower`, `replace`, `rfind`, `splitext`).
- `Web`: the oracle.
- `Scraping`: `scraping.py`.
- `DataHandler`: `data_handler.py`.
- `Driver`: `main.py`.

The code is modelled as written, including behaviour that looks
unintended:

- The pager URL is built on `self.route`. That route is `URL + '/'` plus a
  category URL that already starts with `/` and ends in `index.html`, so
  page i is requested at `URL + '//' + href + '/page-i.html'`
  (`Driver.CategoryPageUrl`).
- `review_rating` starts as `''`, so its `'0'` default in `.get` never
  applies (`Scraping.FreshProductFields`).
- A pager text without a last token raises in `split()[-1]`, one whose last
  token is not a number raises in `int(...)`, instead of meaning "no further pages", and an eighth
  `td` cell raises in `keys[index]`. The model keeps the code's behaviour and
  states these as preconditions (`Scraping.ListingSafe`,
  `Scraping.ProductPageSafe`) rather than reading them as "no further
  pages" or "no such field".
- `requests` exceptions are `IOError`s. A transport error while a cover
  downloads, and an image file that cannot be opened, are therefore caught
  by `export_to_csv`. That export returns false, and the elements after
  that one are never written (`DataHandler.CoverOutcome`,
  `DataHandler.ExportOf`).

## Model

| member | source | states |
|---|---|---|
| Text.LStripSpec | scraping.py:31 | `lstrip(chars)` removes a leading run of characters from the set, not a prefix string: the result is a suffix of the input, everything removed is in the set, and the result is empty or starts with a character outside the set |
| Text.RStripSpec | scraping.py:133 | `rstrip(chars)` is a prefix of the input whose removed part lies in the set; it is empty or ends outside the set |
| Text.StripSpec | scraping.py:133 | `strip("\n ")` is the substring between a leading and a trailing run of set characters, and neither starts nor ends with one |
| Text.LastTokenSpec | scraping.py:99 | `split()[-1]` is a non-empty run without whitespace, with only whitespace after it, and whitespace or the start of the string before it |
| Text.ParseNatToString | scraping.py:99-102 | `int(str(n)) == n` for the page numbers used in the pager URLs |
| Text.LowerSpec | data_handler.py:30 | `lower()` on ASCII keeps the length, maps each upper-case letter to its lower-case one and leaves every other character unchanged |
| Text.RemoveCharSpec | data_handler.py:28 | `replace(c, '')` removes every `c` and keeps every other character as often as it occurs (the multisets agree except on `c`); a string without `c` is returned unchanged |
| Text.ReplaceCharSpec | data_handler.py:29 | `replace(' ', '-')` turns each space into `-` and keeps every other character in place |
| Text.RFindSpec | data_handler.py:19 | the index found holds the character and no later index does; -1 means the character does not occur |
| Text.ExtensionSpec | data_handler.py:19 | the extension `splitext` yields is empty, or a suffix that starts with `.` and holds no other `.` and no `/`; it is empty exactly when the last path component has no `.`, or only dots before its last `.` |
| Scraping.EmptyProductFields | scraping.py:41-54 | the fresh record has exactly the ten keys, `product_page_url` is the route, `category` is the category name, and every other field is `''` |
| Scraping.ProductScraping.constructor | scraping.py:10-14 | stores the route and the category name and starts from the empty record |
| Scraping.ProductScraping.RetrieveProduct | scraping.py:16-21 | returns true exactly when the fetch is ok; on false the record is unchanged; on true it is the extracted record |
| Scraping.ProductScraping.ExtractData | scraping.py:23-39 | the record after the title, description, image URL, table loop and price/rating updates equals `Extracted` of the old record, step by step as the code does them |
| Scraping.AssignCellsAt | scraping.py:26-36 | cells are stored by position only: a key already in the record gets the cell at its position in `keys` if that cell exists and keeps its value otherwise; no key is added |
| Scraping.AssignedFields | scraping.py:33-36 | on a complete record, cells 0, 2, 3, 5 and 6 go to `upc`, `price_excluding_tax`, `price_including_tax`, `number_available` and `review_rating`; a missing cell leaves its field unchanged |
| Scraping.ExtractedFields | scraping.py:25-32 | extraction keeps the ten keys and never changes `product_page_url` or `category`; it sets `title` to the `h1` text and `image_url` to `URL + '/' + src.lstrip('../')`; `product_description` becomes the first match's text only when the selector matches |
| Scraping.ExtractedCells | scraping.py:33-38 | the table fields after extraction, with both prices stripped of their leading `Â`/`£` characters |
| Scraping.FreshProductFields | scraping.py:37-54 | all ten fields of a freshly scraped record, in terms of the page; `review_rating` is cell 6 or `''` and never the `'0'` default |
| Scraping.PriceExample | scraping.py:37-38 | `"Â£51.77"` and `"£51.77"` both become `"51.77"` |
| Scraping.TrimmedPathSpec | scraping.py:112-113 | the stripped `href`/`src` is a suffix of the input, and it is empty or starts with neither `.` nor `/` |
| Scraping.SuccessesFrom | scraping.py:75-77 | the kept records come from the scraped pages, and there are no more of them than links |
| Scraping.SuccessesAllSome | scraping.py:75-77 | when every scrape succeeds, every record is kept, in place |
| Scraping.SuccessesAppend | scraping.py:71-77 | keeping the successes of two runs of links gives the successes of each run, in order |
| Scraping.ScrapesAt | scraping.py:71-75 | the j-th scrape is that of the j-th link's product page |
| Scraping.ProductsOfStep | scraping.py:71-77 | one more link adds its record, when its fetch is ok, after the earlier ones, and one more product URL request |
| Scraping.ProductsOfAppend | scraping.py:71-83 | the records of a concatenation of links are the records of each part, in order |
| Scraping.ProductsOfFields | scraping.py:70-83 | `get_books` returns at most one record per link; each record has the ten keys, `category == category_name` and `product_page_url == URL + link` for one of the links |
| Scraping.ProductsOfAllOk | scraping.py:70-83 | when every product fetch is ok, there is one record per link, in link order |
| Scraping.ListingWithoutPages | scraping.py:85-107 | when the first listing fetch fails, no link is collected and only that page is requested; with no pager, the links are page 1's own |
| Scraping.PagesLinksSplit | scraping.py:101-105 | splitting the page range splits the collected links: each page's links stay in place |
| Scraping.PagesLinksNext | scraping.py:101-105 | the links of the next page come after those already collected |
| Scraping.PageUrlsNext | scraping.py:101-102 | the next page's URL is requested after those already requested |
| Scraping.FailedPageSkipped | scraping.py:104-105 | a page whose fetch fails adds nothing and leaves the links of the other pages unchanged |
| Scraping.PageUrlsAt | scraping.py:101-102 | pages lo .. hi-1 are requested exactly once each, in ascending order, at `route + '/page-' + i + '.html'` |
| Scraping.PageUrlInjective | scraping.py:102 | distinct page numbers give distinct URLs |
| Scraping.PagerTextExample | scraping.py:98-99 | the pager text `"Page 1 of 3"` gives last page 3 |
| Scraping.ThreePagesSecondFails | scraping.py:85-107 | with "Page 1 of 3" and a failed page 2, the links are page 1's then page 3's, and the requests are page 1, then 2, then 3 |
| Scraping.CategoryScraping.constructor | scraping.py:58-62 | `route` is `URL + '/' + route`, `links` is empty |
| Scraping.CategoryScraping.GetBooks | scraping.py:64-83 | `links` grows by the listing's links; the pages requested are the listing pages, then one product page per link in link order; the result is exactly the records of the successful product scrapes, in link order |
| Scraping.CategoryScraping.ScrapeBook | scraping.py:73-77 | one loop turn of `get_books`: success exactly when the product scrape succeeds, and then its record |
| Scraping.CategoryScraping.RetrieveAllBooks | scraping.py:85-93 | returns true exactly when the first listing fetch is ok; `links` grows by page 1's links and then by the links of the pager pages |
| Scraping.CategoryScraping.FetchNextPages | scraping.py:95-107 | returns true exactly when there is a pager; then pages 2 .. last are requested in order and the links of each ok page are appended |
| Scraping.CategoryScraping.FetchPageRange | scraping.py:101-105 | the `range(2, last_page + 1)` loop: requests and links of pages 2 .. last |
| Scraping.CategoryScraping.FetchPage | scraping.py:102-105 | one page requested; its links are appended only when its fetch is ok |
| Scraping.CardLinksAt | scraping.py:110-113 | one link per product card, in card order: link i is `'/catalogue/' + href_i.lstrip('../')` |
| Scraping.SinglePageProductUrls | scraping.py:70-113 | a first listing page with N cards and no pager: only that page is requested, and the N product requests are `URL + '/catalogue/' + href_i.lstrip('../')`, in card order |
| Scraping.CategoryScraping.FetchLinks | scraping.py:109-113 | appends `'/catalogue/' + href.lstrip('../')` for each product card, in order |
| Scraping.CategoryOfSpec | scraping.py:132-135 | an entry's URL is `'/' + href`; its title is the anchor text with leading and trailing newlines and spaces removed |
| Scraping.CategoriesShape | scraping.py:122-137 | no category when the index fetch fails; otherwise one entry per side-bar anchor, in markup order |
| Scraping.GetAllCategories | scraping.py:116-137 | the loop builds exactly `Categories(site)` |
| DataHandler.RemoveAllSpec | data_handler.py:22-28 | after the removal loop, exactly the listed characters are gone and no character is added |
| DataHandler.RemoveAllNothing | data_handler.py:27-28 | a title with no listed character goes through the loop unchanged |
| DataHandler.RemoveAllAppend | data_handler.py:27-28 | removing from a concatenation removes from each part |
| DataHandler.SlugClean | data_handler.py:22-30 | the slug holds no listed character, no space and no upper-case letter |
| DataHandler.SlugIdempotent | data_handler.py:27-30 | building the slug of a slug changes nothing |
| DataHandler.SlugFromSpec | data_handler.py:27-30 | the three passes amount to rewriting each character on its own: listed ones dropped, space to `-`, letters lower-cased |
| DataHandler.SlugAppend | data_handler.py:27-30 | the slug of a concatenation is the concatenation of the slugs |
| DataHandler.SlugExample | data_handler.py:27-30 | `"It's Only the Himalayas!"` gives `"its-only-the-himalayas"` |
| DataHandler.SlugOf | data_handler.py:27-30 | the loop over `invalid_characters`, then the space and case rewriting, computes `Slug(title)` |
| DataHandler.CoverExtensionSpec | data_handler.py:19-21 | the extension is exactly the one `splitext` yields when that is non-empty (a suffix of the path that starts with `.` and holds no other `.` and no `/`), and `.jpg` when it is empty |
| DataHandler.CoverOutcomeSpec | data_handler.py:18-40 | the file is written, under slug + extension, exactly on status 200 with a writable name; another status gives false; a transport error or an unwritable file raises |
| DataHandler.DownloadCover | data_handler.py:12-40 | the method's outcome is exactly `CoverOutcome` |
| DataHandler.HeaderIs | data_handler.py:49-65 | the header is the ten `csv_columns`, in their fixed order |
| DataHandler.ColumnsAreProductKeys | data_handler.py:49-60 | the columns are exactly the ten keys of a product record |
| DataHandler.ColumnsDistinct | data_handler.py:49-60 | no column is listed twice |
| DataHandler.RowOfRecord | data_handler.py:68 | the row of a complete record lists its ten values in column order |
| DataHandler.RowsSnoc | data_handler.py:67-68 | one more element adds its row after the earlier rows |
| DataHandler.FirstRaisedSpec | data_handler.py:67-73 | the first raising download: none before it, and it raises when it is within the list |
| DataHandler.FirstRaisedStep | data_handler.py:67-73 | at a position no later than the first raise: it is the first raise exactly when it raises, and otherwise the first raise comes after it |
| DataHandler.ExportFromShape | data_handler.py:63-71 | once the file is open: the header, then one row and one download per element processed, in order; true exactly when no download raises, and then every element is processed; on false, the last download made is the one that raised |
| DataHandler.ExportElement | data_handler.py:68-69 | one loop turn: the element's row and its cover download with its `title` and `image_url` |
| DataHandler.WriteRows | data_handler.py:63-71 | the `with` block writes exactly `ExportFrom(data, attempts)` |
| DataHandler.ExportToCsv | data_handler.py:43-73 | the method's result is `ExportOf`: nothing written when the CSV file cannot be opened; otherwise the rows and downloads in order, up to the first `IOError` |
| DataHandler.ExportStatus | data_handler.py:62-73 | the export returns true exactly when the CSV file can be opened and no cover download raises |
| DataHandler.CoverResultIgnored | data_handler.py:67-71 | the boolean result of `download_cover` is ignored: without transport errors or unwritable image files, the export's status depends only on the CSV file |
| DataHandler.ExportShape | data_handler.py:62-73 | the table is the header, then the rows of the elements processed in input order; one download per processed element with its title and image URL; everything is processed on success, and otherwise the last download raised |
| Driver.CategoryPageUrl | scraping.py:61-102 | pager page i of a discovered category is requested at `URL + '//' + href + '/page-i.html'` |
| Driver.BooksWritable | data_handler.py:64-69 | every record `get_books` returns can be written by `writerow` and has a title and an image URL |
| Driver.ExportCategory | main.py:5-15 | scrapes with `route = category['url']` and `name = category['title']`, exports to `title + '.csv'`; the ghost `exported` is what that `export_to_csv` call left, and the status returned is exactly its `ok` |
| Driver.ExportAll | main.py:22-25 | the exports the calls leave are those of every category, one each, in order, with no early exit; the flag is true exactly when every status is true |
| Driver.ScrapeAll | main.py:18-27 | `main` exports every discovered category in discovery order (the ghost `exports` are those the calls left, one per category) and succeeds exactly when every `export_category` succeeds |
| Driver.AllTrueSnoc | main.py:23-25 | one more status: all statuses hold exactly when the earlier ones and this one do |
| Driver.StatusesSpec | main.py:18-27 | success holds exactly when every category export succeeds, so a single failed export makes `main` fail |
| Driver.NothingToExport | main.py:18-27 | when the index page cannot be fetched there is no category, and `main` returns true |

## Left out

- HTTP requests and HTML parsing: `requests.get` and BeautifulSoup are replaced by the `Site` oracle and the `Page` datatype. `response.ok` is `Some`/`None`.
- A `requests` exception during the scraping in `scraping.py` is not modelled. Only a failed fetch (`ok` false) is.
- `time.sleep` and every `print`: they have no effect on the results.
- `os.makedirs`, `os.getcwd` and the directory joins: the model does not capture the directories. The CSV and image file names are the names the code builds.
- Open and write are abstracted as the sets of names that cannot be opened. A write that fails after the file is open, and the image bytes themselves, are not modelled.
- The file system is not updated across categories: every export sees the same `Disk`.
- `csv.DictWriter` quoting and escaping: a row is the sequence of its field strings.
- The `ValueError` that `DictWriter` raises for a key outside the columns is not modelled as an outcome. `DataHandler.Writable` is a precondition instead. Every record the scraper produces meets it (`Driver.BooksWritable`).
- `str.lower` is ASCII-only: non-ASCII letters keep their case.
- `int()` is modelled only on non-empty ASCII digit strings. Signs, spaces, underscores and other Unicode digits are not modelled.
- `os.path.splitext` is the POSIX rule on the last `/` and the last `.` of the whole URL string.
- The two crashes that end the program are preconditions, not outcomes:
  - an eighth `td` cell, where `keys[index]` overflows (`Scraping.ProductPageSafe`);
  - a pager text without a token, where `split()[-1]` raises (`Scraping.PagerSafe`, `Scraping.ListingSafe`, `Scraping.BooksSafe`, `Driver.CategorySafe`, `Driver.AllSafe`).
- A pager text whose last token is not a non-empty ASCII digit string is excluded by the same preconditions. Some such tokens make `int()` raise; others, such as `-1` or `+3`, parse, and the pages they lead to are not modelled.
- Further crash paths cannot be expressed as a `Page`, so the model does not capture them: a `.pager` without `.current` (scraping.py:98; `pagerCurrent == None` stands for no pager at all), a page without `h1` (scraping.py:25), without `img` or without its `src` (scraping.py:31), and a product card or side-bar anchor without `href` (scraping.py:112, scraping.py:134).
- An anchor whose `.string` is `None`, where `strip` would raise, is not modelled: `Anchor.text` is always a string.
- The `requests` log of `CategoryScraping` and the `exported`/`exports` results of `Driver.ExportCategory`, `Driver.ExportAll` and `Driver.ScrapeAll` are ghost state. They exist so the model can state which URLs are requested and what each category's export left, and in which order.
- `DataHandler.DownloadCover` reads the reply before it computes the extension and the slug, as the code does. It returns `Raised` at once on a transport error, which `requests.get` raises before anything else is computed.
