/** data_handler.py: the cover download (the local file name it builds and
    its outcome) and the CSV export, over an abstract image server and an
    abstract file system. */
module DataHandler {
  import opened Text
  import opened Scraping

  // ---------------------------------------------------------------------------
  // The cover file name

  /** `invalid_characters` of `download_cover`, in the order the loop removes them. */
  const InvalidCharacters: seq<char> :=
    ['.', ':', '!', '?', ',', '/', ';', '\n', '&', '*', '#', '%', '@', '\'',
     '\\', '`', '|', '"', '{', '}', '<', '>', '$', '+']

  /** The title after `title = title.replace(letter, '')` for each of
      `letters`, in order. Defined on prefixes, as the loop runs. */
  function RemoveAll(title: string, letters: seq<char>): (r: string)
    decreases |letters|
  {
    if letters == [] then title
    else RemoveChar(RemoveAll(title, letters[..|letters| - 1]), letters[|letters| - 1])
  }

  /** Exactly the listed characters are gone; nothing is added. */
  lemma {:induction false} RemoveAllSpec(title: string, letters: seq<char>)
    ensures |RemoveAll(title, letters)| <= |title|
    ensures forall x :: x in RemoveAll(title, letters) <==> x in title && x !in letters
    decreases |letters|
  {
    if letters != [] {
      var n := |letters| - 1;
      RemoveAllSpec(title, letters[..n]);
      RemoveCharSpec(RemoveAll(title, letters[..n]), letters[n]);
      forall x ensures x in letters <==> x in letters[..n] || x == letters[n] {
        if x in letters {
          var j :| 0 <= j < |letters| && letters[j] == x;
          if j < n { assert letters[..n][j] == x; }
        }
      }
    }
  }

  /** A title with none of the listed characters is left as it is. */
  lemma {:induction false} RemoveAllNothing(title: string, letters: seq<char>)
    requires forall x :: x in title ==> x !in letters
    ensures RemoveAll(title, letters) == title
    decreases |letters|
  {
    if letters != [] {
      var n := |letters| - 1;
      assert forall x :: x in letters[..n] ==> x in letters;
      RemoveAllNothing(title, letters[..n]);
      assert letters[n] in letters;
      RemoveCharSpec(title, letters[n]);
    }
  }

  /** Removal works piece by piece: removing from a concatenation removes from each part. */
  lemma {:induction false} RemoveAllAppend(a: string, b: string, letters: seq<char>)
    ensures RemoveAll(a + b, letters) == RemoveAll(a, letters) + RemoveAll(b, letters)
    decreases |letters|
  {
    if letters != [] {
      var n := |letters| - 1;
      RemoveAllAppend(a, b, letters[..n]);
      RemoveCharAppend(RemoveAll(a, letters[..n]), RemoveAll(b, letters[..n]), letters[n]);
    }
  }

  lemma {:induction false} RemoveCharAppend(a: string, b: string, c: char)
    ensures RemoveChar(a + b, c) == RemoveChar(a, c) + RemoveChar(b, c)
    decreases |a|
  {
    if a != [] {
      assert (a + b)[1..] == a[1..] + b;
      RemoveCharAppend(a[1..], b, c);
    } else {
      assert a + b == b;
    }
  }

  /** The slug of a title: the listed characters removed, spaces turned into
      `-`, then lower-cased (data_handler.py, the three steps after the
      list). */
  function Slug(title: string): (r: string) {
    Lower(ReplaceChar(RemoveAll(title, InvalidCharacters), ' ', '-'))
  }

  /** A slug holds no listed character, no space and no upper-case letter. */
  lemma SlugClean(title: string)
    ensures forall i :: 0 <= i < |Slug(title)| ==>
              Slug(title)[i] !in InvalidCharacters && Slug(title)[i] != ' ' &&
              !('A' <= Slug(title)[i] <= 'Z')
  {
    var removed := RemoveAll(title, InvalidCharacters);
    RemoveAllSpec(title, InvalidCharacters);
    var dashed := ReplaceChar(removed, ' ', '-');
    var s := Lower(dashed);
    assert s == Slug(title);
    forall i | 0 <= i < |s|
      ensures s[i] !in InvalidCharacters && s[i] != ' ' && !('A' <= s[i] <= 'Z')
    {
      assert removed[i] in removed;
      assert dashed[i] == if removed[i] == ' ' then '-' else removed[i];
      InvalidIs(dashed[i]);
      InvalidIs(s[i]);
      LowerClean(dashed[i]);
    }
  }

  /** Lower-casing a character that is neither listed nor a space gives one
      that is neither listed nor a space nor upper-case. */
  lemma LowerClean(c: char)
    requires !Invalid(c) && c != ' '
    ensures !Invalid(LowerChar(c)) && LowerChar(c) != ' ' && !('A' <= LowerChar(c) <= 'Z')
  {
  }

  /** Building the slug of a slug changes nothing. */
  lemma SlugIdempotent(title: string)
    ensures Slug(Slug(title)) == Slug(title)
  {
    var s := Slug(title);
    SlugClean(title);
    forall x | x in s ensures x !in InvalidCharacters {
      var i :| 0 <= i < |s| && s[i] == x;
    }
    RemoveAllNothing(s, InvalidCharacters);
    ReplaceCharSpec(s, ' ', '-');
    LowerSpec(s);
  }

  /** What the slug makes of one character: nothing for a listed one, `-`
      for a space, the lower-case letter otherwise. */
  function SlugChar(c: char): (r: string) {
    if Invalid(c) then [] else [LowerChar(if c == ' ' then '-' else c)]
  }

  /** The characters the slug drops, as a predicate: the reference for
      `SlugChar`, kept apart from the list the loop walks. `InvalidIs`
      shows the two agree. */
  predicate Invalid(c: char) {
    c == '.' || c == ':' || c == '!' || c == '?' || c == ',' || c == '/' || c == ';' || c == '\n' ||
    c == '&' || c == '*' || c == '#' || c == '%' || c == '@' || c == '\'' || c == '\\' || c == '`' ||
    c == '|' || c == '"' || c == '{' || c == '}' || c == '<' || c == '>' || c == '$' || c == '+'
  }

  lemma InvalidIs(c: char)
    ensures c in InvalidCharacters <==> Invalid(c)
  {
  }

  /** The slug of `s[i..]`, one character at a time. */
  function SlugFrom(s: string, i: nat): (r: string)
    requires i <= |s|
    decreases |s| - i
  {
    if i == |s| then [] else SlugChar(s[i]) + SlugFrom(s, i + 1)
  }

  /** The three passes of `download_cover` amount to rewriting each
      character on its own. */
  lemma {:induction false} SlugFromSpec(s: string, i: nat)
    requires i <= |s|
    ensures Slug(s[i..]) == SlugFrom(s, i)
    decreases |s| - i
  {
    if i == |s| {
      RemoveAllSpec(s[i..], InvalidCharacters);
    } else {
      assert s[i..] == [s[i]] + s[i + 1..];
      SlugAppend([s[i]], s[i + 1..]);
      SlugOfChar(s[i]);
      SlugFromSpec(s, i + 1);
    }
  }

  lemma SlugByCharacter(title: string)
    ensures Slug(title) == SlugFrom(title, 0)
  {
    SlugFromSpec(title, 0);
    assert title[0..] == title;
  }

  lemma SlugOfChar(c: char)
    ensures Slug([c]) == SlugChar(c)
  {
    InvalidIs(c);
    if c in InvalidCharacters {
      Dropped(c);
    } else {
      RemoveAllNothing([c], InvalidCharacters);
    }
  }

  /** The slug of a concatenation is the concatenation of the slugs. */
  lemma SlugAppend(a: string, b: string)
    ensures Slug(a + b) == Slug(a) + Slug(b)
  {
    RemoveAllAppend(a, b, InvalidCharacters);
    var ra, rb := RemoveAll(a, InvalidCharacters), RemoveAll(b, InvalidCharacters);
    assert ReplaceChar(ra + rb, ' ', '-') == ReplaceChar(ra, ' ', '-') + ReplaceChar(rb, ' ', '-');
    var da, db := ReplaceChar(ra, ' ', '-'), ReplaceChar(rb, ' ', '-');
    assert Lower(da + db) == Lower(da) + Lower(db);
  }

  /** An example title: `It's Only the Himalayas!` gives `its-only-the-himalayas`. */
  lemma SlugExample()
    ensures Slug("It's Only the Himalayas!") == "its-only-the-himalayas"
  {
    assert "It's Only the Himalayas!" == "It's" + " Only" + " the" + " Hima" + "layas!";
    ExampleParts("It's", " Only", " the", " Hima", "layas!");
    assert "its" + "-only" + "-the" + "-hima" + "layas" == "its-only-the-himalayas";
  }

  lemma ExampleParts(a: string, b: string, c: string, d: string, e: string)
    requires a == "It's" && b == " Only" && c == " the" && d == " Hima" && e == "layas!"
    ensures Slug(a + b + c + d + e) == "its" + "-only" + "-the" + "-hima" + "layas"
  {
    SlugAppend(a + b + c + d, e);
    SlugAppend(a + b + c, d);
    SlugAppend(a + b, c);
    SlugAppend(a, b);
    SlugByCharacter(a);
    SlugByCharacter(b);
    SlugByCharacter(c);
    SlugByCharacter(d);
    SlugByCharacter(e);
    ExampleIts();
    ExampleOnly();
    ExampleThe();
    ExampleHima();
    ExampleLayas();
  }

  lemma ExampleIts()
    ensures SlugFrom("It's", 0) == "its"
  {
  }

  lemma ExampleOnly()
    ensures SlugFrom(" Only", 0) == "-only"
  {
  }

  lemma ExampleThe()
    ensures SlugFrom(" the", 0) == "-the"
  {
  }

  lemma ExampleHima()
    ensures SlugFrom(" Hima", 0) == "-hima"
  {
  }

  lemma ExampleLayas()
    ensures SlugFrom("layas!", 0) == "layas"
  {
  }

  /** A one-character title made of a listed character disappears. */
  lemma Dropped(c: char)
    requires c in InvalidCharacters
    ensures RemoveAll([c], InvalidCharacters) == []
  {
    RemoveAllSpec([c], InvalidCharacters);
    NothingLeft(RemoveAll([c], InvalidCharacters));
  }

  lemma NothingLeft(s: string)
    ensures (forall x :: x !in s) ==> s == []
  {
    if s != [] {
      assert s[0] in s;
    }
  }

  /** `file_extension if file_extension else '.jpg'`. */
  function CoverExtension(filePath: string): (r: string) {
    var e := Extension(filePath);
    if e == [] then ".jpg" else e
  }

  /** The extension is the path's own when `splitext` finds one (a suffix that
      starts with `.` and holds no other `.` and no `/`), and `.jpg` otherwise. */
  lemma CoverExtensionSpec(filePath: string)
    ensures var r := CoverExtension(filePath);
      && r != [] && r[0] == '.'
      && (r == ".jpg" || (|r| <= |filePath| && r == filePath[|filePath| - |r|..] && '/' !in r && '.' !in r[1..]))
      && (Extension(filePath) == [] ==> r == ".jpg")
      && (Extension(filePath) != [] ==> r == Extension(filePath))
  {
    ExtensionSpec(filePath);
  }

  /** `f"{title}{file_extension}"`: the name the cover is saved under. */
  function LocalFile(title: string, filePath: string): (r: string) {
    Slug(title) + CoverExtension(filePath)
  }

  // ---------------------------------------------------------------------------
  // The cover download

  /** What `requests.get(file_path)` gives: a status code, or a transport
      error (a `requests` exception, which is an `IOError`). */
  datatype Reply = Status(code: int) | ConnectionError

  /** The image server: a URL it does not list answers 404. */
  type Replies = map<string, Reply>

  function ReplyOf(replies: Replies, url: string): (r: Reply) {
    if url in replies then replies[url] else Status(404)
  }

  /** How a `download_cover` call ends: true with the file written, false,
      or an `IOError` raised out of it. */
  datatype Cover = Saved(file: string) | NotSaved | Raised

  /** The outcome of `download_cover(title, file_path)`; `unwritable` are the
      local file names that cannot be opened for writing. */
  function CoverOutcome(title: string, filePath: string, replies: Replies, unwritable: set<string>): (r: Cover) {
    match ReplyOf(replies, filePath)
    case ConnectionError => Raised
    case Status(code) =>
      if code != 200 then NotSaved
      else if LocalFile(title, filePath) in unwritable then Raised
      else Saved(LocalFile(title, filePath))
  }

  /** A file is written only on status 200, under the slug and the extension;
      any other status gives false; a transport error or a file that cannot
      be written raises. */
  lemma CoverOutcomeSpec(title: string, filePath: string, replies: Replies, unwritable: set<string>)
    ensures var c := CoverOutcome(title, filePath, replies, unwritable);
      && (c.Saved? <==> ReplyOf(replies, filePath) == Status(200) && LocalFile(title, filePath) !in unwritable)
      && (c.Saved? ==> c.file == Slug(title) + CoverExtension(filePath))
      && (c.NotSaved? <==> ReplyOf(replies, filePath).Status? && ReplyOf(replies, filePath).code != 200)
      && (c.Raised? <==> ReplyOf(replies, filePath).ConnectionError? ||
                         (ReplyOf(replies, filePath) == Status(200) && LocalFile(title, filePath) in unwritable))
  {
  }

  /** The title rewriting of `download_cover`: the loop over
      `invalid_characters`, then the spaces, then the case. */
  method SlugOf(title: string) returns (name: string)
    ensures name == Slug(title)
  {
    name := title;
    for i := 0 to |InvalidCharacters|
      invariant name == RemoveAll(title, InvalidCharacters[..i])
    {
      assert InvalidCharacters[..i + 1][..i] == InvalidCharacters[..i];
      name := RemoveChar(name, InvalidCharacters[i]);
    }
    assert InvalidCharacters[..|InvalidCharacters|] == InvalidCharacters;
    name := ReplaceChar(name, ' ', '-');
    name := Lower(name);
  }

  /** `download_cover`: the request, the extension, the removal loop over
      `invalid_characters`, the space and case rewriting, then the write. */
  method DownloadCover(title: string, filePath: string, replies: Replies, unwritable: set<string>)
    returns (outcome: Cover)
    ensures outcome == CoverOutcome(title, filePath, replies, unwritable)
  {
    var res := ReplyOf(replies, filePath);
    if res.ConnectionError? {
      return Raised;
    }
    var fileExtension := Extension(filePath);
    fileExtension := if fileExtension != [] then fileExtension else ".jpg";
    var name := SlugOf(title);
    if res.code == 200 {
      var localFile := name + fileExtension;
      if localFile in unwritable {
        return Raised;
      }
      return Saved(localFile);
    }
    return NotSaved;
  }

  // ---------------------------------------------------------------------------
  // The CSV export

  /** `csv_columns`, as record keys. */
  const Columns: seq<Key> :=
    [Upc, ProductPageUrl, Title, PriceIncludingTax, PriceExcludingTax, NumberAvailable,
     ProductDescription, CategoryName, ReviewRating, ImageUrl]

  /** The row `writeheader` writes. */
  function Header(): (r: seq<string>) {
    seq(|Columns|, i requires 0 <= i < |Columns| => Name(Columns[i]))
  }

  lemma HeaderIs()
    ensures Header() == ["upc", "product_page_url", "title", "price_including_tax",
                         "price_excluding_tax", "number_available", "product_description",
                         "category", "review_rating", "image_url"]
  {
  }

  /** The columns are the ten keys of a product record... */
  lemma ColumnsAreProductKeys()
    ensures forall k :: k in Columns <==> k in ProductKeys
  {
  }

  /** ...each named once. */
  lemma ColumnsDistinct()
    ensures forall i, j :: 0 <= i < j < |Columns| ==> Columns[i] != Columns[j]
  {
  }

  /** An element `writerow` and `element['title']`, `element['image_url']`
      accept: no key outside the columns (`DictWriter` raises `ValueError`
      otherwise) and the two keys read for the cover. */
  predicate Writable(e: Product) {
    (forall k :: k in e ==> k in Columns) && Title in e && ImageUrl in e
  }

  predicate AllWritable(data: seq<Product>) {
    forall i :: 0 <= i < |data| ==> Writable(data[i])
  }

  /** The row `writerow` writes: the element's values in column order, `''`
      for a missing key. */
  function Row(e: Product): (r: seq<string>) {
    seq(|Columns|, i requires 0 <= i < |Columns| => Get(e, Columns[i], ""))
  }

  /** The row of a complete record lists its ten fields in column order. */
  lemma RowOfRecord(e: Product)
    requires e.Keys == ProductKeys
    ensures Row(e) == [e[Upc], e[ProductPageUrl], e[Title], e[PriceIncludingTax],
                       e[PriceExcludingTax], e[NumberAvailable], e[ProductDescription],
                       e[CategoryName], e[ReviewRating], e[ImageUrl]]
  {
  }

  function Rows(data: seq<Product>): (r: seq<seq<string>>) {
    seq(|data|, i requires 0 <= i < |data| => Row(data[i]))
  }

  lemma RowsSnoc(data: seq<Product>, i: nat)
    requires i < |data|
    ensures Rows(data[..i + 1]) == Rows(data[..i]) + [Row(data[i])]
  {
  }

  /** The outcome of the cover download of each element, were all attempted. */
  function Attempts(data: seq<Product>, replies: Replies, unwritable: set<string>): (r: seq<Cover>)
    requires AllWritable(data)
  {
    seq(|data|, i requires 0 <= i < |data| =>
      CoverOutcome(data[i][Title], data[i][ImageUrl], replies, unwritable))
  }

  /** The position of the first raised outcome, or the length when none is. */
  function FirstRaised(covers: seq<Cover>): (r: nat)
    decreases |covers|
  {
    if covers == [] then 0 else if covers[0].Raised? then 0 else 1 + FirstRaised(covers[1..])
  }

  lemma {:induction false} FirstRaisedSpec(covers: seq<Cover>)
    ensures FirstRaised(covers) <= |covers|
    ensures forall j :: 0 <= j < FirstRaised(covers) ==> !covers[j].Raised?
    ensures FirstRaised(covers) < |covers| ==> covers[FirstRaised(covers)].Raised?
    decreases |covers|
  {
    if covers != [] && !covers[0].Raised? {
      FirstRaisedSpec(covers[1..]);
      forall j | 0 <= j < FirstRaised(covers) ensures !covers[j].Raised? {
        if j > 0 { assert covers[j] == covers[1..][j - 1]; }
      }
    }
  }

  /** Scanning a position no later than the first raised one: it is the
      first raised one exactly when it raises, and otherwise the first raise
      lies further on. */
  lemma {:induction false} FirstRaisedStep(covers: seq<Cover>, i: nat)
    requires i < |covers| && i <= FirstRaised(covers)
    ensures covers[i].Raised? ==> FirstRaised(covers) == i
    ensures !covers[i].Raised? ==> i < FirstRaised(covers)
    decreases i
  {
    if i > 0 {
      assert covers[1..][i - 1] == covers[i];
      FirstRaisedStep(covers[1..], i - 1);
    }
  }

  /** The file system: the CSV files and image files that cannot be opened for writing. */
  datatype Disk = Disk(unwritableCsv: set<string>, unwritableImages: set<string>)

  /** What an `export_to_csv` call leaves: its result, the CSV table written
      (header first) and the cover downloads made, in order. */
  datatype Export = Export(ok: bool, table: seq<seq<string>>, covers: seq<Cover>)

  /** The export of `data` to `csvFile`: nothing when the file cannot be
      opened; otherwise the header, then a row and a cover download per
      element, up to and including the first download that raises. */
  function ExportOf(data: seq<Product>, csvFile: string, replies: Replies, disk: Disk): (r: Export)
    requires AllWritable(data)
  {
    if csvFile in disk.unwritableCsv then Export(false, [], [])
    else ExportFrom(data, Attempts(data, replies, disk.unwritableImages))
  }

  /** The export once the file is open, given the outcome each cover
      download would have. */
  function ExportFrom(data: seq<Product>, attempts: seq<Cover>): (r: Export)
    requires |attempts| == |data|
  {
    var n := FirstRaised(attempts);
    if n >= |data| then Export(true, [Header()] + Rows(data), attempts)
    else Export(false, [Header()] + Rows(data[..n + 1]), attempts[..n + 1])
  }

  /** Once the file is open: one row and one download per element processed,
      in order; all are processed exactly when none raises, and otherwise the
      last one made raised. */
  lemma ExportFromShape(data: seq<Product>, attempts: seq<Cover>)
    requires |attempts| == |data|
    ensures var x := ExportFrom(data, attempts);
      && |x.table| == |x.covers| + 1 <= |data| + 1
      && x.table[0] == Header()
      && (forall i :: 0 <= i < |x.covers| ==> x.table[i + 1] == Row(data[i]) && x.covers[i] == attempts[i])
      && (x.ok <==> forall i :: 0 <= i < |attempts| ==> !attempts[i].Raised?)
      && (x.ok ==> |x.covers| == |data|)
      && (!x.ok ==> x.covers != [] && x.covers[|x.covers| - 1].Raised?)
      && (forall i :: 0 <= i < |x.covers| - 1 ==> !x.covers[i].Raised?)
  {
    FirstRaisedSpec(attempts);
  }

  /** The body of the loop of `export_to_csv`: the row of the element and
      its cover download. */
  method ExportElement(data: seq<Product>, i: nat, replies: Replies, unwritable: set<string>,
                       ghost attempts: seq<Cover>)
    returns (row: seq<string>, cover: Cover)
    requires AllWritable(data) && i < |data|
    requires attempts == Attempts(data, replies, unwritable)
    ensures row == Row(data[i])
    ensures cover == attempts[i]
  {
    var element := data[i];
    row := Row(element);
    cover := DownloadCover(element[Title], element[ImageUrl], replies, unwritable);
  }

  /** `export_to_csv`: the header, then for each element its row and its
      cover download; an `IOError` ends the export with false. */
  method ExportToCsv(data: seq<Product>, csvFile: string, replies: Replies, disk: Disk)
    returns (result: Export)
    requires AllWritable(data)
    ensures result == ExportOf(data, csvFile, replies, disk)
  {
    if csvFile in disk.unwritableCsv {
      return Export(false, [], []);
    }
    ghost var attempts := Attempts(data, replies, disk.unwritableImages);
    result := WriteRows(data, replies, disk.unwritableImages, attempts);
  }

  /** The body of the `with` block of `export_to_csv`, once the file is open. */
  method WriteRows(data: seq<Product>, replies: Replies, unwritable: set<string>, ghost attempts: seq<Cover>)
    returns (result: Export)
    requires AllWritable(data)
    requires attempts == Attempts(data, replies, unwritable)
    ensures result == ExportFrom(data, attempts)
  {
    var table := [Header()];
    var covers := [];
    for i := 0 to |data|
      invariant table == [Header()] + Rows(data[..i])
      invariant covers == attempts[..i]
      invariant i <= FirstRaised(attempts)
    {
      var row, cover := ExportElement(data, i, replies, unwritable, attempts);
      ExportFromStep(data, attempts, i);
      table := table + [row];
      covers := covers + [cover];
      if cover.Raised? {
        return Export(false, table, covers);
      }
    }
    ExportFromDone(data, attempts);
    return Export(true, table, covers);
  }

  /** One more element processed by the `with` block: its row and its
      download come after the earlier ones, and the export ends there with
      false exactly when that download raises. */
  lemma ExportFromStep(data: seq<Product>, attempts: seq<Cover>, i: nat)
    requires |attempts| == |data| && i < |data| && i <= FirstRaised(attempts)
    ensures [Header()] + Rows(data[..i + 1]) == [Header()] + Rows(data[..i]) + [Row(data[i])]
    ensures attempts[..i + 1] == attempts[..i] + [attempts[i]]
    ensures attempts[i].Raised? ==>
              ExportFrom(data, attempts) == Export(false, [Header()] + Rows(data[..i + 1]), attempts[..i + 1])
    ensures !attempts[i].Raised? ==> i + 1 <= FirstRaised(attempts)
  {
    RowsSnoc(data, i);
    FirstRaisedStep(attempts, i);
  }

  /** The `with` block that processed every element without a raise. */
  lemma ExportFromDone(data: seq<Product>, attempts: seq<Cover>)
    requires |attempts| == |data| && |data| <= FirstRaised(attempts)
    ensures ExportFrom(data, attempts) == Export(true, [Header()] + Rows(data[..|data|]), attempts[..|data|])
  {
    assert data[..|data|] == data;
    assert attempts[..|data|] == attempts;
  }

  /** The export succeeds exactly when the CSV file can be opened and no
      cover download raises; a download that returns false changes nothing. */
  lemma ExportStatus(data: seq<Product>, csvFile: string, replies: Replies, disk: Disk)
    requires AllWritable(data)
    ensures ExportOf(data, csvFile, replies, disk).ok <==>
            csvFile !in disk.unwritableCsv &&
            forall i :: 0 <= i < |data| ==>
              !CoverOutcome(data[i][Title], data[i][ImageUrl], replies, disk.unwritableImages).Raised?
  {
    if csvFile !in disk.unwritableCsv {
      var attempts := Attempts(data, replies, disk.unwritableImages);
      ExportFromShape(data, attempts);
    }
  }

  /** The result of each cover download is ignored: with no transport error
      and every file name writable, the export succeeds whatever the
      statuses, as soon as the CSV file can be opened. */
  lemma CoverResultIgnored(data: seq<Product>, csvFile: string, replies: Replies, disk: Disk)
    requires AllWritable(data)
    requires forall i :: 0 <= i < |data| ==>
               !ReplyOf(replies, data[i][ImageUrl]).ConnectionError? &&
               LocalFile(data[i][Title], data[i][ImageUrl]) !in disk.unwritableImages
    ensures ExportOf(data, csvFile, replies, disk).ok <==> csvFile !in disk.unwritableCsv
  {
    ExportStatus(data, csvFile, replies, disk);
    forall i | 0 <= i < |data|
      ensures !CoverOutcome(data[i][Title], data[i][ImageUrl], replies, disk.unwritableImages).Raised?
    {
    }
  }

  /** The table is the header followed by one row per element processed, in
      input order; one cover download is made per element processed, in
      order, with the element's title and image URL; every element is
      processed when the export succeeds, and otherwise the last download
      made is the one that raised. */
  lemma ExportShape(data: seq<Product>, csvFile: string, replies: Replies, disk: Disk)
    requires AllWritable(data)
    requires csvFile !in disk.unwritableCsv
    ensures var x := ExportOf(data, csvFile, replies, disk);
      && |x.table| == |x.covers| + 1 <= |data| + 1
      && x.table[0] == Header()
      && (forall i :: 0 <= i < |x.covers| ==> x.table[i + 1] == Row(data[i]))
      && (forall i :: 0 <= i < |x.covers| ==>
            x.covers[i] == CoverOutcome(data[i][Title], data[i][ImageUrl], replies, disk.unwritableImages))
      && (x.ok ==> |x.covers| == |data|)
      && (!x.ok ==> x.covers != [] && x.covers[|x.covers| - 1].Raised?)
      && (forall i :: 0 <= i < |x.covers| - 1 ==> !x.covers[i].Raised?)
  {
    var attempts := Attempts(data, replies, disk.unwritableImages);
    ExportFromShape(data, attempts);
  }
}
