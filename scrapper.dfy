/**
 * The `scrapper` package: it builds the search URL for a term, counts the
 * result pages, extracts one job posting per result card on every page,
 * gathers the postings from all pages and writes them as a CSV table.
 *
 * The web is abstracted as a `Site`: for a URL, the number of links in each
 * pagination control of the page, and the result cards of the page. Goroutines
 * become sequential loops; every fan-in goes through a `Channels.Channel`,
 * which hands the values out in an order the model does not fix.
 */
module Scrapper {
  import opened GoStrings
  import opened Collections
  import Channels
  import Csv

  datatype Option<T> = None | Some(value: T)

  // ---------------------------------------------------------------------------
  // CleanString

  /** Trims `s` and collapses every run of whitespace inside it into one space. */
  function CleanString(s: string): string {
    Join(Fields(TrimSpace(s)), " ")
  }

  /** The result is single-spaced text with exactly the words of `s`. */
  lemma CleanStringSpec(s: string)
    ensures SingleSpaced(CleanString(s))
    ensures Fields(CleanString(s)) == Fields(s)
  {
    var ws := Fields(TrimSpace(s));
    FieldsTrimSpace(s);
    JoinWordsSingleSpaced(ws);
    FieldsOfJoin(ws);
  }

  /** CleanString(s) is the only single-spaced text with the words of `s`. */
  lemma CleanStringCanonical(s: string, r: string)
    requires SingleSpaced(r) && Fields(r) == Fields(s)
    ensures r == CleanString(s)
  {
    JoinFieldsOfSingleSpaced(r);
    FieldsTrimSpace(s);
  }

  lemma CleanStringIdempotent(s: string)
    ensures CleanString(CleanString(s)) == CleanString(s)
  {
    CleanStringSpec(s);
    CleanStringCanonical(CleanString(s), CleanString(s));
  }

  /** Cleaning text that has whitespace anywhere gives the words on either side
      of it, joined by single spaces. */
  lemma CleanStringSplitAtSpace(a: string, c: char, b: string)
    requires IsSpace(c)
    ensures CleanString(a + [c] + b) == Join(Fields(a) + Fields(b), " ")
  {
    FieldsTrimSpace(a + [c] + b);
    FieldsSplitAtSpace(a, c, b);
  }

  /** The result is empty exactly when `s` is empty or all whitespace. */
  lemma CleanStringEmpty(s: string)
    ensures CleanString(s) == "" <==> AllSpace(s)
  {
    var r := CleanString(s);
    CleanStringSpec(s);
    FieldsEmpty(s);
    FieldsEmpty(r);
  }

  // ---------------------------------------------------------------------------
  // getLink

  const NoLink := "Couldn't extract link"
  const ViewJobURL := "https://kr.indeed.com/viewjob?jk="
  const JobKeyParam := "?jk="
  const FccidParam := "&fccid="

  /** The canonical view URL for the job key in `href`, or the fixed `NoLink` text. */
  function GetLink(href: string): (link: string)
    ensures link != ""
    ensures link == NoLink || HasPrefix(link, ViewJobURL)
  {
    var str := Split(href, JobKeyParam);
    if |str| >= 2 then ViewJobURL + Split(str[1], FccidParam)[0] else NoLink
  }

  /** The `NoLink` text comes back exactly when `href` has no "?jk=". */
  lemma GetLinkNoLink(href: string)
    ensures GetLink(href) == NoLink <==> !Contains(href, JobKeyParam)
  {
    SplitSecond(href, JobKeyParam);
    if Contains(href, JobKeyParam) {
      assert GetLink(href)[0] == 'h' != NoLink[0];
    }
  }

  /** The job key appended to the view URL is the text after the first "?jk=",
      up to the earliest following "?jk=" or "&fccid=", or to the end. */
  lemma GetLinkJobKey(href: string)
    requires Contains(href, JobKeyParam)
    ensures HasPrefix(GetLink(href), ViewJobURL)
    ensures
      var rest := href[Index(href, JobKeyParam) + |JobKeyParam|..];
      var id := GetLink(href)[|ViewJobURL|..];
      && |id| <= |rest| && id == rest[..|id|]
      && (forall i :: 0 <= i < |id| ==> !OccursAt(rest, JobKeyParam, i) && !OccursAt(rest, FccidParam, i))
      && (|id| == |rest| || OccursAt(rest, JobKeyParam, |id|) || OccursAt(rest, FccidParam, |id|))
      && !Contains(id, JobKeyParam) && !Contains(id, FccidParam)
  {
    var rest := href[Index(href, JobKeyParam) + |JobKeyParam|..];
    SplitSecond(href, JobKeyParam);
    var piece := Split(rest, JobKeyParam)[0];
    SplitFirst(rest, JobKeyParam);
    var id := Split(piece, FccidParam)[0];
    SplitFirst(piece, FccidParam);
    assert GetLink(href) == ViewJobURL + id;
    assert GetLink(href)[|ViewJobURL|..] == id;
    JobKeyBounds(rest, piece, id);
  }

  /** The key found in `rest`: `piece` ends at the first "?jk=", `id` at the
      first "&fccid=" of `piece`. */
  lemma JobKeyBounds(rest: string, piece: string, id: string)
    requires Index(rest, JobKeyParam) < 0 ==> piece == rest
    requires Index(rest, JobKeyParam) >= 0 ==> piece == rest[..Index(rest, JobKeyParam)]
    requires Index(piece, FccidParam) < 0 ==> id == piece
    requires Index(piece, FccidParam) >= 0 ==> id == piece[..Index(piece, FccidParam)]
    ensures |id| <= |rest| && id == rest[..|id|]
    ensures forall i :: 0 <= i < |id| ==> !OccursAt(rest, JobKeyParam, i) && !OccursAt(rest, FccidParam, i)
    ensures |id| == |rest| || OccursAt(rest, JobKeyParam, |id|) || OccursAt(rest, FccidParam, |id|)
    ensures !Contains(id, JobKeyParam) && !Contains(id, FccidParam)
  {
    IndexSpec(rest, JobKeyParam);
    IndexSpec(piece, FccidParam);
    var q := Index(rest, JobKeyParam);
    var p := Index(piece, FccidParam);
    assert piece == rest[..|piece|];
    assert id == piece[..|id|];
    PrefixOfPrefix(rest, |piece|, |id|);
    forall i | 0 <= i < |id| ensures !OccursAt(rest, FccidParam, i) {
      OccursInPrefix(rest, FccidParam, |piece|, i);
      if q >= 0 && i + |FccidParam| > q {
        NoStraddle(rest, q, i);
      }
    }
    if p >= 0 {
      OccursInPrefix(rest, FccidParam, |piece|, p);
    }
    PrefixFree(rest, JobKeyParam, |id|);
    PrefixFree(rest, FccidParam, |id|);
  }

  lemma PrefixOfPrefix(s: string, n: nat, m: nat)
    requires m <= n <= |s|
    ensures s[..n][..m] == s[..m]
  {
  }

  /** A prefix in which `sep` starts nowhere does not contain `sep`. */
  lemma PrefixFree(s: string, sep: string, n: nat)
    requires |sep| > 0 && n <= |s|
    requires forall i :: 0 <= i < n ==> !OccursAt(s, sep, i)
    ensures !Contains(s[..n], sep)
  {
    forall i | 0 <= i <= n ensures !OccursAt(s[..n], sep, i) {
      OccursInPrefix(s, sep, n, i);
    }
  }

  /** No "&fccid=" can overlap the start of a "?jk=": it has no '?'. */
  lemma NoStraddle(rest: string, q: int, i: int)
    requires OccursAt(rest, JobKeyParam, q) && 0 <= i < q < i + |FccidParam|
    ensures !OccursAt(rest, FccidParam, i)
  {
    assert rest[q] == '?' by { assert rest[q..q + |JobKeyParam|][0] == rest[q]; }
    if i + |FccidParam| <= |rest| {
      assert rest[i..i + |FccidParam|][q - i] == rest[q];
    }
  }

  /** An occurrence inside a prefix is an occurrence that ends within the prefix. */
  lemma OccursInPrefix(s: string, sep: string, n: int, i: int)
    requires 0 <= n <= |s|
    ensures OccursAt(s[..n], sep, i) <==> OccursAt(s, sep, i) && i + |sep| <= n
  {
    if 0 <= i && i + |sep| <= n {
      assert s[..n][i..i + |sep|] == s[i..i + |sep|];
    }
  }

  // ---------------------------------------------------------------------------
  // URLs

  const SearchURL := "https://kr.indeed.com/jobs?q="
  const LimitParam := "&limit=50"
  const StartParam := "&start="
  const PageSize := 50

  /** The search URL for `term`, 50 results per page. */
  function BaseURL(term: string): (url: string)
    ensures HasPrefix(url, SearchURL)
    ensures |url| == |SearchURL| + |term| + |LimitParam|
    ensures url[|SearchURL|..|url| - |LimitParam|] == term
    ensures url[|url| - |LimitParam|..] == LimitParam
  {
    SearchURL + term + LimitParam
  }

  /** The URL of result page `page` (numbered from 0). */
  function PageURL(baseURL: string, page: nat): string {
    baseURL + StartParam + Itoa(page * PageSize)
  }

  /** The start offset in a page URL is the decimal text of `page * 50`. */
  lemma PageURLOffset(baseURL: string, page: nat)
    ensures
      var url := PageURL(baseURL, page);
      var offset := url[|baseURL| + |StartParam|..];
      && url == baseURL + StartParam + offset
      && IsDecimal(offset)
      && DecimalValue(offset) == page * PageSize
  {
    ItoaRoundTrip(page * PageSize);
    var url := PageURL(baseURL, page);
    assert url[|baseURL| + |StartParam|..] == Itoa(page * PageSize);
  }

  /** Different pages are requested from different URLs. */
  lemma PageURLDistinct(baseURL: string, i: nat, j: nat)
    requires i != j
    ensures PageURL(baseURL, i) != PageURL(baseURL, j)
  {
    if PageURL(baseURL, i) == PageURL(baseURL, j) {
      var n := |baseURL| + |StartParam|;
      assert PageURL(baseURL, i)[n..] == Itoa(i * PageSize);
      assert PageURL(baseURL, j)[n..] == Itoa(j * PageSize);
      ItoaInjective(i * PageSize, j * PageSize);
    }
  }

  // ---------------------------------------------------------------------------
  // Postings

  /** `extractedJob`. */
  datatype Job = Job(link: string, title: string, location: string, salary: string, summary: string)

  /** One result card as the extractor sees it: its `href` attribute and the text of
      its title, location, salary and summary elements, `None` where the card lacks one. */
  datatype Card = Card(
    href: Option<string>,
    title: Option<string>,
    location: Option<string>,
    salary: Option<string>,
    summary: Option<string>)

  /** The text of a fragment; a missing attribute or element reads as "". */
  function Text(fragment: Option<string>): string {
    match fragment
    case Some(t) => t
    case None => ""
  }

  /** What every extracted posting looks like: a link that is the view URL of a
      job or the fallback text, and single-spaced text fields. */
  predicate WellFormedJob(job: Job) {
    && job.link != ""
    && (job.link == NoLink || HasPrefix(job.link, ViewJobURL))
    && SingleSpaced(job.title) && SingleSpaced(job.location)
    && SingleSpaced(job.salary) && SingleSpaced(job.summary)
  }

  /** `extractJob`: the posting of one result card. */
  function ExtractJob(card: Card): Job {
    Job(
      GetLink(Text(card.href)),
      CleanString(Text(card.title)),
      CleanString(Text(card.location)),
      CleanString(Text(card.salary)),
      CleanString(Text(card.summary)))
  }

  /** The posting of a card is well formed; a card without an `href` gets the
      `NoLink` text; each text field has the words of the card's fragment, and
      is empty when the card lacks that fragment. */
  lemma ExtractJobSpec(card: Card)
    ensures WellFormedJob(ExtractJob(card))
    ensures card.href == None ==> ExtractJob(card).link == NoLink
    ensures ExtractJob(card).link == NoLink <==> !Contains(Text(card.href), JobKeyParam)
    ensures ExtractJob(card).link == NoLink || HasPrefix(ExtractJob(card).link, ViewJobURL)
    ensures Fields(ExtractJob(card).title) == Fields(Text(card.title))
    ensures Fields(ExtractJob(card).location) == Fields(Text(card.location))
    ensures Fields(ExtractJob(card).salary) == Fields(Text(card.salary))
    ensures Fields(ExtractJob(card).summary) == Fields(Text(card.summary))
    ensures card.title == None ==> ExtractJob(card).title == ""
    ensures card.location == None ==> ExtractJob(card).location == ""
    ensures card.salary == None ==> ExtractJob(card).salary == ""
    ensures card.summary == None ==> ExtractJob(card).summary == ""
  {
    CleanStringEmpty("");
    GetLinkNoLink("");
    GetLinkNoLink(Text(card.href));
    CleanStringSpec(Text(card.title));
    CleanStringSpec(Text(card.location));
    CleanStringSpec(Text(card.salary));
    CleanStringSpec(Text(card.summary));
  }

  // ---------------------------------------------------------------------------
  // The site and the expected result

  /** What the scraper reads from the web, by URL: the number of links inside each
      pagination control of the page, in document order, and the result cards of the page. */
  datatype Site = Site(paginations: string -> seq<nat>, cards: string -> seq<Card>)

  /** The page count `getPages` reports: the link count of the last pagination
      control, 0 when there is none. */
  function PageCount(site: Site, baseURL: string): nat {
    var counts := site.paginations(baseURL);
    if counts == [] then 0 else counts[|counts| - 1]
  }

  /** The cards of each of the first `n` result pages. */
  function PageCards(site: Site, baseURL: string, n: nat): (pages: seq<seq<Card>>)
    ensures |pages| == n
  {
    seq(n, i requires 0 <= i < n => site.cards(PageURL(baseURL, i)))
  }

  /** The postings of result page `page`, in card order, with `extract` reading
      each card; the scraper's own reading is `ExtractJob`. */
  function PagePostings(extract: Card -> Job, site: Site, baseURL: string, page: nat): seq<Job> {
    Map(extract, site.cards(PageURL(baseURL, page)))
  }

  /** The postings of each of the first `n` result pages. */
  function PageJobs(extract: Card -> Job, site: Site, baseURL: string, n: nat): (pages: seq<seq<Job>>)
    ensures |pages| == n
    ensures forall i :: 0 <= i < n ==> pages[i] == PagePostings(extract, site, baseURL, i)
  {
    seq(n, i requires 0 <= i < n => PagePostings(extract, site, baseURL, i))
  }

  /** There is one posting per card, page by page and in total. */
  lemma PageJobsLength(extract: Card -> Job, site: Site, baseURL: string, n: nat)
    ensures |Flatten(PageJobs(extract, site, baseURL, n))| == TotalLength(PageCards(site, baseURL, n))
  {
    var pages := PageJobs(extract, site, baseURL, n);
    FlattenLength(pages);
    TotalLengthPointwise(pages, PageCards(site, baseURL, n));
  }

  /** Every posting the scraper extracts from any page is well formed. */
  lemma PageJobsWellFormed(site: Site, baseURL: string, n: nat)
    ensures forall j | j in Flatten(PageJobs(ExtractJob, site, baseURL, n)) :: WellFormedJob(j)
  {
    forall card: Card ensures WellFormedJob(ExtractJob(card)) {
      ExtractJobSpec(card);
    }
    PagePostingsWellFormed(ExtractJob, site, baseURL, n);
  }

  /** An extractor that only produces well-formed postings produces only
      well-formed postings on every page. */
  lemma PagePostingsWellFormed(extract: Card -> Job, site: Site, baseURL: string, n: nat)
    requires forall card: Card :: WellFormedJob(extract(card))
    ensures forall j | j in Flatten(PageJobs(extract, site, baseURL, n)) :: WellFormedJob(j)
  {
    var pages := PageJobs(extract, site, baseURL, n);
    forall j | j in Flatten(pages) ensures WellFormedJob(j) {
      FlattenMember(pages, j);
      var k :| 0 <= k < |pages| && j in pages[k];
      var card := MapMemberInverse(extract, site.cards(PageURL(baseURL, k)), j);
    }
  }

  // ---------------------------------------------------------------------------
  // Rows

  type Row = Csv.Row

  const Header: Row := ["Link", "Title", "Location", "Salary", "Summary"]

  /** The CSV row of a posting. */
  function EncodeRow(job: Job): (row: Row)
    ensures |row| == 5
    ensures DecodeRow(row) == Some(job)
  {
    [job.link, job.title, job.location, job.salary, job.summary]
  }

  /** Reading a posting back from a row of five fields. */
  function DecodeRow(row: Row): (r: Option<Job>)
    ensures r.Some? <==> |row| == 5
  {
    if |row| == 5 then Some(Job(row[0], row[1], row[2], row[3], row[4])) else None
  }

  /** A row that reads as a posting is that posting's encoding. */
  lemma DecodeRowEncodes(row: Row)
    requires DecodeRow(row).Some?
    ensures EncodeRow(DecodeRow(row).value) == row
  {
  }

  /** A written posting row: five fields, a link that is a view URL or the
      fallback text, single-spaced text. */
  predicate WellFormedRow(row: Row) {
    && |row| == 5 && row[0] != ""
    && (row[0] == NoLink || HasPrefix(row[0], ViewJobURL))
    && SingleSpaced(row[1]) && SingleSpaced(row[2]) && SingleSpaced(row[3]) && SingleSpaced(row[4])
  }

  /** Reading all posting rows back, in file order; `None` if a row is not five fields wide. */
  function DecodeRows(rows: seq<Row>): Option<seq<Job>> {
    if rows == [] then Some([])
    else
      match (DecodeRows(rows[..|rows| - 1]), DecodeRow(rows[|rows| - 1]))
      case (Some(js), Some(j)) => Some(js + [j])
      case _ => None
  }

  /** Reading a table: the header, then the posting rows. */
  function ParseTable(file: seq<Row>): Option<seq<Job>> {
    if file == [] || file[0] != Header then None else DecodeRows(file[1..])
  }

  /** Rows that are the encodings of `jobs` in any order read back as `jobs`, up to order. */
  lemma {:induction false} DecodeRowsPermutation(rows: seq<Row>, jobs: seq<Job>)
    requires multiset(rows) == multiset(Map(EncodeRow, jobs))
    ensures DecodeRows(rows).Some?
    ensures multiset(DecodeRows(rows).value) == multiset(jobs)
    decreases |rows|
  {
    if rows == [] {
      assert |jobs| == |multiset(Map(EncodeRow, jobs))| == 0;
    } else {
      var x := rows[|rows| - 1];
      var rows' := rows[..|rows| - 1];
      var k := MapPick(EncodeRow, jobs, rows);
      var jobs' := jobs[..k] + jobs[k + 1..];
      DecodeRowsPermutation(rows', jobs');
      LastOf(rows);
      DecodeRowsSnoc(rows', x);
    }
  }

  lemma DecodeRowsSnoc(rows: seq<Row>, x: Row)
    requires DecodeRows(rows).Some? && DecodeRow(x).Some?
    ensures DecodeRows(rows + [x]) == Some(DecodeRows(rows).value + [DecodeRow(x).value])
  {
    FrontOfSnoc(rows, x);
  }

  // ---------------------------------------------------------------------------
  // The pipeline

  /** `getPages`: the link count of the last pagination control on the first
      results page, or 0 when the page has none. */
  method GetPages(baseURL: string, site: Site) returns (pages: nat)
    ensures pages == PageCount(site, baseURL)
  {
    pages := 0;
    var controls := site.paginations(baseURL);
    for i := 0 to |controls|
      invariant i == 0 ==> pages == 0
      invariant i > 0 ==> pages == controls[i - 1]
    {
      pages := controls[i];
    }
  }

  /** `getPage`: one goroutine per card on page `page`, each running `extract`
      (`extractJob` in the scraper) on its card, then as many receives as there
      are cards. */
  method GetPage(baseURL: string, page: nat, site: Site, extract: Card -> Job) returns (jobs: seq<Job>)
    ensures |jobs| == |site.cards(PageURL(baseURL, page))|
    ensures multiset(jobs) == multiset(PagePostings(extract, site, baseURL, page))
  {
    jobs := [];
    var c := new Channels.Channel<Job>();
    var pageURL := PageURL(baseURL, page);
    var cards := site.cards(pageURL);
    for k := 0 to |cards|
      invariant c.pending == multiset(Map(extract, cards[..k]))
    {
      MapSnoc(extract, cards, k);
      c.Send(extract(cards[k]));
    }
    TakeAll(cards);
    for i := 0 to |cards|
      invariant |jobs| == i
      invariant multiset(jobs) + c.pending == multiset(Map(extract, cards))
    {
      var job := c.Receive();
      jobs := jobs + [job];
    }
  }

  /** The goroutines `writeJobs` starts: each encodes one posting and sends its row. */
  method EncodeRows(jobs: seq<Job>, c: Channels.Channel<Row>)
    modifies c
    ensures c.pending == old(c.pending) + multiset(Map(EncodeRow, jobs))
  {
    for k := 0 to |jobs|
      invariant c.pending == old(c.pending) + multiset(Map(EncodeRow, jobs[..k]))
    {
      MapSnoc(EncodeRow, jobs, k);
      c.Send(EncodeRow(jobs[k]));
    }
    TakeAll(jobs);
  }

  /** The writing loop of `writeJobs`: `n` times, receive a row from `c` and write
      it. The rows appended are exactly the rows that were pending, in the order
      they arrived. */
  method WriteReceived(c: Channels.Channel<Row>, w: Csv.Writer, n: nat)
    requires |c.pending| == n
    modifies c, w
    ensures c.pending == multiset{}
    ensures |w.rows| == |old(w.rows)| + n
    ensures w.rows[..|old(w.rows)|] == old(w.rows)
    ensures multiset(w.rows[|old(w.rows)|..]) == old(c.pending)
  {
    ghost var start := w.rows;
    for i := 0 to n
      invariant |w.rows| == |start| + i && w.rows[..|start|] == start
      invariant multiset(w.rows[|start|..]) + c.pending == old(c.pending)
    {
      var row := c.Receive();
      ghost var before := w.rows;
      w.Write(row);
      assert w.rows[|start|..] == before[|start|..] + [row];
    }
  }

  /** `writeJobs`: the header, then one row per posting; rows are encoded by one
      goroutine each and written by this method as they arrive. The result is
      the content of the file. */
  method WriteJobs(jobs: seq<Job>) returns (file: seq<Row>)
    ensures |file| == |jobs| + 1 && file[0] == Header
    ensures multiset(file[1..]) == multiset(Map(EncodeRow, jobs))
    ensures ParseTable(file).Some? && multiset(ParseTable(file).value) == multiset(jobs)
  {
    var w := new Csv.Writer();
    w.Write(Header);
    var c := new Channels.Channel<Row>();
    EncodeRows(jobs, c);
    WriteReceived(c, w, |jobs|);
    file := w.rows;
    WrittenTableParses(file, jobs);
  }

  /** A file written by `writeJobs` reads back as the postings it was given, up to order. */
  lemma WrittenTableParses(file: seq<Row>, jobs: seq<Job>)
    requires |file| == |jobs| + 1 && file[0] == Header
    requires multiset(file[1..]) == multiset(Map(EncodeRow, jobs))
    ensures ParseTable(file).Some?
    ensures multiset(ParseTable(file).value) == multiset(jobs)
  {
    DecodeRowsPermutation(file[1..], jobs);
  }

  /** The page goroutines `Scrape` starts: page `i` is fetched and its postings
      are sent on `c` as one list, for every `i` below `totalPages`. */
  method StartPages(baseURL: string, site: Site, totalPages: nat, c: Channels.Channel<seq<Job>>,
                    extract: Card -> Job)
      returns (ghost sent: seq<seq<Job>>)
    modifies c
    ensures PointwisePermutation(sent, PageJobs(extract, site, baseURL, totalPages))
    ensures c.pending == old(c.pending) + multiset(sent)
  {
    sent := [];
    ghost var expected := PageJobs(extract, site, baseURL, totalPages);
    for i := 0 to totalPages
      invariant PointwisePermutation(sent, expected[..i])
      invariant c.pending == old(c.pending) + multiset(sent)
    {
      var pageJobs := GetPage(baseURL, i, site, extract);
      c.Send(pageJobs);
      PointwisePermutationSnoc(sent, expected[..i], pageJobs, expected[i]);
      TakeOneMore(expected, i);
      sent := sent + [pageJobs];
    }
    TakeAll(expected);
  }

  /** The receiving loop of `Scrape`: `n` receives, each page's postings appended
      to the result as they arrive. */
  method CollectPages(c: Channels.Channel<seq<Job>>, n: nat)
      returns (jobs: seq<Job>, ghost received: seq<seq<Job>>)
    requires |c.pending| == n
    modifies c
    ensures c.pending == multiset{}
    ensures jobs == Flatten(received)
    ensures multiset(received) == old(c.pending)
  {
    jobs := [];
    received := [];
    for i := 0 to n
      invariant |received| == i
      invariant jobs == Flatten(received)
      invariant multiset(received) + c.pending == old(c.pending)
    {
      var pageJobs := c.Receive();
      FrontOfSnoc(received, pageJobs);
      jobs := jobs + pageJobs;
      received := received + [pageJobs];
    }
  }

  /** `Scrape`: count the pages, run one page goroutine per page, append every
      page's postings as they arrive, and write the table. */
  method Scrape(term: string, site: Site) returns (jobs: seq<Job>, file: seq<Row>)
    ensures
      var baseURL := BaseURL(term);
      var n := PageCount(site, baseURL);
      && multiset(jobs) == multiset(Flatten(PageJobs(ExtractJob, site, baseURL, n)))
      && |jobs| == TotalLength(PageCards(site, baseURL, n))
      && (n == 0 ==> jobs == [])
    ensures forall j | j in jobs :: WellFormedJob(j)
    ensures |file| == |jobs| + 1 && file[0] == Header
    ensures multiset(file[1..]) == multiset(Map(EncodeRow, jobs))
    ensures forall i :: 1 <= i < |file| ==> WellFormedRow(file[i])
    ensures ParseTable(file).Some? && multiset(ParseTable(file).value) == multiset(jobs)
    ensures PageCount(site, BaseURL(term)) == 0 ==> file == [Header]
  {
    var baseURL := BaseURL(term);
    var c := new Channels.Channel<seq<Job>>();
    var totalPages := GetPages(baseURL, site);
    ghost var sent := StartPages(baseURL, site, totalPages, c, ExtractJob);
    ghost var received;
    jobs, received := CollectPages(c, totalPages);
    ScrapedPostings(ExtractJob, site, baseURL, totalPages, sent, received, jobs);
    PageJobsWellFormed(site, baseURL, totalPages);
    PermutationWellFormed(jobs, Flatten(PageJobs(ExtractJob, site, baseURL, totalPages)));
    file := WriteJobs(jobs);
    WrittenRowsWellFormed(jobs, file);
  }

  /** What the two loops of `Scrape` together deliver: the postings of every page,
      in some order. */
  lemma ScrapedPostings(extract: Card -> Job, site: Site, baseURL: string, n: nat,
                        sent: seq<seq<Job>>, received: seq<seq<Job>>, jobs: seq<Job>)
    requires PointwisePermutation(sent, PageJobs(extract, site, baseURL, n))
    requires multiset(received) == multiset(sent)
    requires jobs == Flatten(received)
    ensures multiset(jobs) == multiset(Flatten(PageJobs(extract, site, baseURL, n)))
    ensures |jobs| == TotalLength(PageCards(site, baseURL, n))
    ensures n == 0 ==> jobs == []
  {
    var expected := PageJobs(extract, site, baseURL, n);
    FlattenPermutation(received, sent);
    FlattenPointwise(sent, expected);
    PageJobsLength(extract, site, baseURL, n);
    FlattenLength(received);
    FlattenLength(expected);
  }

  /** A permutation of well-formed postings holds only well-formed postings. */
  lemma PermutationWellFormed(jobs: seq<Job>, pool: seq<Job>)
    requires multiset(jobs) == multiset(pool)
    requires forall j | j in pool :: WellFormedJob(j)
    ensures forall j | j in jobs :: WellFormedJob(j)
  {
    forall j | j in jobs ensures WellFormedJob(j) {
      assert j in multiset(pool);
    }
  }

  /** Every posting row written for well-formed postings has a link and
      single-spaced text fields. */
  lemma WrittenRowsWellFormed(jobs: seq<Job>, file: seq<Row>)
    requires forall j | j in jobs :: WellFormedJob(j)
    requires |file| == |jobs| + 1
    requires multiset(file[1..]) == multiset(Map(EncodeRow, jobs))
    ensures forall i :: 1 <= i < |file| ==> WellFormedRow(file[i])
  {
    forall i | 1 <= i < |file| ensures WellFormedRow(file[i]) {
      assert file[i] in multiset(file[1..]) by { assert file[i] == file[1..][i - 1]; }
      var k :| 0 <= k < |jobs| && Map(EncodeRow, jobs)[k] == file[i];
      assert jobs[k] in jobs;
    }
  }
}

/**
 * A worked scenario: a search on a site with two result pages, three cards on
 * the first (one without a salary) and two on the second.
 */
module Scenario {
  import opened Scrapper
  import opened Collections

  /** A search for `term` over a site whose result list has two pages, of three
      and two cards: the file has the header and five posting rows, each with a
      link, and a card without a salary gives a posting with an empty salary. */
  method TwoPageScenario(term: string, site: Site, missing: Card) returns (jobs: seq<Job>, file: seq<Row>)
    requires PageCount(site, BaseURL(term)) == 2
    requires |site.cards(PageURL(BaseURL(term), 0))| == 3
    requires |site.cards(PageURL(BaseURL(term), 1))| == 2
    requires missing in site.cards(PageURL(BaseURL(term), 0)) && missing.salary == None
    ensures |file| == 6 && file[0] == Header
    ensures forall i :: 1 <= i < |file| ==> |file[i]| == 5 && file[i][0] != ""
    ensures ExtractJob(missing) in jobs && ExtractJob(missing).salary == ""
  {
    jobs, file := Scrape(term, site);
    TwoPageOutcome(ExtractJob, BaseURL(term), site, missing, jobs, file);
    ExtractJobSpec(missing);
  }

  /** What a two-page search delivers, from what `Scrape` promises, for any
      extractor. */
  lemma TwoPageOutcome(extract: Card -> Job, url: string, site: Site, missing: Card,
                       jobs: seq<Job>, file: seq<Row>)
    requires |site.cards(PageURL(url, 0))| == 3 && |site.cards(PageURL(url, 1))| == 2
    requires missing in site.cards(PageURL(url, 0))
    requires multiset(jobs) == multiset(Flatten(PageJobs(extract, site, url, 2)))
    requires |jobs| == TotalLength(PageCards(site, url, 2))
    requires |file| == |jobs| + 1
    ensures |file| == 6
    ensures extract(missing) in jobs
  {
    TotalLengthOfTwo(PageCards(site, url, 2));
    var pages := PageJobs(extract, site, url, 2);
    MapMember(extract, site.cards(PageURL(url, 0)), missing);
    InFirstOfTwo(pages, extract(missing));
    PermutationHas(jobs, Flatten(pages), extract(missing));
  }

  lemma TotalLengthOfTwo<T>(ss: seq<seq<T>>)
    requires |ss| == 2
    ensures TotalLength(ss) == |ss[0]| + |ss[1]|
  {
    var rest := ss[1..];
    assert rest[1..] == [];
    assert TotalLength(rest) == |rest[0]| + TotalLength(rest[1..]);
  }

  lemma MapMember<A, B>(f: A -> B, xs: seq<A>, x: A)
    requires x in xs
    ensures f(x) in Map(f, xs)
  {
    var k :| 0 <= k < |xs| && xs[k] == x;
    assert Map(f, xs)[k] == f(x);
  }

  lemma InFirstOfTwo<T>(ss: seq<seq<T>>, x: T)
    requires |ss| == 2 && x in ss[0]
    ensures x in Flatten(ss)
  {
    assert ss[..1][..0] == [];
    assert Flatten(ss[..1]) == ss[0];
  }

  lemma PermutationHas<T>(a: seq<T>, b: seq<T>, x: T)
    requires multiset(a) == multiset(b) && x in b
    ensures x in a
  {
    assert x in multiset(b);
  }
}
