# Go-Scrapper in Dafny

A model of the `scrapper` package of Go-Scrapper. For a search term the package
does five things:

- It builds the Indeed Korea search URL, with 50 results per page.
- It reads the number of result pages from the last pagination control of the
  first page.
- It fetches every result page concurrently. On each page it turns every result
  card into a job posting (link, title, location, salary, summary).
- It gathers the postings of all pages through channels.
- It writes them to a CSV table: a header row, then one row per posting, in
  whatever order the goroutines deliver them.

The modules follow the program's structure:

- `GoStrings`: the parts of Go's standard library the package builds on.
  - `unicode.IsSpace`.
  - `strings.TrimSpace`, `Fields`, `Join`, `Index`, `Contains` and `Split`.
  - `strconv.Itoa`.
- `Collections`: concatenating a sequence of lists, which is what the repeated
  `append(jobs, xs...)` builds, and the facts about it that do not depend on
  order.
- `Channels`: a Go channel between goroutines that each send one value and a
  single receiver.
  - It is a class whose state is the multiset of values sent but not yet
    received.
  - `Receive` returns any of them, so the model fixes no delivery order.
- `Csv`: the CSV sink. It is a class holding the rows written so far.
- `Scrapper`: the package itself.
  - `CleanString`, `getLink`, the search and page URLs, `extractedJob` and
    `extractJob`.
  - `getPages`, `getPage`, `writeJobs` and `Scrape`, as methods with loops over
    the channel class.
  - The specification functions they are proved against.
- `Scenario`: a two-page search worked through end to end.

The web is a parameter. A `Site` gives, for each URL:

- the number of `<a>` elements in each `.pagination` element of that page, in
  document order;
- the page's `.tapItem` result cards.

Each card is given as its `href` attribute and the texts of its title, location,
salary and summary elements, each of which may be missing.

What is proved:

- **CleanString:**
  - its result is single-spaced and has exactly the words of its input;
  - it is the only such text, so cleaning is idempotent;
  - it is empty exactly when the input is all whitespace.
- **getLink:**
  - it never returns "";
  - it returns the "Couldn't extract link" text exactly when `href` has no
    `?jk=`;
  - otherwise it returns the view URL followed by the job key: the text after
    the first `?jk=`, up to the next `?jk=` or `&fccid=` or the end, and
    containing neither.
- **Page URLs:** the offset in a page URL is the decimal text of `page*50`, and
  different pages have different URLs.
- **Scrape:**
  - its postings are, as a multiset, the postings of every card of every page;
  - they number as many as the cards;
  - every one is well formed.
- **The file:**
  - it is the header followed by a permutation of the encoded postings;
  - it parses back to the same postings up to order;
  - it is the header alone when there are no pages.

## Model

| member | source | states |
|---|---|---|
| Scrapper.CleanString | scrapper/scrapper.go:153-155 | no contract; its properties are in CleanStringSpec, CleanStringCanonical, CleanStringIdempotent, CleanStringEmpty and CleanStringSplitAtSpace |
| Scrapper.CleanStringSplitAtSpace | scrapper/scrapper.go:153-155 | cleaning text with a whitespace character anywhere gives the words before it and the words after it, joined by single spaces |
| Scrapper.CleanStringSpec | scrapper/scrapper.go:153-155 | CleanString's result is single-spaced (no leading, trailing or doubled whitespace, and only ' ') and has exactly the same words (`strings.Fields`) as its input |
| Scrapper.CleanStringCanonical | scrapper/scrapper.go:153-155 | any single-spaced text with the words of `s` is CleanString(s), which makes the cleaned form unique |
| Scrapper.CleanStringIdempotent | scrapper/scrapper.go:153-155 | cleaning a cleaned string changes nothing |
| Scrapper.CleanStringEmpty | scrapper/scrapper.go:153-155 | CleanString(s) is "" exactly when s is empty or all whitespace |
| GoStrings.TrimLeft | scrapper/scrapper.go:154 | the result is a suffix of the input, starts with a non-space, and only whitespace was dropped |
| GoStrings.TrimRight | scrapper/scrapper.go:154 | the result is a prefix of the input, ends with a non-space, and only whitespace was dropped |
| GoStrings.IsSpace | scrapper/scrapper.go:154 | no contract: Go's `unicode.IsSpace`, the six Latin-1 spaces, U+0085, U+00A0 and the Unicode White_Space characters |
| GoStrings.TrimSpace | scrapper/scrapper.go:154 | no contract: TrimRight of TrimLeft; their contracts say what is kept and dropped at each end, and FieldsTrimSpace that the words do not change |
| GoStrings.Fields | scrapper/scrapper.go:154 | every field is non-empty and free of whitespace; FieldsOfWord, FieldsSplitAtSpace and FieldsEmpty together fix the result on every string |
| GoStrings.FieldsOfWord | scrapper/scrapper.go:154 | a single word is its own only field |
| GoStrings.FieldsSplitAtSpace | scrapper/scrapper.go:154 | any whitespace character separates fields: the fields of the text before it, then those of the text after it, in order and with nothing dropped |
| GoStrings.Join | scrapper/scrapper.go:154 | no contract; its properties are in FieldsOfJoin, JoinWordsSingleSpaced, JoinFieldsOfSingleSpaced and SplitJoin |
| GoStrings.FieldsEmpty | scrapper/scrapper.go:154 | `strings.Fields` yields no field exactly for all-whitespace text |
| GoStrings.FieldsTrimSpace | scrapper/scrapper.go:154 | `strings.Fields` gives the same words with or without `strings.TrimSpace` first |
| GoStrings.FieldsOfJoin | scrapper/scrapper.go:154 | splitting words joined by " " gives back the same words (Join/Fields round trip) |
| GoStrings.JoinWordsSingleSpaced | scrapper/scrapper.go:154 | words joined by " " form single-spaced text |
| GoStrings.JoinFieldsOfSingleSpaced | scrapper/scrapper.go:154 | single-spaced text is the " "-join of its own fields (Fields/Join round trip) |
| Scrapper.GetLink | scrapper/scrapper.go:112-120 | the link is never "", and it is either the fixed fallback text or starts with the view URL |
| Scrapper.GetLinkNoLink | scrapper/scrapper.go:113-118 | the fallback text comes back exactly when `href` contains no "?jk=" |
| Scrapper.GetLinkJobKey | scrapper/scrapper.go:114-117 | when "?jk=" occurs, the link is the view URL followed by the text after the first "?jk=", up to the earliest following "?jk=" or "&fccid=" or the end, and that key contains neither separator |
| Scrapper.JobKeyBounds | scrapper/scrapper.go:114-116 | the first piece of a split at "&fccid=", taken from the first piece of a split at "?jk=", is the longest prefix in which neither separator starts |
| GoStrings.Index | scrapper/scrapper.go:114-116 | the result is -1 or a position at which the separator fits; IndexSpec states which position it is |
| GoStrings.IndexSpec | scrapper/scrapper.go:114-116 | `strings.Index` is -1 exactly when the separator is absent, and otherwise the first position where it occurs |
| GoStrings.Split | scrapper/scrapper.go:114-116 | a split has at least one piece; SplitJoin, SplitPiecesFree, SplitFirst and SplitSecond state what the pieces are |
| GoStrings.SplitJoin | scrapper/scrapper.go:114-116 | joining the pieces of `strings.Split` with the separator gives back the string |
| GoStrings.SplitPiecesFree | scrapper/scrapper.go:114-116 | no piece of `strings.Split` contains the separator |
| GoStrings.SplitFirst | scrapper/scrapper.go:116 | the first piece is the whole string when the separator is absent, otherwise the text before its first occurrence |
| GoStrings.SplitSecond | scrapper/scrapper.go:114-115 | a split has at least two pieces exactly when the separator occurs, and the second piece is the text after the first occurrence, up to the next one |
| Scrapper.BaseURL | scrapper/scrapper.go:25 | the search URL is the fixed prefix, the term, and "&limit=50", each recoverable from it |
| Scrapper.PageURL | scrapper/scrapper.go:74 | no contract; its properties are in PageURLOffset and PageURLDistinct |
| Scrapper.PageURLOffset | scrapper/scrapper.go:74 | a page URL is the base URL, "&start=" and a canonical decimal numeral whose value is page*50 |
| Scrapper.PageURLDistinct | scrapper/scrapper.go:74 | different page numbers give different page URLs |
| GoStrings.Itoa | scrapper/scrapper.go:74 | `strconv.Itoa` of a non-negative number is a canonical decimal numeral |
| GoStrings.ItoaRoundTrip | scrapper/scrapper.go:74 | reading back the decimal text of n gives n |
| GoStrings.ItoaInjective | scrapper/scrapper.go:74 | different numbers have different decimal texts |
| Scrapper.ExtractJob | scrapper/scrapper.go:96-110 | no contract; its properties are in ExtractJobSpec and PageJobsWellFormed |
| Scrapper.ExtractJobSpec | scrapper/scrapper.go:96-110 | the posting of a card is well formed; its link is the fallback text exactly when the card's `href` has no "?jk=" (so also when there is no `href`), and otherwise starts with the view URL; each text field has the words of the card's element and is "" when the card lacks the element |
| Scrapper.PageCount | scrapper/scrapper.go:133-135 | no contract: the page count `getPages` reports, the link count of the last pagination control or 0; GetPages is proved against it |
| Scrapper.GetPages | scrapper/scrapper.go:122-138 | the loop ends with PageCount: the link count of the last pagination control, and 0 when there is none |
| Scrapper.GetPage | scrapper/scrapper.go:70-92 | the page yields one posting per card, and as a multiset they are exactly the postings of the page's cards |
| Scrapper.PageJobsLength | scrapper/scrapper.go:31-38 | all pages together give as many postings as there are cards on them |
| Scrapper.PageJobsWellFormed | scrapper/scrapper.go:96-110 | every posting extracted from any page is well formed |
| Scrapper.StartPages | scrapper/scrapper.go:31-33 | the page goroutines send, for each page, a permutation of that page's postings, and nothing else |
| Scrapper.CollectPages | scrapper/scrapper.go:35-38 | the receiving loop drains the channel and ends with the concatenation of the lists it received, which are the pending lists in some order |
| Scrapper.ScrapedPostings | scrapper/scrapper.go:30-38 | the gathered postings are, as a multiset, the postings of every page, as many as there are cards, and none when there are no pages |
| Collections.FlattenPermutation | scrapper/scrapper.go:35-38 | appending the same lists in any order gives the same multiset of elements |
| Collections.FlattenPointwise | scrapper/scrapper.go:35-38 | appending lists that are pairwise permutations gives the same multiset of elements |
| Collections.FlattenLength | scrapper/scrapper.go:35-38 | the length of the concatenation is the sum of the lengths |
| Collections.FlattenMember | scrapper/scrapper.go:35-38 | every element of the concatenation comes from one of the lists |
| Scrapper.EncodeRow | scrapper/scrapper.go:58 | a posting's row has five fields, in the order link, title, location, salary, summary, and reads back as the posting |
| Scrapper.DecodeRow | scrapper/scrapper.go:58 | a row reads back as a posting exactly when it has five fields |
| Scrapper.DecodeRowEncodes | scrapper/scrapper.go:58 | a row that reads back as a posting is that posting's encoding |
| Scrapper.EncodeRows | scrapper/scrapper.go:56-61 | the row goroutines add to the channel exactly the encodings of all postings |
| Csv.Writer.constructor | scrapper/scrapper.go:48 | a new CSV file holds no rows |
| Csv.Writer.Write | scrapper/scrapper.go:53 | writing appends exactly that row |
| Scrapper.WriteReceived | scrapper/scrapper.go:63-67 | the writing loop leaves earlier rows alone, drains the channel and appends exactly the rows that were pending, as a multiset |
| Scrapper.WriteJobs | scrapper/scrapper.go:46-68 | the file is the header followed by one row per posting, the rows being a permutation of the postings' encodings, and it parses back to the postings up to order |
| Scrapper.WrittenTableParses | scrapper/scrapper.go:52-67 | a header followed by a permutation of the encoded postings parses back to those postings up to order |
| Scrapper.DecodeRowsPermutation | scrapper/scrapper.go:56-67 | rows that are the encodings of the postings in any order all decode, to a permutation of the postings |
| Scrapper.Scrape | scrapper/scrapper.go:24-44 | the postings are the postings of every card of every page up to order, as many as the cards and all well formed (each link a view URL or the fallback text); the file is the header and a permutation of their rows, every row with such a link and single-spaced text, parsing back to them; no pages gives the header alone |
| Scrapper.PermutationWellFormed | scrapper/scrapper.go:35-38 | reordering well-formed postings keeps them well formed |
| Scrapper.WrittenRowsWellFormed | scrapper/scrapper.go:56-67 | every row written for well-formed postings has five fields, a non-empty link that is a view URL or the fallback text, and single-spaced text |
| Channels.Channel.constructor | scrapper/scrapper.go:27 | a new channel holds no pending values |
| Channels.Channel.Send | scrapper/scrapper.go:93 | a send adds exactly one pending value |
| Channels.Channel.Receive | scrapper/scrapper.go:36 | a receive returns one of the pending values and removes exactly one copy of it |
| Scenario.TwoPageScenario | scrapper/scrapper.go:24-44 | with two result pages of three and two cards, the file has the header and five rows, each with five fields and a link, and a card without a salary gives a posting with an empty salary |
| Scenario.TwoPageOutcome | scrapper/scrapper.go:30-39 | with pages of three and two cards, any extractor yields a six-line file and five postings, including the one for a given card of the first page |

## Left out

- HTTP requests, response bodies, `checkErr`, `checkCode` and `log.Fatalln` are
  left out. The model has no I/O, and a failed request there ends the process.
  A `Site` supplies the pages' content instead.
- HTML parsing and goquery selectors are left out. A `Site` gives the link counts
  of the `.pagination` elements and the `.tapItem` cards. Each card is given as
  the `href` attribute and the texts its selectors would find.
- Goroutine interleaving is replaced by sequential loops. Every send runs before
  any receive, and the channel hands values out in an order the model does not
  fix. The postings are therefore specified up to order, as multisets.
- Scrapper.GetPage returns its postings instead of sending them on `mainC`.
  Scrapper.StartPages does the send right after the call.
- Scrapper.GetPage and Scrapper.StartPages take the card reader as a parameter.
  `Scrape` passes `ExtractJob`, which is the only reader the program uses.
- `fmt.Println` progress output and the `time.Now` timing in `Scrape` are left
  out. They affect nothing the package computes.
- The CSV encoding itself is left out: field quoting, the `jobs.csv` file, `Close`
  and write errors. The file is modelled as its sequence of rows.
- `main.go` is not part of this model. It is the HTTP layer: it serves the home
  page, cleans and lower-cases the submitted term, calls `Scrape`, returns
  `jobs.csv` as an attachment and then removes the file.
- GoStrings.Split: only a non-empty separator is modelled. The package only
  splits on "?jk=" and "&fccid=".
- GoStrings.Itoa: only non-negative arguments are modelled, which `page*50`
  always is. The 64-bit overflow of `page*50` is not modelled, because page
  numbers are link counts from a page.
- Strings are sequences of Unicode characters, not UTF-8 bytes. Invalid UTF-8 in
  the fetched text is not modelled.
