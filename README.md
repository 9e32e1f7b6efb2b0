# khazande, modelled in Dafny

khazande is a vulnerability lookup service with two front ends.

- **NVD search.** A gRPC call takes a product name. It pages through the
  NVD (National Vulnerability Database) search results 20 at a time and
  collects the detail-page links. It then scrapes each detail page, going
  through a Redis cache keyed by the CVE number. Each stored record
  carries a 72-hour time-to-live.
- **GitHub advisories.** An HTTP handler reads `name vX.Y.Z` pairs from
  the request body. It asks the GitHub advisory database about each
  package, keeps the advisories whose vulnerable range holds the version,
  and lays them out as a numbered table.

This project models both paths and proves what each step promises.

| file | module | what it holds |
|---|---|---|
| `common.dfy` | `Common` | `Option`, `Result`, and `Run` (a computation that completes or is terminated the way `log.Fatal` ends the process) |
| `gostrings.dfy` | `GoStrings` | the Go `strings` functions the core calls (`Split`, `Contains`, `TrimSpace`, `Fields`); `Count` and `Join`, which state their laws; and `Itoa`, the decimal text `fmt.Sprintf` writes for `%d` |
| `json.dfy` | `Json` | a JSON-shaped encoding of string fields and string arrays, with its round trip |
| `redis.dfy` | `Redis` | the cache as a class holding a key/entry map and a reachability flag |
| `crawler.dfy` | `Crawler` | version-range recovery, link construction, pagination, the cache-aside scrape, and the sequential detail extraction |
| `types.dfy` | `Types` | the advisory records |
| `advisor.dfy` | `Advisor` | the advisory filter and record mapping, and the per-package report map |
| `handlers.dfy` | `Handlers` | the package map, titles, table rows and footer |
| `nvd.dfy` | `Nvd` | the gRPC request: the no-match error and the copy into protocol messages |

The network is a parameter. A `Crawler.Web` value gives, for each URL:

- the anchor texts of a search page;
- the optional texts the CSS selectors of a detail page match;
- the outcome of the plain `http.Get` of the page: a transport error, a
  status code, or the change-history cells, which are `None` when the
  document does not parse.

The GitHub database is a function from a package name to its advisory
nodes, `None` for any failure. The semantic-versioning library is the
uninterpreted `Advisor.SemVer`.

In three places the code does something a reader may not expect, and the
model does what the code does:

- An extracted version entry keeps its leading word `versions`, e.g.
  `versions 1.0-2.0`. It runs up to the next `versions`, and in the cell's
  last fragment up to its first newline.
- The two description selectors both write the description. The
  `p:nth-child(2)` rule runs second, so its text is kept when both match.
- The footer `Total` is the row counter after the last row, which is the
  number of rows plus one.

## Model

| member | source | states |
|---|---|---|
| Crawler.SplitBeforeSeparator | internal/crawler/crawler.go:204-216 | the loop yields the split-before-separator pieces |
| Crawler.SplitBeforeConcat | internal/crawler/crawler.go:204-216 | concatenating the pieces gives back the input |
| Crawler.SplitBeforePieces | internal/crawler/crawler.go:204-216 | piece 0 holds no separator; every later piece starts with the separator and holds no other occurrence of it |
| Crawler.SplitBeforeProperties | internal/crawler/crawler.go:204-216 | the four guarantees together: concatenation gives the input, piece 0 is unprefixed, later pieces start with the separator, and the piece count is the number of occurrences plus one |
| GoStrings.Split | internal/crawler/crawler.go:206 | `strings.Split`: at least one piece; the first piece is a prefix; more than one piece exactly when the separator occurs |
| GoStrings.SplitCount | internal/crawler/crawler.go:206 | the number of pieces is the number of non-overlapping occurrences plus one |
| GoStrings.SplitJoin | internal/crawler/crawler.go:206 | joining the pieces with the separator gives back the text |
| GoStrings.FieldsOfJoin | internal/handlers/handlers.go:96 | `strings.Fields` of non-empty space-free words joined by single spaces gives back the words |
| GoStrings.ItoaRoundTrip | internal/crawler/crawler.go:41 | the decimal text of a number reads back as that number |
| Crawler.ExtractVulnerableVersions | internal/crawler/crawler.go:218-234 | the list after the call is the list before it followed by the version ranges of the cell, so entries already there keep their places and the extraction only appends |
| Crawler.FragmentEntry | internal/crawler/crawler.go:221-231 | a fragment adds one entry exactly when it starts with `*cpe` and contains `versions`, and nothing otherwise |
| Crawler.EntriesCount | internal/crawler/crawler.go:220-233 | one entry per qualifying fragment |
| Crawler.EntryPosition | internal/crawler/crawler.go:220-233 | the entry of the i-th qualifying fragment sits at position i, so entries follow fragment order |
| Crawler.RangeCount | internal/crawler/crawler.go:218-234 | a cell yields as many ranges as it has qualifying fragments |
| Crawler.RangePosition | internal/crawler/crawler.go:218-234 | the range of a qualifying fragment sits after the ranges of the qualifying fragments before it, and is that fragment's entry |
| Crawler.FragmentsQualify | internal/crawler/crawler.go:219-222 | the leading fragment never qualifies; a later fragment qualifies exactly when it contains `versions` |
| Crawler.EntryText | internal/crawler/crawler.go:223-230 | an entry is `versions` plus the trimmed text up to the next `versions`; the last fragment's entry is also cut at the first newline |
| Crawler.EntryShape | internal/crawler/crawler.go:223-230 | every entry starts with `versions`; the last fragment's entry has no newline |
| Crawler.VersionRangesStartWithVersions | internal/crawler/crawler.go:223-230 | every recovered range starts with `versions` |
| Crawler.LastRangeOneLine | internal/crawler/crawler.go:225-230 | when the last fragment qualifies, the last range holds no newline |
| Crawler.NoVersionsNoRanges | internal/crawler/crawler.go:222 | fragments without `versions` add nothing |
| Crawler.TwoRangeCell | internal/crawler/crawler.go:218-234 | a cell of two `*cpe` lines and a trailer yields exactly the two `versions` ranges |
| Crawler.WorkedExample | internal/crawler/crawler.go:218-234 | `*cpe:something versions 1.0-2.0`, `*cpe:other versions 3.0-4.0`, `trailer` yields `["versions 1.0-2.0", "versions 3.0-4.0"]` |
| Crawler.GenerateLink | internal/crawler/crawler.go:188-202 | the search URL is the fixed prefix, the query unescaped, then the fixed suffix |
| Crawler.GenerateLinkInjective | internal/crawler/crawler.go:188-202 | different queries give different search URLs |
| Crawler.PageLinkInjective | internal/crawler/crawler.go:41 | different offsets give different page URLs |
| Crawler.LinksOnPage | internal/crawler/crawler.go:60-64 | one detail link per anchor, in order, each the detail template around the anchor text |
| Crawler.Crawler.ExtractVulnerabilityLinksPerPage | internal/crawler/crawler.go:56-69 | the links of the page that was loaded |
| Crawler.Crawler.ExtractVulnerabilitiesLinks | internal/crawler/crawler.go:35-54 | page k is requested with `startIndex=20*k`; the loop stops at the first empty page, so it makes one request more than there are non-empty pages; the links are the pages' links in page order |
| Crawler.StopsAtFirstEmpty | internal/crawler/crawler.go:44-49 | the page count at which the loop stops is unique |
| Crawler.TwoFullPages | internal/crawler/crawler.go:40-50 | two full pages and an empty third give 40 links |
| Crawler.LinksAreDetailLinks | internal/crawler/crawler.go:44-62 | every collected link is a detail-page URL |
| Crawler.CacheKey | internal/crawler/crawler.go:109-110 | the key is the suffix of the link after its last `/`, and holds no `/` |
| Crawler.CacheKeyAfterSlash | internal/crawler/crawler.go:109-110 | the key of `prefix/tail` is `tail` when `tail` has no `/` |
| Crawler.CacheKeyOfDetailLink | internal/crawler/crawler.go:109-110 | for a detail link the key is the anchor text, provided it has no `/` |
| Crawler.UnmarshalMarshal | internal/crawler/crawler.go:177-182 | a marshalled record decodes to itself |
| Crawler.ApplyCallbacks | internal/crawler/crawler.go:121-148 | replaying the selector callbacks in registration order gives the record in which the last matching rule of each field wins |
| Crawler.CollectVersions | internal/crawler/crawler.go:166-172 | the versions are the extractions of the cells containing `*cpe`, concatenated in document order |
| Crawler.CellVersionsStartWithVersions | internal/crawler/crawler.go:166-172 | every collected version starts with `versions` |
| Crawler.OnScraped | internal/crawler/crawler.go:150-175 | a GET error or a status other than 200 terminates with that error; an unparsable document leaves the record as it was; otherwise it sets the name to the query and the versions to the collected ones |
| Crawler.ScrapedRecordOutcomes | internal/crawler/crawler.go:119-177 | a missing page gives the empty record; otherwise the scrape terminates exactly on a GET error or a non-200 status, and on success it gives the selector fields, plus the query name and collected versions when the document parses |
| Crawler.CacheHit | internal/crawler/crawler.go:110-117 | a hit returns the decoded cached record with no page visit and no cache write, whatever the query |
| Crawler.CacheMiss | internal/crawler/crawler.go:106-185 | a miss or an unreachable cache scrapes the page; only the link's key may change; a completed scrape on a reachable cache stores a decodable copy with a 72-hour TTL; a terminated one writes nothing |
| Crawler.ScrapeAgain | internal/crawler/crawler.go:106-186 | scraping a link again after a completed scrape returns the same record from the cache with no visit |
| Crawler.Crawler.ScrapeVulnerabilityDetails | internal/crawler/crawler.go:106-186 | the returned record, the page visits and the new cache are those of the scrape specification |
| Crawler.AbortIsFinal | internal/crawler/crawler.go:151-158 | once a scrape terminates, the links after it change nothing |
| Crawler.OneRecordPerLink | internal/crawler/crawler.go:81-103 | a completed run gives one record per link |
| Crawler.OnlyLinkKeysChange | internal/crawler/crawler.go:181 | only the keys of the scraped links can change in the cache |
| Crawler.CacheIsTransparent | internal/crawler/crawler.go:106-186 | with none of the links cached and distinct keys, the records are those scraped fresh |
| Crawler.Crawler.ExtractVulnerabilitiesDetails | internal/crawler/crawler.go:71-104 | the records, the visits and the new cache are those of scraping the links one after the other |
| Advisor.IsVersionInRange | internal/advisor/advisor.go:151-166 | `true` exactly when version and range parse and the version satisfies the range; an error exactly when one of them does not parse |
| Advisor.Report | internal/advisor/advisor.go:26-47 | the report has exactly the requested package names as keys |
| Advisor.FetchVulnerabilityOfSpecificPackage | internal/advisor/advisor.go:49-149 | any failure of the request gives no record; otherwise the loop gives the record of each kept node in node order, its fields copied and its CVE number from the identifier loop |
| Advisor.FetchVulnerabilitiesFromGithub | internal/advisor/advisor.go:26-47 | the map has exactly the requested names as keys, each mapped to that package's list |
| Advisor.LastCveIdMeaning | internal/advisor/advisor.go:137-141 | the CVE number is the value of the last `CVE` identifier, and empty when there is none |
| Advisor.KeptConcat | internal/advisor/advisor.go:117-146 | the records of consecutive node lists are the records of each list, in order |
| Advisor.KeptSingle | internal/advisor/advisor.go:118-144 | one node gives its record exactly when it is about the package and in range |
| Advisor.KeptAreRelevant | internal/advisor/advisor.go:118-124 | at most one record per node; every record names the requested package and has a range the version satisfies |
| Advisor.UnparsableVersionKeepsNothing | internal/advisor/advisor.go:119-124 | a version that does not parse drops every node |
| Handlers.BuildPackages | internal/handlers/handlers.go:37-43 | the loop builds the map of the complete matches |
| Handlers.LastVersionWins | internal/handlers/handlers.go:37-43 | the names are those of the complete matches, and each keeps the version of its last match |
| Handlers.StoredVersionsAreTriples | internal/handlers/handlers.go:33-41 | when every version group is `x.y.z` digits, every stored version is, and none keeps the leading `v` |
| Handlers.TitleText | internal/handlers/handlers.go:96-101 | at six or more words, the title is the first six words separated by single spaces, followed by ` ...` |
| Handlers.TitleRule | internal/handlers/handlers.go:96-101 | fewer than six words keep the summary as it is; at six or more, the words of the title are exactly the first six words of the summary and `...`, even when the summary has exactly six |
| Handlers.PackageRowAt | internal/handlers/handlers.go:94-104 | row i of a package is its i-th finding, numbered on from the start, with the map key in the package column and the CVE number, severity, ranges and title of the finding |
| Handlers.AppendPackageRows | internal/handlers/handlers.go:94-104 | the inner loop appends the package's rows and keeps the counter one past the row count |
| Handlers.RenderTableResult | internal/handlers/handlers.go:53-110 | the rows are those of the packages in the order the map is visited, each package once; the total is the row count plus one |
| Handlers.RowsNumbered | internal/handlers/handlers.go:91-104 | rows are numbered 1, 2, 3, ...; the row count is the sum of the list lengths |
| Handlers.RowsFollowLists | internal/handlers/handlers.go:93-102 | the rows of each package follow its list, carry the map key, and come right after the packages visited before it |
| Handlers.FooterTotal | internal/handlers/handlers.go:91-106 | the footer total is the number of findings plus one |
| Handlers.VulnerabilityHandler | internal/handlers/handlers.go:30-51 | status 200 and the table of the report on the packages named in the body |
| Nvd.ToProto | internal/nvd/nvd.go:52-61 | the message carries the record's eight fields unchanged |
| Nvd.Protos | internal/nvd/nvd.go:50-62 | one message per record, in order, each a copy of its record |
| Nvd.BuildResponse | internal/nvd/nvd.go:50-62 | the loop builds the messages of the records |
| Nvd.Server.FetchVulnerabilities | internal/nvd/nvd.go:28-67 | the links are those of the pagination; the reply, the cache and the visits are those of the request specification |
| Nvd.NoMatchIffNoLinks | internal/nvd/nvd.go:36-40 | the request fails with the no-match error exactly when there is no link, and then nothing is scraped and the cache is untouched |
| Nvd.AnswerCopiesRecords | internal/nvd/nvd.go:42-66 | with links, the request terminates exactly when the scrape does; otherwise it succeeds with one copied message per link, in order, and the record list is never empty, so the `Failed to extract` branch is unreachable |

## Left out

- Concurrency: the goroutines, the 10-slot semaphore, the wait group and
  the channel of `ExtractVulnerabilitiesDetails`, and the mutex fan-out of
  `FetchVulnerabilitiesFromGithub`, are left out. The model runs the
  work sequentially, in link order and in an unspecified key order. The
  order in which channel results arrive is therefore not captured.
- HTTP, colly, goquery and CSS selector matching are abstracted as the
  `Web` oracle, and the GitHub GraphQL request as the `Api` oracle. Query
  marshalling is modelled only through its failure.
- The regular expression of the handler is not modelled. The handler
  starts from the submatches. `StoredVersionsAreTriples` takes the shape of
  the version group as its hypothesis.
- The semantic-versioning library is an uninterpreted predicate, and
  `time.Time.String()` is the text it renders.
- The go-pretty table writer, styles and rendering are left out. The
  handler yields the rows and the footer total, not the rendered text.
- `log.Fatal` ends the process. Here it is the `Terminated` outcome, and
  the callers stop there.
- `handlePanic` and `recover`, which turn a panic into an empty reply, are
  left out.
- Logging is left out.
- `cmd/main.go` is left out, including its copy of the request handler.
  So are the routers, configuration and the Redis and logger constructors.
- `Crawler.Unmarshal`: this stand-in for `encoding/json` reads only the
  layout `Marshal` writes, and any other text decodes to the empty record.
  Go would instead keep the fields it decoded before an error. Exact byte
  compatibility with `encoding/json` is not modelled.
- `Redis.Client`: the expiry clock is not modelled. An entry keeps its
  72-hour TTL and never expires. Any Redis error counts as a miss, and a
  failed write is ignored, as in the code. Reachability is one flag for the whole
  run, so a single `Get` or `Set` that fails while the server is otherwise
  up is not modelled; in the code such a failed `Get` is a miss and the
  page is scraped again.
- Go strings are bytes; the model's strings are sequences of characters,
  so `strings.Fields` and `strings.TrimSpace` on text that is not valid
  UTF-8 are not covered.
- `Crawler.Crawler.ExtractVulnerabilitiesLinks`: the code has no page cap.
  The model requires some page of the query to be empty; it does not
  model a search that never ends.
- `Nvd.Server.FetchVulnerabilities`: the log lines on an empty or
  non-empty record list change nothing and are left out. The
  `Failed to extract` branch cannot be reached once links were found
  (`Nvd.AnswerCopiesRecords`). In the model, a
  run that completes yields one record per link.
