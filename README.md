# metabigor netblock scrapers, modelled in Dafny

This project models `modules/netblock.go` of metabigor, the part of the
reconnaissance tool that collects the IP ranges (CIDR blocks) of an
autonomous system (ASN) or an organisation from six public sources:

- `getAsnNum` normalises an ASN identifier by dropping a leading "as" in
  any letter case;
- `IPInfo` (ipinfo.io), `ASNBgpDotNet` (bgp.he.net by ASN), `ASNSpyse`
  (spyse.com) and `OrgBgpDotNet` (bgp.he.net by organisation) scan the rows
  of a rendered HTML table: trim the row text, split it on the two-space
  separator, skip rows that mention a source-specific header word, and
  append a trimmed field to the result;
- `IPv4Info` (ipv4info.com) collects the "/org/" links of a search page,
  removes duplicates in first-seen order, fetches each organisation page
  and appends the text of every cell with the exact CIDR style and class,
  returning early when a page fails to parse;
- `ASNLookup` (asnlookup.com) decodes a JSON array of strings; an empty
  or malformed body gives nothing, and a body of the wrong JSON shape gives
  whatever the decoder had put into the result slice.

The files:

- `wrappers.dfy`: `Option`.
- `go_strings.dfy` (module `GoStrings`): the Go `strings` functions the
  scrapers call (`Index`, `Contains`, `HasPrefix`, `ToLower`, `TrimSpace`,
  `Split`, and `Join` to state what `Split` promises), with their
  properties as lemmas.
- `collections.dfy` (module `Collections`): `Collect`, the filter-and-map
  that an `Each` callback appending to a slice computes, and `Uniq`, the
  order-preserving duplicate removal of `funk.Uniq`.
- `netblock.dfy` (module `Netblock`): the normaliser, the URL templates,
  the row rules of each source, the scraping loops as methods proved equal
  to specification functions, and the properties of those functions.

The fetchers, the HTML parser and the JSON decoder are parameters.
`render(url, waitFor)` stands for `core.RequestWithChrome` and `get(url)`
for `core.SendGET`. `parse(body)` returns the parsed `Document`, or `None`
when goquery fails. A `Document` lists the text of every `tr`, the `href` of
every `a` (`None` when absent) and every `td` with its `style` and `class`
("" when absent). `decode(body)` stands for `json.Unmarshal`. `IPv4Info`
also returns the URLs it fetched, in order, so that "each link is fetched
once, in order" can be stated.

Three behaviours of the code differ from what a caller would expect, and
the model follows the code:

- The header word is tested on the whole row text by `IPInfo` (line 34) and
  `OrgBgpDotNet` (line 163), but only on the trimmed first field by
  `ASNBgpDotNet` (line 113) and `ASNSpyse` (line 137). A data row whose
  description mentions "Prefix" is therefore still emitted (`BgpRowOfLayout`).
- Callers rely on every scraper failing open (returning an empty list on
  any failure), but `ASNSpyse` reads
  `data[len(data)-2]` (line 138). A row that is not skipped and has a single
  field therefore makes Go panic with an index out of range, and nothing is
  returned. The model makes this an explicit outcome, `IndexOutOfRange(row)`
  (`SpyseScanCharacterized`, `SpyseSingleFieldRowPanics`).
- On a rejected JSON body `ASNLookup` returns the slice that `json.Unmarshal`
  was filling (line 187), not a fresh empty one. `json.Unmarshal` checks
  the whole body before writing, so after a syntax error that slice is
  empty (`SyntaxError`, `ASNLookupFailsOpen`). After a type mismatch it may
  not be, and the model returns the decoder's partial result
  (`TypeMismatch(partial)`).

## Model

| member | source | states |
|---|---|---|
| Netblock.AsnNum | modules/netblock.go:13-18 | the identifier loses its first two characters exactly when they are "a" or "A" followed by "s" or "S"; otherwise it is returned unchanged |
| Netblock.AsPrefixIff | modules/netblock.go:14 | the lower-cased identifier starts with "as" if and only if its first two characters are a/A and s/S |
| Netblock.AsnNumDropsAsPrefix | modules/netblock.go:13-18 | any casing of "as" in front of a text is removed, leaving exactly that text |
| Netblock.AsnNumExamples | modules/netblock.go:13-18 | "AS12345" gives "12345", "as999" gives "999", "12345" is unchanged, and "ASAS1" gives "AS1", so normalising twice differs from normalising once |
| Netblock.AsnUrlsIgnoreAsPrefix | modules/netblock.go:22-23 | "AS"+n, "as"+n and n make the ipinfo.io, ipv4info.com, bgp.he.net and spyse.com adapters build the same URL (the templates of lines 23, 50, 101 and 125), as long as n does not itself start with an "as" |
| Netblock.IPInfoUrl | modules/netblock.go:23 | the URL is "https://ipinfo.io/AS" followed by the normalised number, which can be read back from it |
| Netblock.IPv4InfoSearchUrl | modules/netblock.go:50 | the URL is "http://ipv4info.com/?act=check&ip=AS" followed by the normalised number |
| Netblock.IPv4InfoPageUrl | modules/netblock.go:75 | the URL is "http://ipv4info.com" followed by the link, unchanged |
| Netblock.BgpAsnUrl | modules/netblock.go:101 | the URL is "https://bgp.he.net/AS", the normalised number and "#_prefixes" |
| Netblock.SpyseUrl | modules/netblock.go:125 | the URL is "https://spyse.com/target/as/", the normalised number, the fragment "#c-domain__anchor--3--" and the number again |
| Netblock.BgpOrgUrl | modules/netblock.go:152 | the URL is the bgp.he.net search prefix, the organisation unescaped and "&commit=Search" |
| Netblock.AsnLookupUrl | modules/netblock.go:178 | the URL is "http://asnlookup.com/api/lookup?org=" followed by the organisation, unescaped |
| Netblock.PageUrlInjective | modules/netblock.go:75 | two links give the same organisation-page URL only if they are equal |
| Netblock.FirstFieldIsPrefixUpToSeparator | modules/netblock.go:35 | `data[0]` is the prefix of the trimmed row up to its first two-space separator: no separator starts inside it, and one starts right after it unless it is the whole text |
| Netblock.TrimmedPieceIsField | modules/netblock.go:36 | trimming a piece without separator gives a trimmed text without separator |
| Netblock.TrimmedFirstFieldIsField | modules/netblock.go:35-36 | the trimmed first field of any row is a single trimmed field |
| Netblock.FirstFieldOfRow | modules/netblock.go:35-36 | a row laid out as field, two spaces and a description is unchanged by trimming, and its first field is that field |
| Netblock.IPInfoRow | modules/netblock.go:34-36 | a row is skipped if and only if its whole text mentions "Netblock"; otherwise it gives a single trimmed field |
| Netblock.IPInfo | modules/netblock.go:21-45 | the loop returns `IPInfoResult`: nothing when the page does not parse, otherwise the scan of all rows in document order |
| Netblock.IPInfoEmitsRowsWithoutNetblock | modules/netblock.go:34-40 | a value is emitted if and only if some row whose full text lacks "Netblock" has it as its trimmed first field |
| Netblock.IPInfoCidrsAreFields | modules/netblock.go:35-36 | every emitted value is a trimmed single field |
| Netblock.IPInfoRowOfLayout | modules/netblock.go:34-40 | a laid-out row yields its field, unless its whole text mentions "Netblock" |
| Netblock.BgpPrefixRow | modules/netblock.go:111-113 | a row is skipped if and only if its trimmed first field mentions "Prefix"; otherwise it gives that field, a single trimmed field without "Prefix" |
| Netblock.ASNBgpDotNet | modules/netblock.go:99-120 | the loop returns `BgpAsnResult`: nothing when the page does not parse, otherwise the scan of all rows in order |
| Netblock.BgpEmitsRowsByFirstField | modules/netblock.go:111-116 | a value is emitted if and only if it is some row's trimmed first field and does not mention "Prefix" |
| Netblock.BgpCidrsAreFields | modules/netblock.go:111-112 | every emitted value is a trimmed single field |
| Netblock.BgpRowOfLayout | modules/netblock.go:111-116 | only the first field is tested: a laid-out row yields its field unless that field mentions "Prefix", whatever the description says |
| Netblock.SpyseRow | modules/netblock.go:135-138 | a row is skipped if and only if its trimmed first field mentions "CIDR"; a row that emits gives a single trimmed field without "CIDR"; otherwise it panics |
| Netblock.SpyseScan | modules/netblock.go:134-143 | a panic is reported at a row of the table; a return gives at most one value per row, each a single trimmed field without "CIDR" |
| Netblock.SpyseScanReturns | modules/netblock.go:134-143 | without a panicking row the scan returns the trimmed first field of every row whose field lacks "CIDR", in order |
| Netblock.SpyseScanPanics | modules/netblock.go:137-138 | any panicking row makes the whole scan panic |
| Netblock.SpyseScanPanicRow | modules/netblock.go:134-143 | a panic is reported at a panicking row, and no earlier row panics |
| Netblock.SpyseScanCharacterized | modules/netblock.go:134-143 | the scan panics if and only if some row panics, then at the first such row; otherwise it returns the emitted fields in order |
| Netblock.SpyseRowCidr | modules/netblock.go:135-141 | a row that is skipped emits nothing, and a row that is kept emits its trimmed first field |
| Netblock.SpyseRowPanicsIff | modules/netblock.go:135-138 | a row panics if and only if its trimmed first field lacks "CIDR" and its trimmed text has no separator |
| Netblock.SpyseSingleFieldRowPanics | modules/netblock.go:138 | after a good row, a single-field row without "CIDR" ends the scan with a panic at that row, losing the earlier result |
| Netblock.SpyseRowOfLayout | modules/netblock.go:135-141 | a laid-out row yields its field unless that field mentions "CIDR" |
| Netblock.SpyseScanStopsAt | modules/netblock.go:134-143 | a panic at row i after rows that did not panic is the outcome of the whole scan |
| Netblock.SpyseScanExtend | modules/netblock.go:134-143 | one more row after a clean prefix adds nothing, adds its field, or ends the scan with a panic at that row |
| Netblock.ASNSpyse | modules/netblock.go:123-145 | the loop returns `SpyseResult`, including the panic outcome at the first row that is not skipped and has a single field |
| Netblock.OrgRow | modules/netblock.go:163-166 | a row is skipped if and only if its whole text mentions "Result" or "Description"; otherwise it gives a single trimmed field on one line |
| Netblock.FirstLineIsField | modules/netblock.go:164-166 | the trimmed first line of a row's first field is a single trimmed field without a newline |
| Netblock.OrgBgpDotNet | modules/netblock.go:150-173 | the loop returns `OrgResult`: nothing when the page does not parse, otherwise the scan of all rows in order |
| Netblock.OrgEmitsRowsWithoutSentinels | modules/netblock.go:163-169 | a value is emitted if and only if some row mentioning neither "Result" nor "Description" has it as the trimmed first line of its first field |
| Netblock.OrgCidrsAreSingleLineFields | modules/netblock.go:164-166 | every emitted value is a trimmed single field without a newline |
| Netblock.OrgRowOfLayout | modules/netblock.go:163-166 | a one-line laid-out row yields its field unless its whole text mentions "Result" or "Description" |
| Netblock.OrgLink | modules/netblock.go:63-65 | an anchor is kept if and only if it has an href that starts with "/org/", and then that href is kept unchanged |
| Netblock.BoldCell | modules/netblock.go:85-88 | a cell is selected if and only if its style is exactly "padding: 0 0 0 0;" and its class exactly "bold", and then its text is the value |
| Netblock.Traverse | modules/netblock.go:73-93 | the crawl makes at most one request per link, and always fetches the first link's page first |
| Netblock.CollectOrgHrefs | modules/netblock.go:62-69 | the anchor loop returns the hrefs that start with "/org/", in document order, and skips anchors without an href |
| Netblock.AppendBoldCells | modules/netblock.go:84-92 | the cell loop appends to the result the text of every cell with the exact style and class, in order |
| Netblock.TraverseAppend | modules/netblock.go:73-93 | when every page of the first links parses, crawling two lists of links in a row is crawling each and concatenating results and requests |
| Netblock.CrawlOrgPages | modules/netblock.go:73-93 | the link loop returns the result and the requests of `Traverse`, the crawl that stops at the first page that does not parse |
| Netblock.CrawlPageParses | modules/netblock.go:76-92 | a page that parses adds one request and its selected cells to the crawl so far |
| Netblock.CrawlPageFails | modules/netblock.go:79-83 | a page that does not parse ends the crawl with that request, and the result is what the earlier pages gave |
| Netblock.IPv4Info | modules/netblock.go:48-96 | the adapter returns `IPv4InfoResult`: only the search URL when the search page does not parse, otherwise the crawl of its distinct "/org/" links |
| Netblock.TraverseRequests | modules/netblock.go:73-83 | the crawl fetches a prefix of the links, in order, one URL per link; it moves on only after a page parsed and stops early only at a page that did not; with every page parsing, all links are fetched |
| Netblock.TraverseRequestsInOrder | modules/netblock.go:73-77 | the i-th request is "http://ipv4info.com" followed by the i-th link |
| Netblock.TraverseRequestsStop | modules/netblock.go:77-83 | every page requested before the last one parsed, and a crawl that requests fewer pages than there are links ends at a page that did not parse |
| Netblock.TraverseRequestsAll | modules/netblock.go:73-93 | when every page parses, every link is requested |
| Netblock.TraverseStopsAtFailure | modules/netblock.go:79-83 | after a page that does not parse, later pages contribute nothing and are not fetched |
| Netblock.OrgLinksAreDistinctOrgHrefs | modules/netblock.go:62-72 | the links to crawl have no duplicates and are exactly the "/org/" hrefs of the page |
| Netblock.IPv4InfoFetchesEachLinkOnce | modules/netblock.go:72-77 | after the search URL, the requests are "http://ipv4info.com" + link for the distinct links in first-seen order, none fetched twice, all fetched when every page parses |
| Netblock.TraverseRequestsDistinct | modules/netblock.go:72-77 | distinct links are fetched as distinct URLs |
| Netblock.OrgLinksOfRepeatedAnchor | modules/netblock.go:62-72 | anchors l1, l1, l2 give the links l1, l2 |
| Netblock.TraverseTwoPages | modules/netblock.go:73-93 | two pages that parse are fetched in order and their cells concatenated |
| Netblock.IPv4InfoRepeatedLinkFetchedOnce | modules/netblock.go:48-93 | a search page linking l1, l1, l2 causes exactly the search request and one request each for l1 and l2, and returns the cells of both pages in order |
| Netblock.BoldCellExamples | modules/netblock.go:85-87 | a cell is selected only with style exactly "padding: 0 0 0 0;" and class exactly "bold"; a missing attribute ("") or a longer value is not |
| Netblock.ASNLookup | modules/netblock.go:176-194 | an empty body or a malformed body gives nothing; a well-formed array gives its items; a body of the wrong JSON shape gives what the decoder left in the slice |
| Netblock.ASNLookupFailsOpen | modules/netblock.go:180-188 | an empty or malformed body gives an empty result, never an error, and a non-empty result comes only from a well-formed body |
| Netblock.EmptyResponsesYieldNothing | modules/netblock.go:26-184 | when every fetch returns "" (the fetch and early return of lines 26-30, 54-58, 104-108, 128-132, 155-159 and 180-184), all six adapters return no CIDR and none panics, whether "" fails to parse or parses to an empty page |
| GoStrings.IndexFromSpec | modules/netblock.go:34 | the search from position i returns the first occurrence at or after i, and -1 only when there is none |
| GoStrings.IndexSpec | modules/netblock.go:34 | `strings.Index` is -1 if and only if the text holds no occurrence, and otherwise the first one |
| GoStrings.ContainsIff | modules/netblock.go:34 | `strings.Contains` holds if and only if the text occurs somewhere |
| GoStrings.ContainsTransitive | modules/netblock.go:35-36 | what an infix contains, the whole text contains; used to show that the trimmed fields of lines 35-36 and 164-166 hold no separator |
| GoStrings.TrimLeftSpec | modules/netblock.go:35 | the leading trim keeps a suffix, removes only white space, and leaves no white space in front |
| GoStrings.TrimRightSpec | modules/netblock.go:35 | the trailing trim keeps a prefix, removes only white space, and leaves no white space at the end |
| GoStrings.TrimSpaceSpec | modules/netblock.go:35 | `strings.TrimSpace` keeps the infix between the leading and trailing white space, which neither starts nor ends with white space |
| GoStrings.TrimSpaceOfTrimmed | modules/netblock.go:36 | text without white space at either end is unchanged by trimming |
| GoStrings.TrimSpaceIdempotent | modules/netblock.go:36 | trimming twice is trimming once |
| GoStrings.Split | modules/netblock.go:35 | with a non-empty separator there is at least one piece, so `data[0]` always exists |
| GoStrings.SplitJoin | modules/netblock.go:35 | joining the pieces with the separator gives back the text |
| GoStrings.SplitPiecesHaveNoSeparator | modules/netblock.go:35 | no piece contains the separator |
| GoStrings.SplitFirstPiece | modules/netblock.go:35 | the first piece is the text up to the first separator, or the whole text when there is none |
| GoStrings.SplitRest | modules/netblock.go:111 | when the separator occurs, the pieces after the first are the split of the text after its first occurrence, so every piece is fixed by the leftmost occurrences |
| GoStrings.SplitSingleIff | modules/netblock.go:138 | there is a single piece if and only if the separator does not occur |
| Collections.CollectAppend | modules/netblock.go:32-43 | scanning two lists of elements one after the other is scanning their concatenation |
| Collections.CollectKept | modules/netblock.go:32-43 | the k-th appended value comes from the k-th kept element |
| Collections.KeptIndicesIncreasing | modules/netblock.go:32-43 | the kept elements are listed in document order |
| Collections.KeptIndicesComplete | modules/netblock.go:32-43 | every element the callback keeps is listed |
| Collections.CollectIndexed | modules/netblock.go:32-43 | one appended value per kept element, in document order, and no kept element left out |
| Collections.CollectMember | modules/netblock.go:32-43 | a value is appended if and only if some element yields it |
| Collections.FirstIndex | modules/netblock.go:72 | the position of the first occurrence of a value |
| Collections.Uniq | modules/netblock.go:72 | the result is no longer than the input and holds only values of the input |
| Collections.UniqSpec | modules/netblock.go:72 | `funk.Uniq` keeps exactly the values of its input, each once, ordered by first occurrence |
| Collections.UniqMembers | modules/netblock.go:72 | every value of the input is kept |
| Collections.UniqNoDuplicates | modules/netblock.go:72 | no value is kept twice |
| Collections.UniqOrdered | modules/netblock.go:72 | the kept values are ordered by their first occurrence in the input |
| Collections.UniqOfDistinct | modules/netblock.go:72 | a list without duplicates is left unchanged |
| Collections.UniqRepeatedFirst | modules/netblock.go:72 | in a, a, b the repetition is dropped and b kept |

## Left out

- Fetching: `core.RequestWithChrome` and `core.SendGET` (lines 26, 54, 77, 104, 128, 155, 180) are network I/O; their bodies are the parameters `render` and `get`, and a failed fetch is the body "".
- HTML parsing: goquery, `doc.Find("tr"/"a"/"td")` and `s.Text()` are a foreign parser; a page is given as the `Document` of row texts, hrefs and cells, and a parse failure as `None`.
- JSON decoding: `json.Unmarshal` is a library call; it is the parameter `decode`, which tells a well-formed array, a syntax error and a type mismatch apart. Nothing is stated about what it leaves in the slice on a type mismatch.
- `funk.Uniq` is specified as order-preserving duplicate removal (`Uniq`), not by its reflection-based code.
- Logging: `core.InforF` and the `desc`/`realDesc` values computed only for it (lines 37, 114, 138-139, 167) have no effect on results and are left out. Reading `data[len(data)-2]` at line 138 is kept, because it can panic.
- Line 33, `s.Find("address").First()`, has no effect and is left out.
- `core.Options`: only `Net.Asn` and `Net.Org` are used, and they are passed as the strings `asn` and `org`.
- The loop of lines 190-192 only logs and is left out.
- Go strings are byte sequences; here they are sequences of code points. All separators and keywords are ASCII, so on valid UTF-8 the two agree. Byte-level behaviour on invalid UTF-8 is not modelled.
- GoStrings.ToLower: lower-cases ASCII letters only, not all of Unicode. No other character lower-cases to "a" or "s", so the "as" test of line 14 is unaffected.
- GoStrings.Split: an empty separator is modelled as one piece per character; the scrapers only split on "  " and "\n".
- Concurrency and panics other than the index panic of line 138 do not arise in this code and are not modelled.
