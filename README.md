# LawScraper spiders in Dafny

LawScraper is two Scrapy spiders that walk Australian court websites and
yield case documents with their metadata. Each spider is a chain of stage
callbacks. A callback receives one fetched page and the metadata dict
carried on the request that fetched it (`response.meta`). It yields further
requests carrying a new metadata dict, or finished items.

- `austlii` walks database listing -> database -> year -> case. Its year
  stage emits an item at once for a link ending in `.pdf`, with no `text`
  and the year page's own URL.
- `hcourt` walks the list of cases heard -> case page -> document. On a
  case page it yields one request per linked paragraph whose first token
  parses as a date. The request is annotated with the case name and number,
  the party named in the paragraph's first parenthesised group, the last
  link's text and that token. A binary (PDF) document becomes an item whose
  text is the pages joined by a blank line.

The model works on what each callback reads from its page: entries with an
optional href and anchor text, paragraphs with their text and anchors, and
decoded PDF pages. Each callback is modelled as a function from that input
and the request metadata to a `Yielded` value. That value holds the items
yielded in order and the exception that ended the generator, if any. Items
yielded before an exception still reach the crawl engine, so a Python
`IndexError` from an unguarded `[0]` and a `KeyError` from `response.meta[k]`
are modelled as outcomes, not as preconditions. `hcourt`'s `parse_case`
builds its requests step by step in a loop, and it is a method proved equal
to the specification function `CaseOutcome`.

Modules:

- `Wrappers`: `Option`.
- `Strings`: the Python `str` operations the spiders use, over `seq<char>`.
  These are `isspace`, `strip()`, `split()[0]`, `split(sep)`, `sep.join`,
  `replace(c, "")` and `endswith`.
- `Crawl`: the shared vocabulary: metadata maps, `Recurse`/`Emit` actions,
  error kinds, and the semantics of a generator that may raise part-way.
- `Entities`: the first match of the regular expression `\(.*?\)` and the
  dash-split party annotation.
- `Austlii` and `HCourt`: the two spiders.

Three details of the code shape what the model states:

- Only the root stage of `austlii` skips an entry without an href
  (austlii.py:25-26). The database and year stages index `[0]` unguarded,
  so such an entry raises there (austlii.py:41, 56).
- `hcourt` strips every part of the dash split, the entity class included
  (hcourt.py:63).
- The stored `date` is the first token exactly as written, not the parsed
  date (hcourt.py:53, 77).

## Model

| member | source | states |
|---|---|---|
| Strings.Strip | lawscraper/lawscraper/spiders/hcourt.py:44-45 | `strip()` removes an all-whitespace prefix and suffix and leaves no whitespace at either end |
| Strings.StripPadded | lawscraper/lawscraper/spiders/hcourt.py:63 | stripping whitespace padding around text with no whitespace at its ends gives back that text |
| Strings.FirstToken | lawscraper/lawscraper/spiders/hcourt.py:53 | `split()[0]` fails exactly on all-whitespace text; otherwise it is a non-empty, whitespace-free run preceded only by whitespace and followed by whitespace or the end |
| Strings.Delete | lawscraper/lawscraper/spiders/hcourt.py:62 | `replace(c, "")` keeps exactly the characters other than `c`, each as often as before |
| Strings.DeleteAppend | lawscraper/lawscraper/spiders/hcourt.py:62 | `replace(c, "")` on a concatenation is the concatenation of the two results, so the kept characters stay in order |
| Strings.DeleteAbsent | lawscraper/lawscraper/spiders/hcourt.py:62 | `replace(c, "")` leaves a string without `c` unchanged |
| Strings.Split | lawscraper/lawscraper/spiders/hcourt.py:63 | `split(sep)` gives at least one part, and no part contains the separator |
| Strings.SplitCount | lawscraper/lawscraper/spiders/hcourt.py:63 | `split(sep)` has one more part than there are separators in the string |
| Strings.JoinSplit | lawscraper/lawscraper/spiders/hcourt.py:63 | joining the parts of a split with the separator restores the string |
| Strings.SplitJoin | lawscraper/lawscraper/spiders/hcourt.py:63 | splitting a join of separator-free parts restores the parts |
| Strings.EndsWithConcat | lawscraper/lawscraper/spiders/austlii.py:58 | `s.endswith(suffix)` holds exactly when `s` is some text followed by `suffix` |
| Strings.JoinAppend | lawscraper/lawscraper/spiders/hcourt.py:87 | one more page adds a separator and that page to the joined text |
| Crawl.Run | lawscraper/lawscraper/spiders/hcourt.py:46-79 | a generator raises exactly when some iteration raises; it delivers at most one item per iteration, none from a raising iteration on, and only items some iteration yields (order is stated by `RunAppend` and `RunExtend`) |
| Crawl.RunAppend | lawscraper/lawscraper/spiders/hcourt.py:46-79 | running two stretches of iterations is running the first, then the second only if the first did not raise |
| Crawl.RaisedPrefix | lawscraper/lawscraper/spiders/hcourt.py:46-79 | once a generator has raised, later iterations change nothing it delivers |
| Crawl.RunFirstRaise | lawscraper/lawscraper/spiders/hcourt.py:46-79 | when iteration `i` is the first to raise, the generator delivers what the iterations before it delivered, then that iteration's error |
| Crawl.RunExtend | lawscraper/lawscraper/spiders/hcourt.py:46-79 | the outcome after one more iteration follows from the outcome so far and that iteration |
| Crawl.RunAllYield | lawscraper/lawscraper/spiders/austlii.py:40-51 | iterations that all yield deliver one item each, in order, without error |
| Crawl.RunWithoutSkip | lawscraper/lawscraper/spiders/hcourt.py:49-50 | an iteration that `continue`s can be dropped without changing the outcome |
| Crawl.ConcatAppend | lawscraper/lawscraper/spiders/hcourt.py:46-79 | a filter-map over consecutive runs is the outputs of the first run followed by those of the second |
| Crawl.FirstMissing | lawscraper/lawscraper/spiders/austlii.py:81-83 | the dict literal's lookups fail exactly when some key is absent, and the `KeyError` names the first absent key in the literal's order |
| Austlii.DatabaseStep | lawscraper/lawscraper/spiders/austlii.py:24-36 | one root-stage entry: skipped exactly when it has no href, raises exactly when it has an href but no label, and otherwise requests its resolved URL with context exactly `{database: label}` |
| Austlii.Parse | lawscraper/lawscraper/spiders/austlii.py:19-36 | the root stage raises exactly when an entry with an href has no anchor text, and delivers nothing from that entry on; every request goes to the database stage with context exactly `{database}` |
| Austlii.ParseInOrder | lawscraper/lawscraper/spiders/austlii.py:23-36 | entries without an href are skipped and every other entry gives one request `{database: label}` to its resolved URL, in document order |
| Austlii.ParseUntilRaise | lawscraper/lawscraper/spiders/austlii.py:23-36 | when entry `i` is the first with an href but no label, the root stage delivers exactly the requests of the linked entries before it, in order, then raises |
| Austlii.YearStep | lawscraper/lawscraper/spiders/austlii.py:40-51 | one database-stage entry never skips: it raises exactly when the href, the label or the inherited `database` is missing, and otherwise requests its resolved URL with context `{database, year: label}` |
| Austlii.ParseDatabase | lawscraper/lawscraper/spiders/austlii.py:38-51 | every request goes to the year stage with context exactly `{database, year}` and keeps `database` unchanged; an entry without an href raises and nothing from it on is delivered; without an inherited `database` nothing is delivered |
| Austlii.ParseDatabaseInOrder | lawscraper/lawscraper/spiders/austlii.py:40-51 | on a well-formed page, one request per entry in order, with `database` inherited and `year` the anchor text |
| Austlii.ParseDatabaseUntilRaise | lawscraper/lawscraper/spiders/austlii.py:40-51 | when entry `i` is the first without an href or a label, the database stage delivers exactly the requests of the entries before it, in order, then raises for entry `i` |
| Austlii.CaseEntryStep | lawscraper/lawscraper/spiders/austlii.py:55-74 | one year-stage entry never skips: it raises exactly when the href, the label, `database` or `year` is missing, and otherwise yields the leaf output for its resolved URL |
| Austlii.CaseEntryAct | lawscraper/lawscraper/spiders/austlii.py:58-74 | a target ending in `.pdf` gives an item with exactly `database, year, name, url`, `url` being the year page's URL; any other target gives a request to it with exactly `database, year, name` |
| Austlii.ParseYears | lawscraper/lawscraper/spiders/austlii.py:53-74 | every item has exactly `database, year, name, url` with `url` the year page's URL; every request goes to a non-`.pdf` URL with exactly `database, year, name`; both keep `database` and `year`; a missing href raises; without `database` or `year` nothing is delivered |
| Austlii.ParseYearsInOrder | lawscraper/lawscraper/spiders/austlii.py:55-74 | on a well-formed year page, one item or request per entry, in document order |
| Austlii.ParseYearsUntilRaise | lawscraper/lawscraper/spiders/austlii.py:55-74 | when entry `i` is the first without an href or a label, the year stage delivers exactly the output of the entries before it, in order, then raises for entry `i` |
| Austlii.ParseYearsLeafSplit | lawscraper/lawscraper/spiders/austlii.py:56-74 | entry `i` gives an item exactly when its resolved URL ends in `.pdf`, and otherwise a request, each with its exact fields |
| Austlii.ParseCase | lawscraper/lawscraper/spiders/austlii.py:76-85 | the case stage succeeds exactly when `database`, `year` and `name` are in the metadata; it then emits one item with `text`, the page URL and those three fields copied |
| Austlii.AncestorFieldsReachItems | lawscraper/lawscraper/spiders/austlii.py:47-83 | along any path of the crawl, `database` and `year` reach every later request and item unchanged, and the case stage finds every field it looks up |
| Entities.FirstParenGroup | lawscraper/lawscraper/spiders/hcourt.py:60 | `findall(r"\(.*?\)")[0]` is the match of the lazy pattern (no newline inside) that starts earliest, or none when there is no match |
| Entities.FirstGroupOf | lawscraper/lawscraper/spiders/hcourt.py:60 | after a prefix with no `(`, the first group is the first `(`, up to the next `)` |
| Entities.EntityParts | lawscraper/lawscraper/spiders/hcourt.py:62-63 | one part per dash plus one; every part is stripped and free of `-`, `(` and `)` |
| Entities.PartsOfGroup | lawscraper/lawscraper/spiders/hcourt.py:62-63 | for any match whose inside is segments joined by `-`, further `(` included, the split gives one part per segment: that segment with every `(` removed, stripped |
| Entities.DeleteJoin | lawscraper/lawscraper/spiders/hcourt.py:62 | removing `(` from the dash-joined inside removes it from each segment |
| Entities.BareGroup | lawscraper/lawscraper/spiders/hcourt.py:62 | removing both parentheses from a match leaves its inside without any `(` |
| Entities.ExtractEntity | lawscraper/lawscraper/spiders/hcourt.py:58-66 | no group gives two empty fields; both fields are stripped and delimiter-free; a class is present only when the group holds a dash |
| Entities.EntityFromSegments | lawscraper/lawscraper/spiders/hcourt.py:62-66 | for a group whose inside is segments joined by `-`, the name is the last segment and the class the first, only when there are two or more segments, each with `(` removed and stripped |
| Entities.EntityOfText | lawscraper/lawscraper/spiders/hcourt.py:58-66 | the annotation of any text whose first group is given segments joined by `-`, inner `(` included |
| Entities.ClassAndName | lawscraper/lawscraper/spiders/hcourt.py:64-66 | `(class - name)` gives that class and that name |
| Entities.NameOnly | lawscraper/lawscraper/spiders/hcourt.py:64-66 | `(name)` gives that name and an empty class |
| Entities.MiddleSegmentDropped | lawscraper/lawscraper/spiders/hcourt.py:63-66 | `(first - middle - last)` gives class `first` and name `last`; the middle segment is lost |
| Entities.StrayOpenDropped | lawscraper/lawscraper/spiders/hcourt.py:60-66 | `((class - name)` gives that class and that name: the stray `(` is removed |
| Entities.NoGroupNoEntity | lawscraper/lawscraper/spiders/hcourt.py:58-61 | text without `(` gives two empty fields |
| HCourt.Parse | lawscraper/lawscraper/spiders/hcourt.py:27-37 | one request per case link, in table order, to its resolved URL, with empty metadata |
| HCourt.DocumentMeta | lawscraper/lawscraper/spiders/hcourt.py:71-78 | the request metadata has exactly the six document fields, each holding the given value |
| HCourt.RequestFor | lawscraper/lawscraper/spiders/hcourt.py:51-79 | a paragraph's request goes to the last anchor's resolved href with exactly the six fields: the case name and number, the last anchor's text, the first whitespace-free token as written, and the paragraph's annotation |
| HCourt.ParagraphStep | lawscraper/lawscraper/spiders/hcourt.py:47-79 | one paragraph's iteration yields exactly when it qualifies (linked, dated), and then the request for its last link; it raises exactly when it is linked but its last link has no href or its text has no token |
| HCourt.CaseOutcome | lawscraper/lawscraper/spiders/hcourt.py:39-79 | a case page delivers requests only when its region, name and number exist; each request is the one for a qualifying paragraph with the stripped case name and number; a paragraph that raises ends the output before its position |
| HCourt.ParseCase | lawscraper/lawscraper/spiders/hcourt.py:39-79 | the paragraph loop, with its `continue`s and early failures, delivers exactly `CaseOutcome` |
| HCourt.CaseInOrder | lawscraper/lawscraper/spiders/hcourt.py:46-79 | on a page where no paragraph raises, the requests are exactly one per qualifying paragraph, in paragraph order |
| HCourt.CaseUntilRaise | lawscraper/lawscraper/spiders/hcourt.py:46-79 | when paragraph `i` is the first to raise, the requests are exactly those of the qualifying paragraphs before it, in order, followed by a missing-href or missing-token error |
| HCourt.DocumentsAppend | lawscraper/lawscraper/spiders/hcourt.py:46 | the requests of consecutive paragraphs follow one another |
| HCourt.DocumentsAtMostOne | lawscraper/lawscraper/spiders/hcourt.py:46-79 | there are at most as many requests as paragraphs |
| HCourt.SkippedParagraphIgnored | lawscraper/lawscraper/spiders/hcourt.py:49-57 | leaving out a paragraph whose iteration `continue`s changes nothing the case page delivers |
| HCourt.UnlinkedParagraphIgnored | lawscraper/lawscraper/spiders/hcourt.py:48-50 | a paragraph without `<a>` yields nothing: leaving it out changes nothing |
| HCourt.UndatedParagraphIgnored | lawscraper/lawscraper/spiders/hcourt.py:53-57 | a paragraph whose first token fails the date parser yields nothing: leaving it out changes nothing |
| HCourt.RequestFields | lawscraper/lawscraper/spiders/hcourt.py:51-79 | a request carries exactly the six fields; URL and `documentName` come from the last anchor; `date` is the first token verbatim and passed the date test; the entity fields are the paragraph's annotation |
| HCourt.UngroupedParagraphNoEntity | lawscraper/lawscraper/spiders/hcourt.py:58-61 | a paragraph without a group yields empty `entityName` and `entityClass` |
| HCourt.ParseDocument | lawscraper/lawscraper/spiders/hcourt.py:81-97 | markup yields nothing; an undecodable PDF raises; a decoded PDF yields one item with the joined pages, the URL and the six request fields, unless a field is missing |
| HCourt.ThreePages | lawscraper/lawscraper/spiders/hcourt.py:87 | pages `a`, `b`, `c` give `a + "\n\n" + b + "\n\n" + c` |
| HCourt.JoinedPageAt | lawscraper/lawscraper/spiders/hcourt.py:87 | every page appears whole in the joined text at its offset, followed by the separator unless it is the last |
| HCourt.DocumentCopiesRequest | lawscraper/lawscraper/spiders/hcourt.py:88-97 | a request's six fields reach the item of its decoded PDF unchanged; the item's `url` is the response's own URL |
| HCourt.RequestReachesItem | lawscraper/lawscraper/spiders/hcourt.py:72-97 | an item reached from a case page carries that page's stripped name and number and the request's annotation, and the document response's own URL |

## Left out

- `response.urljoin` (reference resolution, section 5.2 of RFC 3986) is a function parameter `Resolver`. Whether resolved URLs are absolute is therefore not stated.
- `dateutil.parser.parse` is a predicate parameter `isDate`: whether a token parses as a date.
- XPath selection and `string(.)` flattening are not modelled. Their results are the inputs: entries, paragraphs, headings and article text.
- A response's URL (`response.url`) is a parameter of each callback and is not derived from the request's URL. After a redirect the two differ, and the model states items' `url` in terms of the response.
- Fetching, Scrapy scheduling, `dont_filter`, `start_urls`, `allowed_domains` and the spider names belong to the crawl engine and are not modelled.
- PDF decoding by `pdftotext` is not modelled. A decoded document is its `seq<string>` pages, and a decoder failure is `Pdf(None)`.
- `isinstance(response, TextResponse)` is the choice between `Markup` and `Pdf` bodies.
- The `html2markdown` import in `austlii.py` is unused and not modelled.
- `extract()` returns a list for `text` in `austlii`'s case stage (austlii.py:80) and for `documentName` (hcourt.py:67). The model keeps one string in each.
- Scrapy adds its own keys to `response.meta`. The callbacks only look up their own keys and build fresh dicts, so only those keys are modelled.
- Exceptions other than the ones listed in `Crawl.Error` are not modelled. This includes selector errors and a non-string href.
