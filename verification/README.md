# rss-sandvox, modelled in Dafny

rss-sandvox turns the archive pages of a blog built with Sandvox into an RSS
feed that a newsletter platform can import. It has two scripts:

- `scraper_bs.py` reads the existing feed and seeds a new feed with its
  entries. It then walks the site's listing pages, cleans up each page and
  merges every article of the page into the feed: the entry with the same
  title is updated, a new title is added, and an article without a title,
  date or description is skipped. Finally it rewrites the links in the
  serialised feed.
- `cleanup_html.py` applies the same page clean-up to HTML files on disk. It
  writes a file back only when the clean-up changed something.

Both scripts share the clean-up. Image-like elements (`span` and `img`) get
their relative `src`, `data-img-src` and `data-img-src-hr` attributes turned
into protocol-relative links to the site. Inside each article summary, every
paragraph that holds an `img.first` is replaced by Sandvox's image wrapper:
`div.first.graphic-container.wide.center.ImageElement > div.graphic >
div.figure-content > img`.

The Dafny project has these modules:

| file | module | what it holds |
|---|---|---|
| `wrappers.dfy` | `Wrappers` | `Option` and `Result` |
| `text.dfy` | `Text` | Python's `str.startswith`, `str.replace`, `str.split`, `str.join` and `str.lstrip` |
| `posix_path.dfy` | `PosixPath` | `os.path.normpath` on POSIX |
| `invisible.dfy` | `Invisible` | `remove_invisible_chars` |
| `dates.dfy` | `Dates` | `format_date`: `strptime("%b %d, %Y")`, the proleptic Gregorian calendar and `strftime` |
| `html.dfy` | `Html` | a page as a tree of nodes, the image-link rewrite, the paragraph restructuring and `clean_up_page` as a function |
| `page.dfy` | `Cleanup` | the page as an object that `clean_up_page` updates in place, and `cleanup_html.py`'s `main` over a file map |
| `scraper.dfy` | `Scraper` | seeding the feed, and the per-article merge of `scrape_page` as a `Feed` object |
| `rss_urls.dfy` | `RssUrls` | the closing link substitutions of `scraper_bs.py`'s `main` |

## Model

| member | source | states |
|---|---|---|
| `Text.SplitOn` | scraper_bs.py:43 | splitting a text on a non-empty separator, as `normpath` splits a path on `/`, always yields at least one piece |
| `Text.ReplaceAll` | scraper_bs.py:170 | `s.replace(p, r)` is Python's `r.join(s.split(p))`: the pieces of `s` between leftmost occurrences of `p`, glued with `r` |
| `Text.LStrip` | scraper_bs.py:43 | `lstrip(chars)` returns a suffix of the text; the characters it drops are all in `chars`; the result is empty or starts with a character outside `chars` |
| `Text.ReplaceBySelf` | scraper_bs.py:170 | replacing a pattern by itself leaves the text unchanged |
| `Text.SplitJoinRoundTrip` | scraper_bs.py:170 | joining the pieces of `s.split(p)` with `p` gives back `s` |
| `Text.SplitFirstIsPrefix` | scraper_bs.py:170 | the first piece of a split is a prefix of the text |
| `Text.SplitPiecesFree` | scraper_bs.py:170 | no piece of a split contains the pattern |
| `Text.ReplaceWithoutOccurrence` | scraper_bs.py:170 | a text that does not contain the pattern is left unchanged by `replace` |
| `Text.AbsentPrefixAbsent` | scraper_bs.py:170-177 | if a text does not contain `q`, it does not contain any pattern that starts with `q` |
| `Text.ReplaceStarts` | scraper_bs.py:170-177 | a tail of a pattern `q` that the result of a replacement starts with, the text already started with, when the replacement and `q` cannot overlap |
| `Text.ReplaceLeavesNone` | scraper_bs.py:170-177 | a replacement that cannot overlap `q` leaves no occurrence of `q` behind when the text held none or `q` is the pattern replaced |
| `Text.ReplaceAfterHead` | scraper_bs.py:170-177 | a prefix holding no first character of the pattern passes through a replacement unchanged |
| `Text.ReplaceWhole` | scraper_bs.py:170-177 | a text that is exactly the pattern becomes exactly the replacement |
| `PosixPath.Resolve` | scraper_bs.py:43 | resolving `.`, `..` and empty components never lengthens the path and only keeps components it was given |
| `PosixPath.RootSlashes` | scraper_bs.py:43 | `normpath` keeps at most two leading slashes, and keeps none exactly when the path is relative |
| `PosixPath.NormPath` | scraper_bs.py:43 | `normpath` never returns the empty string (an empty path becomes `.`) |
| `PosixPath.ResolveKeepsNormal` | scraper_bs.py:43 | resolving `.`, `..` and empty components yields a normal component list: no empty or `.` components, and `..` only as a leading run of a relative path |
| `PosixPath.ResolveNormalFixpoint` | scraper_bs.py:43 | resolving components that are already normal leaves them as they are |
| `PosixPath.SplitJoinComponents` | scraper_bs.py:43 | slash-free components joined with `/` split back into the same components |
| `PosixPath.NormPathComponents` | scraper_bs.py:43 | the components of a normalised path are normal |
| `PosixPath.NormPathRelative` | scraper_bs.py:43 | a relative path stays relative after `normpath` |
| `PosixPath.NormPathOfNormal` | scraper_bs.py:43 | a path already in normal form is a fixed point of `normpath` |
| `PosixPath.NormPathIdempotent` | scraper_bs.py:43 | `normpath(normpath(p)) == normpath(p)` |
| `Invisible.RemoveInvisibleChars` | scraper_bs.py:23-30 | the result is no longer than the text, holds no character of the invisible class, and holds only characters of the text |
| `Invisible.RemoveDistributes` | scraper_bs.py:28 | removing the characters of a concatenation is the concatenation of the removals |
| `Invisible.RemoveKeepsVisible` | scraper_bs.py:28 | a text without invisible characters is returned unchanged |
| `Invisible.RemoveIdempotent` | scraper_bs.py:28 | removing twice is the same as removing once |
| `Invisible.RemoveCounts` | scraper_bs.py:25-28 | each invisible character occurs 0 times in the result, and every other character occurs as often as in the text |
| `Dates.DaysInMonth` | scraper_bs.py:18 | every month of the Gregorian calendar has 28 to 31 days |
| `Dates.Weekday` | scraper_bs.py:20 | the weekday index used by `%a` is between 0 and 6 |
| `Dates.YearLength` | scraper_bs.py:18-20 | ordinals of 1 January of consecutive years differ by 366 in a leap year and by 365 otherwise |
| `Dates.MonthLength` | scraper_bs.py:18-20 | ordinals of the first days of consecutive months differ by the length of the earlier month |
| `Dates.NextDayOrdinal` | scraper_bs.py:18-20 | the day after a valid date is valid, and its ordinal is one more |
| `Dates.NextDayWeekday` | scraper_bs.py:20 | the weekday of the next day is the following weekday, cycling from Sunday back to Monday |
| `Dates.WeekdayAnchors` | scraper_bs.py:20 | 1 January of year 1 is a Monday and 1 January 2000 is a Saturday |
| `Dates.Pad2` | scraper_bs.py:20 | `%d` prints exactly two characters |
| `Dates.Pad4` | scraper_bs.py:20 | `%Y` prints exactly four characters |
| `Dates.Display` | scraper_bs.py:20 | the display date is always 29 characters long |
| `Dates.NumberPad2` | scraper_bs.py:18-20 | reading back a two-digit rendering gives the number |
| `Dates.NumberPad4` | scraper_bs.py:18-20 | reading back a four-digit rendering gives the number |
| `Dates.MonthFound` | scraper_bs.py:18 | `%b` recognises each of the twelve month abbreviations as its own month |
| `Dates.ParseDateText` | scraper_bs.py:18 | a parsed timestamp has a month from 1 to 12, a day from 1 to 31 and a year from 0 to 9999 |
| `Dates.ParseDateTextShape` | scraper_bs.py:18 | every accepted text is a month abbreviation, whitespace, the day as `%d` reads it (two digits, or one digit below 10), a comma, whitespace and the year's four digits, with nothing before or after, and it spells the date returned |
| `Dates.SpellingParses` | scraper_bs.py:18 | conversely, every text of that shape with a day of at most 31 is accepted and gives the date it spells |
| `Dates.ParseDateTextExactly` | scraper_bs.py:18 | the parser accepts a text exactly when it has that shape and a day of at most 31, and then returns the date the text spells |
| `Dates.ParseDateTextCanonical` | scraper_bs.py:17-18 | a timestamp written `Mon D, YYYY` or `Mon DD, YYYY` parses to exactly that month, day and year |
| `Dates.FormatDate` | scraper_bs.py:16-21 | it succeeds exactly when the text is accepted by the parser (the shape `ParseDateTextExactly` states) and names a real date; the date it returns is the one the text names, and the display text is its RFC 822 form; it fails with `NoMatch` exactly when the text does not match the format |
| `Dates.FormatDateCanonical` | scraper_bs.py:16-21 | a well-formed timestamp is accepted exactly when its date exists, and then it is formatted as that date |
| `Dates.FebruaryDays` | scraper_bs.py:18 | for every year, 29 February is accepted exactly in a leap year, 28 February always, and 30 February never |
| `Dates.FormatDateExample` | scraper_bs.py:16-21 | `Mar 5, 2012` becomes `Mon, 05 Mar 2012 00:00:00 GMT` |
| `Html.RewriteRef` | scraper_bs.py:42-44 | a value is changed exactly when it is set and not absolute (`http://`, `https://` or `//`); the new value is protocol-relative to the host, so it never needs rewriting again |
| `Html.RewriteRefNormalised` | scraper_bs.py:43-44 | rewriting an already normalised relative reference gives the same link as rewriting the original |
| `Html.RewriteAttrsValues` | scraper_bs.py:40-45 | the attribute loop keeps the tag's attribute names; each listed attribute gets its rewritten value, and every other attribute keeps its value |
| `Html.RewriteTagEffect` | scraper_bs.py:39-45 | an image-like tag keeps its name, classes and attribute names; it changes exactly when one of its three source attributes needs rewriting; afterwards none does |
| `Html.RewriteAttrsClean` | scraper_bs.py:40-45 | after the attribute loop, none of the visited attributes holds a relative reference |
| `Html.RewriteAttrsUnchanged` | scraper_bs.py:40-45 | the attribute loop changes the attributes exactly when one of the visited attributes holds a relative reference |
| `Html.RewriteNode` | scraper_bs.py:38-45 | a text node is left alone; an element keeps its name, its classes and its number of children |
| `Html.RewriteNodes` | scraper_bs.py:38 | rewriting a list of nodes keeps its length |
| `Html.RewriteNodeEffect` | scraper_bs.py:38-45 | rewriting every `span` and `img` in a tree keeps the tree's shape, changes it exactly when some element needs a rewrite, and leaves nothing to rewrite |
| `Html.RewriteNodesEffect` | scraper_bs.py:38-45 | the same for a list of sibling nodes |
| `Html.FirstMatchAt` | scraper_bs.py:54 | the index returned is that of the first `img.first` in the sequence, or its length when there is none |
| `Html.FirstMatchConcat` | scraper_bs.py:54 | the first match in a concatenation is the first match in its first part, or else the first in its second part |
| `Html.PreOrder` | scraper_bs.py:54 | the document-order listing of a tree starts with its root |
| `Html.FindFirst` | scraper_bs.py:54 | what `select_one('img.first')` finds among descendants is the first `img` element with class `first` in document pre-order |
| `Html.FindFirstIn` | scraper_bs.py:54 | the same, for one node and its descendants in pre-order |
| `Html.FindFirstFinds` | scraper_bs.py:54 | the search finds something exactly when some node in the list holds an `img.first` below it |
| `Html.FindFirstInFinds` | scraper_bs.py:54 | the search below a node finds something exactly when that node holds an `img.first` |
| `Html.FindFirstRewrite` | scraper_bs.py:38-54 | the image found after the link rewrite is the rewritten version of the image found before it |
| `Html.FindFirstInRewrite` | scraper_bs.py:38-54 | the same, below one node |
| `Html.FindFirstClean` | scraper_bs.py:38-54 | in a list with nothing to rewrite, the image found has nothing to rewrite either |
| `Html.FindFirstInClean` | scraper_bs.py:38-54 | the same, below one node |
| `Html.Unmark` | scraper_bs.py:64 | dropping `class="first"` removes the classes exactly when `first` was the only class; name, attributes and children are kept |
| `Html.RestructureChild` | scraper_bs.py:54-66 | a child that is not a paragraph holding an `img.first` is kept; one that is becomes the Sandvox wrapper around its first `img.first` with `class="first"` removed; the result is never such a paragraph |
| `Html.Restructure` | scraper_bs.py:53-67 | every summary child keeps its position; a paragraph holding an `img.first` becomes the wrapper around its first `img.first` without `class="first"`, every other child is kept, no child is left such a paragraph, and the list is unchanged exactly when no child was one |
| `Html.ParagraphMatchRewrite` | scraper_bs.py:38-54 | the link rewrite neither creates nor removes a paragraph holding an `img.first` |
| `Html.RewriteImages` | scraper_bs.py:38-45 | the rewrite keeps the number of image-like elements |
| `Html.RewriteSummaries` | scraper_bs.py:38-52 | the rewrite keeps the number of articles |
| `Html.RestructureAll` | scraper_bs.py:47-67 | restructuring keeps the number of articles |
| `Html.CleanUp` | scraper_bs.py:32-68 | the page keeps its number of image-like elements and articles, and each article keeps or lacks its summary as before |
| `Html.ArticleCleanUp` | scraper_bs.py:49-67 | an article's summary is left unchanged exactly when nothing in it needs a rewrite and no child paragraph holds an `img.first` |
| `Html.CleanUpFlag` | scraper_bs.py:34-68 | the returned flag is true exactly when the clean-up changed the page |
| `Html.RestructureChildClean` | scraper_bs.py:53-67 | a restructured child with clean links stays clean and is no longer a paragraph holding an `img.first` |
| `Html.CleanUpLeavesNothing` | scraper_bs.py:32-68 | after the clean-up no link needs rewriting and no summary child is a paragraph holding an `img.first` |
| `Html.CleanUpIdempotent` | cleanup_html.py:5-41 | cleaning a cleaned page changes nothing and reports no change |
| `Cleanup.Page.constructor` | cleanup_html.py:53 | the page object holds the parsed page |
| `Cleanup.Page.CleanUp` | cleanup_html.py:5-41 | the in-place clean-up leaves the page in the state `Html.CleanUp` describes and returns its flag |
| `Cleanup.Page.RewriteImageElements` | cleanup_html.py:11-18 | the image loop updates every image-like element in place, leaves the articles alone, and reports whether any attribute was rewritten |
| `Cleanup.Page.RewriteSummaryElements` | cleanup_html.py:11-18 | the image loop's effect inside article summaries, and whether it changed any of them |
| `Cleanup.Page.RestructureSummaries` | cleanup_html.py:20-40 | the article loop replaces the matching paragraphs of every summary and reports whether it replaced any |
| `Cleanup.RewriteAttributes` | cleanup_html.py:13-18 | the inner attribute loop computes the rewritten tag and reports a change exactly when one was needed |
| `Cleanup.RestructureSummary` | cleanup_html.py:22-40 | an article without a summary is skipped; otherwise its summary is restructured, and a change is reported exactly when a child paragraph holds an `img.first` |
| `Cleanup.RestructureChildren` | cleanup_html.py:26-40 | the children loop computes the restructured list and reports a change exactly when a child paragraph holds an `img.first` |
| `Cleanup.Process` | cleanup_html.py:51-57 | the loop keeps the set of files; it completes exactly when every named file exists, and otherwise stops at a named file that is missing |
| `Cleanup.Run` | cleanup_html.py:43-57 | fewer than two arguments after the program name stop with the usage message and touch no file; otherwise the run completes exactly when every named file exists, and a missing file it stops at is one of the named files |
| `Cleanup.RunCleanup` | cleanup_html.py:43-57 | the loop over the argument files computes the result `Run` defines |
| `Cleanup.ProcessEffect` | cleanup_html.py:51-57 | the set of files is kept; files not named are unchanged; every changed file is reported as cleaned; when every file opens, every named file ends clean; the cleaned list only grows |
| `Cleanup.RunWritesOnlyCleaned` | cleanup_html.py:43-57 | a file is written only when it was named and its clean-up changed it |
| `Cleanup.ProcessClean` | cleanup_html.py:51-57 | files that are already clean are neither written nor reported |
| `Cleanup.RunTwice` | cleanup_html.py:43-57 | running the script a second time over the same files writes nothing and reports nothing |
| `Scraper.MetaOf` | scraper_bs.py:133-141 | the new feed takes the title, link and language of the existing one, and its description, or its title when the description is empty |
| `Scraper.SeedEntries` | scraper_bs.py:145-155 | one entry is seeded per entry of the existing feed |
| `Scraper.SeedIndex` | scraper_bs.py:143-155 | the title dictionary points only at seeded entries |
| `Scraper.SeedIndexLatest` | scraper_bs.py:143-155 | the dictionary's keys are exactly the seeded titles, and a title used twice maps to its last entry |
| `Scraper.SeedIndexed` | scraper_bs.py:143-155 | every entry the dictionary points at has its title, link and date set, and the title is the dictionary key |
| `Scraper.Pick` | scraper_bs.py:76-87 | a known title picks that stored entry; otherwise a fresh entry gets the title |
| `Scraper.Link` | scraper_bs.py:88-93 | an entry that has a link is kept as it is; one without gets a link exactly when the title anchor has a non-empty `href`, and then the joined link is both its link and its guid; nothing else changes |
| `Scraper.WithPublished` | scraper_bs.py:100-107 | a date already set is kept; without one, a missing timestamp skips the article, a timestamp `format_date` rejects is a `BadDate` error, and a valid one sets the display date `format_date` returns |
| `Scraper.Merge` | scraper_bs.py:75-115 | merging one article grows the feed by one entry exactly when it is added |
| `Scraper.MergeOutcome` | scraper_bs.py:75-115 | an article fails exactly when it has a title and either a new entry's date does not parse or the summary block is missing; it is added (new title) or used as an update (known title) exactly when it has a title, a date and a non-empty description; a skipped article leaves the feed unchanged |
| `Scraper.MergeKnownTitle` | scraper_bs.py:82-115 | an article with a known title updates that entry and is never appended: only its description can change, to the cleaned summary, and every other entry is untouched |
| `Scraper.MergeNewTitle` | scraper_bs.py:86-115 | an added article had a title link, a timestamp that parses and a summary, and it is appended as the entry those make |
| `Scraper.CompleteNewArticle` | scraper_bs.py:86-115 | a new, complete article is always appended |
| `Scraper.MergeKeepsIndexed` | scraper_bs.py:75-115 | a merge keeps every entry the dictionary points at complete and titled by its key |
| `Scraper.MergeAll` | scraper_bs.py:74-115 | over a page without error, one verdict per article, and the feed grows by exactly the number of added articles |
| `Scraper.MergeAllEffect` | scraper_bs.py:74-115 | over a page, one verdict per article; the feed grows by the number of added articles; existing entries change only in their description, and only the ones the title dictionary points at |
| `Scraper.RepeatedNewTitle` | scraper_bs.py:82-115 | the same new title twice on a page is added twice, because the dictionary is never updated with scraped entries |
| `Scraper.SameTitleUpdates` | scraper_bs.py:82-115 | a seeded entry whose title reappears is updated with the new description, not duplicated |
| `Scraper.Feed.constructor` | scraper_bs.py:133-155 | the feed holds the seeded metadata, entries and title dictionary, and the dictionary is consistent |
| `Scraper.Feed.TitleEntry` | scraper_bs.py:76-93 | the entry worked on is the stored one for a known title, otherwise a fresh entry with the title; an entry without a link takes the resolved `href` as link and guid |
| `Scraper.Feed.MergeArticle` | scraper_bs.py:76-115 | merging one article in place leaves the feed as `Merge` describes and returns its verdict or error |
| `Scraper.Feed.ScrapeArticles` | scraper_bs.py:74-115 | the loop over the page's articles leaves the feed as `MergeAll` describes, keeps the dictionary consistent and returns the verdicts |
| `RssUrls.Toggled` | scraper_bs.py:171-174 | the second https substitution targets the host without `www.` when the host has it, and the host with `www.` prepended otherwise |
| `RssUrls.Secure` | scraper_bs.py:168-174 | a feed crawled over a base URL that does not start with `https` is left alone |
| `RssUrls.Unwww` | scraper_bs.py:175-177 | when the crawled host is the `www` one the feed is left alone |
| `RssUrls.SecureEffect` | scraper_bs.py:168-174 | after the https pass over an https base URL, the feed holds no `http://` link to the host or to its toggled form (for a host that is a plain host name) |
| `RssUrls.UnwwwEffect` | scraper_bs.py:175-177 | after the `www` pass the feed holds no `//www.<domain>.<suffix>`, when the crawled host and that form cannot overlap |
| `RssUrls.LinksApart` | scraper_bs.py:168-174 | a secured link to one plain host cannot overlap a plain-http link to another, so securing one never creates the other |
| `RssUrls.PostProcess` | scraper_bs.py:168-177 | the passes in the order written: a feed crawled over plain http from the `www` host is left as it was |
| `RssUrls.InsecureAfterUnwww` | scraper_bs.py:168-177 | in the order written, a feed crawled over `https://b.e.c` (host parts `b`, `e`, `c`) that holds `http://www.e.c` ends as `http://b.e.c`, a plain-http link to the crawled host |
| `RssUrls.PostProcessSecureLast` | scraper_bs.py:168-177 | the passes with the `www` pass first: a feed crawled over plain http from the `www` host is left as it was |
| `RssUrls.SecureLastPromise` | scraper_bs.py:168-177 | with the `www` pass first, a feed crawled over https from a plain host ends with no plain-http link to the host or to its toggled form |
| `RssUrls.RewriteLinks` | scraper_bs.py:168-177 | the step-by-step substitutions, `www` pass first, compute `PostProcessSecureLast`, and for an https base URL and a plain host leave no plain-http link to the host or its toggled form |
| `RssUrls.PostProcessUntouched` | scraper_bs.py:168-177 | a feed with no `http://` and no `//www.` comes out unchanged, whatever the host |
| `RssUrls.SubstitutionPieces` | scraper_bs.py:170-177 | each substitution changes the feed only at occurrences of its pattern: cutting there and joining with the replacement is the result, and joining with the pattern is the feed |

## Findings

| source | as written | input that shows it | evidently intended | confidence | as-written member | corrected member |
|---|---|---|---|---|---|---|
| scraper_bs.py:168-177 | the https substitutions run before the `www` substitution, so a `//www.<domain>.<suffix>` link that the `www` pass redirects to the crawled host keeps its `http://` | base URL `https://b.e.c`, host `b.e.c`, host parts `b`, `e`, `c`, feed text `http://www.e.c`: the result is `http://b.e.c` | a feed crawled over https holds no plain-http link to the crawled host | medium, not executed | `RssUrls.InsecureAfterUnwww` | `RssUrls.SecureLastPromise` |

## Left out

- Fetching pages over HTTP and the recursive crawl into `archives` links (`scraper_bs.py:116-120`). A page reaches the model as data.
- HTML parsing, serialisation and the CSS selector engine. A page is given as the elements `select('span, img')` returns, plus one article per `div#main-content > div.article` with its summary's children. The scraper receives the summary as text that is already serialised.
- Cleanup.Page.RewriteSummaryElements: the `span` and `img` elements inside summaries are rewritten by a function on the summary trees, not one element at a time in place. In the source, an element inside a summary is shared with the page-wide `select('span, img')` list; here it is rewritten once, on the tree.
- Html.Unmark: removing `class="first"` is modelled on the class list. The source applies a textual `.replace` to the serialised element. It also matches an attribute written with those exact characters, and it leaves `class="first other"` unchanged. The model keeps such a class list, and clears it only when `first` is the only class.
- The feed library: its XML serialisation, `pubDate` parsing, and the subtitle that shares its storage with the description. `add_entry` prepends, so the written feed lists entries in reverse call order; the model keeps them in call order.
- Scraper.Feed: entries are held by position in a sequence rather than as shared objects. The title dictionary maps a title to that position.
- `urljoin`, `urlparse`/`get_hostname` and `tldextract` are inputs: the joined link of a title, the crawled host, and the host's split into subdomain, domain and suffix.
- File I/O. `Cleanup.Run` works on a map from path to page, and a missing path stops the run with `MissingFile`. The scraper's reading of the existing feed and writing of `updated_rss.xml` are left out. The scraper's own argument check (`scraper_bs.py:124-129`) is left out too.
- Diagnostics printed to standard output, and the exit status beyond `Usage`.
- Dates.FormatDate: parsing follows the C locale with ASCII digits only. It does not model locale month names or the Unicode digits that `\d` would also accept. Years below 1000 print with four digits, as current CPython on Linux does.
- Scraper.Merge: after an error (a date that does not parse, or a missing summary) the source raises and the run ends. The model returns the error, and states nothing about the feed from that point on.
- Invisible.RemoveInvisibleChars: characters are Unicode code points (Dafny `char`). Surrogate code points, which Python strings may hold, are not modelled.
- RssUrls.RewriteLinks: it runs the `www` pass before the https passes, the corrected order of the finding above; `RssUrls.PostProcess` keeps the order as written. The promise of no plain-http link is stated only for a host without `:` or `/` that does not end in `h`, `ht`, `htt`, `http` or `https` (`PlainHost`). That leaves out every host ending in `h`, such as any `.ch` domain, and for those the promise is false: `str.replace` skips an occurrence that overlaps the one it has just replaced, so for the host `a.ch` the text `http://a.chttp://a.ch` becomes `https://a.chttp://a.ch`, and `http://a.ch` survives.
- RssUrls.PostProcessSecureLast: the promise of no `//www.<domain>.<suffix>` is proved for the `www` pass alone (`RssUrls.UnwwwEffect`); that the https pass after it brings no such form back is not stated.
- Dates.FormatDate: the month name is matched with ASCII case folding. Python's case-insensitive match also takes the long s (U+017F) for `s`, so it accepts `ſep` for `Sep`, which the model rejects.
