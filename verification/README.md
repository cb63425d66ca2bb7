# arXiv new-submissions spider: a Dafny model

This project models the `ArxivSpider` of the daily_arxiv crawler
(`daily_arxiv/daily_arxiv/spiders/arxiv.py`). The spider is a two-stage relevance filter over
arXiv's "new submissions" listing pages.

- **Configuration** (`__init__`). The target categories come from the `CATEGORIES` setting,
  split at commas and stripped, with `astro-ph.GA, astro-ph.CO` as the default. There is one
  start URL per target category, `https://arxiv.org/list/<cat>/new`. The keyword list is fixed.
- **Stage 1** (`parse`, one listing page).
  - The entry numbers of the `item…` links in the navigation list are collected. The last of
    them bounds the new submissions.
  - Each entry (`dl dt`) is skipped in these cases:
    - it has no anchor;
    - its position is at or beyond the bound;
    - it has no Abstract link;
    - it has no detail block;
    - its non-empty subjects text names no target category.
  - Otherwise an item (arXiv id, categories) is built. It is emitted at once when the cleaned
    title contains a keyword. If not, the abstract page is requested, carrying the item and
    the first 30 characters of the cleaned title.
- **Stage 2** (`parse_abstract_page`). The carried item is emitted when the cleaned abstract
  contains a keyword. A missing or empty abstract, or no keyword, drops it.

Modules:

- `Options`: `Option` and Python truthiness of an optional string.
- `Text`: the Python `str` operations the spider uses, on ASCII text:
  - `lower`, `strip`, `in`;
  - `split`, `split(...)[-1]`, `replace`;
  - `int()` on digit strings.

  `in` is defined through a leftmost search in the manner of `find`. `join` appears only in
  the definition of `replace` and in the lemmas about `split`.
- `Subjects`: `re.findall(r'\(([^)]+)\)', ...)` and the category set built from it.
- `Keywords`: the keyword test shared by both stages, and the label-removing normalisation.
  It also holds the keyword list as written in the source and as intended.
- `Config`: the parse of `CATEGORIES`, and the start URLs.
- `Listing`: the entry, decision and verdict datatypes; stage 1 for an entry (`Decide`) and for
  a page (`PageOutput`); stage 2 (`Stage2`); the relevance policy both stages implement
  together; and worked examples on concrete entries.
- `Spider`: the class `ArxivSpider`. Its constant fields are set by the constructor. Its
  callbacks `Parse` and `ParseAbstractPage` are imperative methods with the source's loops and
  early exits, each proved equal to the corresponding `Listing` function.

Points where the model follows the code closely:

- The item carries only the id and the categories (`arxiv.py:78-81`). It carries no title.
- `replace("Title:", "")` deletes every occurrence of the label, not only a leading one.
- The anchors are collected from every `item` link of the navigation list. Only the last one
  is the bound, even when an earlier one is larger (`Listing.OnlyLastAnchorBounds`).
- With the spider's own keyword list, the title "A Survey of Gas Content" already hits `gas`
  and is emitted at once. `Listing.GasSurveyIsEscalated` and `Listing.GasAbstractKeepsItem`
  (escalate on the title, then keep on "molecular gas" in the abstract) therefore use the
  one-keyword list `["molecular gas"]`.

## Model

| member | source | states |
|---|---|---|
| Config.ParseTargets | daily_arxiv/daily_arxiv/spiders/arxiv.py:11-13 | the targets are a non-empty set of comma-free strings, each without surrounding whitespace |
| Config.TargetsOfJoin | daily_arxiv/daily_arxiv/spiders/arxiv.py:12-13 | comma-free entries joined with commas parse back to exactly their stripped forms |
| Config.TwoTargets | daily_arxiv/daily_arxiv/spiders/arxiv.py:12-13 | a setting `a, b` of two stripped, comma-free names gives exactly `{a, b}` |
| Config.DefaultTargets | daily_arxiv/daily_arxiv/spiders/arxiv.py:11-13 | without `CATEGORIES` the targets are exactly astro-ph.GA and astro-ph.CO |
| Config.EmptySettingTargets | daily_arxiv/daily_arxiv/spiders/arxiv.py:11-13 | a setting that is present but empty gives the single target "" |
| Config.ListUrl | daily_arxiv/daily_arxiv/spiders/arxiv.py:33 | the listing page of new submissions of a category; `ListUrlInjective` shows the category can be read back |
| Config.ListUrlInjective | daily_arxiv/daily_arxiv/spiders/arxiv.py:32-34 | different categories have different listing URLs |
| Config.BuildStartUrls | daily_arxiv/daily_arxiv/spiders/arxiv.py:32-34 | one URL per target: a URL is listed iff it is the listing URL of a target, with no repeats and as many URLs as targets |
| Spider.ArxivSpider.constructor | daily_arxiv/daily_arxiv/spiders/arxiv.py:9-34 | the targets are the parse of the setting, or the two defaults when unset; the keywords are kept; the start URLs are one per target, distinct |
| Text.AfterLast | daily_arxiv/daily_arxiv/spiders/arxiv.py:42 | `split(sep)[-1]` holds no separator and is a suffix of the string |
| Text.AfterLastAbsent | daily_arxiv/daily_arxiv/spiders/arxiv.py:60 | without the separator, `split(sep)[-1]` is the whole string, as for a `/`-free Abstract link |
| Text.AfterLastCharShape | daily_arxiv/daily_arxiv/spiders/arxiv.py:60 | for a one-character separator, `split(c)[-1]` is the whole string when `c` is absent and otherwise directly follows an occurrence of `c` |
| Text.AfterLastPastFirst | daily_arxiv/daily_arxiv/spiders/arxiv.py:42 | `(prefix + sep + tail).split(sep)[-1]` is `tail` when no separator starts inside `prefix` and `tail` holds none |
| Text.LastIndexOf | daily_arxiv/daily_arxiv/spiders/arxiv.py:60 | the position found holds `c` and no `c` follows it |
| Text.AfterLastLeading | daily_arxiv/daily_arxiv/spiders/arxiv.py:52 | the last piece of `sep + tail` is `tail` when `tail` holds no separator |
| Text.AfterLastChar | daily_arxiv/daily_arxiv/spiders/arxiv.py:60 | the text after the last `/` of `prefix/tail` is `tail` when `tail` has no `/` |
| Text.Split | daily_arxiv/daily_arxiv/spiders/arxiv.py:12 | `str.split` with an explicit separator gives at least one piece |
| Text.SplitJoin | daily_arxiv/daily_arxiv/spiders/arxiv.py:12 | joining the pieces of a split with the separator gives the string back |
| Text.JoinSplit | daily_arxiv/daily_arxiv/spiders/arxiv.py:12 | splitting a join of separator-free pieces at a one-character separator gives the pieces back |
| Text.SplitPiecesFree | daily_arxiv/daily_arxiv/spiders/arxiv.py:12 | no piece of a split contains the separator |
| Text.ParseDecimal | daily_arxiv/daily_arxiv/spiders/arxiv.py:52 | `int()` reads back the decimal spelling of every natural number |
| Text.Strip | daily_arxiv/daily_arxiv/spiders/arxiv.py:13 | the stripped text is no longer than the input and neither starts nor ends with whitespace |
| Text.Lower | daily_arxiv/daily_arxiv/spiders/arxiv.py:100 | `lower` keeps the length; `Keywords.Clean` states that no upper-case letter is left |
| Text.ContainsIff | daily_arxiv/daily_arxiv/spiders/arxiv.py:105 | `pat in s`, defined through the leftmost-match search, holds iff `pat` occurs at some position of `s` |
| Text.Contains | daily_arxiv/daily_arxiv/spiders/arxiv.py:41 | `pat in s` is the leftmost-match search succeeding; `ContainsIff` gives its meaning |
| Text.ParseDigits | daily_arxiv/daily_arxiv/spiders/arxiv.py:52 | `int()` on a digit string, read in base 10; `ParseDecimal` proves it inverts the decimal spelling |
| Text.StripKeepsOut | daily_arxiv/daily_arxiv/spiders/arxiv.py:13 | stripping introduces no character |
| Text.StripKeepsInner | daily_arxiv/daily_arxiv/spiders/arxiv.py:100 | stripping keeps any inner stretch that neither starts nor ends with whitespace |
| Text.Replace | daily_arxiv/daily_arxiv/spiders/arxiv.py:100 | `replace` is `repl.join(s.split(pat))`, and leaves a string without the pattern unchanged |
| Text.ReplaceLeading | daily_arxiv/daily_arxiv/spiders/arxiv.py:100 | deleting a label also deletes a leading copy, then works through the rest |
| Spider.ArxivSpider.CollectAnchors | daily_arxiv/daily_arxiv/spiders/arxiv.py:38-42 | the loop over the navigation links collects exactly `Anchors(hrefs)` |
| Options.Truthy | daily_arxiv/daily_arxiv/spiders/arxiv.py:49 | Python truthiness of a selector's `.get()` result: present and non-empty |
| Listing.IsItemHref | daily_arxiv/daily_arxiv/spiders/arxiv.py:41 | `href and "item" in href`: a present link that contains `item` |
| Listing.Anchors | daily_arxiv/daily_arxiv/spiders/arxiv.py:38-42 | at most one anchor per link: the number after the last `item` of each link that contains `item` |
| Listing.Bound | daily_arxiv/daily_arxiv/spiders/arxiv.py:53 | the bound is the last anchor, and there is none without anchors |
| Listing.EntryIndex | daily_arxiv/daily_arxiv/spiders/arxiv.py:52 | the position is the number after the last `item` of the anchor name |
| Listing.HrefAnchor | daily_arxiv/daily_arxiv/spiders/arxiv.py:40-42 | a link `<prefix>item<digits>` with no `item` starting in the prefix (as `#item12`) passes the test and yields the number its digits spell |
| Listing.AnchorsConcat | daily_arxiv/daily_arxiv/spiders/arxiv.py:38-42 | anchors are collected link by link: those of `h1 + h2` are those of `h1` followed by those of `h2` |
| Listing.OnlyLastAnchorBounds | daily_arxiv/daily_arxiv/spiders/arxiv.py:53 | only the last anchor bounds the entries; anchors before it, even larger ones, do not matter |
| Listing.AnchorIndex | daily_arxiv/daily_arxiv/spiders/arxiv.py:52 | the position of anchor `item<digits>` is the number the digits spell |
| Subjects.Groups | daily_arxiv/daily_arxiv/spiders/arxiv.py:74 | every captured group is non-empty, holds no `)`, and occurs parenthesised in the text |
| Subjects.GroupsSkipPlain | daily_arxiv/daily_arxiv/spiders/arxiv.py:74 | text without `(` contributes no group |
| Subjects.GroupsTakeCode | daily_arxiv/daily_arxiv/spiders/arxiv.py:74 | `(code)` is captured and the scan resumes after the `)` |
| Subjects.CategorySet | daily_arxiv/daily_arxiv/spiders/arxiv.py:68-75 | no category without a subjects text; each category is a non-empty parenthesised code of the text |
| Listing.BeyondBoundary | daily_arxiv/daily_arxiv/spiders/arxiv.py:52-54 | `anchors and paper_id >= anchors[-1]`: an anchored entry at or past a present bound |
| Listing.Candidate | daily_arxiv/daily_arxiv/spiders/arxiv.py:48-64 | the entry passes all four `continue` tests: anchor present, inside the bound, Abstract link present, detail block present |
| Listing.SubjectsText | daily_arxiv/daily_arxiv/spiders/arxiv.py:69-71 | the whole subjects line is the fallback for an empty primary subject, so the text is empty only when both are |
| Listing.GateBlocks | daily_arxiv/daily_arxiv/spiders/arxiv.py:85 | the gate blocks exactly a non-empty subjects text whose categories miss every target |
| Listing.SingleCategory | daily_arxiv/daily_arxiv/spiders/arxiv.py:68-75 | `<name> (<code>)` with a plain name has exactly the category `<code>` |
| Listing.ItemOf | daily_arxiv/daily_arxiv/spiders/arxiv.py:56-81 | the id is the `/`-free suffix of the Abstract link that is the whole link or follows its last `/`; the categories are those of the subjects text |
| Listing.Prefix | daily_arxiv/daily_arxiv/spiders/arxiv.py:122 | `s[:n]` is a prefix of `s` of length `min(len(s), n)` |
| Keywords.KeywordHit | daily_arxiv/daily_arxiv/spiders/arxiv.py:103-107 | the title and the abstract hit when some keyword, lowered, is contained in the cleaned text |
| Keywords.CleanTitle | daily_arxiv/daily_arxiv/spiders/arxiv.py:97-100 | a missing or empty title cleans to the empty string; otherwise the title is cleaned of `Title:` |
| Keywords.CleanAbstract | daily_arxiv/daily_arxiv/spiders/arxiv.py:140 | the abstract is cleaned of `Abstract:` the same way |
| Keywords.Clean | daily_arxiv/daily_arxiv/spiders/arxiv.py:100 | the cleaned text has no upper-case letter and no surrounding whitespace |
| Listing.CleanLabelled | daily_arxiv/daily_arxiv/spiders/arxiv.py:100 | `<label> <body>`, with a stripped body free of the label, cleans to the lowered body |
| Keywords.ScanKeywords | daily_arxiv/daily_arxiv/spiders/arxiv.py:103-107 | the scan with early `break` reports a hit iff some lowered keyword occurs in the text |
| Keywords.EmptyKeywordHitsAll | daily_arxiv/daily_arxiv/spiders/arxiv.py:104-105 | an empty keyword matches every text |
| Keywords.KeywordHitIgnoresOrder | daily_arxiv/daily_arxiv/spiders/arxiv.py:104-105 | only which keywords are listed matters, not their order or repeats |
| Keywords.MentionHits | daily_arxiv/daily_arxiv/spiders/arxiv.py:100-107 | a keyword written in any capitalisation inside a label-free text is found after cleaning |
| Keywords.LabelledMentionHits | daily_arxiv/daily_arxiv/spiders/arxiv.py:140-147 | the same holds when the text begins with its label |
| Listing.KeywordHitIsMention | daily_arxiv/daily_arxiv/spiders/arxiv.py:103-107 | the keyword test holds iff some lowered keyword sits at some position of the text |
| Listing.Decide | daily_arxiv/daily_arxiv/spiders/arxiv.py:45-124 | the skip for the bound holds iff position >= bound; a malformed entry is skipped; the gate skips a candidate iff its non-empty subjects are disjoint from the targets; past the gate it emits iff the title hits and escalates otherwise; the item is `ItemOf(e)`; the escalation URL is the joined link; the prefix is a prefix of the clean title, all of it when it is shorter than 30 characters and exactly 30 characters otherwise |
| Spider.ArxivSpider.ParseEntry | daily_arxiv/daily_arxiv/spiders/arxiv.py:45-124 | the loop body, with its `continue`s as skips, computes `Decide` for the entry |
| Listing.Contribution | daily_arxiv/daily_arxiv/spiders/arxiv.py:109-124 | an entry yields at most one thing, never a skip, and it carries a target category or none |
| Listing.PageOutput | daily_arxiv/daily_arxiv/spiders/arxiv.py:45-124 | a page yields at most one thing per entry, no skips, each with a target category or none |
| Listing.PageOutputSplits | daily_arxiv/daily_arxiv/spiders/arxiv.py:45 | the output of a page is the output of its first part followed by that of the rest |
| Listing.PageOutputStep | daily_arxiv/daily_arxiv/spiders/arxiv.py:45-124 | one more entry extends the output by that entry's contribution |
| Spider.ArxivSpider.Parse | daily_arxiv/daily_arxiv/spiders/arxiv.py:36-124 | the callback yields exactly `PageOutput` of the entries under the bound of the collected anchors |
| Listing.Stage2 | daily_arxiv/daily_arxiv/spiders/arxiv.py:136-155 | keeps the carried item unchanged iff the abstract is non-empty and its cleaned text hits; no abstract drops it |
| Listing.Outcome | daily_arxiv/daily_arxiv/spiders/arxiv.py:109-155 | whatever the two stages output for an entry is the item of a candidate entry, with a target category or none |
| Listing.StageTwoOutcome | daily_arxiv/daily_arxiv/spiders/arxiv.py:138-155 | stage 2 against the reference reading of the keyword test |
| Spider.ArxivSpider.ParseAbstractPage | daily_arxiv/daily_arxiv/spiders/arxiv.py:126-155 | the callback computes `Stage2` of the carried item |
| Listing.TwoStagesImplementPolicy | daily_arxiv/daily_arxiv/spiders/arxiv.py:45-155 | the two stages output an entry's item exactly when the entry is new, well formed, passes the gate and mentions a keyword in its title or abstract |
| Listing.ListedEntryPastGate | daily_arxiv/daily_arxiv/spiders/arxiv.py:48-88 | a listed entry below the bound with one target category passes the gate and carries `(id, {code})` |
| Listing.TitleHitIsEmittedAtOnce | daily_arxiv/daily_arxiv/spiders/arxiv.py:97-111 | a new target-category entry whose title mentions a keyword in any case is emitted without a fetch |
| Listing.TitleMissIsEscalated | daily_arxiv/daily_arxiv/spiders/arxiv.py:112-124 | a new target-category entry whose title misses is escalated with its link and title prefix |
| Listing.AbstractMentionKeepsItem | daily_arxiv/daily_arxiv/spiders/arxiv.py:136-151 | a labelled abstract that mentions a keyword keeps the carried item |
| Listing.AbstractHitIsKeptAfterEscalation | daily_arxiv/daily_arxiv/spiders/arxiv.py:109-151 | escalation followed by an abstract hit outputs the item built on the listing |
| Listing.EntryBeyondBoundYieldsNothing | daily_arxiv/daily_arxiv/spiders/arxiv.py:52-54 | an entry at or beyond the bound yields nothing, whatever it holds, equality included |
| Listing.OffTargetEntryIsSkipped | daily_arxiv/daily_arxiv/spiders/arxiv.py:84-88 | an entry whose only category is not a target is skipped at the gate, whatever its title |
| Listing.LensingSurveyIsEmitted | daily_arxiv/daily_arxiv/spiders/arxiv.py:97-111 | "Title: A Strong Lensing Survey" in a target category is emitted at once, under the keyword list as written and under the corrected one |
| Listing.GasTitleMisses | daily_arxiv/daily_arxiv/spiders/arxiv.py:97-107 | "Title: A Survey of Gas Content" cleans to its lowered body, which misses "molecular gas" |
| Listing.GasSurveyIsEscalated | daily_arxiv/daily_arxiv/spiders/arxiv.py:112-124 | that entry is escalated with its whole cleaned title as the prefix |
| Listing.GasAbstractKeepsItem | daily_arxiv/daily_arxiv/spiders/arxiv.py:138-151 | the abstract "...we study molecular gas content..." keeps the carried item |
| Listing.TwelfthEntryYieldsNothing | daily_arxiv/daily_arxiv/spiders/arxiv.py:52-54 | entry 12 under bound 10 yields nothing |
| Listing.MachineLearningEntryIsSkipped | daily_arxiv/daily_arxiv/spiders/arxiv.py:84-88 | an entry filed only under cs.LG is skipped when the target is astro-ph.GA |
| Keywords.SourceKeywordsConcatenated | daily_arxiv/daily_arxiv/spiders/arxiv.py:19-30 | the list as written is the one-per-literal list with "strong lensing"+"lens model" and "interferometer"+"Dust" each glued into one keyword |
| Keywords.SourceKeywordsMissDust | daily_arxiv/daily_arxiv/spiders/arxiv.py:19-30 | with the list as written, the text "dust" hits no keyword |
| Keywords.IntendedKeywordsHitDust | daily_arxiv/daily_arxiv/spiders/arxiv.py:19-30 | with one keyword per literal, "dust" hits the keyword "Dust" |

## Left out

- HTML selection (CSS and XPath) is not modelled. A page is given as what the selectors return:
  the navigation link targets, and for each entry its anchor name, its Abstract link and its
  detail block (primary subject, subjects line, title text), each possibly missing.
- Request scheduling, the `meta` transport and Scrapy's callback plumbing are not modelled.
  An escalation is a `Decision` value that carries the item, the URL and the title prefix.
  `ParseAbstractPage` receives it together with the abstract text.
- `response.urljoin` is a function parameter, and so is the `CATEGORIES` environment variable
  (an `Option<string>` given to the constructor).
- Logging is not modelled. The `debug`, `info` and `warning` messages are reduced to the
  reasons carried by `Skip` and `Drop`. `title_prefix` is carried only for the log line of
  stage 2.
- Text is ASCII. `lower` and `strip` follow Python only for ASCII characters, so titles and
  abstracts are required to be ASCII. Unicode case mapping and Unicode whitespace are not
  modelled. This also applies, without a requirement, to the keyword list (a keyword "Ä" is
  not lowered to "ä") and to the `CATEGORIES` setting (a non-breaking space around a name
  is not stripped). Both keyword lists of the model are ASCII.
- `int()` is modelled on non-empty digit strings only: `HrefsParse` and `WellFormed` require
  it. The `ValueError` that `int()` raises on other text aborts the callback and is not
  modelled. Neither are signs, surrounding whitespace or underscores, which `int()` also
  accepts.
- The categories of an item are a set. The source builds `list(set(...))`, whose order Python
  leaves unspecified.
- The start URLs are built from a set, so their order is unspecified as in the source. The
  model proves their contents and distinctness, not an order.
- Spider.ArxivSpider.constructor: takes the keyword list as a parameter instead of fixing it.
  The list as written is `Keywords.SOURCE_KEYWORDS` and the intended one is
  `Keywords.INTENDED_KEYWORDS`.
- Cross-run deduplication, the item pipeline and output sinks lie outside the spider and are
  not modelled.

## Findings

| source | as written | input that shows it | evidently intended | confidence | as-written member | corrected member |
|---|---|---|---|---|---|---|
| daily_arxiv/daily_arxiv/spiders/arxiv.py:20-24 | commas are missing after "strong lensing" (line 20) and after "interferometer" (line 23), so Python concatenates adjacent literals into "strong lensinglens model" and "interferometerDust"; the keywords "Dust", "lens model" and "interferometer" are lost ("strong lensing" is still matched through "strong lens") | a title or abstract whose cleaned text is "dust" | every literal is its own keyword, so "dust" matches "Dust" | not executed | Keywords.SourceKeywordsMissDust | Keywords.IntendedKeywordsHitDust |

The spider takes its keyword list as a constructor parameter. The corrected program passes
`Keywords.INTENDED_KEYWORDS`, one keyword per literal. `Listing.LensingSurveyIsEmitted` holds
for both lists.
