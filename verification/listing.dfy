/**
 * One listing page of new submissions and the two-stage decision the spider takes for
 * each entry: stage 1 on the listing (position bound, malformed entries, category gate,
 * title keywords) and stage 2 on the abstract page of an escalated entry.
 */
module Listing {
  import opened Options
  import opened Text
  import opened Keywords
  import opened Subjects

  /** What the selectors find in an entry's detail block (the `dd` after its `dt`). */
  datatype Detail = Detail(primarySubject: Option<string>, subjects: Option<string>, title: Option<string>)

  /** One listing entry (a `dt`): its `item…` anchor name, its Abstract link, and its detail
      block when there is one. */
  datatype Entry = Entry(anchorName: Option<string>, abstractLink: Option<string>, detail: Option<Detail>)

  /** A listing page: the link targets of the navigation list, then the entries. */
  datatype Page = Page(navHrefs: seq<Option<string>>, entries: seq<Entry>)

  /** The item handed to the output: the arXiv id and the distinct categories. */
  datatype Item = Item(id: string, categories: set<string>)

  datatype SkipReason = NoAnchor | BeyondBound | NoAbstractLink | NoDetail | CategoryMismatch

  /** The outcome of stage 1 for one entry: the item, nothing, or a request for the abstract
      page that carries the item and the first 30 characters of the cleaned title. */
  datatype Decision =
    | Emit(item: Item)
    | Skip(reason: SkipReason)
    | Escalate(item: Item, url: string, titlePrefix: string)

  datatype DropReason = NoAbstract | NoKeyword

  /** The outcome of stage 2: the carried item, or nothing. */
  datatype Verdict = Keep(item: Item) | Drop(reason: DropReason)

  const ITEM := "item"
  const TITLE_PREFIX_LENGTH := 30

  /** `href and "item" in href`: a navigation link that marks an entry position. */
  predicate IsItemHref(href: Option<string>) {
    href.Some? && Contains(href.value, ITEM)
  }

  /** `int()` succeeds on the text after the last "item" of every such link. */
  predicate HrefsParse(hrefs: seq<Option<string>>) {
    forall k :: 0 <= k < |hrefs| && IsItemHref(hrefs[k]) ==> IsDigits(AfterLast(hrefs[k].value, ITEM))
  }

  /** The positions named by the navigation links, in page order. */
  function Anchors(hrefs: seq<Option<string>>): (r: seq<nat>)
    requires HrefsParse(hrefs)
    ensures |r| <= |hrefs|
    decreases |hrefs|
  {
    if |hrefs| == 0 then []
    else
      var init, h := hrefs[..|hrefs| - 1], hrefs[|hrefs| - 1];
      assert HrefsParse(init);
      if IsItemHref(h) then Anchors(init) + [ParseDigits(AfterLast(h.value, ITEM))] else Anchors(init)
  }

  /** Anchors are collected link by link: those of a list of links are those of its first part
      followed by those of the rest. */
  lemma {:induction false} AnchorsConcat(h1: seq<Option<string>>, h2: seq<Option<string>>)
    requires HrefsParse(h1) && HrefsParse(h2)
    ensures HrefsParse(h1 + h2)
    ensures Anchors(h1 + h2) == Anchors(h1) + Anchors(h2)
    decreases |h2|
  {
    forall k | 0 <= k < |h1 + h2| && IsItemHref((h1 + h2)[k])
      ensures IsDigits(AfterLast((h1 + h2)[k].value, ITEM))
    {
      if k >= |h1| {
        assert (h1 + h2)[k] == h2[k - |h1|];
      }
    }
    if |h2| == 0 {
      assert h1 + h2 == h1;
    } else {
      var init := h2[..|h2| - 1];
      assert HrefsParse(init);
      assert (h1 + h2)[..|h1 + h2| - 1] == h1 + init;
      assert (h1 + h2)[|h1 + h2| - 1] == h2[|h2| - 1];
      AnchorsConcat(h1, init);
    }
  }

  /** The exclusive bound on entry positions: the LAST collected anchor, or none. */
  function Bound(anchors: seq<nat>): Option<nat> {
    if |anchors| == 0 then None else Some(anchors[|anchors| - 1])
  }

  /** Only the last anchor bounds the entries: anchors before it do not matter, even larger ones. */
  lemma OnlyLastAnchorBounds(h1: seq<Option<string>>, h2: seq<Option<string>>)
    requires HrefsParse(h1) && HrefsParse(h2) && |Anchors(h2)| > 0
    ensures HrefsParse(h1 + h2)
    ensures Bound(Anchors(h1 + h2)) == Bound(Anchors(h2))
  {
    AnchorsConcat(h1, h2);
  }

  /** The position of an entry: `int(name.split("item")[-1])`. */
  function EntryIndex(name: string): nat
    requires IsDigits(AfterLast(name, ITEM))
  {
    ParseDigits(AfterLast(name, ITEM))
  }

  /** What the model needs of an entry: a numeric position, and ASCII title text. */
  predicate WellFormed(e: Entry) {
    && (Truthy(e.anchorName) ==> IsDigits(AfterLast(e.anchorName.value, ITEM)))
    && (e.detail.Some? && e.detail.value.title.Some? ==> IsAscii(e.detail.value.title.value))
  }

  predicate AllWellFormed(entries: seq<Entry>) {
    forall k :: 0 <= k < |entries| ==> WellFormed(entries[k])
  }

  /** The entry lies at or beyond the bound, so it is not a new submission. */
  predicate BeyondBoundary(e: Entry, bound: Option<nat>)
    requires WellFormed(e)
  {
    Truthy(e.anchorName) && bound.Some? && EntryIndex(e.anchorName.value) >= bound.value
  }

  /** The entry has everything stage 1 needs and lies inside the bound. */
  predicate Candidate(e: Entry, bound: Option<nat>)
    requires WellFormed(e)
  {
    Truthy(e.anchorName) && !BeyondBoundary(e, bound) && Truthy(e.abstractLink) && e.detail.Some?
  }

  /** The subjects text: the primary subject when it is non-empty, else the whole line. */
  function SubjectsText(d: Detail): (r: Option<string>)
    // the whole line is the fallback, so the text is empty only when both are
    ensures Truthy(r) <==> Truthy(d.primarySubject) || Truthy(d.subjects)
  {
    if Truthy(d.primarySubject) then d.primarySubject else d.subjects
  }

  /** The category gate blocks an entry whose subjects text is non-empty and names no target. */
  predicate GateBlocks(subjects: Option<string>, targets: set<string>) {
    Truthy(subjects) && CategorySet(subjects) * targets == {}
  }

  /** The item built for a candidate entry: the last path segment of the Abstract link as the
      id, and the entry's categories. */
  function ItemOf(e: Entry): (item: Item)
    requires Truthy(e.abstractLink) && e.detail.Some?
    ensures !Contains(item.id, "/")
    ensures |item.id| <= |e.abstractLink.value| && item.id == e.abstractLink.value[|e.abstractLink.value| - |item.id|..]
    // the id is the whole link when it has no "/", and otherwise what follows its last "/"
    ensures '/' !in e.abstractLink.value ==> item.id == e.abstractLink.value
    ensures '/' in e.abstractLink.value ==>
              |item.id| < |e.abstractLink.value| && e.abstractLink.value[|e.abstractLink.value| - |item.id| - 1] == '/'
    ensures item.categories == CategorySet(SubjectsText(e.detail.value))
  {
    assert "/" == ['/'];
    AfterLastCharShape(e.abstractLink.value, '/');
    Item(AfterLast(e.abstractLink.value, "/"), CategorySet(SubjectsText(e.detail.value)))
  }

  /** `clean_title[:30]`. */
  function Prefix(s: string, n: nat): (r: string)
    ensures |r| == if |s| < n then |s| else n
    ensures r == s[..|r|]
  {
    if |s| <= n then s else s[..n]
  }

  /** Stage 1 for one entry (the body of the loop over `dl dt`). */
  function Decide(e: Entry, bound: Option<nat>, targets: set<string>, keywords: seq<string>,
                  urljoin: string -> string): (d: Decision)
    requires WellFormed(e)
    // an entry at or beyond the bound is dropped, equality included; without a bound, none is
    ensures d == Skip(BeyondBound) <==> BeyondBoundary(e, bound)
    // a malformed entry is dropped
    ensures !Candidate(e, bound) ==> d.Skip?
    // the gate drops a candidate exactly when its subjects text is non-empty and disjoint from the targets
    ensures Candidate(e, bound) ==>
              (d == Skip(CategoryMismatch) <==> GateBlocks(SubjectsText(e.detail.value), targets))
    // a candidate past the gate is emitted on a title hit and escalated otherwise
    ensures Candidate(e, bound) && !GateBlocks(SubjectsText(e.detail.value), targets) ==>
              (d.Emit? || d.Escalate?) &&
              (d.Emit? <==> KeywordHit(keywords, CleanTitle(e.detail.value.title)))
    ensures !d.Skip? ==> Candidate(e, bound) && d.item == ItemOf(e)
    // what passes carries a target category, or no category at all
    ensures !d.Skip? ==> d.item.categories == {} || d.item.categories * targets != {}
    ensures d.Escalate? ==> d.url == urljoin(e.abstractLink.value)
    ensures d.Escalate? ==> |d.titlePrefix| <= TITLE_PREFIX_LENGTH && d.titlePrefix <= CleanTitle(e.detail.value.title)
    // the escalated prefix is exactly the first min(30, len) characters of the cleaned title
    ensures d.Escalate? && |CleanTitle(e.detail.value.title)| < TITLE_PREFIX_LENGTH ==>
              d.titlePrefix == CleanTitle(e.detail.value.title)
    ensures d.Escalate? && |CleanTitle(e.detail.value.title)| >= TITLE_PREFIX_LENGTH ==>
              |d.titlePrefix| == TITLE_PREFIX_LENGTH
  {
    if !Truthy(e.anchorName) then Skip(NoAnchor)
    else if BeyondBoundary(e, bound) then Skip(BeyondBound)
    else if !Truthy(e.abstractLink) then Skip(NoAbstractLink)
    else if e.detail.None? then Skip(NoDetail)
    else
      var item := ItemOf(e);
      if GateBlocks(SubjectsText(e.detail.value), targets) then Skip(CategoryMismatch)
      else
        var title := CleanTitle(e.detail.value.title);
        if KeywordHit(keywords, title) then Emit(item)
        else Escalate(item, urljoin(e.abstractLink.value), Prefix(title, TITLE_PREFIX_LENGTH))
  }

  /** What one entry adds to the page's output: its decision, unless it is skipped. */
  function Contribution(e: Entry, bound: Option<nat>, targets: set<string>, keywords: seq<string>,
                        urljoin: string -> string): (r: seq<Decision>)
    requires WellFormed(e)
    ensures |r| <= 1
    ensures forall k :: 0 <= k < |r| ==> !r[k].Skip? && (r[k].item.categories == {} || r[k].item.categories * targets != {})
  {
    var d := Decide(e, bound, targets, keywords, urljoin);
    if d.Skip? then [] else [d]
  }

  /** What a page yields, in order: the non-skip decisions of its entries. */
  function PageOutput(entries: seq<Entry>, bound: Option<nat>, targets: set<string>,
                      keywords: seq<string>, urljoin: string -> string): (r: seq<Decision>)
    requires AllWellFormed(entries)
    ensures |r| <= |entries|
    ensures forall k :: 0 <= k < |r| ==> !r[k].Skip?
    ensures forall k :: 0 <= k < |r| ==> r[k].item.categories == {} || r[k].item.categories * targets != {}
    decreases |entries|
  {
    if |entries| == 0 then []
    else
      Contribution(entries[0], bound, targets, keywords, urljoin)
        + PageOutput(entries[1..], bound, targets, keywords, urljoin)
  }

  /** Entries that are each well formed stay so when put together. */
  lemma WellFormedConcat(es1: seq<Entry>, es2: seq<Entry>)
    requires AllWellFormed(es1) && AllWellFormed(es2)
    ensures AllWellFormed(es1 + es2)
  {
    forall k | 0 <= k < |es1 + es2| ensures WellFormed((es1 + es2)[k]) {
      if k >= |es1| {
        assert (es1 + es2)[k] == es2[k - |es1|];
      }
    }
  }

  /** Each entry contributes on its own: the output of a page is the output of its first part
      followed by the output of the rest. */
  lemma {:induction false} PageOutputSplits(es1: seq<Entry>, es2: seq<Entry>, bound: Option<nat>,
                                            targets: set<string>, keywords: seq<string>,
                                            urljoin: string -> string)
    requires AllWellFormed(es1) && AllWellFormed(es2)
    ensures AllWellFormed(es1 + es2)
    ensures PageOutput(es1 + es2, bound, targets, keywords, urljoin)
         == PageOutput(es1, bound, targets, keywords, urljoin) + PageOutput(es2, bound, targets, keywords, urljoin)
    decreases |es1|
  {
    WellFormedConcat(es1, es2);
    if |es1| == 0 {
      assert es1 + es2 == es2;
    } else {
      assert (es1 + es2)[0] == es1[0];
      assert (es1 + es2)[1..] == es1[1..] + es2;
      PageOutputSplits(es1[1..], es2, bound, targets, keywords, urljoin);
    }
  }

  /** The output for one more entry extends the output so far by that entry's decision. */
  lemma PageOutputStep(entries: seq<Entry>, j: nat, bound: Option<nat>, targets: set<string>,
                       keywords: seq<string>, urljoin: string -> string)
    requires j < |entries|
    requires AllWellFormed(entries)
    ensures PageOutput(entries[..j + 1], bound, targets, keywords, urljoin)
         == PageOutput(entries[..j], bound, targets, keywords, urljoin) + Contribution(entries[j], bound, targets, keywords, urljoin)
  {
    assert entries[..j + 1] == entries[..j] + [entries[j]];
    PageOutputSplits(entries[..j], [entries[j]], bound, targets, keywords, urljoin);
    PageOutputSingle(entries[j], bound, targets, keywords, urljoin);
  }

  lemma PageOutputSingle(e: Entry, bound: Option<nat>, targets: set<string>,
                         keywords: seq<string>, urljoin: string -> string)
    requires WellFormed(e)
    ensures AllWellFormed([e])
    ensures PageOutput([e], bound, targets, keywords, urljoin) == Contribution(e, bound, targets, keywords, urljoin)
  {
    assert [e][1..] == [];
  }

  /** Stage 2 (`parse_abstract_page`): keep the carried item unchanged when the cleaned abstract
      hits a keyword; a missing or empty abstract keeps nothing. */
  function Stage2(item: Item, abstractText: Option<string>, keywords: seq<string>): (v: Verdict)
    requires abstractText.Some? ==> IsAscii(abstractText.value)
    ensures v.Keep? ==> v.item == item
    ensures v.Keep? <==> Truthy(abstractText) && KeywordHit(keywords, CleanAbstract(abstractText.value))
    ensures !Truthy(abstractText) ==> v == Drop(NoAbstract)
  {
    if !Truthy(abstractText) then Drop(NoAbstract)
    else if KeywordHit(keywords, CleanAbstract(abstractText.value)) then Keep(item)
    else Drop(NoKeyword)
  }

  /** What finally reaches the output for one entry, after both stages; `abstractText` is what
      the abstract page would show if it were fetched. */
  function Outcome(e: Entry, bound: Option<nat>, targets: set<string>, keywords: seq<string>,
                   urljoin: string -> string, abstractText: Option<string>): (r: Option<Item>)
    requires WellFormed(e)
    requires abstractText.Some? ==> IsAscii(abstractText.value)
    // whatever reaches the output is the item of a candidate entry, in a target category or in none
    ensures r.Some? ==> Candidate(e, bound) && r.value == ItemOf(e)
    ensures r.Some? ==> r.value.categories == {} || r.value.categories * targets != {}
  {
    match Decide(e, bound, targets, keywords, urljoin)
    case Emit(item) => Some(item)
    case Skip(_) => None
    case Escalate(item, _, _) =>
      match Stage2(item, abstractText, keywords)
      case Keep(kept) => Some(kept)
      case Drop(_) => None
  }

  /** The reference reading of the keyword test: some keyword, lowered, sits at some position. */
  ghost predicate Mentions(keywords: seq<string>, text: string) {
    exists k, i :: 0 <= k < |keywords| && OccursAt(text, Lower(keywords[k]), i)
  }

  lemma KeywordHitIsMention(keywords: seq<string>, text: string)
    ensures KeywordHit(keywords, text) <==> Mentions(keywords, text)
  {
    if KeywordHit(keywords, text) {
      var k :| 0 <= k < |keywords| && Contains(text, Lower(keywords[k]));
      var i := FindFirst(text, Lower(keywords[k])).value;
      assert OccursAt(text, Lower(keywords[k]), i);
    }
    if Mentions(keywords, text) {
      var k, i :| 0 <= k < |keywords| && OccursAt(text, Lower(keywords[k]), i);
      assert Contains(text, Lower(keywords[k]));
    }
  }

  /** The relevance policy the two stages implement together: a new, well-formed entry that
      passes the category gate and mentions a keyword in its title or in its abstract. */
  ghost predicate Relevant(e: Entry, bound: Option<nat>, targets: set<string>, keywords: seq<string>,
                           abstractText: Option<string>)
    requires WellFormed(e)
  {
    && Candidate(e, bound)
    && !GateBlocks(SubjectsText(e.detail.value), targets)
    && (|| Mentions(keywords, CleanTitle(e.detail.value.title))
        || (Truthy(abstractText) && Mentions(keywords, CleanAbstract(abstractText.value))))
  }

  /** The two stages together emit an entry's item exactly when the entry is relevant, and
      then the item is the one built from the entry. */
  lemma TwoStagesImplementPolicy(e: Entry, bound: Option<nat>, targets: set<string>, keywords: seq<string>,
                                 urljoin: string -> string, abstractText: Option<string>)
    requires WellFormed(e)
    requires abstractText.Some? ==> IsAscii(abstractText.value)
    ensures Outcome(e, bound, targets, keywords, urljoin, abstractText)
         == if Relevant(e, bound, targets, keywords, abstractText) then Some(ItemOf(e)) else None
  {
    var d := Decide(e, bound, targets, keywords, urljoin);
    if Candidate(e, bound) && !GateBlocks(SubjectsText(e.detail.value), targets) {
      var title := CleanTitle(e.detail.value.title);
      KeywordHitIsMention(keywords, title);
      if Truthy(abstractText) {
        KeywordHitIsMention(keywords, CleanAbstract(abstractText.value));
      }
      if !KeywordHit(keywords, title) {
        assert d.Escalate? && d.item == ItemOf(e);
        StageTwoOutcome(d.item, abstractText, keywords);
      }
    } else {
      assert d.Skip?;
    }
  }

  lemma StageTwoOutcome(item: Item, abstractText: Option<string>, keywords: seq<string>)
    requires abstractText.Some? ==> IsAscii(abstractText.value)
    ensures Stage2(item, abstractText, keywords)
         == if Truthy(abstractText) && Mentions(keywords, CleanAbstract(abstractText.value))
            then Keep(item) else Drop(if Truthy(abstractText) then NoKeyword else NoAbstract)
  {
    if Truthy(abstractText) {
      KeywordHitIsMention(keywords, CleanAbstract(abstractText.value));
    }
  }

  // Worked examples on concrete entries.

  /** The position of an `item<digits>` anchor is the number its digits spell. */
  lemma AnchorIndex(digits: string)
    requires IsDigits(digits)
    ensures IsDigits(AfterLast(ITEM + digits, ITEM))
    ensures EntryIndex(ITEM + digits) == ParseDigits(digits)
  {
    assert 'i' !in digits;
    AbsentChar(digits, ITEM, 0);
    AfterLastLeading(ITEM, digits);
  }

  /** A navigation link `<prefix>item<digits>`, where no `item` starts inside the prefix (as in
      `#item12`), marks the position its digits spell. */
  lemma HrefAnchor(prefix: string, digits: string)
    requires IsDigits(digits) && !Contains(prefix + "ite", ITEM)
    ensures IsItemHref(Some(prefix + ITEM + digits))
    ensures AfterLast(prefix + ITEM + digits, ITEM) == digits
  {
    assert 'i' !in digits;
    AbsentChar(digits, ITEM, 0);
    assert ITEM[..|ITEM| - 1] == "ite";
    AfterLastPastFirst(prefix, ITEM, digits);
    ContainsWithin(prefix, ITEM, digits, ITEM);
    assert OccursAt(ITEM, ITEM, 0);
  }

  /** A subjects text `<name> (<code>)` with a plain name has exactly the category `<code>`. */
  lemma SingleCategory(name: string, code: string)
    requires '(' !in name && |code| > 0 && ')' !in code
    ensures CategorySet(Some(name + "(" + code + ")")) == {code}
  {
    GroupsSkipPlain(name, "(" + code + ")");
    assert name + "(" + code + ")" == name + ("(" + code + ")" + "");
    assert "(" + code + ")" + "" == "(" + code + ")";
    GroupsTakeCode(code, "");
    assert Groups("") == [];
  }

  /** The cleaned form of a labelled text ` <body>` whose body is already stripped. */
  lemma CleanLabelled(lbl: string, body: string)
    requires |lbl| > 0 && !Contains(" " + body, lbl)
    requires body == [] || (!IsSpace(body[0]) && !IsSpace(body[|body| - 1]))
    ensures Clean(lbl + " " + body, lbl) == Lower(body)
  {
    assert lbl + " " + body == lbl + (" " + body);
    ReplaceLeading(" " + body, lbl);
    assert Replace(" " + body, lbl, "") == " " + body;
    assert " " + body == [' '] + body;
    StripLeadingSpace(' ', body);
    StripStripped(body);
  }

  /** A listing entry `item<digits>` whose Abstract link ends in `/<id>`, with the given primary
      subject and title. */
  function ListedEntry(digits: string, linkPrefix: string, id: string, subjects: string, title: string): Entry {
    Entry(Some(ITEM + digits), Some(linkPrefix + "/" + id), Some(Detail(Some(subjects), None, Some(title))))
  }

  lemma ListedEntryFacts(digits: string, linkPrefix: string, id: string, subjects: string, title: string, bound: nat)
    requires IsDigits(digits) && ParseDigits(digits) < bound && '/' !in id && IsAscii(title)
    ensures WellFormed(ListedEntry(digits, linkPrefix, id, subjects, title))
    ensures Candidate(ListedEntry(digits, linkPrefix, id, subjects, title), Some(bound))
    ensures ItemOf(ListedEntry(digits, linkPrefix, id, subjects, title)) == Item(id, CategorySet(Some(subjects)))
  {
    AnchorIndex(digits);
    assert linkPrefix + "/" + id == linkPrefix + ['/'] + id;
    AfterLastChar(linkPrefix, '/', id);
  }

  /** A listed entry below the bound whose one category is a target passes the gate and
      carries the item `(id, {code})`. */
  lemma ListedEntryPastGate(digits: string, bound: nat, linkPrefix: string, id: string,
                            name: string, code: string, targets: set<string>, title: string)
    requires IsDigits(digits) && ParseDigits(digits) < bound && '/' !in id
    requires '(' !in name && |code| > 0 && ')' !in code && code in targets
    requires IsAscii(title)
    ensures var e := ListedEntry(digits, linkPrefix, id, name + "(" + code + ")", title);
      WellFormed(e) && Candidate(e, Some(bound)) && !GateBlocks(SubjectsText(e.detail.value), targets)
      && ItemOf(e) == Item(id, {code})
  {
    var e := ListedEntry(digits, linkPrefix, id, name + "(" + code + ")", title);
    ListedEntryFacts(digits, linkPrefix, id, name + "(" + code + ")", title, bound);
    SingleCategory(name, code);
    assert SubjectsText(e.detail.value) == Some(name + "(" + code + ")");
    assert code in CategorySet(SubjectsText(e.detail.value)) * targets;
  }

  /** A candidate past the gate is emitted on a title hit, and escalated otherwise. */
  lemma DecidePastGate(e: Entry, bound: Option<nat>, targets: set<string>, keywords: seq<string>,
                       urljoin: string -> string)
    requires WellFormed(e) && Candidate(e, bound) && !GateBlocks(SubjectsText(e.detail.value), targets)
    ensures var title := CleanTitle(e.detail.value.title);
      Decide(e, bound, targets, keywords, urljoin)
        == if KeywordHit(keywords, title) then Emit(ItemOf(e))
           else Escalate(ItemOf(e), urljoin(e.abstractLink.value), Prefix(title, TITLE_PREFIX_LENGTH))
  {
  }

  /** A new entry (its position below the bound) whose primary subject `<name>(<code>)` names a
      target category and whose title mentions a keyword, in any capitalisation, is emitted at
      once: its abstract page is not requested. */
  lemma TitleHitIsEmittedAtOnce(digits: string, bound: nat, linkPrefix: string, id: string,
                                name: string, code: string, targets: set<string>,
                                keywords: seq<string>, k: nat, pre: string, mention: string, post: string,
                                urljoin: string -> string)
    requires IsDigits(digits) && ParseDigits(digits) < bound && '/' !in id
    requires '(' !in name && |code| > 0 && ')' !in code && code in targets
    requires k < |keywords| && Lower(mention) == Lower(keywords[k])
    requires |mention| > 0 && !IsSpace(mention[0]) && !IsSpace(mention[|mention| - 1])
    requires IsAscii(pre + mention + post) && !Contains(pre + mention + post, TITLE_LABEL)
    ensures
      var e := ListedEntry(digits, linkPrefix, id, name + "(" + code + ")", TITLE_LABEL + (pre + mention + post));
      WellFormed(e) && Decide(e, Some(bound), targets, keywords, urljoin) == Emit(Item(id, {code}))
  {
    var title := TITLE_LABEL + (pre + mention + post);
    AsciiConcat(TITLE_LABEL, pre + mention + post);
    var e := ListedEntry(digits, linkPrefix, id, name + "(" + code + ")", title);
    ListedEntryPastGate(digits, bound, linkPrefix, id, name, code, targets, title);
    LabelledMentionHits(keywords, k, TITLE_LABEL, pre, mention, post);
    DecidePastGate(e, Some(bound), targets, keywords, urljoin);
  }

  /** A new entry in a target category whose title misses every keyword is escalated to its
      abstract page with the first 30 characters of its cleaned title. */
  lemma TitleMissIsEscalated(digits: string, bound: nat, linkPrefix: string, id: string,
                             name: string, code: string, targets: set<string>, title: string,
                             keywords: seq<string>, urljoin: string -> string)
    requires IsDigits(digits) && ParseDigits(digits) < bound && '/' !in id
    requires '(' !in name && |code| > 0 && ')' !in code && code in targets
    requires IsAscii(title) && !KeywordHit(keywords, CleanTitle(Some(title)))
    ensures
      var e := ListedEntry(digits, linkPrefix, id, name + "(" + code + ")", title);
      WellFormed(e) &&
      Decide(e, Some(bound), targets, keywords, urljoin)
        == Escalate(Item(id, {code}), urljoin(linkPrefix + "/" + id), Prefix(CleanTitle(Some(title)), TITLE_PREFIX_LENGTH))
  {
    var e := ListedEntry(digits, linkPrefix, id, name + "(" + code + ")", title);
    ListedEntryPastGate(digits, bound, linkPrefix, id, name, code, targets, title);
    DecidePastGate(e, Some(bound), targets, keywords, urljoin);
  }

  /** An abstract that mentions a keyword, in any capitalisation, keeps the carried item. */
  lemma AbstractMentionKeepsItem(item: Item, keywords: seq<string>, k: nat, pre: string, mention: string, post: string)
    requires k < |keywords| && Lower(mention) == Lower(keywords[k])
    requires |mention| > 0 && !IsSpace(mention[0]) && !IsSpace(mention[|mention| - 1])
    requires IsAscii(pre + mention + post) && !Contains(pre + mention + post, ABSTRACT_LABEL)
    ensures IsAscii(ABSTRACT_LABEL + (pre + mention + post))
    ensures Stage2(item, Some(ABSTRACT_LABEL + (pre + mention + post)), keywords) == Keep(item)
  {
    LabelledMentionHits(keywords, k, ABSTRACT_LABEL, pre, mention, post);
  }

  /** Escalation followed by an abstract that mentions a keyword outputs the item built on the
      listing page, unchanged. */
  lemma AbstractHitIsKeptAfterEscalation(digits: string, bound: nat, linkPrefix: string, id: string,
                                         name: string, code: string, targets: set<string>, title: string,
                                         keywords: seq<string>, k: nat, pre: string, mention: string, post: string,
                                         urljoin: string -> string)
    requires IsDigits(digits) && ParseDigits(digits) < bound && '/' !in id
    requires '(' !in name && |code| > 0 && ')' !in code && code in targets
    requires IsAscii(title) && !KeywordHit(keywords, CleanTitle(Some(title)))
    requires k < |keywords| && Lower(mention) == Lower(keywords[k])
    requires |mention| > 0 && !IsSpace(mention[0]) && !IsSpace(mention[|mention| - 1])
    requires IsAscii(pre + mention + post) && !Contains(pre + mention + post, ABSTRACT_LABEL)
    ensures
      var e := ListedEntry(digits, linkPrefix, id, name + "(" + code + ")", title);
      var abstractText := ABSTRACT_LABEL + (pre + mention + post);
      WellFormed(e) && IsAscii(abstractText) &&
      Outcome(e, Some(bound), targets, keywords, urljoin, Some(abstractText)) == Some(Item(id, {code}))
  {
    TitleMissIsEscalated(digits, bound, linkPrefix, id, name, code, targets, title, keywords, urljoin);
    AbstractMentionKeepsItem(Item(id, {code}), keywords, k, pre, mention, post);
  }

  /** An entry at or beyond the bound yields nothing, whatever else it holds. */
  lemma EntryBeyondBoundYieldsNothing(digits: string, bound: nat, link: Option<string>, detail: Option<Detail>,
                                      targets: set<string>, keywords: seq<string>, urljoin: string -> string,
                                      abstractText: Option<string>)
    requires IsDigits(digits) && ParseDigits(digits) >= bound
    requires detail.Some? && detail.value.title.Some? ==> IsAscii(detail.value.title.value)
    requires abstractText.Some? ==> IsAscii(abstractText.value)
    ensures WellFormed(Entry(Some(ITEM + digits), link, detail))
    ensures Decide(Entry(Some(ITEM + digits), link, detail), Some(bound), targets, keywords, urljoin) == Skip(BeyondBound)
    ensures Outcome(Entry(Some(ITEM + digits), link, detail), Some(bound), targets, keywords, urljoin, abstractText) == None
  {
    AnchorIndex(digits);
  }

  /** A new entry whose only category is outside the targets is dropped at the gate, so its
      abstract page is never requested, whatever its title says. */
  lemma OffTargetEntryIsSkipped(digits: string, bound: nat, linkPrefix: string, id: string,
                                name: string, code: string, targets: set<string>, title: string,
                                keywords: seq<string>, urljoin: string -> string)
    requires IsDigits(digits) && ParseDigits(digits) < bound && '/' !in id
    requires '(' !in name && |code| > 0 && ')' !in code && code !in targets
    requires IsAscii(title)
    ensures
      var e := ListedEntry(digits, linkPrefix, id, name + "(" + code + ")", title);
      WellFormed(e) && Decide(e, Some(bound), targets, keywords, urljoin) == Skip(CategoryMismatch)
  {
    ListedEntryFacts(digits, linkPrefix, id, name + "(" + code + ")", title, bound);
    SingleCategory(name, code);
  }

  // The keyword tests of two sample texts.

  const GAS_TITLE_BODY := "A Survey of Gas Content"
  const GAS_KEYWORDS := ["molecular gas"]

  /** "Title: A Survey of Gas Content" is cleaned to its lower-case body, which does not
      contain "molecular gas". */
  lemma GasTitleCleaned()
    ensures CleanTitle(Some(TITLE_LABEL + " " + GAS_TITLE_BODY)) == Lower(GAS_TITLE_BODY)
  {
    AbsentChar(" " + GAS_TITLE_BODY, TITLE_LABEL, 5);
    CleanLabelled(TITLE_LABEL, GAS_TITLE_BODY);
  }

  lemma GasTitleIsAscii()
    ensures IsAscii(TITLE_LABEL + " " + GAS_TITLE_BODY)
  {
    AsciiConcat(TITLE_LABEL, " ");
    AsciiConcat(TITLE_LABEL + " ", GAS_TITLE_BODY);
  }

  lemma GasTitleMissesMolecularGas()
    ensures !KeywordHit(GAS_KEYWORDS, Lower(GAS_TITLE_BODY))
  {
    LetterNotInLower(GAS_TITLE_BODY, 'm');
    assert Lower(GAS_KEYWORDS[0]) == "molecular gas";
    AbsentChar(Lower(GAS_TITLE_BODY), "molecular gas", 0);
  }

  /** A new entry in a target category titled "A Strong Lensing Survey" is emitted at once
      by its first keyword "strong lens", under the list as the source writes it and under the
      corrected list alike. */
  lemma LensingSurveyIsEmitted(digits: string, bound: nat, linkPrefix: string, id: string,
                               name: string, code: string, targets: set<string>, urljoin: string -> string)
    requires IsDigits(digits) && ParseDigits(digits) < bound && '/' !in id
    requires '(' !in name && |code| > 0 && ')' !in code && code in targets
    ensures
      var e := ListedEntry(digits, linkPrefix, id, name + "(" + code + ")",
                           TITLE_LABEL + (" A " + "Strong Lens" + "ing Survey"));
      WellFormed(e) && Decide(e, Some(bound), targets, SOURCE_KEYWORDS, urljoin) == Emit(Item(id, {code}))
    ensures
      var e := ListedEntry(digits, linkPrefix, id, name + "(" + code + ")",
                           TITLE_LABEL + (" A " + "Strong Lens" + "ing Survey"));
      Decide(e, Some(bound), targets, INTENDED_KEYWORDS, urljoin) == Emit(Item(id, {code}))
  {
    LensingTitleFacts();
    TitleHitIsEmittedAtOnce(digits, bound, linkPrefix, id, name, code, targets, SOURCE_KEYWORDS,
                            0, " A ", "Strong Lens", "ing Survey", urljoin);
    TitleHitIsEmittedAtOnce(digits, bound, linkPrefix, id, name, code, targets, INTENDED_KEYWORDS,
                            0, " A ", "Strong Lens", "ing Survey", urljoin);
  }

  /** "Strong Lens" is the first keyword of either list in other capitals, and the title around
      it is ASCII without the label. */
  lemma LensingTitleFacts()
    ensures Lower("Strong Lens") == Lower(SOURCE_KEYWORDS[0])
    ensures Lower("Strong Lens") == Lower(INTENDED_KEYWORDS[0])
    ensures IsAscii(" A " + "Strong Lens" + "ing Survey")
    ensures !Contains(" A " + "Strong Lens" + "ing Survey", TITLE_LABEL)
  {
    assert Lower("Strong Lens") == Lower(SOURCE_KEYWORDS[0]);
    assert Lower("Strong Lens") == Lower(INTENDED_KEYWORDS[0]);
    AbsentChar(" A " + "Strong Lens" + "ing Survey", TITLE_LABEL, 5);
    AsciiConcat(" A ", "Strong Lens");
    AsciiConcat(" A " + "Strong Lens", "ing Survey");
  }

  /** "Title: A Survey of Gas Content" is ASCII and misses "molecular gas" once cleaned. */
  lemma GasTitleMisses()
    ensures IsAscii(TITLE_LABEL + " " + GAS_TITLE_BODY)
    ensures !KeywordHit(GAS_KEYWORDS, CleanTitle(Some(TITLE_LABEL + " " + GAS_TITLE_BODY)))
    ensures CleanTitle(Some(TITLE_LABEL + " " + GAS_TITLE_BODY)) == Lower(GAS_TITLE_BODY)
  {
    GasTitleCleaned();
    GasTitleMissesMolecularGas();
    GasTitleIsAscii();
  }

  /** The cleaned gas title is shorter than the escalation prefix, so the prefix is all of it. */
  lemma GasTitleIsShort()
    ensures Prefix(Lower(GAS_TITLE_BODY), TITLE_PREFIX_LENGTH) == Lower(GAS_TITLE_BODY)
  {
    assert |Lower(GAS_TITLE_BODY)| == |GAS_TITLE_BODY| == 23;
  }

  /** A new entry in a target category titled "A Survey of Gas Content" is, under the keyword
      list ["molecular gas"], escalated with its whole cleaned title, which is shorter than 30
      characters. */
  lemma GasSurveyIsEscalated(digits: string, bound: nat, linkPrefix: string, id: string,
                             name: string, code: string, targets: set<string>, urljoin: string -> string)
    requires IsDigits(digits) && ParseDigits(digits) < bound && '/' !in id
    requires '(' !in name && |code| > 0 && ')' !in code && code in targets
    ensures
      var e := ListedEntry(digits, linkPrefix, id, name + "(" + code + ")", TITLE_LABEL + " " + GAS_TITLE_BODY);
      WellFormed(e) &&
      Decide(e, Some(bound), targets, GAS_KEYWORDS, urljoin)
        == Escalate(Item(id, {code}), urljoin(linkPrefix + "/" + id), Lower(GAS_TITLE_BODY))
  {
    var title := TITLE_LABEL + " " + GAS_TITLE_BODY;
    GasTitleMisses();
    GasTitleIsShort();
    assert Prefix(CleanTitle(Some(title)), TITLE_PREFIX_LENGTH) == Lower(GAS_TITLE_BODY);
    TitleMissIsEscalated(digits, bound, linkPrefix, id, name, code, targets, title, GAS_KEYWORDS, urljoin);
  }

  /** The abstract "...we study molecular gas content..." mentions "molecular gas". */
  lemma GasAbstractFacts()
    ensures IsAscii(" ...we study " + "molecular gas" + " content...")
    ensures !Contains(" ...we study " + "molecular gas" + " content...", ABSTRACT_LABEL)
    ensures Lower("molecular gas") == Lower(GAS_KEYWORDS[0])
  {
    AbsentChar(" ...we study " + "molecular gas" + " content...", ABSTRACT_LABEL, 8);
    AsciiConcat(" ...we study ", "molecular gas");
    AsciiConcat(" ...we study " + "molecular gas", " content...");
  }

  /** ... and the item it carries is kept when its abstract reads
      "...we study molecular gas content...". */
  lemma GasAbstractKeepsItem(item: Item)
    ensures var abstractText := ABSTRACT_LABEL + (" ...we study " + "molecular gas" + " content...");
      IsAscii(abstractText) && Stage2(item, Some(abstractText), GAS_KEYWORDS) == Keep(item)
  {
    GasAbstractFacts();
    AbstractMentionKeepsItem(item, GAS_KEYWORDS, 0, " ...we study ", "molecular gas", " content...");
  }

  /** Entry 12 yields nothing when the new submissions end at entry 10. */
  lemma TwelfthEntryYieldsNothing(link: Option<string>, detail: Option<Detail>, targets: set<string>,
                                  keywords: seq<string>, urljoin: string -> string, abstractText: Option<string>)
    requires detail.Some? && detail.value.title.Some? ==> IsAscii(detail.value.title.value)
    requires abstractText.Some? ==> IsAscii(abstractText.value)
    ensures WellFormed(Entry(Some("item12"), link, detail))
    ensures Outcome(Entry(Some("item12"), link, detail), Some(10), targets, keywords, urljoin, abstractText) == None
  {
    assert "item12" == ITEM + "12";
    EntryBeyondBoundYieldsNothing("12", 10, link, detail, targets, keywords, urljoin, abstractText);
  }

  /** An entry filed only under cs.LG is skipped when the only target is astro-ph.GA. */
  lemma MachineLearningEntryIsSkipped(title: string, keywords: seq<string>, urljoin: string -> string)
    requires IsAscii(title)
    ensures
      var e := ListedEntry("5", "/abs", "2401.00005", "Machine Learning " + "(" + "cs.LG" + ")", title);
      WellFormed(e) && Decide(e, Some(10), {"astro-ph.GA"}, keywords, urljoin) == Skip(CategoryMismatch)
  {
    OffTargetEntryIsSkipped("5", 10, "/abs", "2401.00005", "Machine Learning ", "cs.LG", {"astro-ph.GA"},
                            title, keywords, urljoin);
  }
}
