/**
 * The spider itself: its configuration, set once when it is built, and its two callbacks,
 * one for a listing page and one for an abstract page.
 */
module Spider {
  import opened Options
  import opened Text
  import opened Keywords
  import opened Subjects
  import opened Config
  import opened Listing

  class ArxivSpider {
    /** The categories whose listings are crawled and which the category gate admits. */
    const targetCategories: set<string>
    /** The keywords looked for in titles and abstracts. */
    const keywords: seq<string>
    /** One listing page of new submissions per target category. */
    const startUrls: seq<string>

    /** `categoriesEnv` is the value of the CATEGORIES environment variable, if it is set;
        `keywords` is the keyword list: the corrected program passes `INTENDED_KEYWORDS`,
        the list as written is `SOURCE_KEYWORDS`. */
    constructor (categoriesEnv: Option<string>, keywords: seq<string>)
      ensures targetCategories == ParseTargets(if categoriesEnv.Some? then categoriesEnv.value else DEFAULT_CATEGORIES)
      ensures categoriesEnv.None? ==> targetCategories == {"astro-ph.GA", "astro-ph.CO"}
      ensures this.keywords == keywords
      ensures |startUrls| == |targetCategories|
      ensures forall u :: u in startUrls <==> exists c :: c in targetCategories && u == ListUrl(c)
      ensures forall i, j :: 0 <= i < j < |startUrls| ==> startUrls[i] != startUrls[j]
    {
      var setting := if categoriesEnv.Some? then categoriesEnv.value else DEFAULT_CATEGORIES;
      var targets := ParseTargets(setting);
      DefaultTargets();
      var urls := BuildStartUrls(targets);
      targetCategories := targets;
      this.keywords := keywords;
      startUrls := urls;
    }

    /** The callback for a listing page: collects the position bound from the navigation links,
        then decides each entry in page order and yields what is not skipped. */
    method Parse(page: Page, urljoin: string -> string) returns (out: seq<Decision>)
      requires HrefsParse(page.navHrefs)
      requires AllWellFormed(page.entries)
      ensures out == PageOutput(page.entries, Bound(Anchors(page.navHrefs)), targetCategories, keywords, urljoin)
    {
      var anchors := CollectAnchors(page.navHrefs);
      var bound := Bound(anchors);

      var entries := page.entries;
      out := [];
      for j := 0 to |entries|
        invariant out == PageOutput(entries[..j], bound, targetCategories, keywords, urljoin)
      {
        PageOutputStep(entries, j, bound, targetCategories, keywords, urljoin);
        var d := ParseEntry(entries[j], anchors, urljoin);
        if !d.Skip? {
          out := out + [d];
        }
      }
      assert entries[..|entries|] == entries;
    }

    /** The loop over the navigation list of a listing page: the entry number of every link
        that holds "item", in order. */
    static method CollectAnchors(hrefs: seq<Option<string>>) returns (anchors: seq<nat>)
      requires HrefsParse(hrefs)
      ensures anchors == Anchors(hrefs)
    {
      anchors := [];
      for i := 0 to |hrefs|
        invariant HrefsParse(hrefs[..i])
        invariant anchors == Anchors(hrefs[..i])
      {
        assert hrefs[..i + 1][..i] == hrefs[..i];
        var href := hrefs[i];
        if href.Some? && Contains(href.value, ITEM) {
          anchors := anchors + [ParseDigits(AfterLast(href.value, ITEM))];
        }
      }
      assert hrefs[..|hrefs|] == hrefs;
    }

    /** The body of the loop over the entries of a listing page: each `continue` of the loop is
        a `Skip` here. */
    method ParseEntry(e: Entry, anchors: seq<nat>, urljoin: string -> string) returns (d: Decision)
      requires WellFormed(e)
      ensures d == Decide(e, Bound(anchors), targetCategories, keywords, urljoin)
    {
      if !Truthy(e.anchorName) {
        return Skip(NoAnchor);
      }
      var paperId := ParseDigits(AfterLast(e.anchorName.value, ITEM));
      if |anchors| > 0 && paperId >= anchors[|anchors| - 1] {
        return Skip(BeyondBound);
      }
      if !Truthy(e.abstractLink) {
        return Skip(NoAbstractLink);
      }
      var arxivId := AfterLast(e.abstractLink.value, "/");
      if e.detail.None? {
        return Skip(NoDetail);
      }
      var dd := e.detail.value;
      var subjectsText := dd.primarySubject;
      if !Truthy(subjectsText) {
        subjectsText := dd.subjects;
      }
      var categories := CategorySet(subjectsText);
      var item := Item(arxivId, categories);
      if categories * targetCategories == {} && Truthy(subjectsText) {
        return Skip(CategoryMismatch);
      }
      var cleanTitle := "";
      if Truthy(dd.title) {
        cleanTitle := Clean(dd.title.value, TITLE_LABEL);
      }
      var hit := ScanKeywords(keywords, cleanTitle);
      if hit {
        d := Emit(item);
      } else {
        d := Escalate(item, urljoin(e.abstractLink.value), Prefix(cleanTitle, TITLE_PREFIX_LENGTH));
      }
    }

    /** The callback for the abstract page requested by an escalation: yields the carried item
        when the abstract mentions a keyword. */
    method ParseAbstractPage(request: Decision, abstractText: Option<string>) returns (v: Verdict)
      requires request.Escalate?
      requires abstractText.Some? ==> IsAscii(abstractText.value)
      ensures v == Stage2(request.item, abstractText, keywords)
    {
      if Truthy(abstractText) {
        var cleanAbstract := Clean(abstractText.value, ABSTRACT_LABEL);
        var hit := ScanKeywords(keywords, cleanAbstract);
        if hit {
          v := Keep(request.item);
        } else {
          v := Drop(NoKeyword);
        }
      } else {
        v := Drop(NoAbstract);
      }
    }
  }
}
