/**
 * The spider's configuration: the target categories parsed from the `CATEGORIES`
 * setting and one listing URL per target category.
 */
module Config {
  import opened Text

  /** The value used when `CATEGORIES` is not set. */
  const DEFAULT_CATEGORIES := "astro-ph.GA, astro-ph.CO"

  /** `set(map(str.strip, config.split(",")))`. */
  function ParseTargets(config: string): (r: set<string>)
    ensures forall t :: t in r ==> ',' !in t
    ensures forall t :: t in r ==> t == [] || (!IsSpace(t[0]) && !IsSpace(t[|t| - 1]))
    ensures |r| > 0
  {
    var pieces := Split(config, ",");
    SplitPiecesFree(config, ",");
    var targets := set p | p in pieces :: Strip(p);
    assert Strip(pieces[0]) in targets;
    forall p | p in pieces ensures ',' !in Strip(p) {
      NoCharUnlessContained(p, ',');
      StripKeepsOut(p, ',');
    }
    targets
  }

  /** Joining comma-free entries with commas and parsing the result gives the stripped entries. */
  lemma TargetsOfJoin(entries: seq<string>)
    requires |entries| >= 1
    requires forall k :: 0 <= k < |entries| ==> ',' !in entries[k]
    ensures ParseTargets(Join(entries, ",")) == set e | e in entries :: Strip(e)
  {
    JoinSplit(entries, ',');
  }

  /** Two categories written as "a, b" give exactly those two categories. */
  lemma TwoTargets(a: string, b: string)
    requires ',' !in a && ',' !in b
    requires a == [] || (!IsSpace(a[0]) && !IsSpace(a[|a| - 1]))
    requires b == [] || (!IsSpace(b[0]) && !IsSpace(b[|b| - 1]))
    ensures ParseTargets(a + ", " + b) == {a, b}
  {
    var entries := [a, " " + b];
    assert Join(entries, ",") == a + ", " + b;
    TargetsOfJoin(entries);
    StripStripped(a);
    StripStripped(b);
    StripLeadingSpace(' ', b);
    StrippedPair(a, " " + b);
  }

  lemma StrippedPair(x: string, y: string)
    ensures (set e | e in [x, y] :: Strip(e)) == {Strip(x), Strip(y)}
  {
    var stripped := set e | e in [x, y] :: Strip(e);
    assert x in [x, y] && y in [x, y];
    assert forall e :: e in [x, y] ==> e == x || e == y;
  }

  /** The default setting names exactly the two categories it lists. */
  lemma DefaultTargets()
    ensures ParseTargets(DEFAULT_CATEGORIES) == {"astro-ph.GA", "astro-ph.CO"}
  {
    var ga, co := "astro-ph.GA", "astro-ph.CO";
    assert DEFAULT_CATEGORIES == ga + ", " + co;
    assert ',' !in ga && ',' !in co;
    TwoTargets(ga, co);
  }

  /** A setting that is present but empty gives the one target category "". */
  lemma EmptySettingTargets()
    ensures ParseTargets("") == {""}
  {
    assert FindFirst("", ",").None?;
  }

  /** The listing page of new submissions in one category. */
  function ListUrl(category: string): (url: string)
  {
    "https://arxiv.org/list/" + category + "/new"
  }

  /** Different categories have different listing URLs. */
  lemma ListUrlInjective(a: string, b: string)
    requires ListUrl(a) == ListUrl(b)
    ensures a == b
  {
    var n := |"https://arxiv.org/list/"|;
    assert a == ListUrl(a)[n..n + |a|];
    assert b == ListUrl(b)[n..n + |b|];
  }

  /** The start URLs: one listing URL per target category, in the set's iteration order,
      which is unspecified. */
  method BuildStartUrls(targets: set<string>) returns (urls: seq<string>)
    ensures |urls| == |targets|
    ensures forall u :: u in urls <==> exists c :: c in targets && u == ListUrl(c)
    ensures forall i, j :: 0 <= i < j < |urls| ==> urls[i] != urls[j]
  {
    urls := [];
    var rest := targets;
    while rest != {}
      invariant rest <= targets
      invariant |urls| + |rest| == |targets|
      invariant forall u :: u in urls <==> exists c :: c in targets - rest && u == ListUrl(c)
      invariant forall i, j :: 0 <= i < j < |urls| ==> urls[i] != urls[j]
      decreases |rest|
    {
      var c :| c in rest;
      forall i | 0 <= i < |urls| ensures urls[i] != ListUrl(c) {
        assert urls[i] in urls;
        var d :| d in targets - rest && urls[i] == ListUrl(d);
        if urls[i] == ListUrl(c) {
          ListUrlInjective(c, d);
        }
      }
      urls := urls + [ListUrl(c)];
      rest := rest - {c};
    }
  }
}
