/**
 * The keyword predicate that both stages of the spider apply, and the normalisation
 * of the text it is applied to.
 */
module Keywords {
  import opened Options
  import opened Text

  /** Some keyword, lower-cased, occurs in `text` (which the caller has already lower-cased). */
  predicate KeywordHit(keywords: seq<string>, text: string) {
    exists k :: 0 <= k < |keywords| && Contains(text, Lower(keywords[k]))
  }

  /** The scan over the keyword list that stops at the first hit; defined once and called
      by both the title stage and the abstract stage. */
  method ScanKeywords(keywords: seq<string>, text: string) returns (hit: bool)
    ensures hit <==> KeywordHit(keywords, text)
  {
    hit := false;
    for k := 0 to |keywords|
      invariant !hit
      invariant forall j :: 0 <= j < k ==> !Contains(text, Lower(keywords[j]))
    {
      if Contains(text, Lower(keywords[k])) {
        hit := true;
        break;
      }
    }
  }

  /** The empty keyword occurs in every text. */
  lemma EmptyKeywordHitsAll(keywords: seq<string>, text: string)
    requires "" in keywords
    ensures KeywordHit(keywords, text)
  {
    var k :| 0 <= k < |keywords| && keywords[k] == "";
    assert OccursAt(text, Lower(keywords[k]), 0);
  }

  /** Only which keywords are listed matters, not their order or repetitions. */
  lemma KeywordHitIgnoresOrder(ks1: seq<string>, ks2: seq<string>, text: string)
    requires forall kw :: kw in ks1 <==> kw in ks2
    ensures KeywordHit(ks1, text) <==> KeywordHit(ks2, text)
  {
    if KeywordHit(ks1, text) {
      var k :| 0 <= k < |ks1| && Contains(text, Lower(ks1[k]));
      assert ks1[k] in ks2;
    }
    if KeywordHit(ks2, text) {
      var k :| 0 <= k < |ks2| && Contains(text, Lower(ks2[k]));
      assert ks2[k] in ks1;
    }
  }

  const TITLE_LABEL := "Title:"
  const ABSTRACT_LABEL := "Abstract:"

  /** `text.replace(lbl, "").strip().lower()`. */
  function Clean(text: string, lbl: string): (r: string)
    requires |lbl| > 0
    ensures forall i :: 0 <= i < |r| ==> !('A' <= r[i] <= 'Z')
    ensures r == [] || (!IsSpace(r[0]) && !IsSpace(r[|r| - 1]))
  {
    Lower(Strip(Replace(text, lbl, "")))
  }

  /** The cleaned title; a missing or empty title gives the empty string. */
  function CleanTitle(title: Option<string>): (r: string)
    ensures !Truthy(title) ==> r == ""
  {
    if Truthy(title) then Clean(title.value, TITLE_LABEL) else ""
  }

  /** The cleaned abstract text. */
  function CleanAbstract(text: string): (r: string)
  {
    Clean(text, ABSTRACT_LABEL)
  }

  /** Matching ignores case: a keyword written in the text in any capitalisation, and not
      starting or ending with whitespace, is found in the cleaned text, as long as the text
      carries no label to remove. */
  lemma MentionHits(keywords: seq<string>, k: nat, lbl: string, pre: string, mention: string, post: string)
    requires k < |keywords| && Lower(mention) == Lower(keywords[k])
    requires |mention| > 0 && !IsSpace(mention[0]) && !IsSpace(mention[|mention| - 1])
    requires |lbl| > 0 && !Contains(pre + mention + post, lbl)
    ensures KeywordHit(keywords, Clean(pre + mention + post, lbl))
  {
    var text := pre + mention + post;
    assert Replace(text, lbl, "") == text;
    StripKeepsInner(pre, mention, post);
    var stripped := Strip(text);
    var i := FindFirst(stripped, mention).value;
    LowerSlice(stripped, i, i + |mention|);
    assert OccursAt(Lower(stripped), Lower(mention), i);
  }

  /** The same holds when the text starts with the label, as the arXiv pages print it. */
  lemma LabelledMentionHits(keywords: seq<string>, k: nat, lbl: string, pre: string, mention: string, post: string)
    requires k < |keywords| && Lower(mention) == Lower(keywords[k])
    requires |mention| > 0 && !IsSpace(mention[0]) && !IsSpace(mention[|mention| - 1])
    requires |lbl| > 0 && !Contains(pre + mention + post, lbl)
    ensures KeywordHit(keywords, Clean(lbl + (pre + mention + post), lbl))
  {
    ReplaceLeading(pre + mention + post, lbl);
    MentionHits(keywords, k, lbl, pre, mention, post);
  }

  /** The keyword list as the spider's source spells it. Two missing commas make Python
      concatenate adjacent literals, so "strong lensing" + "lens model" and
      "interferometer" + "Dust" each become one keyword. */
  const SOURCE_KEYWORDS: seq<string> := [
    "strong lens", "strong gravitational lens", "strong lensinglens model",
    "lensing",
    "dark matter", "DM halo",
    "ALMA", "SKA", "interferometerDust",
    "dusty",
    "DSFGs", "submillimeter",
    "high-redshift", "z >", "z>",
    "polarization", "polarized", "polarised",
    "gas", "molecular", "molecular gas",
    "SPT", "Herschel", "JWST", "Euclid", "CSST"
  ]

  /** The keyword list the comments of the source describe, one keyword per literal. */
  const INTENDED_KEYWORDS: seq<string> := [
    "strong lens", "strong gravitational lens", "strong lensing",
    "lens model", "lensing",
    "dark matter", "DM halo",
    "ALMA", "SKA", "interferometer",
    "Dust", "dusty",
    "DSFGs", "submillimeter",
    "high-redshift", "z >", "z>",
    "polarization", "polarized", "polarised",
    "gas", "molecular", "molecular gas",
    "SPT", "Herschel", "JWST", "Euclid", "CSST"
  ]

  /** The list as written is the intended list with two pairs of neighbours glued together:
      "strong lensing" with "lens model", and "interferometer" with "Dust". Everything else
      is the same, in the same order. */
  lemma SourceKeywordsConcatenated()
    ensures |SOURCE_KEYWORDS| + 2 == |INTENDED_KEYWORDS|
    ensures SOURCE_KEYWORDS[2] == INTENDED_KEYWORDS[2] + INTENDED_KEYWORDS[3]
    ensures SOURCE_KEYWORDS[8] == INTENDED_KEYWORDS[9] + INTENDED_KEYWORDS[10]
    ensures SOURCE_KEYWORDS[..2] == INTENDED_KEYWORDS[..2]
    ensures SOURCE_KEYWORDS[3..8] == INTENDED_KEYWORDS[4..9]
    ensures SOURCE_KEYWORDS[9..] == INTENDED_KEYWORDS[11..]
  {
    SourceKeywordsFront();
    SourceKeywordsBack(9, 18);
    SourceKeywordsBack(18, 26);
    assert SOURCE_KEYWORDS[9..] == SOURCE_KEYWORDS[9..18] + SOURCE_KEYWORDS[18..26];
    assert INTENDED_KEYWORDS[11..] == INTENDED_KEYWORDS[11..20] + INTENDED_KEYWORDS[20..28];
  }

  lemma SourceKeywordsFront()
    ensures |SOURCE_KEYWORDS| == 26 && |INTENDED_KEYWORDS| == 28
    ensures SOURCE_KEYWORDS[2] == INTENDED_KEYWORDS[2] + INTENDED_KEYWORDS[3]
    ensures SOURCE_KEYWORDS[8] == INTENDED_KEYWORDS[9] + INTENDED_KEYWORDS[10]
    ensures SOURCE_KEYWORDS[..2] == INTENDED_KEYWORDS[..2]
    ensures SOURCE_KEYWORDS[3..8] == INTENDED_KEYWORDS[4..9]
  {
    forall k | 0 <= k < 2 ensures SOURCE_KEYWORDS[k] == INTENDED_KEYWORDS[k] {
      SourceKeywordFrontAt(k);
    }
    forall k | 3 <= k < 8 ensures SOURCE_KEYWORDS[k] == INTENDED_KEYWORDS[k + 1] {
      SourceKeywordFrontAt(k);
    }
  }

  lemma SourceKeywordFrontAt(k: nat)
    requires k < 2 || 3 <= k < 8
    ensures k < 2 ==> SOURCE_KEYWORDS[k] == INTENDED_KEYWORDS[k]
    ensures 3 <= k ==> SOURCE_KEYWORDS[k] == INTENDED_KEYWORDS[k + 1]
  {
  }

  /** From position 9 on, the list as written is the intended list shifted by two. */
  lemma SourceKeywordsBack(from: nat, to: nat)
    requires 9 <= from <= to <= 26 && to - from <= 9
    ensures SOURCE_KEYWORDS[from..to] == INTENDED_KEYWORDS[from + 2..to + 2]
  {
    forall k | from <= k < to ensures SOURCE_KEYWORDS[k] == INTENDED_KEYWORDS[k + 2] {
      SourceKeywordAt(k);
    }
  }

  lemma SourceKeywordAt(k: nat)
    requires 9 <= k < 26
    ensures SOURCE_KEYWORDS[k] == INTENDED_KEYWORDS[k + 2]
  {
  }

  /** As written, a text about dust alone is not recognised: every keyword has a character
      that "dust" lacks, now that "Dust" only occurs glued to "interferometer". */
  lemma SourceKeywordsMissDust()
    ensures !KeywordHit(SOURCE_KEYWORDS, "dust")
  {
    SourceKeywordsMissDustFrom0();
    SourceKeywordsMissDustFrom5();
    SourceKeywordsMissDustFrom7();
    SourceKeywordsMissDustFrom9();
    SourceKeywordsMissDustFrom11();
    SourceKeywordsMissDustFrom14();
    SourceKeywordsMissDustFrom18();
    SourceKeywordsMissDustFrom22();
  }

  lemma SourceKeywordsMissDustFrom0()
    ensures forall k :: 0 <= k < 5 ==> !Contains("dust", Lower(SOURCE_KEYWORDS[k]))
  {
    ForeignCharMiss("dust", SOURCE_KEYWORDS[0], 2);  // 'r'
    ForeignCharMiss("dust", SOURCE_KEYWORDS[1], 2);  // 'r'
    ForeignCharMiss("dust", SOURCE_KEYWORDS[2], 2);  // 'r'
    ForeignCharMiss("dust", SOURCE_KEYWORDS[3], 0);  // 'l'
    ForeignCharMiss("dust", SOURCE_KEYWORDS[4], 1);  // 'a'
  }

  lemma SourceKeywordsMissDustFrom5()
    ensures forall k :: 5 <= k < 7 ==> !Contains("dust", Lower(SOURCE_KEYWORDS[k]))
  {
    ForeignCharMiss("dust", SOURCE_KEYWORDS[5], 1);  // 'm'
    ForeignCharMiss("dust", SOURCE_KEYWORDS[6], 0);  // 'a'
  }

  lemma SourceKeywordsMissDustFrom7()
    ensures forall k :: 7 <= k < 9 ==> !Contains("dust", Lower(SOURCE_KEYWORDS[k]))
  {
    ForeignCharMiss("dust", SOURCE_KEYWORDS[7], 1);  // 'k'
    ForeignCharMiss("dust", SOURCE_KEYWORDS[8], 0);  // 'i'
  }

  lemma SourceKeywordsMissDustFrom9()
    ensures forall k :: 9 <= k < 11 ==> !Contains("dust", Lower(SOURCE_KEYWORDS[k]))
  {
    ForeignCharMiss("dust", SOURCE_KEYWORDS[9], 4);  // 'y'
    ForeignCharMiss("dust", SOURCE_KEYWORDS[10], 2);  // 'f'
  }

  lemma SourceKeywordsMissDustFrom11()
    ensures forall k :: 11 <= k < 14 ==> !Contains("dust", Lower(SOURCE_KEYWORDS[k]))
  {
    ForeignCharMiss("dust", SOURCE_KEYWORDS[11], 2);  // 'b'
    ForeignCharMiss("dust", SOURCE_KEYWORDS[12], 0);  // 'h'
    ForeignCharMiss("dust", SOURCE_KEYWORDS[13], 0);  // 'z'
  }

  lemma SourceKeywordsMissDustFrom14()
    ensures forall k :: 14 <= k < 18 ==> !Contains("dust", Lower(SOURCE_KEYWORDS[k]))
  {
    ForeignCharMiss("dust", SOURCE_KEYWORDS[14], 0);  // 'z'
    ForeignCharMiss("dust", SOURCE_KEYWORDS[15], 0);  // 'p'
    ForeignCharMiss("dust", SOURCE_KEYWORDS[16], 0);  // 'p'
    ForeignCharMiss("dust", SOURCE_KEYWORDS[17], 0);  // 'p'
  }

  lemma SourceKeywordsMissDustFrom18()
    ensures forall k :: 18 <= k < 22 ==> !Contains("dust", Lower(SOURCE_KEYWORDS[k]))
  {
    ForeignCharMiss("dust", SOURCE_KEYWORDS[18], 0);  // 'g'
    ForeignCharMiss("dust", SOURCE_KEYWORDS[19], 0);  // 'm'
    ForeignCharMiss("dust", SOURCE_KEYWORDS[20], 0);  // 'm'
    ForeignCharMiss("dust", SOURCE_KEYWORDS[21], 1);  // 'p'
  }

  lemma SourceKeywordsMissDustFrom22()
    ensures forall k :: 22 <= k < 26 ==> !Contains("dust", Lower(SOURCE_KEYWORDS[k]))
  {
    ForeignCharMiss("dust", SOURCE_KEYWORDS[22], 0);  // 'h'
    ForeignCharMiss("dust", SOURCE_KEYWORDS[23], 0);  // 'j'
    ForeignCharMiss("dust", SOURCE_KEYWORDS[24], 0);  // 'e'
    ForeignCharMiss("dust", SOURCE_KEYWORDS[25], 0);  // 'c'
  }

  /** With one keyword per literal, the same text is recognised by "Dust". */
  lemma IntendedKeywordsHitDust()
    ensures KeywordHit(INTENDED_KEYWORDS, "dust")
  {
    assert Lower(INTENDED_KEYWORDS[10]) == "dust";
    assert OccursAt("dust", "dust", 0);
  }

  /** A keyword with a character that the text lacks does not occur in it. */
  lemma ForeignCharMiss(text: string, kw: string, j: nat)
    requires j < |kw| && LowerChar(kw[j]) !in text
    ensures !Contains(text, Lower(kw))
  {
    AbsentChar(text, Lower(kw), j);
  }
}
