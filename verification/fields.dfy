/**
 The field extraction of the scraper: from a parsed trail page to the hike's record.
 The HTML parser and its CSS selector engine are not modelled; a page is what they answer:
 the element the first `select_one` hit gives for a selector, and the page's spans in document
 order for the reviews search.
 */
module FieldExtractor {
  import opened Text

  /** What a hike record holds; a fresh record has every text empty and no features.
      The features are a set: the scraper collects them in a set and returns them in no
      particular order. */
  datatype HikeData = HikeData(
    name: string,
    location: string,
    difficulty: string,
    length: string,
    elevationGain: string,
    routeType: string,
    rating: string,
    reviewsCount: string,
    description: string,
    features: set<string>)

  const EmptyHike: HikeData := HikeData("", "", "", "", "", "", "", "", "", {})

  /** A direct child of an element: its tag name ("" for a text node) and its stripped text. */
  datatype Child = Child(tag: string, text: string)

  /** An element a selector found: its stripped text, its direct children, and the stripped
      texts of the `div` and `span` nodes inside it whose class mentions "stat", in document
      order. */
  datatype Element = Element(text: string, children: seq<Child>, statTexts: seq<string>)

  /** A span of the page through its `.string`: its only string when it has exactly one
      (`None` otherwise). When a span has one, that string is all of its text. */
  datatype Span = Span(only: Option<string>)

  /** A parsed page: the element each selector finds first, if any, and the spans in order. */
  datatype Page = Page(select: map<string, Element>, spans: seq<Span>)

  const NameSelectors: seq<string> :=
    ["h1", "[data-testid=\"trail-title\"]", ".styles-module__title___2JX0j", "h1[class*=\"title\"]"]
  const LocationSelectors: seq<string> :=
    ["div[class*=\"location\"]", "[data-testid=\"location\"]", ".styles-module__location___2X7Xl", "p[class*=\"location\"]"]
  const StatsSelectors: seq<string> :=
    ["div[class*=\"trailStats\"]", "div[class*=\"stat\"]", "[data-testid=\"trail-stats\"]", ".styles-module__trailStats___2JX0j"]
  const RatingSelectors: seq<string> :=
    ["span[class*=\"rating\"]", "[data-testid=\"rating\"]", ".styles-module__rating___1WBrE", "span[class*=\"star\"]"]
  const DescriptionSelectors: seq<string> :=
    ["div[class*=\"description\"]", "[data-testid=\"description\"]", ".styles-module__description___2X7Xl", "p[class*=\"description\"]"]
  const FeatureSelectors: seq<string> :=
    ["div[class*=\"tags\"]", "[data-testid=\"tags\"]", ".styles-module__tags___3J6Xj", "div[class*=\"features\"]"]

  /** The tags whose direct children count as features. */
  const FeatureTags: set<string> := {"span", "div", "a"}

  /** The index of the first element of `xs` that `p` accepts. */
  function FirstWhere<T>(xs: seq<T>, p: T -> bool): (r: Option<nat>)
    ensures r.Some? ==> r.value < |xs| && p(xs[r.value]) && forall j :: 0 <= j < r.value ==> !p(xs[j])
    ensures r.None? ==> forall j :: 0 <= j < |xs| ==> !p(xs[j])
  {
    if xs == [] then None
    else if p(xs[0]) then Some(0)
    else match FirstWhere(xs[1..], p) {
      case None => None
      case Some(k) => Some(k + 1)
    }
  }

  /** The first selector of the list, in order, that finds an element on the page. */
  predicate FirstFound(page: Page, selectors: seq<string>, i: int) {
    0 <= i < |selectors| && selectors[i] in page.select
    && forall j :: 0 <= j < i ==> selectors[j] !in page.select
  }

  /** The element of the first selector in the list that finds one: there is one exactly when
      some selector finds something, and later selectors are never consulted. */
  function FirstMatch(page: Page, selectors: seq<string>): (r: Option<Element>)
    ensures r.None? <==> forall j :: 0 <= j < |selectors| ==> selectors[j] !in page.select
    ensures forall i :: FirstFound(page, selectors, i) ==> r == Some(page.select[selectors[i]])
  {
    match FirstWhere(selectors, s => s in page.select) {
      case None => None
      case Some(i) => Some(page.select[selectors[i]])
    }
  }

  /** The text of the first selector's element that is found, or "" when none is: how the
      name, the location, the rating and the description are read. A found element wins even
      when its text is empty. */
  function FirstMatchText(page: Page, selectors: seq<string>): (r: string)
    ensures (forall j :: 0 <= j < |selectors| ==> selectors[j] !in page.select) ==> r == ""
    ensures forall i :: FirstFound(page, selectors, i) ==> r == page.select[selectors[i]].text
  {
    match FirstMatch(page, selectors) {
      case None => ""
      case Some(e) => e.text
    }
  }

  /** The field a stat node's text fills, if any. */
  datatype StatField = Difficulty | Length | ElevationGain

  /** The stat classification, checked in this order on the lower-cased text: "difficulty";
      else "mi" or "km"; else "ft" or "m". */
  function Classify(text: string): (r: Option<StatField>)
    ensures r == Some(Difficulty) <==> Contains(Lower(text), "difficulty")
    ensures r == Some(Length) <==>
      !Contains(Lower(text), "difficulty") && (Contains(Lower(text), "mi") || Contains(Lower(text), "km"))
    ensures r == Some(ElevationGain) <==>
      && !Contains(Lower(text), "difficulty") && !Contains(Lower(text), "mi") && !Contains(Lower(text), "km")
      && (Contains(Lower(text), "ft") || Contains(Lower(text), "m"))
  {
    var t := Lower(text);
    if Contains(t, "difficulty") then Some(Difficulty)
    else if Contains(t, "mi") || Contains(t, "km") then Some(Length)
    else if Contains(t, "ft") || Contains(t, "m") then Some(ElevationGain)
    else None
  }

  /** A text is classified exactly when it holds "difficulty", "km", "ft" or just an "m",
      in any case: "mi" needs no test of its own, since it holds an "m". */
  lemma ClassifiedIff(text: string)
    ensures Classify(text).Some? <==>
      var t := Lower(text);
      Contains(t, "difficulty") || Contains(t, "km") || Contains(t, "ft") || Contains(t, "m")
  {
    var t := Lower(text);
    if Contains(t, "mi") {
      var i :| 0 <= i <= |t| - 2 && OccursAt(t, "mi", i);
      assert t[i..i + 1] == t[i..i + 2][..1];
      assert OccursAt(t, "m", i);
    }
  }

  /** Classification ignores case. */
  lemma ClassifyIgnoresCase(text: string)
    ensures Classify(Lower(text)) == Classify(text)
  {
    LowerIdempotent(text);
  }

  /** Difficulty, length and elevation gain, as the stats section gives them. */
  datatype Stats = Stats(difficulty: string, length: string, elevationGain: string)

  const NoStats: Stats := Stats("", "", "")

  function Field(s: Stats, f: StatField): string {
    match f
    case Difficulty => s.difficulty
    case Length => s.length
    case ElevationGain => s.elevationGain
  }

  /** `s` with field `f` set to `v`. */
  function SetField(s: Stats, f: StatField, v: string): (r: Stats)
    ensures Field(r, f) == v
    ensures forall g :: g != f ==> Field(r, g) == Field(s, g)
  {
    match f
    case Difficulty => s.(difficulty := v)
    case Length => s.(length := v)
    case ElevationGain => s.(elevationGain := v)
  }

  /** The loop over the stat nodes, front to back: each classified text overwrites its field. */
  function FoldStats(acc: Stats, texts: seq<string>): (r: Stats)
    ensures forall f :: Field(r, f) == Field(acc, f) || Classify(Field(r, f)) == Some(f)
    decreases |texts|
  {
    if texts == [] then acc
    else
      var next := match Classify(texts[0]) {
        case None => acc
        case Some(f) => SetField(acc, f, texts[0])
      };
      FoldStats(next, texts[1..])
  }

  /** The last text of the list that falls in field `f`, read from the back. */
  function LastOfField(texts: seq<string>, f: StatField): Option<string> {
    if texts == [] then None
    else if Classify(texts[|texts| - 1]) == Some(f) then Some(texts[|texts| - 1])
    else LastOfField(texts[..|texts| - 1], f)
  }

  lemma {:induction false} FoldStatsAppend(acc: Stats, texts: seq<string>, t: string)
    ensures FoldStats(acc, texts + [t]) ==
      match Classify(t) {
        case None => FoldStats(acc, texts)
        case Some(f) => SetField(FoldStats(acc, texts), f, t)
      }
    decreases |texts|
  {
    if texts == [] {
      assert [] + [t] == [t];
    } else {
      var next := match Classify(texts[0]) {
        case None => acc
        case Some(f) => SetField(acc, f, texts[0])
      };
      assert (texts + [t])[1..] == texts[1..] + [t];
      FoldStatsAppend(next, texts[1..], t);
    }
  }

  /** Each field ends up holding the last text classified into it, and keeps its starting value
      when no text is: later nodes overwrite earlier ones. */
  lemma {:induction false} FoldStatsKeepsLast(acc: Stats, texts: seq<string>, f: StatField)
    ensures Field(FoldStats(acc, texts), f) ==
      match LastOfField(texts, f) {
        case None => Field(acc, f)
        case Some(t) => t
      }
    decreases |texts|
  {
    if texts != [] {
      var front, t := texts[..|texts| - 1], texts[|texts| - 1];
      assert texts == front + [t];
      FoldStatsAppend(acc, front, t);
      FoldStatsKeepsLast(acc, front, f);
    }
  }

  /** `_extract_stats`: only the first container a selector finds is read, even when it yields
      nothing; with no container every field is empty. */
  function ExtractStats(page: Page): (r: Stats)
    ensures forall f :: Field(r, f) == "" || Classify(Field(r, f)) == Some(f)
  {
    match FirstMatch(page, StatsSelectors) {
      case None => NoStats
      case Some(e) => FoldStats(NoStats, e.statTexts)
    }
  }

  /** `_extract_features`' loop: the texts of the `span`, `div` and `a` children that are longer
      than one character. */
  function CollectFeatures(children: seq<Child>): (r: set<string>)
    ensures forall t :: t in r ==> |t| > 1
    decreases |children|
  {
    if children == [] then {}
    else
      var c := children[0];
      var rest := CollectFeatures(children[1..]);
      if c.tag in FeatureTags && |c.text| > 1 then {c.text} + rest else rest
  }

  /** A text is a feature exactly when some direct `span`, `div` or `a` child carries it and it
      is longer than one character; duplicates collapse. */
  lemma {:induction false} CollectFeaturesIff(children: seq<Child>, t: string)
    ensures t in CollectFeatures(children) <==>
      |t| > 1 && exists i :: 0 <= i < |children| && children[i].tag in FeatureTags && children[i].text == t
    decreases |children|
  {
    if children != [] {
      CollectFeaturesIff(children[1..], t);
      if t in CollectFeatures(children[1..]) {
        var i :| 0 <= i < |children[1..]| && children[1..][i].tag in FeatureTags && children[1..][i].text == t;
        assert children[i + 1] == children[1..][i];
      }
      if exists i :: 0 <= i < |children| && children[i].tag in FeatureTags && children[i].text == t {
        var i :| 0 <= i < |children| && children[i].tag in FeatureTags && children[i].text == t;
        if i > 0 {
          assert children[1..][i - 1] == children[i];
        }
      }
    }
  }

  /** `_extract_features`: the features of the first container a selector finds, none without. */
  function ExtractFeatures(page: Page): (r: set<string>)
    ensures forall i :: FirstFound(page, FeatureSelectors, i) ==>
      r == CollectFeatures(page.select[FeatureSelectors[i]].children)
    ensures (forall j :: 0 <= j < |FeatureSelectors| ==> FeatureSelectors[j] !in page.select) ==> r == {}
  {
    match FirstMatch(page, FeatureSelectors) {
      case None => {}
      case Some(e) => CollectFeatures(e.children)
    }
  }

  /** Reading the stats takes the first container a selector finds, and nothing else: each
      field holds the last of that container's stat texts classified into it, or "" when none
      is, even if a later selector would find a container with stats. */
  lemma StatsOfFirstContainer(page: Page, i: nat, f: StatField)
    requires FirstFound(page, StatsSelectors, i)
    ensures Field(ExtractStats(page), f) ==
      match LastOfField(page.select[StatsSelectors[i]].statTexts, f) {
        case None => ""
        case Some(t) => t
      }
  {
    FoldStatsKeepsLast(NoStats, page.select[StatsSelectors[i]].statTexts, f);
  }

  /** A stat text that says "Moderate" holds an "m" and neither "difficulty", "mi" nor "km",
      so it is read as the elevation gain. */
  lemma ModerateIsElevation()
    ensures Classify("Moderate") == Some(ElevationGain)
  {
    var t := Lower("Moderate");
    assert t == "moderate";
    assert OccursAt(t, "m", 0);
    assert !Contains(t, "difficulty");
    forall i | 0 <= i <= |t| - 2
      ensures !OccursAt(t, "mi", i) && !OccursAt(t, "km", i)
    {
      assert t[i..i + 2][0] == t[i] && t[i..i + 2][1] == t[i + 1];
    }
  }

  /** "45 min" holds "mi", so a duration is read as the length. */
  lemma MinutesAreLength()
    ensures Classify("45 min") == Some(Length)
  {
    var t := Lower("45 min");
    assert t == "45 min";
    assert OccursAt(t, "mi", 3);
  }

  /** "5.2 km" holds an "m" as well as "km", and is read as the length: the length test comes
      before the elevation test. */
  lemma KilometresAreLength()
    ensures Classify("5.2 km") == Some(Length)
  {
    var t := Lower("5.2 km");
    assert t == "5.2 km";
    assert OccursAt(t, "km", 4);
  }

  /** "difficulty" is looked for first: a text that opens with "Difficulty" is read as the
      difficulty whatever follows, a length in miles or an elevation in feet included. */
  lemma DifficultyWins(rest: string)
    ensures Classify("Difficulty" + rest) == Some(Difficulty)
  {
    LowerAppend("Difficulty", rest);
    var t := Lower("Difficulty" + rest);
    assert Lower("Difficulty") == "difficulty";
    assert t[0..10] == "difficulty";
    assert OccursAt(t, "difficulty", 0);
  }

  /** The worked case: "Difficulty: Moderate 3 mi" is read as the difficulty, not the length. */
  lemma DifficultyExample()
    ensures Classify("Difficulty: Moderate 3 mi") == Some(Difficulty)
  {
    DifficultyWins(": Moderate 3 mi");
    assert "Difficulty" + ": Moderate 3 mi" == "Difficulty: Moderate 3 mi";
  }

  /** The features are the texts, longer than one character, of the direct `span`, `div` and
      `a` children of the first container a selector finds. */
  lemma FeaturesOfFirstContainer(page: Page, i: nat, t: string)
    requires FirstFound(page, FeatureSelectors, i)
    ensures t in ExtractFeatures(page) <==>
      var cs := page.select[FeatureSelectors[i]].children;
      |t| > 1 && exists k :: 0 <= k < |cs| && cs[k].tag in FeatureTags && cs[k].text == t
  {
    CollectFeaturesIff(page.select[FeatureSelectors[i]].children, t);
  }

  /** Two children with the same text give a single feature. */
  lemma DuplicateFeaturesCollapse(a: Child, b: Child)
    requires a.text == b.text && a.tag in FeatureTags && b.tag in FeatureTags && |a.text| > 1
    ensures CollectFeatures([a, b]) == {a.text}
  {
    assert [a, b][1..] == [b];
    assert [b][1..] == [];
    assert CollectFeatures([b]) == {b.text};
  }

  /** The pattern `\d+ reviews`, searched anywhere: a digit right before " reviews". */
  predicate CountThenReviews(s: string) {
    exists i | 0 <= i < |s| :: IsDigit(s[i]) && OccursAt(s, " reviews", i + 1)
  }

  /** The pattern `\d+.*review`, searched anywhere: a digit, then characters other than a
      newline, then "review". */
  predicate CountThenReview(s: string) {
    exists i, j | 0 <= i < j <= |s| :: IsDigit(s[i]) && OccursAt(s, "review", j) && '\n' !in s[i + 1..j]
  }

  /** Whatever the first pattern finds, the second finds too. */
  lemma ReviewsPatternsNested(s: string)
    requires CountThenReviews(s)
    ensures CountThenReview(s)
  {
    var i :| 0 <= i < |s| && IsDigit(s[i]) && OccursAt(s, " reviews", i + 1);
    var w := s[i + 1..i + 9];
    assert w == " reviews";
    forall m | 0 <= m < 6
      ensures s[i + 2..i + 8][m] == "review"[m]
    {
      assert s[i + 2 + m] == w[1 + m];
    }
    assert s[i + 1] == w[0] == ' ';
    assert s[i + 1..i + 2] == [s[i + 1]];
    assert 0 <= i < i + 2 <= |s| && IsDigit(s[i]) && OccursAt(s, "review", i + 2) && '\n' !in s[i + 1..i + 2];
  }

  predicate SpanMatches(sp: Span, pattern: string -> bool) {
    sp.only.Some? && pattern(sp.only.value)
  }

  /** A string that holds a digit strips to something non-empty. */
  lemma DigitSurvivesStrip(s: string, i: nat)
    requires i < |s| && IsDigit(s[i])
    ensures Strip(s) != []
  {
    StripEmptyIff(s);
  }

  /** `_extract_reviews_count`: the stripped text of the first span whose only string matches
      `\d+ reviews`; only when none does, of the first that matches `\d+.*review`; else "". */
  function ExtractReviewsCount(page: Page): (r: string)
    ensures r != "" ==> exists k :: 0 <= k < |page.spans| && page.spans[k].only.Some? && r == Strip(page.spans[k].only.value)
  {
    match FirstWhere(page.spans, sp => SpanMatches(sp, CountThenReviews)) {
      case Some(k) => Strip(page.spans[k].only.value)
      case None =>
        match FirstWhere(page.spans, sp => SpanMatches(sp, CountThenReview)) {
          case Some(k) => Strip(page.spans[k].only.value)
          case None => ""
        }
    }
  }

  /** The reviews count is empty exactly when no span's only string matches the looser
      pattern: a match of either pattern holds a digit, which survives stripping. */
  lemma ReviewsCountEmptyIff(page: Page)
    ensures ExtractReviewsCount(page) == "" <==>
      forall k :: 0 <= k < |page.spans| ==> !SpanMatches(page.spans[k], CountThenReview)
  {
    match FirstWhere(page.spans, sp => SpanMatches(sp, CountThenReviews)) {
      case Some(k) =>
        var s := page.spans[k].only.value;
        ReviewsPatternsNested(s);
        var i :| 0 <= i < |s| && IsDigit(s[i]) && OccursAt(s, " reviews", i + 1);
        DigitSurvivesStrip(s, i);
      case None =>
        match FirstWhere(page.spans, sp => SpanMatches(sp, CountThenReview)) {
          case Some(k) =>
            var s := page.spans[k].only.value;
            var i, j :| 0 <= i < j <= |s| && IsDigit(s[i]) && OccursAt(s, "review", j) && '\n' !in s[i + 1..j];
            DigitSurvivesStrip(s, i);
          case None =>
        }
    }
  }

  /** A span matching `\d+ reviews` wins over every span that only matches the looser
      pattern, wherever those stand. */
  lemma ExactReviewsPatternFirst(page: Page, k: nat)
    requires k < |page.spans| && SpanMatches(page.spans[k], CountThenReviews)
    requires forall j :: 0 <= j < k ==> !SpanMatches(page.spans[j], CountThenReviews)
    ensures ExtractReviewsCount(page) == Strip(page.spans[k].only.value)
  {
    var r := FirstWhere(page.spans, sp => SpanMatches(sp, CountThenReviews));
    assert r.Some?;
    assert r.value == k;
  }

  /** Only when no span matches `\d+ reviews` does the looser pattern decide. */
  lemma LooseReviewsPatternFallback(page: Page, k: nat)
    requires forall j :: 0 <= j < |page.spans| ==> !SpanMatches(page.spans[j], CountThenReviews)
    requires k < |page.spans| && SpanMatches(page.spans[k], CountThenReview)
    requires forall j :: 0 <= j < k ==> !SpanMatches(page.spans[j], CountThenReview)
    ensures ExtractReviewsCount(page) == Strip(page.spans[k].only.value)
  {
    var r := FirstWhere(page.spans, sp => SpanMatches(sp, CountThenReview));
    assert r.Some?;
    assert r.value == k;
  }

  /** `_extract_name`: the text of the element the first finding name selector gives, or ""
      when none finds one. */
  function ExtractName(page: Page): (r: string)
    ensures forall i :: FirstFound(page, NameSelectors, i) ==> r == page.select[NameSelectors[i]].text
    ensures (forall j :: 0 <= j < |NameSelectors| ==> NameSelectors[j] !in page.select) ==> r == ""
  {
    FirstMatchText(page, NameSelectors)
  }

  /** `_extract_location`, over the location selectors. */
  function ExtractLocation(page: Page): (r: string)
    ensures forall i :: FirstFound(page, LocationSelectors, i) ==> r == page.select[LocationSelectors[i]].text
    ensures (forall j :: 0 <= j < |LocationSelectors| ==> LocationSelectors[j] !in page.select) ==> r == ""
  {
    FirstMatchText(page, LocationSelectors)
  }

  /** `_extract_rating`, over the rating selectors. */
  function ExtractRating(page: Page): (r: string)
    ensures forall i :: FirstFound(page, RatingSelectors, i) ==> r == page.select[RatingSelectors[i]].text
    ensures (forall j :: 0 <= j < |RatingSelectors| ==> RatingSelectors[j] !in page.select) ==> r == ""
  {
    FirstMatchText(page, RatingSelectors)
  }

  /** `_extract_description`, over the description selectors. */
  function ExtractDescription(page: Page): (r: string)
    ensures forall i :: FirstFound(page, DescriptionSelectors, i) ==> r == page.select[DescriptionSelectors[i]].text
    ensures (forall j :: 0 <= j < |DescriptionSelectors| ==> DescriptionSelectors[j] !in page.select) ==> r == ""
  {
    FirstMatchText(page, DescriptionSelectors)
  }

  /** `_extract_hike_data`: every field of the record from its own extractor. */
  function ExtractHikeData(page: Page): (r: HikeData)
    ensures r.routeType == ""
  {
    var stats := ExtractStats(page);
    HikeData(
      ExtractName(page),
      ExtractLocation(page),
      stats.difficulty,
      stats.length,
      stats.elevationGain,
      "",
      ExtractRating(page),
      ExtractReviewsCount(page),
      ExtractDescription(page),
      ExtractFeatures(page))
  }

  /** The stat field `f` of a record. */
  function HikeStat(h: HikeData, f: StatField): string {
    match f
    case Difficulty => h.difficulty
    case Length => h.length
    case ElevationGain => h.elevationGain
  }

  /** The record's name is the text of the element the first finding name selector gives,
      or "" when none finds one; likewise the location, rating and description below. */
  lemma HikeName(page: Page)
    ensures forall i :: FirstFound(page, NameSelectors, i) ==>
      ExtractHikeData(page).name == page.select[NameSelectors[i]].text
    ensures (forall j :: 0 <= j < |NameSelectors| ==> NameSelectors[j] !in page.select) ==>
      ExtractHikeData(page).name == ""
  {
  }

  lemma HikeLocation(page: Page)
    ensures forall i :: FirstFound(page, LocationSelectors, i) ==>
      ExtractHikeData(page).location == page.select[LocationSelectors[i]].text
    ensures (forall j :: 0 <= j < |LocationSelectors| ==> LocationSelectors[j] !in page.select) ==>
      ExtractHikeData(page).location == ""
  {
  }

  lemma HikeRating(page: Page)
    ensures forall i :: FirstFound(page, RatingSelectors, i) ==>
      ExtractHikeData(page).rating == page.select[RatingSelectors[i]].text
    ensures (forall j :: 0 <= j < |RatingSelectors| ==> RatingSelectors[j] !in page.select) ==>
      ExtractHikeData(page).rating == ""
  {
  }

  lemma HikeDescription(page: Page)
    ensures forall i :: FirstFound(page, DescriptionSelectors, i) ==>
      ExtractHikeData(page).description == page.select[DescriptionSelectors[i]].text
    ensures (forall j :: 0 <= j < |DescriptionSelectors| ==> DescriptionSelectors[j] !in page.select) ==>
      ExtractHikeData(page).description == ""
  {
  }

  /** Each stat field of the record holds the last stat text of the first stats container that
      is classified into it, or "" when none is. */
  lemma HikeStatFields(page: Page, i: nat, f: StatField)
    requires FirstFound(page, StatsSelectors, i)
    ensures HikeStat(ExtractHikeData(page), f) ==
      match LastOfField(page.select[StatsSelectors[i]].statTexts, f) {
        case None => ""
        case Some(t) => t
      }
  {
    StatsOfFirstContainer(page, i, f);
    HikeStatIsStat(page, f);
  }

  /** With no stats container, every stat field of the record is empty. */
  lemma HikeNoStats(page: Page, f: StatField)
    requires forall j :: 0 <= j < |StatsSelectors| ==> StatsSelectors[j] !in page.select
    ensures HikeStat(ExtractHikeData(page), f) == ""
  {
    HikeStatIsStat(page, f);
    NoStatsContainer(page, f);
  }

  /** A stat field of the record is that field of the stats read from the page. */
  lemma HikeStatIsStat(page: Page, f: StatField)
    ensures HikeStat(ExtractHikeData(page), f) == Field(ExtractStats(page), f)
  {
  }

  /** With no stats container, every stat field is empty. */
  lemma NoStatsContainer(page: Page, f: StatField)
    requires forall j :: 0 <= j < |StatsSelectors| ==> StatsSelectors[j] !in page.select
    ensures Field(ExtractStats(page), f) == ""
  {
    assert FirstMatch(page, StatsSelectors) == None;
  }

  /** The record's features are the texts, longer than one character, of the direct `span`,
      `div` and `a` children of the first features container a selector finds. */
  lemma HikeFeatures(page: Page, i: nat, t: string)
    requires FirstFound(page, FeatureSelectors, i)
    ensures t in ExtractHikeData(page).features <==>
      var cs := page.select[FeatureSelectors[i]].children;
      |t| > 1 && exists k :: 0 <= k < |cs| && cs[k].tag in FeatureTags && cs[k].text == t
  {
    FeaturesOfFirstContainer(page, i, t);
    HikeFeaturesAreFeatures(page);
  }

  /** The record's features are the ones read from the page. */
  lemma HikeFeaturesAreFeatures(page: Page)
    ensures ExtractHikeData(page).features == ExtractFeatures(page)
  {
  }

  /** The record's reviews count is the stripped text of the first span whose only string
      matches `\d+ reviews`, whenever one does. */
  lemma HikeReviewsCount(page: Page, k: nat)
    requires k < |page.spans| && SpanMatches(page.spans[k], CountThenReviews)
    requires forall j :: 0 <= j < k ==> !SpanMatches(page.spans[j], CountThenReviews)
    ensures ExtractHikeData(page).reviewsCount == Strip(page.spans[k].only.value)
  {
    ExactReviewsPatternFirst(page, k);
    HikeReviewsIsReviews(page);
  }

  /** The record's reviews count is the one read from the page's spans. */
  lemma HikeReviewsIsReviews(page: Page)
    ensures ExtractHikeData(page).reviewsCount == ExtractReviewsCount(page)
  {
  }

  /** The record's reviews count is empty exactly when no span's only string matches the
      looser pattern. */
  lemma HikeReviewsCountEmptyIff(page: Page)
    ensures ExtractHikeData(page).reviewsCount == "" <==>
      forall k :: 0 <= k < |page.spans| ==> !SpanMatches(page.spans[k], CountThenReview)
  {
    ReviewsCountEmptyIff(page);
    HikeReviewsIsReviews(page);
  }

  /** A page where no selector finds anything and no span has a single string gives a fresh
      record: all texts empty and no features. */
  lemma BlankPageGivesEmptyHike(page: Page)
    requires page.select == map[]
    requires forall k :: 0 <= k < |page.spans| ==> page.spans[k].only.None?
    ensures ExtractHikeData(page) == EmptyHike
  {
  }
}
