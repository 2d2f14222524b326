/** The pure helpers of the utilities module: the genre colour classifier that
    tints the recommendation cards, and the required-column check that guards
    loading the two CSV tables. */
module Helpers {
  import opened Text
  import opened Tables

  /** One rule of the classifier: any of its keywords selects its colour. */
  datatype ColorRule = ColorRule(keywords: seq<string>, color: string)

  const DefaultColor: string := "#1c1c1e"

  /** The rules in the order the classifier tests them. */
  const ColorRules: seq<ColorRule> := [
    ColorRule(["romance"], "#ff4baf"),
    ColorRule(["action"], "#ff0000"),
    ColorRule(["comedy"], "#ff9500"),
    ColorRule(["horror"], "#6e0dd0"),
    ColorRule(["sci-fi", "scifi"], "#00bfff"),
    ColorRule(["drama"], "#ff69b4"),
    ColorRule(["fantasy"], "#9370db"),
    ColorRule(["mystery"], "#4b0082")
  ]

  /** The nine colours a card can take. */
  const Palette: set<string> := {
    "#ff4baf", "#ff0000", "#ff9500", "#6e0dd0", "#00bfff",
    "#ff69b4", "#9370db", "#4b0082", "#1c1c1e"
  }

  /** Some keyword of the rule occurs in the (lower-cased) genre text g. */
  predicate Fires(rule: ColorRule, g: string) {
    exists kw :: kw in rule.keywords && Contains(g, kw)
  }

  /** The reference classifier: the colour of the first rule that fires, or the
      default colour when none does. */
  function FirstMatch(rules: seq<ColorRule>, g: string): string {
    if |rules| == 0 then DefaultColor
    else if Fires(rules[0], g) then rules[0].color
    else FirstMatch(rules[1..], g)
  }

  /** genre_to_color: lower-case the genre text, then test the keywords in
      priority order. */
  function GenreToColor(genre: string): (color: string)
    ensures color in Palette
  {
    var g := Lower(genre);
    if Contains(g, "romance") then "#ff4baf"
    else if Contains(g, "action") then "#ff0000"
    else if Contains(g, "comedy") then "#ff9500"
    else if Contains(g, "horror") then "#6e0dd0"
    else if Contains(g, "sci-fi") || Contains(g, "scifi") then "#00bfff"
    else if Contains(g, "drama") then "#ff69b4"
    else if Contains(g, "fantasy") then "#9370db"
    else if Contains(g, "mystery") then "#4b0082"
    else "#1c1c1e"
  }

  /** The if-chain is the first-match rule table. */
  lemma GenreToColorFollowsRules(genre: string)
    ensures GenreToColor(genre) == FirstMatch(ColorRules, Lower(genre))
  {
    var g := Lower(genre);
    var r := ColorRules;
    FiresSingle(r[0], g);
    FiresSingle(r[1], g);
    FiresSingle(r[2], g);
    FiresSingle(r[3], g);
    FiresPair(r[4], g);
    FiresSingle(r[5], g);
    FiresSingle(r[6], g);
    FiresSingle(r[7], g);
    FirstMatchAt(r, 0, g);
    FirstMatchAt(r, 1, g);
    FirstMatchAt(r, 2, g);
    FirstMatchAt(r, 3, g);
    FirstMatchAt(r, 4, g);
    FirstMatchAt(r, 5, g);
    FirstMatchAt(r, 6, g);
    FirstMatchAt(r, 7, g);
    assert r[0..] == r && r[8..] == [];
  }

  /** A rule with one keyword fires exactly when that keyword occurs. */
  lemma FiresSingle(rule: ColorRule, g: string)
    requires |rule.keywords| == 1
    ensures Fires(rule, g) <==> Contains(g, rule.keywords[0])
  {
    assert rule.keywords[0] in rule.keywords;
  }

  /** A rule with two keywords fires exactly when either occurs. */
  lemma FiresPair(rule: ColorRule, g: string)
    requires |rule.keywords| == 2
    ensures Fires(rule, g) <==> Contains(g, rule.keywords[0]) || Contains(g, rule.keywords[1])
  {
    assert rule.keywords[0] in rule.keywords && rule.keywords[1] in rule.keywords;
  }

  /** One step of the first-match scan from rule i on. */
  lemma FirstMatchAt(rules: seq<ColorRule>, i: nat, g: string)
    requires i < |rules|
    ensures FirstMatch(rules[i..], g) == if Fires(rules[i], g) then rules[i].color else FirstMatch(rules[i + 1..], g)
  {
    assert rules[i..][0] == rules[i] && rules[i..][1..] == rules[i + 1..];
  }

  /** The first-match classifier answers the default or some rule's colour. */
  lemma {:induction false} FirstMatchRange(rules: seq<ColorRule>, g: string)
    ensures FirstMatch(rules, g) == DefaultColor
         || exists i :: 0 <= i < |rules| && FirstMatch(rules, g) == rules[i].color
  {
    if |rules| > 0 && !Fires(rules[0], g) {
      FirstMatchRange(rules[1..], g);
      if FirstMatch(rules, g) != DefaultColor {
        var i :| 0 <= i < |rules[1..]| && FirstMatch(rules, g) == rules[1..][i].color;
        assert rules[1..][i] == rules[i + 1];
      }
    }
  }

  predicate DistinctColors(rules: seq<ColorRule>) {
    forall i, j :: 0 <= i < j < |rules| ==> rules[i].color != rules[j].color
  }

  /** With distinct colours, the first-match classifier picks the colour of rule
      k exactly when rule k fires and no earlier rule does. */
  lemma {:induction false} FirstMatchPriority(rules: seq<ColorRule>, g: string, k: nat)
    requires k < |rules|
    requires DistinctColors(rules)
    requires forall i :: 0 <= i < |rules| ==> rules[i].color != DefaultColor
    ensures FirstMatch(rules, g) == rules[k].color
        <==> Fires(rules[k], g) && forall j :: 0 <= j < k ==> !Fires(rules[j], g)
  {
    if !Fires(rules[0], g) && |rules| > 1 {
      FirstMatchRange(rules[1..], g);
      if FirstMatch(rules, g) != DefaultColor {
        var i :| 0 <= i < |rules[1..]| && FirstMatch(rules, g) == rules[1..][i].color;
        assert rules[1..][i] == rules[i + 1];
      }
    }
    if k > 0 && !Fires(rules[0], g) {
      var t := rules[1..];
      assert forall i :: 0 <= i < |t| ==> t[i] == rules[i + 1];
      FirstMatchPriority(t, g, k - 1);
      assert forall j :: 0 <= j < k ==> (j == 0 || rules[j] == t[j - 1]);
    }
  }

  /** Without any firing rule the classifier falls back to the default colour,
      and only then. */
  lemma {:induction false} FirstMatchDefault(rules: seq<ColorRule>, g: string)
    requires forall i :: 0 <= i < |rules| ==> rules[i].color != DefaultColor
    ensures FirstMatch(rules, g) == DefaultColor
        <==> forall j :: 0 <= j < |rules| ==> !Fires(rules[j], g)
  {
    if |rules| > 0 && !Fires(rules[0], g) {
      var t := rules[1..];
      assert forall i :: 0 <= i < |t| ==> t[i] == rules[i + 1];
      FirstMatchDefault(t, g);
      assert forall j :: 0 < j < |rules| ==> rules[j] == t[j - 1];
    }
  }

  /** The colour of rule k is chosen exactly when one of its keywords occurs in
      the lower-cased genre and no keyword of an earlier rule does. */
  lemma GenreToColorPriority(genre: string, k: nat)
    requires k < |ColorRules|
    ensures GenreToColor(genre) == ColorRules[k].color
        <==> Fires(ColorRules[k], Lower(genre))
             && forall j :: 0 <= j < k ==> !Fires(ColorRules[j], Lower(genre))
  {
    GenreToColorFollowsRules(genre);
    ColorRulesDistinct();
    FirstMatchPriority(ColorRules, Lower(genre), k);
  }

  /** The rule colours differ from each other and from the default. */
  lemma ColorRulesDistinct()
    ensures DistinctColors(ColorRules)
    ensures forall i :: 0 <= i < |ColorRules| ==> ColorRules[i].color != DefaultColor
  {
  }

  /** The default colour is chosen exactly when no keyword occurs. */
  lemma GenreToColorDefault(genre: string)
    ensures GenreToColor(genre) == DefaultColor
        <==> forall j :: 0 <= j < |ColorRules| ==> !Fires(ColorRules[j], Lower(genre))
  {
    GenreToColorFollowsRules(genre);
    ColorRulesDistinct();
    FirstMatchDefault(ColorRules, Lower(genre));
  }

  /** "romance" anywhere in the genre text wins over every other keyword. */
  lemma RomanceWins(genre: string)
    requires Contains(Lower(genre), "romance")
    ensures GenreToColor(genre) == "#ff4baf"
  {
  }

  /** Both spellings of science fiction select the same colour, unless an
      earlier keyword occurs. */
  lemma SciFiSpellings(genre: string)
    requires Contains(Lower(genre), "sci-fi") || Contains(Lower(genre), "scifi")
    requires forall j :: 0 <= j < 4 ==> !Fires(ColorRules[j], Lower(genre))
    ensures GenreToColor(genre) == "#00bfff"
  {
    GenreToColorPriority(genre, 4);
    assert ColorRules[4].keywords == ["sci-fi", "scifi"];
  }

  /** The classifier ignores letter case: texts that agree after lower-casing
      get the same colour. */
  lemma GenreToColorCaseInsensitive(a: string, b: string)
    requires Lower(a) == Lower(b)
    ensures GenreToColor(a) == GenreToColor(b)
  {
  }

  /** The required columns absent from a header, in required order. */
  function MissingColumns(required: seq<string>, header: seq<string>): (missing: seq<string>)
    ensures Subseq(missing, required)
    ensures forall c :: c in missing <==> c in required && c !in header
    ensures |missing| == 0 <==> forall c :: c in required ==> c in header
  {
    if |required| == 0 then []
    else if required[0] in header then MissingColumns(required[1..], header)
    else [required[0]] + MissingColumns(required[1..], header)
  }

  const RequiredAnimeColumns: seq<string> := ["anime_id", "title", "genre"]
  const RequiredRatingsColumns: seq<string> := ["user_id", "anime_id", "rating"]

  /** The column validation of load_and_merge_data over the two CSV headers. */
  function ValidateColumns(animeHeader: seq<string>, ratingsHeader: seq<string>): (r: Outcome)
    ensures r == Pass <==> (forall c :: c in RequiredAnimeColumns ==> c in animeHeader)
                           && (forall c :: c in RequiredRatingsColumns ==> c in ratingsHeader)
  {
    var missingAnime := MissingColumns(RequiredAnimeColumns, animeHeader);
    var missingRatings := MissingColumns(RequiredRatingsColumns, ratingsHeader);
    if |missingAnime| > 0 then
      Fail("Missing columns in anime.csv: " + Join(missingAnime, ", "))
    else if |missingRatings| > 0 then
      Fail("Missing columns in ratings.csv: " + Join(missingRatings, ", "))
    else Pass
  }

  /** Anime columns are reported first: while any is missing, the message names
      them and the ratings header plays no part. */
  lemma AnimeColumnsReportedFirst(animeHeader: seq<string>, ratingsHeader: seq<string>, otherRatingsHeader: seq<string>)
    requires exists c :: c in RequiredAnimeColumns && c !in animeHeader
    ensures ValidateColumns(animeHeader, ratingsHeader)
         == ValidateColumns(animeHeader, otherRatingsHeader)
         == Fail("Missing columns in anime.csv: " + Join(MissingColumns(RequiredAnimeColumns, animeHeader), ", "))
  {
  }

  /** The ratings header is checked once the anime header is complete. */
  lemma RatingsColumnsCheckedSecond(animeHeader: seq<string>, ratingsHeader: seq<string>)
    requires forall c :: c in RequiredAnimeColumns ==> c in animeHeader
    requires exists c :: c in RequiredRatingsColumns && c !in ratingsHeader
    ensures ValidateColumns(animeHeader, ratingsHeader)
         == Fail("Missing columns in ratings.csv: " + Join(MissingColumns(RequiredRatingsColumns, ratingsHeader), ", "))
  {
  }
}
