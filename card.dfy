/**
  The label and image choices of one gallery card (components/anime-card.tsx).
*/
module AnimeCard {
  import opened Js
  import opened Lists

  /** `/^\d+-\d+$/`: digits, one hyphen, digits. Digits hold no hyphen, so the
      first hyphen is the only one a match can use. */
  predicate IsSeasonRange(s: string) {
    '-' in s && IsDigits(s[..IndexOf(s, '-')]) && IsDigits(s[IndexOf(s, '-') + 1..])
  }

  /** The regular expression read directly: some split of `s` into digits,
      a hyphen and digits. */
  ghost predicate SplitsAsRange(s: string) {
    exists i :: 0 <= i < |s| && RangeAt(s, i)
  }

  predicate RangeAt(s: string, i: int)
    requires 0 <= i < |s|
  {
    s[i] == '-' && IsDigits(s[..i]) && IsDigits(s[i + 1..])
  }

  /** The first-hyphen test agrees with the regular expression. */
  lemma SeasonRangeIffSplits(s: string)
    ensures IsSeasonRange(s) <==> SplitsAsRange(s)
  {
    if IsSeasonRange(s) {
      assert RangeAt(s, IndexOf(s, '-'));
    }
    if SplitsAsRange(s) {
      var i :| 0 <= i < |s| && RangeAt(s, i);
      assert IndexOf(s, '-') == i;
    }
  }

  /** A range and a single season number are told apart by the hyphen. */
  lemma RangeIsNotNumber(s: string)
    ensures !(IsSeasonRange(s) && IsDigits(s))
  {
    if IsSeasonRange(s) {
      var j := IndexOf(s, '-');
      assert !IsDigit(s[j]);
    }
  }

  /** `seasonDisplay` */
  function SeasonDisplay(season: Option<string>): (r: string)
    ensures r == "" <==> season.None? || season.value == ""
    ensures season.Some? && season.value != "" ==>
      && (IsSeasonRange(season.value) <==> r == "Seasons " + season.value)
      && (IsDigits(season.value) <==> r == "Season " + season.value)
      && (!IsSeasonRange(season.value) && !IsDigits(season.value) <==> r == season.value)
  {
    match season
    case None => ""
    case Some(s) =>
      if s == "" then ""
      else if IsSeasonRange(s) then RangeIsNotNumber(s); "Seasons " + s
      else if IsDigits(s) then "Season " + s
      else s
  }

  /** A shown label always ends with the stored season text. */
  lemma SeasonDisplayEndsWithSeason(season: Option<string>)
    requires season.Some? && season.value != ""
    ensures var r := SeasonDisplay(season);
            |season.value| <= |r| && r[|r| - |season.value|..] == season.value
  {
  }

  /** "1-3" is a range of seasons. */
  lemma RangeExample()
    ensures SeasonDisplay(Some("1-3")) == "Seasons 1-3"
  {
    assert IndexOf("1-3", '-') == 1;
    assert "1-3"[..1] == "1" && "1-3"[2..] == "3";
  }

  /** "2" is a single season. */
  lemma NumberExample()
    ensures SeasonDisplay(Some("2")) == "Season 2"
  {
    assert '-' !in "2";
  }

  /** "Spring 2024" is kept as stored. */
  lemma VerbatimExample()
    ensures SeasonDisplay(Some("Spring 2024")) == "Spring 2024"
  {
    assert !IsDigit("Spring 2024"[0]);
    assert '-' !in "Spring 2024";
  }

  const Placeholder := "/placeholder.svg"

  /** `anime.imageUrl || "/placeholder.svg"` */
  function ImageSrc(imageUrl: string): (r: string)
    ensures r != ""
    ensures imageUrl != "" ==> r == imageUrl
    ensures imageUrl == "" ==> r == Placeholder
  {
    if Truthy(Str(imageUrl)) then imageUrl else Placeholder
  }
}
