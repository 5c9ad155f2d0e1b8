/**
  The home page's list pipeline (app/page.tsx): filter by name and language,
  split off the featured entries, order both parts, concatenate, and group the
  result by language. `Math.random` is replaced by a sequence of picks.
*/
module Gallery {
  import opened Js
  import opened Lists
  import opened Catalog

  // ---------------------------------------------------------------------------
  // Filter

  /** The name contains the search text, ignoring case. */
  predicate MatchesSearch(e: Entry, searchTerm: string) {
    Includes(ToLower(e.name), ToLower(searchTerm))
  }

  /** "all" selects every language; any other choice must equal the stored language. */
  predicate MatchesLanguage(e: Entry, selectedLanguage: string) {
    selectedLanguage == "all" || e.language == Some(selectedLanguage)
  }

  /** `filteredAnimes` */
  function Filtered(animes: seq<Entry>, searchTerm: string, selectedLanguage: string): (r: seq<Entry>)
    ensures forall e :: e in r <==>
      e in animes && MatchesSearch(e, searchTerm) && MatchesLanguage(e, selectedLanguage)
    ensures Subseq(r, animes)
    ensures (forall e :: e in animes ==> MatchesSearch(e, searchTerm) && MatchesLanguage(e, selectedLanguage))
            ==> r == animes
  {
    Keep(animes, e => MatchesSearch(e, searchTerm) && MatchesLanguage(e, selectedLanguage))
  }

  /** With the initial controls (no search text, "all" languages) every entry is shown, in order. */
  lemma InitialFilterShowsAll(animes: seq<Entry>)
    ensures Filtered(animes, "", "all") == animes
  {
    forall e: Entry ensures MatchesSearch(e, "") {
      IncludesEmpty(ToLower(e.name));
    }
  }

  // ---------------------------------------------------------------------------
  // Partition

  /** `typeof a.featuredRank === "number" && a.featuredRank >= 1 && a.featuredRank <= 10` */
  predicate IsFeatured(e: Entry): (b: bool)
    ensures b ==> 1 <= RankKey(e) <= 10 && e.featuredRank == Some(Finite(RankKey(e)))
    ensures e.featuredRank.None? || e.featuredRank == Some(NaN) ==> !b
  {
    e.featuredRank.Some? && e.featuredRank.value.Finite? && 1 <= e.featuredRank.value.n <= 10
  }

  /** `!a.featuredRank || a.featuredRank < 1 || a.featuredRank > 10`; a comparison with NaN is false. */
  predicate InRest(e: Entry): (b: bool)
    ensures b <==> !IsFeatured(e)
  {
    match e.featuredRank
    case None => true
    case Some(x) => !Truthy(Num(x)) || (x.Finite? && (x.n < 1 || x.n > 10))
  }

  /** Every filtered entry lands in exactly one of the two parts. */
  lemma PartitionSplits(filtered: seq<Entry>)
    ensures multiset(Keep(filtered, IsFeatured)) + multiset(Keep(filtered, InRest)) == multiset(filtered)
  {
    KeepSplits(filtered, IsFeatured, InRest);
  }

  // ---------------------------------------------------------------------------
  // Order

  /** `a.featuredRank ?? 99`; a NaN rank never reaches this key, as such an entry is not featured. */
  function RankKey(e: Entry): (k: int)
    ensures e.featuredRank.None? ==> k == 99
    ensures forall n :: e.featuredRank == Some(Finite(n)) ==> k == n
  {
    match e.featuredRank
    case None => 99
    case Some(x) => if x.Finite? then x.n else 99
  }

  /** `createdAt.seconds`, with a pending timestamp below every stored one. */
  function Seconds(e: Entry): int {
    match e.createdAt
    case None => -1
    case Some(s) => s
  }

  /** `totalEpisodes` under subtraction: a stored `null` counts as 0. */
  function Episodes(e: Entry): int {
    match e.totalEpisodes
    case None => 0
    case Some(n) => n
  }

  /** `(a, b) => b.createdAt?.seconds - a.createdAt?.seconds` sorts ascending on this key. */
  function NewestKey(e: Entry): (k: int)
    ensures e.createdAt.Some? ==> k == -(e.createdAt.value as int) <= 0
    ensures e.createdAt.None? ==> k == 1
  {
    -Seconds(e)
  }

  /** `(a, b) => b.totalEpisodes - a.totalEpisodes` sorts ascending on this key. */
  function EpisodesKey(e: Entry): (k: int)
    ensures e.totalEpisodes.Some? ==> k == -e.totalEpisodes.value
    ensures e.totalEpisodes.None? ==> k == 0
  {
    -Episodes(e)
  }

  /** `featured`: the entries ranked 1 to 10, by rank, ties in filtered order. */
  function Featured(filtered: seq<Entry>): (r: seq<Entry>)
    ensures SortedBy(r, RankKey)
    ensures multiset(r) == multiset(Keep(filtered, IsFeatured))
  {
    SortBy(Keep(filtered, IsFeatured), RankKey)
  }

  /** Every featured entry has a rank from 1 to 10. */
  lemma FeaturedAreFeatured(filtered: seq<Entry>)
    ensures forall i :: 0 <= i < |Featured(filtered)| ==> IsFeatured(Featured(filtered)[i])
  {
    var r := Featured(filtered);
    forall i | 0 <= i < |r| ensures IsFeatured(r[i]) {
      assert r[i] in multiset(r);
    }
  }

  /** The featured part holds exactly the filtered entries with a rank from 1 to
      10, in ascending rank, and entries of equal rank keep their filtered order. */
  lemma FeaturedSpec(filtered: seq<Entry>)
    ensures var r := Featured(filtered);
            && (forall e :: e in r <==> e in filtered && IsFeatured(e))
            && (forall i :: 0 <= i < |r| ==> IsFeatured(r[i]))
            && (forall i, j :: 0 <= i < j < |r| ==> r[i].featuredRank.value.n <= r[j].featuredRank.value.n)
            && (forall k :: WithKey(r, RankKey, k) == WithKey(Keep(filtered, IsFeatured), RankKey, k))
  {
    var kept := Keep(filtered, IsFeatured);
    var r := Featured(filtered);
    forall e ensures e in r <==> e in kept {
      assert e in r <==> e in multiset(r);
      assert e in kept <==> e in multiset(kept);
    }
    FeaturedAreFeatured(filtered);
    forall k ensures WithKey(r, RankKey, k) == WithKey(kept, RankKey, k) {
      SortByStable(kept, RankKey, k);
    }
  }

  /** The picks stand for `Math.floor(Math.random() * (i + 1))`: step `i` picks an index in `[0, i]`. */
  predicate ValidPicks(picks: seq<nat>) {
    forall i :: 0 <= i < |picks| ==> picks[i] <= i
  }

  /** Fisher-Yates from index `i` down to 1: swap cell `i` with cell `picks[i]`. */
  function FisherYates<T>(s: seq<T>, picks: seq<nat>, i: int): (r: seq<T>)
    requires ValidPicks(picks) && i < |s| && i < |picks|
    ensures |r| == |s|
    decreases i
  {
    if i <= 0 then s
    else
      var j := picks[i];
      FisherYates(s[i := s[j]][j := s[i]], picks, i - 1)
  }

  /** Every swap keeps the elements, so the shuffle is a permutation. */
  lemma {:induction false} FisherYatesPermutes<T>(s: seq<T>, picks: seq<nat>, i: int)
    requires ValidPicks(picks) && i < |s| && i < |picks|
    ensures multiset(FisherYates(s, picks, i)) == multiset(s)
    decreases i
  {
    if i > 0 {
      var j := picks[i];
      var t := s[i := s[j]][j := s[i]];
      FisherYatesPermutes(t, picks, i - 1);
      SwapPermutes(s, i, j);
    }
  }

  lemma SwapPermutes<T>(s: seq<T>, i: nat, j: nat)
    requires i < |s| && j < |s|
    ensures multiset(s[i := s[j]][j := s[i]]) == multiset(s)
  {
  }

  /** What `shuffle` leaves in its array. */
  function Shuffled<T>(s: seq<T>, picks: seq<nat>): seq<T>
    requires ValidPicks(picks) && |s| <= |picks|
  {
    FisherYates(s, picks, |s| - 1)
  }

  /** `shuffle`: in place, from the last index down to 1, swap each cell with a picked one at or below it. */
  method Shuffle<T>(a: array<T>, picks: seq<nat>)
    requires ValidPicks(picks) && a.Length <= |picks|
    modifies a
    ensures a[..] == Shuffled(old(a[..]), picks)
    ensures multiset(a[..]) == multiset(old(a[..]))
  {
    var i := a.Length - 1;
    while i > 0
      invariant -1 <= i < a.Length
      invariant FisherYates(a[..], picks, i) == Shuffled(old(a[..]), picks)
    {
      var j := picks[i];
      ghost var before := a[..];
      a[i], a[j] := a[j], a[i];
      assert a[..] == before[i := before[j]][j := before[i]];
      i := i - 1;
    }
    FisherYatesPermutes(old(a[..]), picks, a.Length - 1);
  }

  /** `rest` after the `sortBy` branch: newest first, most episodes first, or shuffled. */
  function OrderRest(rest: seq<Entry>, sortBy: string, picks: seq<nat>): (r: seq<Entry>)
    requires ValidPicks(picks) && |rest| <= |picks|
    ensures |r| == |rest| && multiset(r) == multiset(rest)
    ensures sortBy == "newest" ==> forall i, j :: 0 <= i < j < |r| ==> Seconds(r[i]) >= Seconds(r[j])
    ensures sortBy == "episodes" ==> forall i, j :: 0 <= i < j < |r| ==> Episodes(r[i]) >= Episodes(r[j])
    ensures sortBy != "newest" && sortBy != "episodes" ==> r == Shuffled(rest, picks)
  {
    if sortBy == "newest" then SortBy(rest, NewestKey)
    else if sortBy == "episodes" then SortBy(rest, EpisodesKey)
    else FisherYatesPermutes(rest, picks, |rest| - 1); Shuffled(rest, picks)
  }

  /** `[...featured, ...rest]`: a rearrangement of the filtered list in which
      the featured entries come first and every other entry after them. */
  function Arrange(filtered: seq<Entry>, sortBy: string, picks: seq<nat>): (r: seq<Entry>)
    requires ValidPicks(picks) && |filtered| <= |picks|
    ensures multiset(r) == multiset(filtered)
    ensures forall i :: 0 <= i < |r| ==> (IsFeatured(r[i]) <==> i < |Featured(filtered)|)
  {
    ArrangeShape(filtered, sortBy, picks);
    Featured(filtered) + OrderRest(Keep(filtered, InRest), sortBy, picks)
  }

  /** `sortedAnimes`: the filtered entries, featured ones first. */
  function SortedAnimes(animes: seq<Entry>, searchTerm: string, selectedLanguage: string,
                        sortBy: string, picks: seq<nat>): (r: seq<Entry>)
    requires ValidPicks(picks) && |animes| <= |picks|
    ensures multiset(r) == multiset(Filtered(animes, searchTerm, selectedLanguage))
    ensures forall e :: e in r <==> e in animes && MatchesSearch(e, searchTerm) && MatchesLanguage(e, selectedLanguage)
    ensures forall i :: 0 <= i < |r| ==>
      (IsFeatured(r[i]) <==> i < |Featured(Filtered(animes, searchTerm, selectedLanguage))|)
  {
    var r := Arrange(Filtered(animes, searchTerm, selectedLanguage), sortBy, picks);
    assert forall e :: e in r <==> e in multiset(r);
    r
  }

  /** No entry of the rest part is featured. */
  lemma RestNotFeatured(filtered: seq<Entry>, sortBy: string, picks: seq<nat>)
    requires ValidPicks(picks) && |filtered| <= |picks|
    ensures var rest := OrderRest(Keep(filtered, InRest), sortBy, picks);
            forall i :: 0 <= i < |rest| ==> !IsFeatured(rest[i])
  {
    var kept := Keep(filtered, InRest);
    var rest := OrderRest(kept, sortBy, picks);
    forall i | 0 <= i < |rest|
      ensures !IsFeatured(rest[i])
    {
      assert rest[i] in multiset(rest);
      assert rest[i] in kept;
    }
  }

  /** Featured entries followed by non-featured ones: the featured ones are exactly the first part. */
  lemma SplitAtFeatured(featured: seq<Entry>, rest: seq<Entry>)
    requires forall i :: 0 <= i < |featured| ==> IsFeatured(featured[i])
    requires forall i :: 0 <= i < |rest| ==> !IsFeatured(rest[i])
    ensures var r := featured + rest;
            forall i :: 0 <= i < |r| ==> (IsFeatured(r[i]) <==> i < |featured|)
  {
    var r := featured + rest;
    forall i | 0 <= i < |r|
      ensures IsFeatured(r[i]) <==> i < |featured|
    {
      if i < |featured| {
        assert r[i] == featured[i];
      } else {
        assert r[i] == rest[i - |featured|];
      }
    }
  }

  /** The featured part followed by the ordered rest is a rearrangement of
      the filtered list whose featured entries are exactly the first part. */
  lemma ArrangeShape(filtered: seq<Entry>, sortBy: string, picks: seq<nat>)
    requires ValidPicks(picks) && |filtered| <= |picks|
    ensures var featured := Featured(filtered);
            var r := featured + OrderRest(Keep(filtered, InRest), sortBy, picks);
            && multiset(r) == multiset(filtered)
            && forall i :: 0 <= i < |r| ==> (IsFeatured(r[i]) <==> i < |featured|)
  {
    var featured := Featured(filtered);
    var rest := OrderRest(Keep(filtered, InRest), sortBy, picks);
    PartitionSplits(filtered);
    FeaturedAreFeatured(filtered);
    RestNotFeatured(filtered, sortBy, picks);
    assert multiset(featured + rest) == multiset(featured) + multiset(rest);
    SplitAtFeatured(featured, rest);
  }

  /** Any stable sort of the rest, newest first, is the one this model computes. */
  lemma NewestIsTheStableSort(rest: seq<Entry>, r: seq<Entry>, picks: seq<nat>)
    requires ValidPicks(picks) && |rest| <= |picks|
    requires SortedBy(r, NewestKey)
    requires forall k :: WithKey(r, NewestKey, k) == WithKey(rest, NewestKey, k)
    ensures r == OrderRest(rest, "newest", picks)
  {
    StableSortIsSortBy(rest, r, NewestKey);
  }

  /** Any stable sort of the rest, most episodes first, is the one this model computes. */
  lemma EpisodesIsTheStableSort(rest: seq<Entry>, r: seq<Entry>, picks: seq<nat>)
    requires ValidPicks(picks) && |rest| <= |picks|
    requires SortedBy(r, EpisodesKey)
    requires forall k :: WithKey(r, EpisodesKey, k) == WithKey(rest, EpisodesKey, k)
    ensures r == OrderRest(rest, "episodes", picks)
  {
    StableSortIsSortBy(rest, r, EpisodesKey);
  }

  /** Featured entries of ranks 3 and 1 among an unranked one and one ranked 15
      come out ranked 1 first. */
  lemma ScenarioFeatured(a: Entry, b: Entry, c: Entry, d: Entry)
    requires a.featuredRank == Some(Finite(3)) && b.featuredRank.None?
    requires c.featuredRank == Some(Finite(1)) && d.featuredRank == Some(Finite(15))
    ensures Featured([a, b, c, d]) == [c, a]
  {
    KeepFour(a, b, c, d, IsFeatured);
    assert Keep([a, b, c, d], IsFeatured) == [a, c];
    SortPairSwaps(a, c, RankKey);
  }

  /** Of ranks 3, none, 1 and 15, the unranked entry and the one ranked 15 make up the rest. */
  lemma ScenarioKept(a: Entry, b: Entry, c: Entry, d: Entry)
    requires a.featuredRank == Some(Finite(3)) && b.featuredRank.None?
    requires c.featuredRank == Some(Finite(1)) && d.featuredRank == Some(Finite(15))
    ensures Keep([a, b, c, d], InRest) == [b, d]
  {
    assert !InRest(a) && InRest(b) && !InRest(c) && InRest(d);
    KeepFour(a, b, c, d, InRest);
  }

  /** The unranked entry with 1 episode and the one ranked 15 with 2 episodes,
      ordered by episodes: the one ranked 15 first. */
  lemma ScenarioRest(a: Entry, b: Entry, c: Entry, d: Entry, picks: seq<nat>)
    requires ValidPicks(picks) && 4 <= |picks|
    requires a.featuredRank == Some(Finite(3)) && b.featuredRank.None?
    requires c.featuredRank == Some(Finite(1)) && d.featuredRank == Some(Finite(15))
    requires b.totalEpisodes == Some(1) && d.totalEpisodes == Some(2)
    ensures OrderRest(Keep([a, b, c, d], InRest), "episodes", picks) == [d, b]
  {
    ScenarioKept(a, b, c, d);
    SortPairSwaps(b, d, EpisodesKey);
  }

  /** Ranks 3, none, 1 and 15, the unranked entry with 1 episode and the one
      ranked 15 with 2, ordered by episodes: ranks 1 and 3 lead, then the rest
      by episode count, whatever the picks. */
  lemma EpisodesScenario(a: Entry, b: Entry, c: Entry, d: Entry, picks: seq<nat>)
    requires ValidPicks(picks) && 4 <= |picks|
    requires a.featuredRank == Some(Finite(3)) && b.featuredRank.None?
    requires c.featuredRank == Some(Finite(1)) && d.featuredRank == Some(Finite(15))
    requires b.totalEpisodes == Some(1) && d.totalEpisodes == Some(2)
    ensures Arrange([a, b, c, d], "episodes", picks) == [c, a, d, b]
  {
    ScenarioFeatured(a, b, c, d);
    ScenarioRest(a, b, c, d, picks);
  }

  /** The search ignores the case of the search text. */
  lemma SearchIgnoresCase(e: Entry, searchTerm: string)
    ensures MatchesSearch(e, searchTerm) <==> MatchesSearch(e, ToLower(searchTerm))
  {
    ToLowerIdempotent(searchTerm);
  }

  /** Search ignores case: "naruto" and "NaRuTo" find "Naruto Shippuden"; "naruto" does not find "One Piece". */
  lemma SearchScenario()
    ensures MatchesSearch(Entry("1", "Naruto Shippuden", None, None, None, "", None, None), "naruto")
    ensures MatchesSearch(Entry("1", "Naruto Shippuden", None, None, None, "", None, None), "NaRuTo")
    ensures !MatchesSearch(Entry("2", "One Piece", None, None, None, "", None, None), "naruto")
  {
    assert ToLower("naruto") == "naruto";
    assert ToLower("NaRuTo") == "naruto";
    assert ToLower("Naruto Shippuden") == "naruto shippuden";
    assert StartsWith("naruto shippuden", "naruto");
    assert ToLower("One Piece") == "one piece";
    NotIncludedWithout("one piece", "naruto", 1);
  }

  // ---------------------------------------------------------------------------
  // Group

  /** The property name `acc[anime.language]` uses: a stored `null` becomes "null". */
  function GroupKey(e: Entry): (k: string)
    ensures e.language.Some? ==> k == e.language.value
    ensures k == "null" <==> e.language.None? || e.language == Some("null")
  {
    match e.language
    case None => "null"
    case Some(l) => l
  }

  function GroupKeys(s: seq<Entry>): (r: seq<string>)
    ensures |r| == |s| && forall i :: 0 <= i < |s| ==> r[i] == GroupKey(s[i])
  {
    seq(|s|, i requires 0 <= i < |s| => GroupKey(s[i]))
  }

  /** The group of key `k`: its entries, in list order. */
  function InGroup(s: seq<Entry>, k: string): (r: seq<Entry>)
    ensures forall e :: e in r <==> e in s && GroupKey(e) == k
    ensures Subseq(r, s)
    ensures (forall i :: 0 <= i < |s| ==> GroupKey(s[i]) != k) ==> r == []
  {
    Keep(s, e => GroupKey(e) == k)
  }

  lemma InGroupSnoc(s: seq<Entry>, e: Entry, k: string)
    ensures InGroup(s + [e], k) == InGroup(s, k) + (if GroupKey(e) == k then [e] else [])
  {
    assert (s + [e])[..|s|] == s;
  }

  lemma GroupKeysSnoc(s: seq<Entry>, e: Entry)
    ensures GroupKeys(s + [e]) == GroupKeys(s) + [GroupKey(e)]
  {
  }

  /** A key no entry has names an empty group. */
  lemma InGroupEmpty(s: seq<Entry>, k: string)
    requires k !in GroupKeys(s)
    ensures InGroup(s, k) == []
  {
    forall i | 0 <= i < |s|
      ensures GroupKey(s[i]) != k
    {
      assert GroupKeys(s)[i] == GroupKey(s[i]);
    }
  }

  /** The total size of the groups named in `keys`. */
  function GroupSizes(s: seq<Entry>, keys: seq<string>): nat {
    if keys == [] then 0 else GroupSizes(s, keys[..|keys| - 1]) + |InGroup(s, keys[|keys| - 1])|
  }

  lemma {:induction false} GroupSizesSnoc(s: seq<Entry>, e: Entry, keys: seq<string>)
    ensures GroupSizes(s + [e], keys) == GroupSizes(s, keys) + Count(keys, GroupKey(e))
  {
    if keys != [] {
      var ks := keys[..|keys| - 1];
      var k := keys[|keys| - 1];
      assert keys == ks + [k];
      GroupSizesSnoc(s, e, ks);
      InGroupSnoc(s, e, k);
    }
  }

  /** How often `k` occurs in `keys`. */
  function Count(keys: seq<string>, k: string): nat {
    if keys == [] then 0 else Count(keys[..|keys| - 1], k) + (if keys[|keys| - 1] == k then 1 else 0)
  }

  lemma {:induction false} CountDistinct(keys: seq<string>, k: string)
    requires NoDuplicates(keys)
    ensures Count(keys, k) == if k in keys then 1 else 0
  {
    if keys != [] {
      var ks := keys[..|keys| - 1];
      assert keys == ks + [keys[|keys| - 1]];
      CountDistinct(ks, k);
    }
  }

  lemma {:induction false} GroupSizesOfMissing(s: seq<Entry>, keys: seq<string>, k: string)
    requires InGroup(s, k) == []
    ensures GroupSizes(s, keys + [k]) == GroupSizes(s, keys)
  {
    assert (keys + [k])[..|keys|] == keys;
  }

  /** The groups of all keys that occur together hold every entry once. */
  lemma {:induction false} GroupSizesCoverAll(s: seq<Entry>)
    ensures GroupSizes(s, Distinct(GroupKeys(s))) == |s|
  {
    if s != [] {
      var s', e := s[..|s| - 1], s[|s| - 1];
      var k := GroupKey(e);
      assert s == s' + [e];
      GroupKeysSnoc(s', e);
      DistinctSnoc(GroupKeys(s'), k);
      GroupSizesCoverAll(s');
      var d := Distinct(GroupKeys(s'));
      GroupSizesSnoc(s', e, d);
      CountDistinct(d, k);
      if k !in d {
        InGroupEmpty(s', k);
        GroupSizesOfMissing(s', d, k);
        GroupSizesSnoc(s', e, d + [k]);
        CountDistinct(d + [k], k);
      }
    }
  }

  /** Every group in `groups` is the group of its key in `s`. */
  ghost predicate GroupsOf(s: seq<Entry>, groups: map<string, seq<Entry>>) {
    forall k :: k in groups ==> groups[k] == InGroup(s, k)
  }

  /** `groups` has exactly the keys listed in `keys`. */
  ghost predicate SameKeys(groups: map<string, seq<Entry>>, keys: seq<string>) {
    forall k :: k in groups <==> k in keys
  }

  /** `keys` and `groups` are the keys and the groups of the list `s`. */
  ghost predicate GroupedAs(s: seq<Entry>, keys: seq<string>, groups: map<string, seq<Entry>>) {
    keys == Distinct(GroupKeys(s)) && SameKeys(groups, keys) && GroupsOf(s, groups)
  }

  lemma KeysStep(s: seq<Entry>, e: Entry, keys: seq<string>)
    requires keys == Distinct(GroupKeys(s))
    ensures var k := GroupKey(e);
            (if k in keys then keys else keys + [k]) == Distinct(GroupKeys(s + [e]))
  {
    GroupKeysSnoc(s, e);
    DistinctSnoc(GroupKeys(s), GroupKey(e));
  }

  lemma DomainStep(groups: map<string, seq<Entry>>, keys: seq<string>, k: string, group: seq<Entry>)
    requires SameKeys(groups, keys)
    ensures SameKeys(groups[k := group], if k in groups then keys else keys + [k])
  {
  }

  lemma GroupsStep(s: seq<Entry>, e: Entry, groups: map<string, seq<Entry>>)
    requires GroupsOf(s, groups)
    requires GroupKey(e) !in groups ==> InGroup(s, GroupKey(e)) == []
    ensures var k := GroupKey(e);
            GroupsOf(s + [e], groups[k := (if k in groups then groups[k] else []) + [e]])
  {
    var k := GroupKey(e);
    var groups' := groups[k := (if k in groups then groups[k] else []) + [e]];
    forall k' | k' in groups'
      ensures groups'[k'] == InGroup(s + [e], k')
    {
      InGroupSnoc(s, e, k');
    }
  }

  /** Appending one entry to its group (opened if missing) keeps the grouping. */
  lemma GroupStep(s: seq<Entry>, e: Entry, keys: seq<string>, groups: map<string, seq<Entry>>)
    requires GroupedAs(s, keys, groups)
    ensures var k := GroupKey(e);
            var group := if k in groups then groups[k] else [];
            GroupedAs(s + [e], if k in groups then keys else keys + [k], groups[k := group + [e]])
  {
    var k := GroupKey(e);
    KeysStep(s, e, keys);
    DomainStep(groups, keys, k, (if k in groups then groups[k] else []) + [e]);
    if k !in groups {
      InGroupEmpty(s, k);
    }
    GroupsStep(s, e, groups);
  }

  /** `groupedAnimes`: `keys` is the order of `Object.keys(groupedAnimes)`. */
  method GroupByLanguage(sorted: seq<Entry>) returns (keys: seq<string>, groups: map<string, seq<Entry>>)
    ensures keys == Distinct(GroupKeys(sorted))
    ensures forall k :: k in groups <==> k in keys
    ensures forall k :: k in groups ==> groups[k] == InGroup(sorted, k)
    ensures GroupSizes(sorted, keys) == |sorted|
    ensures keys == [] <==> sorted == []
  {
    keys, groups := [], map[];
    for i := 0 to |sorted|
      invariant GroupedAs(sorted[..i], keys, groups)
    {
      var e := sorted[i];
      var k := GroupKey(e);
      assert sorted[..i + 1] == sorted[..i] + [e];
      GroupStep(sorted[..i], e, keys, groups);
      var group := if k in groups then groups[k] else [];
      if k !in groups {
        keys := keys + [k];
      }
      groups := groups[k := group + [e]];
    }
    assert sorted[..|sorted|] == sorted;
    GroupSizesCoverAll(sorted);
    if sorted != [] {
      assert GroupKeys(sorted)[0] in GroupKeys(sorted);
    }
  }

  /** `languages`: the stored languages of the whole list, once each, in order of first appearance. */
  function LanguageList(animes: seq<Entry>): (r: seq<Option<string>>)
    ensures |r| == |animes| && forall i :: 0 <= i < |animes| ==> r[i] == animes[i].language
  {
    seq(|animes|, i requires 0 <= i < |animes| => animes[i].language)
  }

  /** `languages`: every stored language once, in the order of first appearance. */
  function Languages(animes: seq<Entry>): (r: seq<Option<string>>)
    ensures NoDuplicates(r)
    ensures forall i :: 0 <= i < |animes| ==> animes[i].language in r
    ensures forall l :: l in r ==> exists i :: 0 <= i < |animes| && animes[i].language == l
    ensures forall l :: l in r ==> l in LanguageList(animes)
    ensures forall i, j :: 0 <= i < j < |r| ==>
      IndexOf(LanguageList(animes), r[i]) < IndexOf(LanguageList(animes), r[j])
  {
    var all := LanguageList(animes);
    DistinctInFirstAppearanceOrder(all);
    Distinct(all)
  }
}
