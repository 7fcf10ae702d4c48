/**
 * The query side of models/show.rb: the named scopes as predicates on a
 * stored show, `filter_shows_by`, `filter_groups`, `weekday_sort` and the
 * sorted, de-duplicated `airdays` and `genres` lists. The store is the
 * sequence of saved shows, in its natural order.
 */
module Filters {
  import opened Wrappers
  import opened Text
  import opened Catalog
  import opened Shows
  import opened Sorting

  // -----------------------------------------------------------------------
  // Episodes of a show

  /** Every episode of a catalog, season by season. */
  function Flatten(c: seq<Season>): (r: seq<Episode>)
    ensures forall e :: e in r <==> exists i, j :: ValidSlot(c, i, j) && c[i].episodes[j] == e
  {
    if |c| == 0 then []
    else
      var rest := Flatten(c[1..]);
      assert forall e :: e in rest <==> exists i, j :: ValidSlot(c, i, j) && i > 0 && c[i].episodes[j] == e by {
        forall e | e in rest ensures exists i, j :: ValidSlot(c, i, j) && i > 0 && c[i].episodes[j] == e {
          var i, j :| ValidSlot(c[1..], i, j) && c[1..][i].episodes[j] == e;
          assert ValidSlot(c, i + 1, j) && c[i + 1].episodes[j] == e;
        }
        forall e | (exists i, j :: ValidSlot(c, i, j) && i > 0 && c[i].episodes[j] == e) ensures e in rest {
          var i, j :| ValidSlot(c, i, j) && i > 0 && c[i].episodes[j] == e;
          assert ValidSlot(c[1..], i - 1, j) && c[1..][i - 1].episodes[j] == e;
        }
      }
      c[0].episodes + rest
  }

  /** The episodes of a stored show; none when its catalog was never fetched. */
  function EpisodesOf(s: ShowRecord): seq<Episode> {
    match s.summary.episodeList
    case None => []
    case Some(c) => Flatten(c)
  }

  // -----------------------------------------------------------------------
  // Scopes

  /** `minus_ignored`: `ignore_unwatched` is not true. */
  predicate MinusIgnored(s: ShowRecord) {
    !s.ignoreUnwatched
  }

  /** `with_airday(airday)`. */
  predicate WithAirday(s: ShowRecord, airday: string) {
    s.summary.airday == Some(airday)
  }

  /** `with_genre(genre)`: the genre list holds it. */
  predicate WithGenre(s: ShowRecord, genre: string) {
    genre in s.summary.genres
  }

  /** `has_not_yet_ended`: no end date. */
  predicate HasNotYetEnded(s: ShowRecord) {
    s.summary.ended.None?
  }

  /** `has_unwatched_episodes`: some episode says `watched: false` (a missing flag does not count). */
  predicate HasUnwatchedEpisodes(s: ShowRecord) {
    exists e :: e in EpisodesOf(s) && e.watched == Some(false)
  }

  /** `has_downloadable_episodes`: some episode says `available: true`. */
  predicate HasDownloadableEpisodes(s: ShowRecord) {
    exists e :: e in EpisodesOf(s) && e.available == Some(true)
  }

  /**
   * `this_and_last_month` as written: both conditions use the same hash key,
   * so Ruby keeps only the second and `any_of` receives last month's prefix
   * alone. Some episode's air date starts with the month-of-30-days-ago's
   * "YYYY-MM"; this month's prefix plays no part.
   */
  predicate ThisAndLastMonth(s: ShowRecord, thisMonth: string, lastMonth: string) {
    exists e :: e in EpisodesOf(s) && StartsWith(e.airdate, lastMonth)
  }

  /** The scope as its name says: some episode aired this month or last month. */
  predicate AiredThisOrLastMonth(s: ShowRecord, thisMonth: string, lastMonth: string) {
    exists e :: e in EpisodesOf(s) && (StartsWith(e.airdate, thisMonth) || StartsWith(e.airdate, lastMonth))
  }

  /**
   * The "YYYY-MM" prefix that `this_month` and `last_month` anchor at the start
   * of an air date: the year in decimal, a dash, the month padded to two
   * digits.
   */
  function MonthPrefix(year: nat, month: nat): (r: string)
    requires 1 <= month <= 12
    ensures |r| == |Decimal(year)| + 3 && r[..|Decimal(year)|] == Decimal(year)
    ensures r[|Decimal(year)|] == '-'
    ensures AllDigits(r[|r| - 2..]) && DecimalValue(r[|r| - 2..]) == month
  {
    var mm := TwoDigits(month);
    var r := Decimal(year) + "-" + mm;
    assert r[|r| - 2..] == mm;
    r
  }

  /** `month.to_s.rjust(2, '0')`. */
  function TwoDigits(month: nat): (r: string)
    requires 1 <= month <= 12
    ensures |r| == 2 && AllDigits(r) && DecimalValue(r) == month
  {
    DecimalRoundTrip(month);
    if month < 10 then
      LeadingZero(Decimal(month));
      "0" + Decimal(month)
    else
      assert Decimal(month) == Decimal(month / 10) + [DigitChar(month % 10)];
      Decimal(month)
  }

  /** The unwatched filter: all three scopes, each met by any episode. */
  predicate Unwatched(s: ShowRecord, thisMonth: string, lastMonth: string) {
    HasUnwatchedEpisodes(s) && MinusIgnored(s) && ThisAndLastMonth(s, thisMonth, lastMonth)
  }

  /** The unwatched filter with the scope as its name says. */
  predicate UnwatchedIntended(s: ShowRecord, thisMonth: string, lastMonth: string) {
    HasUnwatchedEpisodes(s) && MinusIgnored(s) && AiredThisOrLastMonth(s, thisMonth, lastMonth)
  }

  /**
   * A show whose only unwatched episode aired this month (2026-10-05, with
   * this month "2026-10" and last month "2026-09") is left out of the
   * unwatched filter as written, and kept by the intended one.
   */
  lemma ThisMonthEpisodeIsDropped()
    ensures var e := Episode("5", "2026-10-05", None, Some(false), None);
            var s := ShowRecord("Show", "show", false, Summary(None, [], None, None, None, Some([Season("1", [e])])));
            !Unwatched(s, "2026-10", "2026-09") && UnwatchedIntended(s, "2026-10", "2026-09")
  {
    var e := Episode("5", "2026-10-05", None, Some(false), None);
    var c := [Season("1", [e])];
    var s := ShowRecord("Show", "show", false, Summary(None, [], None, None, None, Some(c)));
    assert ValidSlot(c, 0, 0) && c[0].episodes[0] == e;
    assert e in EpisodesOf(s);
    assert StartsWith(e.airdate, "2026-10");
    forall x | x in EpisodesOf(s) ensures !StartsWith(x.airdate, "2026-09") {
      var i, j :| ValidSlot(c, i, j) && c[i].episodes[j] == x;
      assert x == e;
      assert e.airdate[6] != "2026-09"[6];
    }
  }

  /**
   * With the intended scope, a show that does not ignore unwatched episodes
   * and has an unwatched episode that aired this month or last month is
   * listed.
   */
  lemma IntendedListsRecentUnwatched(store: seq<ShowRecord>, s: ShowRecord, e: Episode, thisMonth: string, lastMonth: string)
    requires s in store && !s.ignoreUnwatched
    requires e in EpisodesOf(s) && e.watched == Some(false)
    requires StartsWith(e.airdate, thisMonth) || StartsWith(e.airdate, lastMonth)
    ensures s in Where(store, t => UnwatchedIntended(t, thisMonth, lastMonth))
  {
    assert UnwatchedIntended(s, thisMonth, lastMonth);
  }

  /** The available filter for one air day. */
  predicate AvailableOn(s: ShowRecord, airday: string) {
    WithAirday(s, airday) && HasDownloadableEpisodes(s)
  }

  // -----------------------------------------------------------------------
  // Queries

  /** `where(...)`: the shows that satisfy `keep`, each as often as it is stored, in store order. */
  function Where(shows: seq<ShowRecord>, keep: ShowRecord -> bool): (r: seq<ShowRecord>)
    ensures forall s :: multiset(r)[s] == if keep(s) then multiset(shows)[s] else 0
    ensures forall s :: s in r <==> s in shows && keep(s)
  {
    if |shows| == 0 then []
    else
      assert shows == [shows[0]] + shows[1..];
      var rest := Where(shows[1..], keep);
      if keep(shows[0]) then [shows[0]] + rest else rest
  }

  /** The first show is kept or dropped, then the query runs over the rest. */
  lemma WhereCons(x: ShowRecord, rest: seq<ShowRecord>, keep: ShowRecord -> bool)
    ensures Where([x] + rest, keep) == (if keep(x) then [x] else []) + Where(rest, keep)
  {
    assert ([x] + rest)[0] == x && ([x] + rest)[1..] == rest;
  }

  /** A query runs over the store in order: on a concatenation it is the two results concatenated. */
  lemma {:induction false} WhereAppend(a: seq<ShowRecord>, b: seq<ShowRecord>, keep: ShowRecord -> bool)
    ensures Where(a + b, keep) == Where(a, keep) + Where(b, keep)
    decreases |a|
  {
    if |a| == 0 {
      assert a + b == b;
    } else {
      var x, rest := a[0], a[1..];
      assert a == [x] + rest && a + b == [x] + (rest + b);
      var p: seq<ShowRecord> := if keep(x) then [x] else [];
      var wr, wb := Where(rest, keep), Where(b, keep);
      WhereCons(x, rest, keep);
      WhereCons(x, rest + b, keep);
      WhereAppend(rest, b, keep);
      assert Where(a, keep) == p + wr;
      assert Where(a + b, keep) == p + (wr + wb);
      ConcatAssociative(p, wr, wb);
    }
  }

  lemma ConcatAssociative<T>(p: seq<T>, q: seq<T>, r: seq<T>)
    ensures p + (q + r) == (p + q) + r
  {
  }

  /** One show is kept exactly when it satisfies the query. */
  lemma WhereSingle(x: ShowRecord, keep: ShowRecord -> bool)
    ensures Where([x], keep) == if keep(x) then [x] else []
  {
    assert [x][1..] == [];
  }

  /** Order by `name_in_lowercase`. */
  predicate NameLe(a: ShowRecord, b: ShowRecord) {
    LexLe(a.nameInLowercase, b.nameInLowercase)
  }

  lemma NameLeTotal()
    ensures Total(NameLe)
  {
    forall a, b ensures NameLe(a, b) || NameLe(b, a) {
      LexLeTotal(a.nameInLowercase, b.nameInLowercase);
    }
  }

  /** `asc(:name_in_lowercase)`: the same shows, ordered by lower-case name. */
  function AscByName(shows: seq<ShowRecord>): (r: seq<ShowRecord>)
    ensures SortedBy(r, NameLe) && multiset(r) == multiset(shows)
  {
    NameLeTotal();
    SortBy(shows, NameLe)
  }

  /** What `filter_shows_by` returns: a list, nil, or the error it raises. */
  datatype FilterResult =
    | Listed(shows: seq<ShowRecord>)
    | Nil                   // an unknown filter name falls out of the `case`
    | NoMethodError         // `filter_groups[:states]` is nil

  /**
   * `filter_shows_by(f, v)`: every show for "all" (or no filter), the shows of
   * genre `v`, the shows airing on `v` with a downloadable episode, or the
   * unwatched shows, each list ordered by lower-case name.
   */
  function FilterShowsBy(store: seq<ShowRecord>, f: Option<string>, v: string, thisMonth: string, lastMonth: string)
    : (r: FilterResult)
    ensures f.None? || f == Some("all") ==> r.Listed? && multiset(r.shows) == multiset(store)
    ensures f == Some("states") ==> r.NoMethodError?
    ensures f == Some("genres") ==>
              r.Listed? && forall s :: multiset(r.shows)[s] == if WithGenre(s, v) then multiset(store)[s] else 0
    ensures f == Some("available") ==>
              r.Listed? && forall s :: multiset(r.shows)[s] == if AvailableOn(s, v) then multiset(store)[s] else 0
    ensures f == Some("unwatched") ==>
              r.Listed? && forall s :: multiset(r.shows)[s] == if Unwatched(s, thisMonth, lastMonth) then multiset(store)[s] else 0
    ensures f.Some? && f.value !in ["all", "states", "genres", "available", "unwatched"] ==> r.Nil?
    ensures r.Listed? ==> SortedBy(r.shows, NameLe)
  {
    var name := f.GetOr("all");
    if name == "all" then Listed(AscByName(store))
    else if name == "states" then NoMethodError
    else if name == "genres" then Listed(AscByName(Where(store, s => WithGenre(s, v))))
    else if name == "available" then Listed(AscByName(Where(store, s => AvailableOn(s, v))))
    else if name == "unwatched" then Listed(AscByName(Where(store, s => Unwatched(s, thisMonth, lastMonth))))
    else Nil
  }

  // -----------------------------------------------------------------------
  // weekday_sort

  const Weekdays: seq<string> := ["sunday", "monday", "tuesday", "wednesday", "thursday", "friday", "saturday"]

  /** The weekday rank of a key, compared in lower case; 999 for anything else. */
  function DayRank(day: string): (r: nat)
    ensures r == 999 <==> Lower(day) !in Weekdays
    ensures 1 <= r && (r <= 7 || r == 999)
  {
    var d := Lower(day);
    if d == "sunday" then 1
    else if d == "monday" then 2
    else if d == "tuesday" then 3
    else if d == "wednesday" then 4
    else if d == "thursday" then 5
    else if d == "friday" then 6
    else if d == "saturday" then 7
    else 999
  }

  /** The days in calendar order, Sunday first. */
  lemma WeekOrder()
    ensures DayRank("sunday") < DayRank("monday") < DayRank("tuesday") < DayRank("wednesday")
            < DayRank("thursday") < DayRank("friday") < DayRank("saturday") < DayRank("someday")
  {
    LowerOfLowercase("sunday");
    LowerOfLowercase("monday");
    LowerOfLowercase("tuesday");
    LowerOfLowercase("wednesday");
    LowerOfLowercase("thursday");
    LowerOfLowercase("friday");
    LowerOfLowercase("saturday");
    LowerOfLowercase("someday");
  }

  /** The rank of a capitalised day is the rank of the lower-case one. */
  lemma DayRankIgnoresCase(day: string)
    ensures DayRank(Lower(day)) == DayRank(day)
  {
    LowerIdempotent(day);
  }

  /** Pairs ordered by the rank of their keys. */
  predicate RankLe<V>(a: (string, V), b: (string, V)) {
    DayRank(a.0) <= DayRank(b.0)
  }

  /** `weekday_sort(hsh)`: the pairs of the hash, ordered by weekday rank. */
  function WeekdaySort<V(!new)>(pairs: seq<(string, V)>): (r: seq<(string, V)>)
    ensures multiset(r) == multiset(pairs)
    ensures SortedBy(r, RankLe)
  {
    assert Total(RankLe<V>);
    SortBy(pairs, RankLe)
  }

  /** Sorted by rank between neighbours means sorted by rank between any two. */
  lemma {:induction false} RankMonotone<V(!new)>(r: seq<(string, V)>, i: nat, j: nat)
    requires SortedBy(r, RankLe) && i <= j < |r|
    ensures DayRank(r[i].0) <= DayRank(r[j].0)
    decreases j - i
  {
    if i < j {
      RankMonotone(r, i, j - 1);
      assert RankLe(r[j - 1], r[j]);
    }
  }

  /** After the sort every weekday comes before every key that is not one, and earlier days first. */
  lemma WeekdaysFirst<V(!new)>(pairs: seq<(string, V)>, i: nat, j: nat)
    requires i < |WeekdaySort(pairs)| && j < |WeekdaySort(pairs)|
    requires DayRank(WeekdaySort(pairs)[i].0) < DayRank(WeekdaySort(pairs)[j].0)
    ensures i < j
  {
    if j <= i {
      RankMonotone(WeekdaySort(pairs), j, i);
    }
  }

  // -----------------------------------------------------------------------
  // airdays and genres

  /** Strictly ascending, hence free of duplicates. */
  predicate StrictlyAscending(s: seq<string>) {
    forall i, j :: 0 <= i < j < |s| ==> LexLt(s[i], s[j])
  }

  /** `x` added to a strictly ascending list, unless it is already there. */
  function InsertUnique(x: string, s: seq<string>): (r: seq<string>)
    requires StrictlyAscending(s)
    ensures StrictlyAscending(r)
    ensures forall y :: y in r <==> y == x || y in s
    ensures |r| > 0 && (r[0] == x || (|s| > 0 && r[0] == s[0]))
  {
    if |s| == 0 then [x]
    else if x == s[0] then s
    else if LexLe(x, s[0]) then
      assert forall k :: 0 <= k < |s| ==> LexLt(x, s[k]) by {
        forall k | 0 < k < |s| ensures LexLt(x, s[k]) {
          LexLtTransitive(x, s[0], s[k]);
        }
      }
      [x] + s
    else
      var rest := InsertUnique(x, s[1..]);
      LexLeTotal(x, s[0]);
      assert forall k :: 0 <= k < |rest| ==> LexLt(s[0], rest[k]) by {
        forall k | 0 <= k < |rest| ensures LexLt(s[0], rest[k]) {
          assert rest[k] in rest;
          if rest[k] != x {
            assert rest[k] in s[1..];
          }
        }
      }
      [s[0]] + rest
  }

  /** `uniq.sort` on strings: the distinct values, in ascending order. */
  function SortedUnique(xs: seq<string>): (r: seq<string>)
    ensures StrictlyAscending(r)
    ensures forall y :: y in r <==> y in xs
  {
    if |xs| == 0 then [] else InsertUnique(xs[0], SortedUnique(xs[1..]))
  }

  /** The air days the store mentions, nil ones dropped (`compact`). */
  function AirdayList(store: seq<ShowRecord>): (r: seq<string>)
    ensures forall d :: d in r <==> exists s :: s in store && s.summary.airday == Some(d)
  {
    if |store| == 0 then []
    else
      var rest := AirdayList(store[1..]);
      assert forall s :: s in store <==> s == store[0] || s in store[1..];
      match store[0].summary.airday
      case None => rest
      case Some(d) => [d] + rest
  }

  /** The genres of every show, flattened. */
  function GenreList(store: seq<ShowRecord>): (r: seq<string>)
    ensures forall g :: g in r <==> exists s :: s in store && g in s.summary.genres
  {
    if |store| == 0 then []
    else
      var rest := GenreList(store[1..]);
      assert forall s :: s in store <==> s == store[0] || s in store[1..];
      store[0].summary.genres + rest
  }

  /** `Show.airdays`: every air day some show has, once each, ascending. */
  function Airdays(store: seq<ShowRecord>): (r: seq<string>)
    ensures StrictlyAscending(r)
    ensures forall d :: d in r <==> exists s :: s in store && WithAirday(s, d)
  {
    SortedUnique(AirdayList(store))
  }

  /** `Show.genres`: every genre some show lists, once each, ascending. */
  function Genres(store: seq<ShowRecord>): (r: seq<string>)
    ensures StrictlyAscending(r)
    ensures forall g :: g in r <==> exists s :: s in store && WithGenre(s, g)
  {
    SortedUnique(GenreList(store))
  }

  // -----------------------------------------------------------------------
  // filter_groups

  /** The three groupings of `filter_groups`, each a list of (key, shows) pairs. */
  datatype Groups = Groups(
    unwatched: seq<(string, seq<ShowRecord>)>,
    available: seq<(string, seq<ShowRecord>)>,
    genres: seq<(string, seq<ShowRecord>)>)

  /** The (day, shows) pairs built by `inject` over the air days: each day's shows with something to download. */
  function AvailablePairs(store: seq<ShowRecord>, days: seq<string>): (r: seq<(string, seq<ShowRecord>)>)
    ensures |r| == |days|
    ensures forall i :: 0 <= i < |r| ==> r[i].0 == days[i]
    ensures forall i, s :: 0 <= i < |r| ==>
              multiset(r[i].1)[s] == if AvailableOn(s, days[i]) then multiset(store)[s] else 0
  {
    seq(|days|, i requires 0 <= i < |days| => (days[i], Where(store, s => AvailableOn(s, days[i]))))
  }

  /** The (genre, shows) pairs built by `inject` over the genres: each genre's shows. */
  function GenrePairs(store: seq<ShowRecord>, genres: seq<string>): (r: seq<(string, seq<ShowRecord>)>)
    ensures |r| == |genres|
    ensures forall i :: 0 <= i < |r| ==> r[i].0 == genres[i]
    ensures forall i, s :: 0 <= i < |r| ==>
              multiset(r[i].1)[s] == if WithGenre(s, genres[i]) then multiset(store)[s] else 0
  {
    seq(|genres|, i requires 0 <= i < |genres| => (genres[i], Where(store, s => WithGenre(s, genres[i]))))
  }

  /**
   * `filter_groups`: the single unwatched list; one list of shows with
   * downloadable episodes per air day, weekdays first in calendar order; and
   * one list per genre, genres ascending. These lists keep store order.
   */
  function FilterGroups(store: seq<ShowRecord>, thisMonth: string, lastMonth: string): (r: Groups)
    ensures r.unwatched == [("unwatched", Where(store, s => Unwatched(s, thisMonth, lastMonth)))]
    ensures multiset(r.available) == multiset(AvailablePairs(store, Airdays(store)))
    ensures SortedBy(r.available, RankLe)
    ensures |r.genres| == |Genres(store)|
    ensures forall i :: 0 <= i < |r.genres| ==>
              r.genres[i].0 == Genres(store)[i] && forall s :: multiset(r.genres[i].1)[s] == if WithGenre(s, r.genres[i].0) then multiset(store)[s] else 0
  {
    Groups(
      [("unwatched", Where(store, s => Unwatched(s, thisMonth, lastMonth)))],
      WeekdaySort(AvailablePairs(store, Airdays(store))),
      GenrePairs(store, Genres(store)))
  }

  /** Every air-day group holds exactly the shows that air that day and have something to download. */
  lemma AvailableGroupMeaning(store: seq<ShowRecord>, thisMonth: string, lastMonth: string, i: nat)
    requires i < |FilterGroups(store, thisMonth, lastMonth).available|
    ensures var (day, shows) := FilterGroups(store, thisMonth, lastMonth).available[i];
            (exists s :: s in store && WithAirday(s, day))
            && forall s :: s in shows <==> s in store && AvailableOn(s, day)
  {
    var g := FilterGroups(store, thisMonth, lastMonth);
    var pairs := AvailablePairs(store, Airdays(store));
    assert g.available[i] in multiset(pairs);
    var k :| 0 <= k < |pairs| && pairs[k] == g.available[i];
    assert Airdays(store)[k] in Airdays(store);
  }
}
