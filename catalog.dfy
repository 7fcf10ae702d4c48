/**
 * The episode catalog of a show (`rage_summary["Episodelist"]`) as a typed
 * structure: an ordered list of seasons, each an ordered list of episodes
 * with the three fields the application writes (`binary`, `watched`,
 * `available`).
 */
module Catalog {
  import opened Wrappers
  import opened Text

  datatype Episode = Episode(
    seasonnum: string,          // episode number within its season, as fetched
    airdate: string,            // air date text, e.g. "2012-03-04"
    binary: Option<string>,     // path of the file bound to the episode
    watched: Option<bool>,
    available: Option<bool>)

  datatype Season = Season(no: string, episodes: seq<Episode>)

  // ---------------------------------------------------------------------
  // `String#to_i` and `Integer#to_s` on decimal digit strings

  function DigitValue(c: char): nat
    requires IsDigit(c)
  {
    c as int - '0' as int
  }

  function DigitChar(d: nat): char
    requires d < 10
  {
    ('0' as int + d) as char
  }

  /** `t.to_i` for a string of decimal digits. */
  function DecimalValue(t: string): nat
    requires AllDigits(t)
  {
    if |t| == 0 then 0 else DecimalValue(t[..|t| - 1]) * 10 + DigitValue(t[|t| - 1])
  }

  /** `n.to_s`: decimal digits without leading zeros ("0" for zero). */
  function Decimal(n: nat): (r: string)
    ensures |r| > 0 && AllDigits(r)
    ensures r[0] == '0' <==> n == 0
  {
    if n < 10 then [DigitChar(n)] else Decimal(n / 10) + [DigitChar(n % 10)]
  }

  lemma {:induction false} DecimalRoundTrip(n: nat)
    ensures DecimalValue(Decimal(n)) == n
  {
    if n >= 10 {
      DecimalRoundTrip(n / 10);
      var r := Decimal(n);
      assert r[..|r| - 1] == Decimal(n / 10);
    }
  }

  /** A leading zero does not change the value. */
  lemma {:induction false} LeadingZero(t: string)
    requires AllDigits(t)
    ensures DecimalValue("0" + t) == DecimalValue(t)
  {
    if |t| > 0 {
      var z := "0" + t;
      assert z[..|z| - 1] == "0" + t[..|t| - 1];
      LeadingZero(t[..|t| - 1]);
    }
  }

  /** `season.to_i.to_s`: the key a parsed season is looked up by. */
  function SeasonKey(digits: string): string
    requires AllDigits(digits)
  {
    Decimal(DecimalValue(digits))
  }

  /** Two season numbers select the same season exactly when they denote the same number. */
  lemma SeasonKeysAgree(a: string, b: string)
    requires AllDigits(a) && AllDigits(b)
    ensures SeasonKey(a) == SeasonKey(b) <==> DecimalValue(a) == DecimalValue(b)
  {
    DecimalRoundTrip(DecimalValue(a));
    DecimalRoundTrip(DecimalValue(b));
  }

  /** "01" and "1" select the same season; "3" is written "3". */
  lemma SeasonKeyStripsZeros(t: string)
    requires AllDigits(t)
    ensures SeasonKey("0" + t) == SeasonKey(t)
    ensures SeasonKey("01") == "1"
  {
    LeadingZero(t);
    assert DecimalValue("01") == 1 by {
      assert "01"[..1] == "0";
      assert "0"[..0] == "";
    }
  }

  // ---------------------------------------------------------------------
  // Lookups: `select { ... }.first`

  /** Index of the first season whose `no` is `key`. */
  function FindSeason(seasons: seq<Season>, key: string): (r: Option<nat>)
    ensures r.Some? ==> r.value < |seasons| && seasons[r.value].no == key
    ensures r.Some? ==> forall i :: 0 <= i < r.value ==> seasons[i].no != key
    ensures r.None? ==> forall i :: 0 <= i < |seasons| ==> seasons[i].no != key
  {
    if |seasons| == 0 then None
    else if seasons[0].no == key then Some(0)
    else match FindSeason(seasons[1..], key)
      case None => None
      case Some(i) => Some(i + 1)
  }

  /** Index of the first episode whose `seasonnum` is `key`, compared verbatim. */
  function FindEpisode(episodes: seq<Episode>, key: string): (r: Option<nat>)
    ensures r.Some? ==> r.value < |episodes| && episodes[r.value].seasonnum == key
    ensures r.Some? ==> forall i :: 0 <= i < r.value ==> episodes[i].seasonnum != key
    ensures r.None? ==> forall i :: 0 <= i < |episodes| ==> episodes[i].seasonnum != key
  {
    if |episodes| == 0 then None
    else if episodes[0].seasonnum == key then Some(0)
    else match FindEpisode(episodes[1..], key)
      case None => None
      case Some(i) => Some(i + 1)
  }

  /** An episode number is matched character for character: "3" does not find "03". */
  lemma EpisodeNumberIsVerbatim(e: Episode)
    requires e.seasonnum == "03"
    ensures FindEpisode([e], "3").None?
  {
  }

  predicate ValidSlot(c: seq<Season>, i: int, j: int) {
    0 <= i < |c| && 0 <= j < |c[i].episodes|
  }

  /**
   * The (season, episode) position a parsed file is bound to: the first
   * season with the season key, then its first episode with the episode
   * number. A missing catalog behaves like an empty one.
   */
  function Slot(catalog: Option<seq<Season>>, seasonKey: string, episodeKey: string): (r: Option<(nat, nat)>)
    ensures r.Some? ==> catalog.Some? && ValidSlot(catalog.value, r.value.0, r.value.1)
    ensures r.Some? ==> catalog.value[r.value.0].no == seasonKey
    ensures r.Some? ==> catalog.value[r.value.0].episodes[r.value.1].seasonnum == episodeKey
    ensures r.Some? ==> forall i :: 0 <= i < r.value.0 ==> catalog.value[i].no != seasonKey
    ensures r.Some? ==> forall j :: 0 <= j < r.value.1 ==> catalog.value[r.value.0].episodes[j].seasonnum != episodeKey
    ensures r.None? && catalog.Some? ==>
      var i := FindSeason(catalog.value, seasonKey);
      i.None? || forall j :: 0 <= j < |catalog.value[i.value].episodes| ==> catalog.value[i.value].episodes[j].seasonnum != episodeKey
  {
    if catalog.None? then None
    else match FindSeason(catalog.value, seasonKey)
      case None => None
      case Some(i) =>
        match FindEpisode(catalog.value[i].episodes, episodeKey)
        case None => None
        case Some(j) => Some((i, j))
  }

  // ---------------------------------------------------------------------
  // Binding a file to an episode

  /** `merge!('binary' => path)` and `merge!('watched' => watched)` on one episode. */
  function Bind(c: seq<Season>, i: nat, j: nat, path: string, watched: bool): (r: seq<Season>)
    requires ValidSlot(c, i, j)
    ensures |r| == |c|
    ensures forall x :: 0 <= x < |c| ==> r[x].no == c[x].no && |r[x].episodes| == |c[x].episodes|
    ensures r[i].episodes[j] == c[i].episodes[j].(binary := Some(path), watched := Some(watched))
    ensures forall x, y :: ValidSlot(c, x, y) && (x != i || y != j) ==> r[x].episodes[y] == c[x].episodes[y]
  {
    c[i := c[i].(episodes := c[i].episodes[j := c[i].episodes[j].(binary := Some(path), watched := Some(watched))])]
  }

  /** The episode without the two fields a scan writes. */
  function Erase(e: Episode): Episode {
    e.(binary := None, watched := None)
  }

  /**
   * Two catalogs that differ at most in `binary` and `watched`: the same
   * seasons, the same episodes, the same numbers, dates and availability.
   */
  ghost predicate SameShape(c: seq<Season>, d: seq<Season>) {
    |c| == |d|
    && (forall i :: 0 <= i < |c| ==> c[i].no == d[i].no && |c[i].episodes| == |d[i].episodes|)
    && (forall i, j :: ValidSlot(c, i, j) ==> Erase(c[i].episodes[j]) == Erase(d[i].episodes[j]))
  }

  ghost predicate SameShapeOpt(c: Option<seq<Season>>, d: Option<seq<Season>>) {
    c.Some? == d.Some? && (c.Some? ==> SameShape(c.value, d.value))
  }

  lemma {:induction false} FindSeasonSameShape(c: seq<Season>, d: seq<Season>, key: string)
    requires |c| == |d| && forall i :: 0 <= i < |c| ==> c[i].no == d[i].no
    ensures FindSeason(c, key) == FindSeason(d, key)
  {
    if |c| > 0 && c[0].no != key {
      FindSeasonSameShape(c[1..], d[1..], key);
    }
  }

  lemma {:induction false} FindEpisodeSameShape(e: seq<Episode>, f: seq<Episode>, key: string)
    requires |e| == |f| && forall i :: 0 <= i < |e| ==> Erase(e[i]) == Erase(f[i])
    ensures FindEpisode(e, key) == FindEpisode(f, key)
  {
    if |e| > 0 {
      assert e[0].seasonnum == Erase(e[0]).seasonnum == Erase(f[0]).seasonnum == f[0].seasonnum;
      if e[0].seasonnum != key {
        FindEpisodeSameShape(e[1..], f[1..], key);
      }
    }
  }

  /** A lookup never depends on which files are bound or which episodes are watched. */
  lemma SlotSameShape(c: Option<seq<Season>>, d: Option<seq<Season>>, seasonKey: string, episodeKey: string)
    requires SameShapeOpt(c, d)
    ensures Slot(c, seasonKey, episodeKey) == Slot(d, seasonKey, episodeKey)
  {
    if c.Some? {
      FindSeasonSameShape(c.value, d.value, seasonKey);
      match FindSeason(c.value, seasonKey)
      case None =>
      case Some(i) =>
        assert forall j :: 0 <= j < |c.value[i].episodes| ==> Erase(c.value[i].episodes[j]) == Erase(d.value[i].episodes[j]) by {
          forall j | 0 <= j < |c.value[i].episodes| ensures Erase(c.value[i].episodes[j]) == Erase(d.value[i].episodes[j]) {
            assert ValidSlot(c.value, i, j);
          }
        }
        FindEpisodeSameShape(c.value[i].episodes, d.value[i].episodes, episodeKey);
    }
  }

  lemma BindSameShape(c: seq<Season>, i: nat, j: nat, path: string, watched: bool)
    requires ValidSlot(c, i, j)
    ensures SameShape(Bind(c, i, j, path, watched), c)
  {
    var r := Bind(c, i, j, path, watched);
    forall x, y | ValidSlot(r, x, y) ensures Erase(r[x].episodes[y]) == Erase(c[x].episodes[y]) {
    }
  }

  // ---------------------------------------------------------------------
  // `calculate_availability`: the flag is recomputed from the air date

  /** Aired within the trailing week: after `today - 7` and before `today`, both strict. */
  predicate AiredLastWeek(airdate: int, today: int) {
    today - 7 < airdate < today
  }

  /**
   * One episode of the pass: an unparseable air date leaves the episode as it
   * is; otherwise `available` becomes "aired last week and no file bound".
   */
  function RefreshAvailability(e: Episode, today: int, parseDate: string -> Option<int>): Episode {
    match parseDate(e.airdate)
    case None => e
    case Some(d) => e.(available := Some(AiredLastWeek(d, today) && BlankOpt(e.binary)))
  }

  /** The episodes of one season after the pass, each refreshed in place. */
  function EpisodesAvailability(es: seq<Episode>, today: int, parseDate: string -> Option<int>): seq<Episode> {
    seq(|es|, j requires 0 <= j < |es| => RefreshAvailability(es[j], today, parseDate))
  }

  /** One season after the pass. */
  function SeasonAvailability(s: Season, today: int, parseDate: string -> Option<int>): Season {
    s.(episodes := EpisodesAvailability(s.episodes, today, parseDate))
  }

  /** The whole catalog after one pass, every season and episode kept in place. */
  function Availability(c: seq<Season>, today: int, parseDate: string -> Option<int>): (r: seq<Season>)
    ensures |r| == |c|
    ensures forall i :: 0 <= i < |c| ==> r[i].no == c[i].no && |r[i].episodes| == |c[i].episodes|
    ensures forall i, j :: ValidSlot(c, i, j) ==> r[i].episodes[j] == RefreshAvailability(c[i].episodes[j], today, parseDate)
  {
    seq(|c|, i requires 0 <= i < |c| => SeasonAvailability(c[i], today, parseDate))
  }

  /**
   * After the pass an episode is flagged available exactly when its date
   * parses, it aired within the trailing week and it has no file, or when its
   * date does not parse and it was flagged before. Nothing but `available`
   * changes; an episode whose date does not parse is left as it was.
   */
  lemma AvailabilityMeaning(c: seq<Season>, today: int, parseDate: string -> Option<int>, i: nat, j: nat)
    requires ValidSlot(c, i, j)
    ensures var e := c[i].episodes[j];
            var r := Availability(c, today, parseDate)[i].episodes[j];
            && r.(available := e.available) == e
            && (r.available == Some(true) <==>
                  (parseDate(e.airdate).Some? && AiredLastWeek(parseDate(e.airdate).value, today) && BlankOpt(e.binary))
                  || (parseDate(e.airdate).None? && e.available == Some(true)))
            && (parseDate(e.airdate).Some? ==> r.available.Some?)
            && (parseDate(e.airdate).None? ==> r == e)
  {
  }

  /** Running the pass again on the same day changes nothing. */
  lemma {:induction false} AvailabilityIdempotent(c: seq<Season>, today: int, parseDate: string -> Option<int>)
    ensures Availability(Availability(c, today, parseDate), today, parseDate) == Availability(c, today, parseDate)
  {
    var r := Availability(c, today, parseDate);
    var rr := Availability(r, today, parseDate);
    forall i | 0 <= i < |c| ensures rr[i] == r[i] {
      forall j | 0 <= j < |c[i].episodes| ensures rr[i].episodes[j] == r[i].episodes[j] {
        assert ValidSlot(c, i, j) && ValidSlot(r, i, j);
      }
      assert rr[i].episodes == r[i].episodes;
    }
  }

  /** Episodes aired 3, 10 and 0 days ago, with and without a bound file. */
  lemma AvailabilityWindowExamples(today: int, e: Episode)
    requires e.binary.None?
    ensures var parse := (s: string) => Some(today - 3);
            RefreshAvailability(e, today, parse).available == Some(true)
    ensures var parse := (s: string) => Some(today - 3);
            RefreshAvailability(e.(binary := Some("/tv/a.mkv")), today, parse).available == Some(false)
    ensures var parse := (s: string) => Some(today - 10);
            RefreshAvailability(e, today, parse).available == Some(false)
    ensures var parse := (s: string) => Some(today);
            RefreshAvailability(e, today, parse).available == Some(false)
  {
    assert !Blank("/tv/a.mkv") by {
      assert !IsSpace("/tv/a.mkv"[0]);
    }
  }

  // ---------------------------------------------------------------------
  // `episode_for`

  /** Some episode of the catalog has `binary` bound to it. */
  ghost predicate IsBound(c: seq<Season>, binary: string) {
    exists i, j :: ValidSlot(c, i, j) && c[i].episodes[j].binary == Some(binary)
  }

  /** Whether any of these episodes has `binary` bound to it. */
  function BoundInEpisodes(episodes: seq<Episode>, binary: string): (b: bool)
    ensures b <==> exists j :: 0 <= j < |episodes| && episodes[j].binary == Some(binary)
  {
    if |episodes| == 0 then false
    else episodes[0].binary == Some(binary) || BoundInEpisodes(episodes[1..], binary)
  }

  /** Whether any episode of these seasons has `binary` bound to it. */
  function BoundInSeasons(c: seq<Season>, binary: string): (b: bool)
    ensures b <==> IsBound(c, binary)
  {
    if |c| == 0 then false
    else if BoundInEpisodes(c[0].episodes, binary) then
      assert ValidSlot(c, 0, FindBinaryWitness(c[0].episodes, binary));
      true
    else
      var rest := BoundInSeasons(c[1..], binary);
      assert rest <==> IsBound(c, binary) by {
        if IsBound(c, binary) {
          var i, j :| ValidSlot(c, i, j) && c[i].episodes[j].binary == Some(binary);
          assert i != 0;
          assert ValidSlot(c[1..], i - 1, j);
        }
        if rest {
          var i, j :| ValidSlot(c[1..], i, j) && c[1..][i].episodes[j].binary == Some(binary);
          assert ValidSlot(c, i + 1, j);
        }
      }
      rest
  }

  /** The position of a bound episode, for proofs. */
  ghost function FindBinaryWitness(episodes: seq<Episode>, binary: string): (j: nat)
    requires BoundInEpisodes(episodes, binary)
    ensures j < |episodes| && episodes[j].binary == Some(binary)
  {
    var j :| 0 <= j < |episodes| && episodes[j].binary == Some(binary); j
  }

  /** What `episode_for` returns: the bound path, or what `each` returns when it falls through. */
  datatype BinaryLookup = Found(binary: string) | FellThrough(episodeList: seq<Season>)

  /**
   * `episode_for(binary)` as written: the path when an episode is bound to
   * it; otherwise the loop runs to its end and the method returns the value
   * of `Episodelist.each`, the season list itself.
   */
  function EpisodeFor(c: seq<Season>, binary: string): (r: BinaryLookup)
    ensures r.Found? <==> IsBound(c, binary)
    ensures r.Found? ==> r.binary == binary
    ensures r.FellThrough? ==> r.episodeList == c
  {
    if BoundInSeasons(c, binary) then Found(binary) else FellThrough(c)
  }

  /**
   * A catalog with one unbound episode: looking up a path that is bound to
   * nothing still returns a non-nil value, the whole season list.
   */
  lemma EpisodeForMissReturnsList()
    ensures var c := [Season("1", [Episode("1", "2012-01-01", None, None, None)])];
            EpisodeFor(c, "/tv/Show.s01e01.mkv") == FellThrough(c)
  {
    var c := [Season("1", [Episode("1", "2012-01-01", None, None, None)])];
    assert !IsBound(c, "/tv/Show.s01e01.mkv") by {
      forall i, j | ValidSlot(c, i, j) ensures c[i].episodes[j].binary != Some("/tv/Show.s01e01.mkv") {
        assert i == 0 && j == 0;
      }
    }
  }

  /** `episode_for` as evidently intended: the bound path, or nil on a miss. */
  function BoundEpisodeFor(c: seq<Season>, binary: string): (r: Option<string>)
    ensures r.Some? <==> IsBound(c, binary)
    ensures r.Some? ==> r.value == binary
  {
    if BoundInSeasons(c, binary) then Some(binary) else None
  }
}
