# TV show library: the show and TV models

This project models the core of a small Rails/Mongoid application. The application keeps a library of TV shows on disk and tracks which episodes exist as files, which of them have been watched, and which have just aired. The model covers two documents:

- **`Show`** (models/show.rb):
  - the file-name pattern `SHOW_PATTERN` and the container whitelist `BINARY_TYPES`;
  - the episode scan `refresh_episodes`, which binds file paths to the episodes of the fetched catalog (`rage_summary["Episodelist"]`);
  - the availability pass `calculate_availability`;
  - the `before_save` name normalisation and the `name_on_disk` presence validation;
  - the accessors `genres` and `ended`;
  - the named scopes, `filter_shows_by`, `filter_groups`, `weekday_sort` and the class-level `airdays` and `genres` lists;
  - `episode_for` and `Show.watched_for`.
- **`TV`** (models/tv.rb): the playback devices, their unique names, the `current` flag with its default, `TV.tv` and `TV.default`.

Modules:

| module | file | what it holds |
|---|---|---|
| `Wrappers` | wrappers.dfy | `Option` |
| `Text` | text.dfy | `blank?`, ASCII `downcase`, byte-wise string order, `split` |
| `FilePaths` | file_paths.dfy | `File.basename` and `File.dirname` |
| `ShowPattern` | show_pattern.dfy | `SHOW_PATTERN` as an explicit greedy matcher, `BINARY_TYPES`, splitting the tail |
| `Catalog` | catalog.dfy | the episode catalog, season and episode lookup, binding, availability, `episode_for` |
| `Reconcile` | reconcile.dfy | one path of `refresh_episodes` as a step on (spam, catalog); the scan as a fold; rescanning |
| `Sorting` | sorting.dfy | a sorted permutation under a total order |
| `Shows` | shows.dfy | the `Show` class with its in-place methods; `watched_for` |
| `Filters` | filters.dfy | scopes, `filter_shows_by`, `filter_groups`, `weekday_sort`, `airdays`, `genres` |
| `Tvs` | tv.dfy | the `TV` class and the TV collection with `TV.tv` and `TV.default` |

Some inputs are parameters of the model:

- The clock is a day number `today`.
- `Date.parse` is a function `parseDate: string -> Option<int>`; `None` stands for the `rescue nil` path.
- `this_month` and `last_month` are prefix strings; `Filters.MonthPrefix` builds them from a year and a month.
- The set of candidate paths that `refresh_episodes` collects with `egrep` is a sequence of paths.
- The store of saved shows is a sequence of `ShowRecord` values, in store order.

Where the code and the prose description of the application differ, the model follows the code:

- An episode number is compared character for character with the catalog's `seasonnum`, without the `to_i` normalisation that the season number gets (`Catalog.EpisodeNumberIsVerbatim`).
- The availability window is strict at both ends: an episode that airs today, or exactly seven days ago, is not available.
- The branch of `refresh_episodes` that records a file without season or episode (`files.push`) can never run. When `SHOW_PATTERN` matches, groups 3 and 4 are non-empty (`ShowPattern.Parse`), so that branch is not modelled.
- When two paths name the same episode, the one scanned last is bound (`Reconcile.LastWriteWins`).
- The spam list is overwritten by every accepted file, even when its episode is not in the catalog.
- The scope `this_and_last_month` passes the same key twice in one hash, so only the `last_month` condition reaches `any_of`. The "unwatched" list therefore holds only shows with an episode whose air date starts with last month's prefix (`Filters.ThisMonthEpisodeIsDropped`).
- `refresh_episodes` saves the show after each bound file and `calculate_availability` saves it at the end; each save re-runs `before_save`.

## Model

| member | source | states |
|---|---|---|
| `ShowPattern.Parse` | models/show.rb:8 | the pattern matches exactly when some cut points satisfy it; the groups come from the greedy match; the marker is "" or "-"; name and tail are non-empty; season and episode are non-empty digit strings |
| `ShowPattern.LocateIsGreedy` | models/show.rb:8 | the located match is preferred (as a backtracking engine orders alternatives) to every other match of the name |
| `ShowPattern.CapturesRebuild` | models/show.rb:8 | the five groups, with the `s` and `e` between them, glue back into the whole base name |
| `ShowPattern.MarkerIsLeadingDash` | models/show.rb:8 | group 1 is "-" exactly when the name starts with a dash and the match keeps it as the marker |
| `ShowPattern.Tokens` | models/show.rb:417 | the tail split on '.' with blank pieces dropped: no token is blank or contains a dot |
| `ShowPattern.SpamTokens` | models/show.rb:418 | `spam.pop`: the kept tokens plus the popped extension are the token list |
| `ShowPattern.TokensOfPiece` | models/show.rb:417 | a piece without dots is one token, or none when it is blank |
| `ShowPattern.TokensLast` | models/show.rb:417 | the tokens of a tail ending in `.piece` are the tokens before it, in order, followed by the piece unless it is blank |
| `ShowPattern.ExtensionIsLastPiece` | models/show.rb:417-419 | the popped extension is the text after the last dot, and the spam tokens are the tokens of the text before it |
| `ShowPattern.TokensOfPieces` | models/show.rb:417-419 | a tail `a.b.ext` of non-blank dot-free pieces splits into `[a, b, ext]`; the spam list is `[a, b]` and the extension `ext` |
| `Text.SplitOn` | models/show.rb:417 | every piece is free of the separator, and the pieces joined with it give the string back |
| `Text.SplitOnNoSep` | models/show.rb:417 | a string without the separator splits into itself alone |
| `Text.SplitOnLast` | models/show.rb:417 | splitting `a + sep + b`, with `b` free of the separator, gives the pieces of `a` in order followed by `b` |
| `Text.NonBlank` | models/show.rb:417 | `reject(&:blank?)`: exactly the non-blank pieces remain |
| `Text.NonBlankAppend` | models/show.rb:417 | dropping blanks keeps the order: on a concatenation it is the two results concatenated |
| `Text.NonBlankSingle` | models/show.rb:417 | one piece is kept exactly when it is not blank |
| `Text.Lower` | models/show.rb:48 | `downcase`: the same length, no upper-case letter left; each upper-case ASCII letter becomes its lower-case letter (code + 32) and every other character stays |
| `Text.LowerIdempotent` | models/show.rb:48 | lower-casing twice is lower-casing once |
| `Text.LexLeTotal` | models/show.rb:75 | the name order is total, so `asc` has a sorted result |
| `Text.LexLeTransitive` | models/show.rb:75 | the name order is transitive |
| `FilePaths.Basename` | models/show.rb:384 | `File.basename` yields a component without '/' (or "/" itself) |
| `FilePaths.SplitPath` | models/show.rb:200 | a directory, one slash and a file name split back into that directory and that file name |
| `FilePaths.SlashDashJoin` | models/show.rb:199 | "/-" occurs in dir/file exactly when it occurs in dir or file starts with '-' |
| `Catalog.DecimalRoundTrip` | models/show.rb:429 | `n.to_s.to_i == n` |
| `Catalog.SeasonKeysAgree` | models/show.rb:429 | two season numbers select the same season iff they denote the same number |
| `Catalog.SeasonKeyStripsZeros` | models/show.rb:429 | "01" and "1" select the same season |
| `Catalog.FindSeason` | models/show.rb:429 | `select { no == key }.first`: the first season with that number, or none |
| `Catalog.FindEpisode` | models/show.rb:430 | `select { seasonnum == key }.first`: the first episode with that number, or none |
| `Catalog.EpisodeNumberIsVerbatim` | models/show.rb:430 | episode "3" does not find catalog episode "03" |
| `Catalog.Slot` | models/show.rb:428-431 | the position found is the first matching season and, within it, the first matching episode; a miss means one of them is absent; a missing catalog finds nothing |
| `Catalog.SlotSameShape` | models/show.rb:428-431 | a lookup does not depend on bound files or watched flags |
| `Catalog.Bind` | models/show.rb:440-441 | exactly one episode gets `binary` and `watched`; every other episode and every season number is unchanged |
| `Catalog.Availability` | models/show.rb:280-285 | every season and episode keeps its place; each episode is refreshed on its own |
| `Catalog.AvailabilityMeaning` | models/show.rb:282-283 | only `available` changes; it is true iff the date parses, the episode aired within the trailing week (strictly) and no file is bound, or the date does not parse and it was already true; an episode whose date does not parse is left exactly as it was |
| `Catalog.AvailabilityIdempotent` | models/show.rb:278-288 | a second pass on the same day changes nothing |
| `Catalog.AvailabilityWindowExamples` | models/show.rb:283 | aired 3 days ago and unbound: available; bound, or aired 10 days ago, or today: not |
| `Catalog.BoundInSeasons` | models/show.rb:188-195 | the nested loop finds a path iff some episode has it as `binary` |
| `Catalog.EpisodeFor` | models/show.rb:187-196 | as written: the path when bound, otherwise the season list that `each` returns |
| `Catalog.EpisodeForMissReturnsList` | models/show.rb:187-196 | a path bound to nothing returns the whole season list, not nil |
| `Catalog.BoundEpisodeFor` | models/show.rb:187-196 | corrected: the path iff it is bound, nil otherwise |
| `Reconcile.Classify` | models/show.rb:385-438 | a matched path names a position that exists in the catalog |
| `Reconcile.ClassifyMeaning` | models/show.rb:395-438 | unrecognised iff the name does not match; rejected iff the extension is not whitelisted; unmatched iff season or episode is missing; matched otherwise, with the spam tokens, the first matching position and the marker as `watched` |
| `Reconcile.StepSkips` | models/show.rb:395-422 | a non-matching name or a non-whitelisted extension changes nothing |
| `Reconcile.StepSetsSpam` | models/show.rb:416-423 | an accepted name overwrites the spam list, and leaves the catalog alone when its episode is absent |
| `Reconcile.StepMatches` | models/show.rb:423-441 | a found episode gets the full path and the marker; the spam list becomes the tail tokens |
| `Reconcile.StepBindsOneEpisode` | models/show.rb:440-441 | exactly the named episode changes; all others and all season numbers stay |
| `Reconcile.StepSameShape` | models/show.rb:440-441 | a step writes only `binary` and `watched` |
| `Reconcile.ClassifySameShape` | models/show.rb:428-431 | how a path is handled does not depend on earlier bindings |
| `Reconcile.ReconcileAllSnoc` | models/show.rb:380 | scanning one more path is one more step at the end |
| `Reconcile.NoBindKeepsCatalog` | models/show.rb:423-441 | a scan in which no path binds an episode leaves the catalog as it was |
| `Reconcile.StepIdempotent` | models/show.rb:440-441 | handling the same path twice in a row is handling it once |
| `Reconcile.Converge` | models/show.rb:440-441 | two states that differ only where a path writes become equal once it is handled |
| `Reconcile.Absorb` | models/show.rb:378-380 | a later occurrence of a path erases any difference it could write |
| `Reconcile.RescanIdempotent` | models/show.rb:375-445 | scanning the same path list a second time leaves the show exactly as the first scan did |
| `Reconcile.LastWriteWins` | models/show.rb:440-441 | of two paths naming the same episode, the later one is bound |
| `Reconcile.ReconcileTwo` | models/show.rb:380 | a scan of two paths is the two steps in order |
| `Shows.ScanPath` | models/show.rb:380-443 | the loop body on (spam, catalog) does what one step of the scan does |
| `Shows.RefreshSeason` | models/show.rb:281-284 | the inner loop refreshes every episode of a season in place |
| `Shows.Show.RefreshEpisodes` | models/show.rb:375-445 | spam and catalog end as the scan of all paths in order; when some path binds an episode the show has been saved, so the names are those `before_save` derives, and otherwise they are unchanged; every other field and every other summary key is unchanged |
| `Shows.Show.RefreshPath` | models/show.rb:381-442 | one pass of the loop: spam and catalog take one scan step; when the path binds an episode the show is saved (`before_save` on the names); nothing else changes |
| `Shows.Show.CalculateAvailability` | models/show.rb:278-288 | the catalog becomes its availability pass, `last_calculated` becomes today, the show is saved so the names are those `before_save` derives, and nothing else changes |
| `Shows.Show.constructor` | models/show.rb:12-29 | field defaults: `ignore_unwatched` false, `last_calculated` today, empty lists, empty summary |
| `Shows.Show.Save` | models/show.rb:42-50 | saving fails iff `name_on_disk` is blank; the names become `Saved` of the old names; no other field changes |
| `Shows.Saved` | models/show.rb:45-50 | `before_save`: with `name_on_disk` blank nothing changes; otherwise a blank name takes `name_on_disk`, the lower-case name is the name lower-cased and the dotted name is `name_on_disk` lower-cased with spaces as dots |
| `Shows.SavedIdempotent` | models/show.rb:45-50 | a second `before_save` changes nothing |
| `Shows.SavedKeepsNormalised` | models/show.rb:45-50 | after `before_save` with `name_on_disk` present the derived names agree with the name and `name_on_disk` |
| `Shows.Dotted` | models/show.rb:49 | `gsub(/ /, '.')`: the same length; each space becomes a dot and every other character stays |
| `Shows.Show.Genres` | models/show.rb:122-124 | the classification comes first, even when nil, followed by every metadata genre |
| `Shows.Show.Ended` | models/show.rb:146-148 | the end date, or the status in parentheses |
| `Shows.WatchedForKeepsUnmarked` | models/show.rb:198-201 | as written: an unmarked file in an unmarked directory comes back unchanged |
| `Shows.WatchedForDoublesMark` | models/show.rb:198-201 | as written: an already marked file gets a second dash |
| `Shows.MarkWatchedMarksOnce` | models/show.rb:198-201 | corrected: an unmarked file gets exactly one leading dash; a marked one is kept |
| `Shows.MarkWatchedIdempotent` | models/show.rb:198-201 | corrected: marking twice is marking once |
| `Shows.MarkedFileReadsWatched` | models/show.rb:425 | a recognised file name, with a dash in front, is read back with the watched marker |
| `Shows.MarkWatchedReadsWatched` | models/show.rb:198-201 | corrected: the marked base name of a recognised unwatched episode file is read back as watched |
| `Filters.Flatten` | models/show.rb:37-40 | an episode is among a show's episodes iff it sits at some season and episode position |
| `Filters.Where` | models/show.rb:33-40 | a scope keeps each matching show exactly as often as the store holds it and drops the rest |
| `Filters.WhereCons` | models/show.rb:33-40 | a scope looks at the first show, then at the rest |
| `Filters.WhereAppend` | models/show.rb:33-40 | a scope keeps store order: on a concatenation it is the two results concatenated |
| `Filters.WhereSingle` | models/show.rb:33-40 | a single show is kept exactly when it matches |
| `Filters.ThisMonthEpisodeIsDropped` | models/show.rb:39-40 | as written: a show whose only unwatched episode aired this month is not in the unwatched list, although it is under the intended this-or-last-month condition |
| `Filters.IntendedListsRecentUnwatched` | models/show.rb:33-40 | corrected: a show that is not ignored and has an unwatched episode aired this month or last month is in the unwatched list |
| `Filters.AscByName` | models/show.rb:75 | `asc(:name_in_lowercase)` is a permutation sorted by lower-case name |
| `Filters.FilterShowsBy` | models/show.rb:71-85 | "all" or none: every show; "genres", "available", "unwatched": exactly the shows of the matching scopes, where "unwatched" uses last month's prefix only, as written; "states" raises; unknown names give nil; every list sorted by name |
| `Filters.MonthPrefix` | models/show.rb:59-65 | "YYYY-MM": the year in decimal, a dash, two digits denoting the month |
| `Filters.TwoDigits` | models/show.rb:60 | `rjust(2, '0')` on a month: two digits with the month's value |
| `Filters.DayRank` | models/show.rb:96-106 | 999 exactly for keys that are not a weekday after lower-casing; weekdays rank 1 to 7 |
| `Filters.WeekOrder` | models/show.rb:96-104 | Sunday < Monday < ... < Saturday < any other key |
| `Filters.DayRankIgnoresCase` | models/show.rb:106 | the rank is computed on the lower-cased key |
| `Filters.WeekdaySort` | models/show.rb:105-107 | a permutation of the pairs, sorted by rank of the key |
| `Filters.WeekdaysFirst` | models/show.rb:105-107 | after the sort, a lower-ranked key comes before a higher-ranked one |
| `Filters.SortedUnique` | models/show.rb:111 | `compact.uniq.sort`: strictly ascending, with exactly the input's values |
| `Filters.Airdays` | models/show.rb:110-112 | every air day some show has, once each, ascending |
| `Filters.Genres` | models/show.rb:114-116 | every genre some show lists, once each, ascending |
| `Filters.AvailablePairs` | models/show.rb:90 | one pair per air day, in order; each holds every store show that airs that day and has an episode to download, as often as the store holds it, and no other show |
| `Filters.GenrePairs` | models/show.rb:91 | one pair per genre, in order; each holds every store show that lists that genre, as often as the store holds it, and no other show |
| `Filters.FilterGroups` | models/show.rb:87-92 | the unwatched group (last month's prefix only, as written); the air-day groups permuted into weekday order; one group per genre in ascending order, each with exactly its shows |
| `Filters.AvailableGroupMeaning` | models/show.rb:90 | every air-day group is keyed by a day some show airs and holds exactly the shows airing then with something to download |
| `Sorting.SortBy` | models/show.rb:105 | a sorted permutation under a total order |
| `Tvs.TV.constructor` | models/tv.rb:7 | a new TV is not current |
| `Tvs.FirstCurrent` | models/tv.rb:14-16 | the first current TV's position; none iff no TV is current |
| `Tvs.FindName` | models/tv.rb:20 | the position of a TV with that name, and no earlier TV has it; none iff no TV has it |
| `Tvs.DefaultFlags` | models/tv.rb:18-21 | after `default(n)` a TV is current exactly when its name is `n` |
| `Tvs.DefaultSelectsOne` | models/tv.rb:11-21 | with unique names, `default(n)` leaves exactly one current TV when `n` names one and none otherwise |
| `Tvs.TvStore.constructor` | models/tv.rb:11-12 | an empty collection satisfies the name validations |
| `Tvs.TvStore.Tv` | models/tv.rb:14-16 | `TV.tv`: a current TV, the first in store order; none iff no TV is current |
| `Tvs.TvStore.Add` | models/tv.rb:6-12 | a TV is created iff its name is present and not taken; it starts not current; the validations still hold |
| `Tvs.TvStore.Find` | models/tv.rb:20 | `where(name: n).one`: a TV with that name, none iff no name matches |
| `Tvs.TvStore.ClearAll` | models/tv.rb:19 | every flag is cleared |
| `Tvs.TvStore.Default` | models/tv.rb:18-21 | the flags become "named `n`"; succeeds iff `n` is a name; then `TV.tv` is that TV, otherwise no TV is current; the TVs and validations are kept |

## Left out

- Fetching metadata over HTTP (`fetch_rage_data`, `fetch_rage_summary`, the XML parsing), covers (`fetch_cover`, `remove_cover`, `cached_cover_path`), and the shell pipelines of `episodes_from` and `unknown_episodes`. These are network, file system and subprocess I/O. The scan takes its candidate paths as a parameter instead.
- The glob over `files_pattern` and its `raise` for a missing file: file-system I/O.
- The name-length guard of `episodes_from` (`name_in_dots.length > 3`): it belongs to the shell search that produces the paths.
- `Date.parse`, `Date.today`, `1.week.ago` and `30.days.ago`: the date library is a parameter (`parseDate`, `today`, the month prefixes).
- `started_as_date` and `ended_as_date` in `before_save`: they depend on the same date library and nothing in the core reads them.
- Persistence. `save` writes nothing; the model keeps each document's state in the class. The unique index on `name` and `validates_uniqueness_of :name_on_disk` on shows are MongoDB index checks across documents and are not modelled. The TV collection models the uniqueness of TV names as an invariant of the store.
- The memoised class caches (`@fg`, `@uniq_airdays`, `@uniq_genres`): the model always recomputes them.
- `seen_it`, `with_episode`, `any_episodes_updated_since?`, `airday`, `airtime` and the other accessors, `TV.volume`, tvr.rb and tvr.js are not part of this model.
- The class-level loops `Show.calculate_availability` and `Show.refresh_episodes`: each is a plain loop over the store calling the instance method that is modelled.
- `SHOW_PATTERN` anchors: `^` and `$` are taken as start and end of the whole name. A base name with an embedded newline is not modelled.
- Case-insensitivity and `downcase` cover ASCII letters only; `blank?` covers ASCII whitespace only.
- `filter_shows_by` with a nil `v` for `genres` or `available`: `v` is a string.
- The order among shows with equal lower-case names: MongoDB does not fix it, so only sortedness and permutation are stated.
- `Shows.Show.CalculateAvailability`: requires a fetched catalog. When `rage_summary` has no "Episodelist", the source raises on `nil.each`, and that error path is not modelled.
- `Tvs.TvStore.Default`: when no TV has the name, the source raises `NoMethodError` on `nil.current =` after the flags were cleared. The model returns `false` with every flag cleared, the state the source leaves behind.
- `Tvs.TV.constructor`: the TV name is a `const`, because nothing in the core renames a TV.

## Findings

| source | as written | input that shows it | evidently intended | confidence | as-written member | corrected member |
|---|---|---|---|---|---|---|
| models/show.rb:198-201 | a dash is added before the base name only when "/-" already occurs in the path | `/tv/Show/Show.s01e02.mkv` comes back unchanged, and `/tv/Show/-Show.s01e02.mkv` becomes `/tv/Show/--Show.s01e02.mkv` | mark the file as watched by giving its base name one leading dash, unless it already has one | medium, not executed | `Shows.WatchedForDoublesMark` | `Shows.MarkWatchedReadsWatched` |
| models/show.rb:39-40 | the hash passed to `any_of` has the key `rage_summary.Episodelist.episode.airdate` twice, so only the `last_month` condition is kept | this month "2026-10", last month "2026-09": a show that is not ignored and whose only episode aired "2026-10-05" and is unwatched is left out of the unwatched list | an episode aired this month or last month | high, not executed | `Filters.ThisMonthEpisodeIsDropped` | `Filters.IntendedListsRecentUnwatched` |
| models/show.rb:187-196 | on a miss the loop falls through and the method returns `rage_summary["Episodelist"]`, the value of `each` | a catalog with one unbound episode and the path `/tv/Show.s01e01.mkv` returns the season list, not nil | return the bound path, or nil when no episode has it | medium, not executed | `Catalog.EpisodeForMissReturnsList` | `Catalog.BoundEpisodeFor` |
