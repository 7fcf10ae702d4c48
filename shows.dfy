/**
 * The `Show` document of models/show.rb: its fields, the `before_save`
 * name normalisation, the episode scan (`refresh_episodes`), the
 * availability pass (`calculate_availability`), the `genres` and `ended`
 * accessors and `Show.watched_for`.
 */
module Shows {
  import opened Wrappers
  import opened Text
  import opened FilePaths
  import opened ShowPattern
  import opened Catalog
  import opened Reconcile

  /**
   * The fetched metadata (`rage_summary`) with the keys the application
   * reads; a key that was never fetched is None (or empty for genres).
   */
  datatype Summary = Summary(
    airday: Option<string>,
    genres: seq<string>,
    classification: Option<string>,
    ended: Option<string>,
    status: Option<string>,
    episodeList: Option<seq<Season>>)

  /** The default `rage_summary`, `{}`. */
  const NoSummary: Summary := Summary(None, [], None, None, None, None)

  /** A show as the store holds it, the part the queries read. */
  datatype ShowRecord = ShowRecord(
    nameOnDisk: string,
    nameInLowercase: string,
    ignoreUnwatched: bool,
    summary: Summary)

  /** `name_on_disk.downcase.gsub(/ /, '.')` after the downcase: spaces become dots. */
  function Dotted(s: string): (r: string)
    ensures |r| == |s| && ' ' !in r
    ensures forall i :: 0 <= i < |s| && s[i] != ' ' ==> r[i] == s[i]
    ensures forall i :: 0 <= i < |s| && s[i] == ' ' ==> r[i] == '.'
  {
    seq(|s|, i requires 0 <= i < |s| => if s[i] == ' ' then '.' else s[i])
  }

  /** The four name fields of a show, the ones `save` rewrites. */
  datatype Naming = Naming(
    name: Option<string>,
    nameInLowercase: Option<string>,
    nameOnDisk: Option<string>,
    nameInDots: Option<string>)

  /** The derived names agree with `name` and `name_on_disk`, both present. */
  predicate Normalised(n: Naming) {
    !BlankOpt(n.name) && !BlankOpt(n.nameOnDisk)
    && n.nameInLowercase == Some(Lower(n.name.value))
    && n.nameInDots == Some(Dotted(Lower(n.nameOnDisk.value)))
  }

  /**
   * The names after `save`: when `name_on_disk` is blank the validation fails
   * and nothing runs; otherwise `before_save` gives a blank name the
   * `name_on_disk` and derives the lower-case and dotted names.
   */
  function Saved(n: Naming): (r: Naming)
    ensures BlankOpt(n.nameOnDisk) ==> r == n
    ensures !BlankOpt(n.nameOnDisk) ==> Normalised(r) && r.nameOnDisk == n.nameOnDisk
    ensures !BlankOpt(n.nameOnDisk) ==> r.name == if BlankOpt(n.name) then n.nameOnDisk else n.name
  {
    if BlankOpt(n.nameOnDisk) then n
    else
      var name := if BlankOpt(n.name) then n.nameOnDisk else n.name;
      Naming(name, Some(Lower(name.value)), n.nameOnDisk, Some(Dotted(Lower(n.nameOnDisk.value))))
  }

  /** Names that are already normalised are saved unchanged. */
  lemma SavedKeepsNormalised(n: Naming)
    requires Normalised(n)
    ensures Saved(n) == n
  {
  }

  /** Saving twice is saving once. */
  lemma SavedIdempotent(n: Naming)
    ensures Saved(Saved(n)) == Saved(n)
  {
    if !BlankOpt(n.nameOnDisk) {
      SavedKeepsNormalised(Saved(n));
    }
  }

  /**
   * The body of the `refresh_episodes` loop for one path, on the two things
   * it writes: the spam list and the episode catalog. `bound` tells whether a
   * file was bound to an episode, the case in which the show is saved.
   */
  method ScanPath(spam: seq<string>, seasons: Option<seq<Season>>, path: string)
      returns (spam': seq<string>, seasons': Option<seq<Season>>, bound: bool)
    ensures Scan(spam', seasons') == Step(Scan(spam, seasons), path)
    ensures bound == Classify(seasons, path).Matched?
  {
    ghost var before := Scan(spam, seasons);
    spam', seasons', bound := spam, seasons, false;
    ClassifyMeaning(seasons, path);
    var file := Basename(path);
    // SHOW_PATTERN always captures a season and an episode when it matches,
    // so the branch that records a file without them is never taken.
    var parsed := Parse(file);
    if parsed.Some? {
      var groups := parsed.value;
      var tokens := Tokens(groups.tail);
      var extension := Extension(tokens);
      if extension.Some? && extension.value in BinaryTypes {
        spam' := SpamTokens(tokens);
        var watched := '-' in groups.marker;
        var slot := Slot(seasons, SeasonKey(groups.season), groups.episode);
        if slot.Some? {
          StepMatches(before, path, groups, slot.value.0, slot.value.1);
          seasons' := Some(Bind(seasons.value, slot.value.0, slot.value.1, path, watched));
          bound := true;
        } else {
          StepSetsSpam(before, path);
        }
      } else {
        StepSkips(before, path);
      }
    } else {
      StepSkips(before, path);
    }
  }

  /**
   * The inner loop of `calculate_availability`: each episode of one season
   * whose air date parses gets `available` recomputed, in place.
   */
  method RefreshSeason(episodes: seq<Episode>, today: int, parseDate: string -> Option<int>)
      returns (refreshed: seq<Episode>)
    ensures refreshed == EpisodesAvailability(episodes, today, parseDate)
  {
    ghost var target := EpisodesAvailability(episodes, today, parseDate);
    refreshed := episodes;
    var j := 0;
    while j < |refreshed|
      invariant 0 <= j <= |refreshed| == |episodes|
      invariant forall k :: 0 <= k < j ==> refreshed[k] == target[k]
      invariant forall k :: j <= k < |refreshed| ==> refreshed[k] == episodes[k]
    {
      var episode := refreshed[j];
      match parseDate(episode.airdate) {
        case None =>
        case Some(airdate) =>
          var available := airdate > today - 7 && airdate < today && BlankOpt(episode.binary);
          refreshed := refreshed[j := episode.(available := Some(available))];
      }
      j := j + 1;
    }
  }

  class Show {
    var name: Option<string>
    var nameInLowercase: Option<string>
    var nameOnDisk: Option<string>
    var nameInDots: Option<string>
    var ignoreUnwatched: bool
    var lastCalculated: int          // a day number
    var files: seq<string>           // files that name no season or episode
    var spam: seq<string>            // the tail tokens of the last accepted file
    var summary: Summary

    /** A new document with the field defaults of models/show.rb. */
    constructor (nameOnDisk: Option<string>, today: int)
      ensures this.nameOnDisk == nameOnDisk
      ensures name.None? && nameInLowercase.None? && nameInDots.None?
      ensures !ignoreUnwatched && lastCalculated == today
      ensures files == [] && spam == [] && summary == NoSummary
    {
      this.nameOnDisk := nameOnDisk;
      name, nameInLowercase, nameInDots := None, None, None;
      ignoreUnwatched := false;
      lastCalculated := today;
      files, spam := [], [];
      summary := NoSummary;
    }

    /** The four name fields. */
    function Names(): (r: Naming)
      reads this
      ensures r.name == name && r.nameInLowercase == nameInLowercase
      ensures r.nameOnDisk == nameOnDisk && r.nameInDots == nameInDots
    {
      Naming(name, nameInLowercase, nameOnDisk, nameInDots)
    }

    /** The derived name fields agree with `name` and `name_on_disk`. */
    predicate NamesNormalised()
      reads this
    {
      Normalised(Names())
    }

    /**
     * `save`: the presence validation of `name_on_disk`, then the
     * `before_save` callback. A blank name takes `name_on_disk`; the lower-case
     * and dotted names are derived again. Saving twice is saving once.
     */
    method Save() returns (ok: bool)
      modifies this
      ensures ok == !BlankOpt(old(nameOnDisk))
      ensures !ok ==> unchanged(this)
      ensures ok ==> name == (if BlankOpt(old(name)) then old(nameOnDisk) else old(name))
      ensures ok ==> NamesNormalised()
      ensures ok && old(NamesNormalised()) ==> unchanged(this)
      ensures Names() == Saved(old(Names()))
      ensures nameOnDisk == old(nameOnDisk) && ignoreUnwatched == old(ignoreUnwatched)
      ensures lastCalculated == old(lastCalculated) && files == old(files) && spam == old(spam)
      ensures summary == old(summary)
    {
      ok := !BlankOpt(nameOnDisk);
      if ok {
        if BlankOpt(name) {
          name := nameOnDisk;
        }
        if name.Some? {
          nameInLowercase := Some(Lower(name.value));
          nameInDots := Some(Dotted(Lower(nameOnDisk.value)));
        }
      }
    }

    /**
     * One path of `refresh_episodes`: the path is handled, and the show is
     * saved when it bound a file to an episode.
     */
    method RefreshPath(path: string)
      modifies this
      ensures Scan(spam, summary.episodeList) == Step(Scan(old(spam), old(summary.episodeList)), path)
      ensures summary.(episodeList := old(summary.episodeList)) == old(summary)
      ensures Names() == if Classify(old(summary.episodeList), path).Matched? then Saved(old(Names())) else old(Names())
      ensures files == old(files)
      ensures ignoreUnwatched == old(ignoreUnwatched) && lastCalculated == old(lastCalculated)
    {
      var newSpam, seasons, bound := ScanPath(spam, summary.episodeList, path);
      spam := newSpam;
      summary := summary.(episodeList := seasons);
      if bound {
        var saved := Save();
      }
    }

    /**
     * `refresh_episodes` over a list of candidate paths: each path is
     * parsed, checked and bound to its catalog episode, in order, and the
     * show is saved after every binding. Every other part of the summary and
     * every field that `save` does not rewrite is left as it was.
     */
    method RefreshEpisodes(paths: seq<string>)
      modifies this
      ensures Scan(spam, summary.episodeList) == ReconcileAll(Scan(old(spam), old(summary.episodeList)), paths)
      ensures summary.(episodeList := old(summary.episodeList)) == old(summary)
      ensures Names() == if Binds(Scan(old(spam), old(summary.episodeList)), paths) then Saved(old(Names())) else old(Names())
      ensures files == old(files)
      ensures ignoreUnwatched == old(ignoreUnwatched) && lastCalculated == old(lastCalculated)
    {
      ghost var start := Scan(spam, summary.episodeList);
      ghost var goal := ReconcileAll(start, paths);
      ghost var goalNames := if Binds(start, paths) then Saved(Names()) else Names();
      ghost var summary0 := summary;
      var i := 0;
      while i < |paths|
        invariant 0 <= i <= |paths|
        invariant ReconcileAll(Scan(spam, summary.episodeList), paths[i..]) == goal
        invariant (if Binds(Scan(spam, summary.episodeList), paths[i..]) then Saved(Names()) else Names()) == goalNames
        invariant summary.(episodeList := summary0.episodeList) == summary0
        invariant files == old(files)
        invariant ignoreUnwatched == old(ignoreUnwatched) && lastCalculated == old(lastCalculated)
      {
        ghost var before := Scan(spam, summary.episodeList);
        ghost var namesBefore := Names();
        assert paths[i..][0] == paths[i] && paths[i..][1..] == paths[i + 1..];
        RefreshPath(paths[i]);
        SavedIdempotent(namesBefore);
        i := i + 1;
      }
    }

    /**
     * `calculate_availability` on a show whose catalog has been fetched:
     * every episode's `available` flag is recomputed from its air date and
     * `today`, `last_calculated` is stamped, and the show is saved.
     */
    method CalculateAvailability(today: int, parseDate: string -> Option<int>)
      requires summary.episodeList.Some?
      modifies this
      ensures summary == old(summary).(episodeList := Some(Availability(old(summary.episodeList.value), today, parseDate)))
      ensures lastCalculated == today
      ensures Names() == Saved(old(Names()))
      ensures ignoreUnwatched == old(ignoreUnwatched) && files == old(files) && spam == old(spam)
    {
      var seasons := summary.episodeList.value;
      ghost var before := seasons;
      ghost var after := Availability(before, today, parseDate);
      var i := 0;
      while i < |seasons|
        invariant 0 <= i <= |seasons| == |before|
        invariant forall k :: 0 <= k < i ==> seasons[k] == after[k]
        invariant forall k :: i <= k < |seasons| ==> seasons[k] == before[k]
        invariant unchanged(this)
      {
        var episodes := RefreshSeason(seasons[i].episodes, today, parseDate);
        seasons := seasons[i := seasons[i].(episodes := episodes)];
        i := i + 1;
      }
      assert seasons == after;
      summary := summary.(episodeList := Some(seasons));
      lastCalculated := today;
      var saved := Save();
    }

    /**
     * The instance `genres`: the classification first, even when there is
     * none (it is prepended after `compact`), then the metadata genres.
     */
    function Genres(): (r: seq<Option<string>>)
      reads this
      ensures |r| == |summary.genres| + 1 && r[0] == summary.classification
      ensures forall i :: 1 <= i < |r| ==> r[i] == Some(summary.genres[i - 1])
    {
      var genres := summary.genres;
      [summary.classification] + seq(|genres|, i requires 0 <= i < |genres| => Some(genres[i]))
    }

    /** `ended`: the end date when there is one, otherwise the status in parentheses. */
    function Ended(): (r: string)
      reads this
      ensures summary.ended.Some? ==> r == summary.ended.value
      ensures summary.ended.None? ==>
                |r| >= 2 && r[0] == '(' && r[|r| - 1] == ')' && r[1..|r| - 1] == summary.status.GetOr("")
    {
      if summary.ended.Some? then summary.ended.value else "(" + summary.status.GetOr("") + ")"
    }
  }

  // -----------------------------------------------------------------------
  // `Show.watched_for`

  /**
   * `watched_for(path)` as written: a dash is put in front of the base name
   * exactly when "/-" already occurs somewhere in the path.
   */
  function WatchedFor(path: string): string {
    Dirname(path) + (if HasSlashDash(path) then "/-" else "/") + Basename(path)
  }

  /** An unmarked file in an unmarked directory comes back unchanged. */
  lemma WatchedForKeepsUnmarked(dir: string, file: string)
    requires |dir| > 0 && dir[|dir| - 1] != '/' && !HasSlashDash(dir)
    requires |file| > 0 && '/' !in file && file[0] != '-'
    ensures WatchedFor(dir + "/" + file) == dir + "/" + file
  {
    SplitPath(dir, file);
    SlashDashJoin(dir, file);
  }

  /** A file already marked watched (its name starts with '-') gets a second dash. */
  lemma WatchedForDoublesMark(dir: string, file: string)
    requires |dir| > 0 && dir[|dir| - 1] != '/'
    requires |file| > 0 && '/' !in file && file[0] == '-'
    ensures WatchedFor(dir + "/" + file) == dir + "/-" + file
  {
    SplitPath(dir, file);
    SlashDashJoin(dir, file);
  }

  /**
   * `watched_for` as evidently intended: the base name gets a leading dash
   * unless it already has one.
   */
  function MarkWatched(path: string): string {
    var file := Basename(path);
    Dirname(path) + "/" + (if |file| > 0 && file[0] == '-' then file else "-" + file)
  }

  /** Marking adds exactly one dash to an unmarked file and none to a marked one. */
  lemma MarkWatchedMarksOnce(dir: string, file: string)
    requires |dir| > 0 && dir[|dir| - 1] != '/'
    requires |file| > 0 && '/' !in file
    ensures file[0] != '-' ==> MarkWatched(dir + "/" + file) == dir + "/" + ("-" + file)
    ensures file[0] == '-' ==> MarkWatched(dir + "/" + file) == dir + "/" + file
  {
    SplitPath(dir, file);
  }

  /** Marking a path twice is marking it once. */
  lemma MarkWatchedIdempotent(dir: string, file: string)
    requires |dir| > 0 && dir[|dir| - 1] != '/'
    requires |file| > 0 && '/' !in file
    ensures MarkWatched(MarkWatched(dir + "/" + file)) == MarkWatched(dir + "/" + file)
  {
    MarkWatchedMarksOnce(dir, file);
    var marked := if file[0] == '-' then file else "-" + file;
    assert '/' !in marked && marked[0] == '-';
    assert MarkWatched(dir + "/" + file) == dir + "/" + marked;
    MarkWatchedMarksOnce(dir, marked);
  }

  /** Shifting a string by one character shifts every suffix match by one. */
  lemma SuffixShift(b: string, j: nat, k: nat, m: nat)
    requires SuffixOk(b, j, k, m)
    ensures SuffixOk("-" + b, j + 1, k + 1, m + 1)
  {
    var s := "-" + b;
    assert forall x :: 0 <= x < |b| ==> s[x + 1] == b[x];
  }

  /** A match that takes the leading dash is read with the watched marker. */
  lemma MarkerRead(s: string, q: Span)
    requires IsMatch(s, q) && q.w == 1
    ensures Parse(s).Some? && Parse(s).value.marker == "-"
  {
    LocateIsGreedy(s, q);
    var r := Locate(s).value;
    assert r.w == 1;
    assert s[..1] == [s[0]];
  }

  /**
   * A file the scan recognises, once marked, is read back by the scan as
   * watched.
   */
  lemma MarkedFileReadsWatched(file: string)
    requires Parse(file).Some?
    ensures Parse("-" + file).Some? && Parse("-" + file).value.marker == "-"
  {
    var p := Locate(file).value;
    SuffixShift(file, p.j, p.k, p.m);
    var marked := "-" + file;
    assert marked[0] == '-';
    MarkerRead(marked, Span(1, p.j + 1, p.k + 1, p.m + 1));
  }

  /**
   * The corrected marking does what the scan needs: an episode file that was
   * unwatched reads back as watched once marked.
   */
  lemma MarkWatchedReadsWatched(dir: string, file: string)
    requires |dir| > 0 && dir[|dir| - 1] != '/'
    requires |file| > 0 && '/' !in file && file[0] != '-'
    requires Parse(file).Some?
    ensures var marked := Basename(MarkWatched(dir + "/" + file));
            Parse(marked).Some? && Parse(marked).value.marker == "-"
  {
    var marked := "-" + file;
    MarkWatchedMarksOnce(dir, file);
    assert '/' !in marked;
    SplitPath(dir, marked);
    assert Basename(MarkWatched(dir + "/" + file)) == marked;
    MarkedFileReadsWatched(file);
  }
}
