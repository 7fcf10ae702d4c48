/**
 * The body of `Show#refresh_episodes` (models/show.rb): one candidate path is
 * parsed, its extension checked, and the file bound to the catalog episode it
 * names. A scan applies that step to every path in order.
 */
module Reconcile {
  import opened Wrappers
  import opened Text
  import FilePaths
  import opened ShowPattern
  import opened Catalog

  /** The part of a show that a scan writes: its spam list and its catalog. */
  datatype Scan = Scan(spam: seq<string>, catalog: Option<seq<Season>>)

  /** How one path is handled. */
  datatype Outcome =
    | Unrecognized                                // the base name does not match SHOW_PATTERN
    | Rejected(extension: Option<string>)         // matched, but not a known container type
    | Unmatched(spam: seq<string>)                // no such season or episode in the catalog
    | Matched(spam: seq<string>, season: nat, episode: nat, watched: bool)

  /** The last tail token of a matched name is one of BINARY_TYPES (compared case-sensitively). */
  predicate Whitelisted(c: Captures) {
    var ext := Extension(Tokens(c.tail));
    ext.Some? && ext.value in BinaryTypes
  }

  /** The catalog position the groups of a name select. */
  function SlotOf(catalog: Option<seq<Season>>, c: Captures): Option<(nat, nat)>
    requires AllDigits(c.season)
  {
    Slot(catalog, SeasonKey(c.season), c.episode)
  }

  /**
   * How `refresh_episodes` treats one path. A matched path names a position
   * that exists in the catalog.
   */
  function Classify(catalog: Option<seq<Season>>, path: string): (r: Outcome)
    ensures r.Matched? ==> catalog.Some? && ValidSlot(catalog.value, r.season, r.episode)
  {
    match Parse(FilePaths.Basename(path))
    case None => Unrecognized
    case Some(cap) =>
      var tokens := Tokens(cap.tail);
      var ext := Extension(tokens);
      if ext.None? || ext.value !in BinaryTypes then Rejected(ext)
      else match Slot(catalog, SeasonKey(cap.season), cap.episode)
        case None => Unmatched(SpamTokens(tokens))
        case Some(ij) => Matched(SpamTokens(tokens), ij.0, ij.1, '-' in cap.marker)
  }

  /**
   * A path is unrecognised when its base name does not match, rejected when
   * the extension is not a known container, unmatched when the catalog lacks
   * its season or episode, and matched otherwise; a matched path carries the
   * spam tokens, the first matching season and episode, and the marker.
   */
  lemma ClassifyMeaning(catalog: Option<seq<Season>>, path: string)
    ensures var parsed := Parse(FilePaths.Basename(path));
            var r := Classify(catalog, path);
            && (r.Unrecognized? <==> parsed.None?)
            && (r.Rejected? <==> parsed.Some? && !Whitelisted(parsed.value))
            && (r.Unmatched? <==> parsed.Some? && Whitelisted(parsed.value) && SlotOf(catalog, parsed.value).None?)
            && (r.Matched? <==> parsed.Some? && Whitelisted(parsed.value) && SlotOf(catalog, parsed.value).Some?)
            && (r.Unmatched? ==> r.spam == SpamTokens(Tokens(parsed.value.tail)))
            && (r.Matched? ==>
                  r.spam == SpamTokens(Tokens(parsed.value.tail))
                  && SlotOf(catalog, parsed.value) == Some((r.season, r.episode))
                  && r.watched == (parsed.value.marker == "-"))
  {
    var parsed := Parse(FilePaths.Basename(path));
    var r := Classify(catalog, path);
    if parsed.None? {
      assert r == Unrecognized;
    } else {
      var cap := parsed.value;
      var tokens := Tokens(cap.tail);
      if !Whitelisted(cap) {
        assert r == Rejected(Extension(tokens));
      } else {
        var slot := SlotOf(catalog, cap);
        if slot.None? {
          assert r == Unmatched(SpamTokens(tokens));
        } else {
          assert r == Matched(SpamTokens(tokens), slot.value.0, slot.value.1, '-' in cap.marker);
          assert cap.marker == "" || cap.marker == "-";
        }
      }
    }
  }

  /** One path of the scan applied to the show. */
  function Step(st: Scan, path: string): Scan {
    match Classify(st.catalog, path)
    case Unrecognized => st
    case Rejected(_) => st
    case Unmatched(spam) => st.(spam := spam)
    case Matched(spam, i, j, watched) => Scan(spam, Some(Bind(st.catalog.value, i, j, path, watched)))
  }

  /** The whole scan: every path, in the order given. */
  function ReconcileAll(st: Scan, paths: seq<string>): Scan
    decreases |paths|
  {
    if |paths| == 0 then st else ReconcileAll(Step(st, paths[0]), paths[1..])
  }

  /** Some path of the scan binds a file to an episode (and so triggers a save). */
  predicate Binds(st: Scan, paths: seq<string>)
    decreases |paths|
  {
    |paths| > 0 && (Classify(st.catalog, paths[0]).Matched? || Binds(Step(st, paths[0]), paths[1..]))
  }

  /** A scan in which no path binds an episode leaves the catalog as it was. */
  lemma {:induction false} NoBindKeepsCatalog(st: Scan, paths: seq<string>)
    requires !Binds(st, paths)
    ensures ReconcileAll(st, paths).catalog == st.catalog
    decreases |paths|
  {
    if |paths| > 0 {
      NoBindKeepsCatalog(Step(st, paths[0]), paths[1..]);
    }
  }

  lemma {:induction false} ReconcileAllSnoc(st: Scan, paths: seq<string>, path: string)
    ensures ReconcileAll(st, paths + [path]) == Step(ReconcileAll(st, paths), path)
    decreases |paths|
  {
    if |paths| > 0 {
      assert (paths + [path])[1..] == paths[1..] + [path];
      ReconcileAllSnoc(Step(st, paths[0]), paths[1..], path);
    }
  }

  // ---------------------------------------------------------------------
  // One step

  /** A recognised, whitelisted name whose episode is found is bound there, with the marker as `watched`. */
  lemma StepMatches(st: Scan, path: string, c: Captures, i: nat, j: nat)
    requires Parse(FilePaths.Basename(path)) == Some(c) && Whitelisted(c)
    requires SlotOf(st.catalog, c) == Some((i, j))
    ensures st.catalog.Some? && ValidSlot(st.catalog.value, i, j)
    ensures Step(st, path) == Scan(SpamTokens(Tokens(c.tail)), Some(Bind(st.catalog.value, i, j, path, '-' in c.marker)))
  {
    ClassifyMeaning(st.catalog, path);
  }


  /** A name the pattern rejects, or a tail whose extension is not a known container, changes nothing. */
  lemma StepSkips(st: Scan, path: string)
    requires Parse(FilePaths.Basename(path)).None? || !Whitelisted(Parse(FilePaths.Basename(path)).value)
    ensures Step(st, path) == st
  {
    ClassifyMeaning(st.catalog, path);
  }

  /**
   * A recognised name with a known extension overwrites the spam list with
   * the other tail tokens, whether or not the catalog has the episode, and
   * leaves the catalog alone when it does not.
   */
  lemma StepSetsSpam(st: Scan, path: string)
    requires Parse(FilePaths.Basename(path)).Some?
    requires Whitelisted(Parse(FilePaths.Basename(path)).value)
    ensures var c := Parse(FilePaths.Basename(path)).value;
            && Step(st, path).spam == SpamTokens(Tokens(c.tail))
            && (SlotOf(st.catalog, c).None? ==> Step(st, path).catalog == st.catalog)
  {
    ClassifyMeaning(st.catalog, path);
  }

  /**
   * When the season and the episode are found, exactly that episode changes:
   * it gets the full path as `binary` and the marker as `watched`, whatever
   * it held before. Every other episode, and every season number, stays.
   */
  lemma StepBindsOneEpisode(st: Scan, path: string)
    requires Parse(FilePaths.Basename(path)).Some?
    requires Whitelisted(Parse(FilePaths.Basename(path)).value)
    requires SlotOf(st.catalog, Parse(FilePaths.Basename(path)).value).Some?
    ensures var c := Parse(FilePaths.Basename(path)).value;
            var (i, j) := SlotOf(st.catalog, c).value;
            var old_ := st.catalog.value;
            var new_ := Step(st, path).catalog;
            && new_.Some? && |new_.value| == |old_|
            && (forall x :: 0 <= x < |old_| ==> new_.value[x].no == old_[x].no && |new_.value[x].episodes| == |old_[x].episodes|)
            && new_.value[i].episodes[j] == old_[i].episodes[j].(binary := Some(path), watched := Some(c.marker == "-"))
            && (forall x, y :: ValidSlot(old_, x, y) && (x != i || y != j) ==> new_.value[x].episodes[y] == old_[x].episodes[y])
  {
    var c := Parse(FilePaths.Basename(path)).value;
    var (i, j) := SlotOf(st.catalog, c).value;
    StepMatches(st, path, c, i, j);
    assert ('-' in c.marker) == (c.marker == "-") by {
      assert c.marker == "" || c.marker == "-";
    }
  }

  /** Lookups use only numbers, which a step never writes. */
  lemma {:induction false} StepSameShape(st: Scan, path: string)
    ensures SameShapeOpt(Step(st, path).catalog, st.catalog)
  {
    var o := Classify(st.catalog, path);
    StepCatalog(st, path);
    if o.Matched? {
      BindSameShape(st.catalog.value, o.season, o.episode, path, o.watched);
    } else if st.catalog.Some? {
      SameShapeReflexive(st.catalog.value);
    }
  }

  /** The catalog after a step: the bound one for a matched path, the same one otherwise. */
  lemma StepCatalog(st: Scan, path: string)
    ensures var o := Classify(st.catalog, path);
            Step(st, path).catalog == if o.Matched? then Some(Bind(st.catalog.value, o.season, o.episode, path, o.watched)) else st.catalog
  {
  }

  lemma SameShapeReflexive(c: seq<Season>)
    ensures SameShape(c, c)
  {
  }

  lemma SameShapeSymmetric(c: seq<Season>, d: seq<Season>)
    requires SameShape(c, d)
    ensures SameShape(d, c)
  {
  }

  lemma SameShapeTransitive(c: seq<Season>, d: seq<Season>, e: seq<Season>)
    requires SameShape(c, d) && SameShape(d, e)
    ensures SameShape(c, e)
  {
    forall i, j | ValidSlot(c, i, j) ensures Erase(c[i].episodes[j]) == Erase(e[i].episodes[j]) {
      assert ValidSlot(d, i, j);
    }
  }

  lemma ClassifySameShape(a: Option<seq<Season>>, b: Option<seq<Season>>, path: string)
    requires SameShapeOpt(a, b)
    ensures Classify(a, path) == Classify(b, path)
  {
    match Parse(FilePaths.Basename(path))
    case None =>
    case Some(cap) => SlotSameShape(a, b, SeasonKey(cap.season), cap.episode);
  }

  // ---------------------------------------------------------------------
  // Rescanning

  /**
   * `a` and `b` can differ only where path `q` writes: its episode's
   * `binary` and `watched`, and the spam list.
   */
  ghost predicate AgreeExcept(a: Scan, b: Scan, q: string) {
    SameShapeOpt(a.catalog, b.catalog)
    && match Classify(a.catalog, q)
       case Unrecognized => a == b
       case Rejected(_) => a == b
       case Unmatched(_) => a.catalog == b.catalog
       case Matched(_, i, j, _) =>
         forall x, y :: ValidSlot(a.catalog.value, x, y) && (x != i || y != j) ==>
           a.catalog.value[x].episodes[y] == b.catalog.value[x].episodes[y]
  }

  lemma AgreeAfterStep(st: Scan, q: string)
    ensures AgreeExcept(Step(st, q), st, q)
  {
    StepSameShape(st, q);
    ClassifySameShape(Step(st, q).catalog, st.catalog, q);
  }

  /** Two catalogs that agree everywhere except, at most, on binary and watched at (i, j). */
  lemma BindConverges(c: seq<Season>, d: seq<Season>, i: nat, j: nat, path: string, w: bool)
    requires SameShape(c, d) && ValidSlot(c, i, j)
    requires forall x, y :: ValidSlot(c, x, y) && (x != i || y != j) ==> c[x].episodes[y] == d[x].episodes[y]
    ensures Bind(c, i, j, path, w) == Bind(d, i, j, path, w)
  {
    var bc := Bind(c, i, j, path, w);
    var bd := Bind(d, i, j, path, w);
    assert Erase(c[i].episodes[j]) == Erase(d[i].episodes[j]);
    forall x | 0 <= x < |c| ensures bc[x] == bd[x] {
      forall y | 0 <= y < |c[x].episodes| ensures bc[x].episodes[y] == bd[x].episodes[y] {
        assert ValidSlot(c, x, y) && ValidSlot(d, x, y);
      }
      assert bc[x].episodes == bd[x].episodes;
    }
  }

  /** Writing path q again makes two states that differed only where q writes equal. */
  lemma Converge(a: Scan, b: Scan, q: string)
    requires AgreeExcept(a, b, q)
    ensures Step(a, q) == Step(b, q)
  {
    ClassifySameShape(a.catalog, b.catalog, q);
    match Classify(a.catalog, q)
    case Matched(_, i, j, w) => BindConverges(a.catalog.value, b.catalog.value, i, j, q, w);
    case _ =>
  }

  /** Two states with catalogs of the same shape keep that after the same step. */
  lemma StepKeepsSameShape(a: Scan, b: Scan, p: string)
    requires SameShapeOpt(a.catalog, b.catalog)
    ensures SameShapeOpt(Step(a, p).catalog, Step(b, p).catalog)
  {
    var a', b' := Step(a, p), Step(b, p);
    StepSameShape(a, p);
    StepSameShape(b, p);
    if a.catalog.Some? {
      SameShapeSymmetric(b'.catalog.value, b.catalog.value);
      SameShapeTransitive(a'.catalog.value, a.catalog.value, b.catalog.value);
      SameShapeTransitive(a'.catalog.value, b.catalog.value, b'.catalog.value);
    }
  }

  /** The episodes outside (i, j) stay equal when both catalogs take the same step. */
  lemma StepKeepsAgreementOutside(a: Scan, b: Scan, p: string, i: nat, j: nat)
    requires SameShapeOpt(a.catalog, b.catalog) && a.catalog.Some?
    requires forall x, y :: ValidSlot(a.catalog.value, x, y) && (x != i || y != j) ==>
               a.catalog.value[x].episodes[y] == b.catalog.value[x].episodes[y]
    ensures SameShapeOpt(Step(a, p).catalog, Step(b, p).catalog) && Step(a, p).catalog.Some?
    ensures var ra, rb := Step(a, p).catalog.value, Step(b, p).catalog.value;
            forall x, y :: ValidSlot(ra, x, y) && (x != i || y != j) ==> ra[x].episodes[y] == rb[x].episodes[y]
  {
    StepKeepsSameShape(a, b, p);
    ClassifySameShape(a.catalog, b.catalog, p);
    StepSameShape(a, p);
    var ca := a.catalog.value;
    var cb := b.catalog.value;
    var ra := Step(a, p).catalog.value;
    var rb := Step(b, p).catalog.value;
    forall x, y | ValidSlot(ra, x, y) && (x != i || y != j) ensures ra[x].episodes[y] == rb[x].episodes[y] {
      assert ValidSlot(ca, x, y) && ValidSlot(cb, x, y);
    }
  }

  /** Any other path writes the same places in both states, so they still differ only where q writes. */
  lemma Preserve(a: Scan, b: Scan, q: string, p: string)
    requires AgreeExcept(a, b, q)
    ensures AgreeExcept(Step(a, p), Step(b, p), q)
  {
    if Classify(a.catalog, q).Matched? {
      PreserveAroundEpisode(a, b, q, p);
    } else {
      PreserveWhole(a, b, q, p);
    }
  }

  /** Preserve, when q names an episode: agreement everywhere but there. */
  lemma PreserveAroundEpisode(a: Scan, b: Scan, q: string, p: string)
    requires AgreeExcept(a, b, q) && Classify(a.catalog, q).Matched?
    ensures AgreeExcept(Step(a, p), Step(b, p), q)
  {
    StepSameShape(a, p);
    ClassifySameShape(Step(a, p).catalog, a.catalog, q);
    var cq := Classify(a.catalog, q);
    StepKeepsAgreementOutside(a, b, p, cq.season, cq.episode);
  }

  /** Preserve, when q binds nothing: the catalogs (and, when q is skipped, the spam lists) agree. */
  lemma PreserveWhole(a: Scan, b: Scan, q: string, p: string)
    requires AgreeExcept(a, b, q) && !Classify(a.catalog, q).Matched?
    ensures AgreeExcept(Step(a, p), Step(b, p), q)
  {
    StepSameShape(a, p);
    ClassifySameShape(Step(a, p).catalog, a.catalog, q);
    assert a.catalog == b.catalog;
    var c := Step(a, p).catalog;
    assert c == Step(b, p).catalog;
    if c.Some? {
      SameShapeReflexive(c.value);
    }
  }

  /** If q occurs in the scan, a state that differs from another only where q writes ends the scan the same. */
  lemma {:induction false} Absorb(a: Scan, b: Scan, q: string, paths: seq<string>)
    requires AgreeExcept(a, b, q) && q in paths
    ensures ReconcileAll(a, paths) == ReconcileAll(b, paths)
    decreases |paths|
  {
    if paths[0] == q {
      Converge(a, b, q);
    } else {
      Preserve(a, b, q, paths[0]);
      Absorb(Step(a, paths[0]), Step(b, paths[0]), q, paths[1..]);
    }
  }

  lemma {:induction false} RescanPrefix(st: Scan, done: seq<string>, paths: seq<string>)
    requires forall x :: x in done ==> x in paths
    ensures ReconcileAll(ReconcileAll(st, done), paths) == ReconcileAll(st, paths)
    decreases |done|
  {
    if |done| > 0 {
      RescanPrefix(Step(st, done[0]), done[1..], paths);
      AgreeAfterStep(st, done[0]);
      Absorb(Step(st, done[0]), st, done[0], paths);
    }
  }

  /** Scanning the same path list a second time leaves the show exactly as the first scan did. */
  lemma RescanIdempotent(st: Scan, paths: seq<string>)
    ensures ReconcileAll(ReconcileAll(st, paths), paths) == ReconcileAll(st, paths)
  {
    RescanPrefix(st, paths, paths);
  }

  /** Processing one path twice in a row is the same as processing it once. */
  lemma StepIdempotent(st: Scan, path: string)
    ensures Step(Step(st, path), path) == Step(st, path)
  {
    AgreeAfterStep(st, path);
    Converge(Step(st, path), st, path);
  }

  /**
   * Two paths that name the same episode: the one processed last is the one
   * bound, so the outcome of a scan depends on the order of its paths.
   */
  lemma LastWriteWins(st: Scan, p: string, q: string)
    requires Classify(st.catalog, p).Matched? && Classify(st.catalog, q).Matched?
    requires Classify(st.catalog, p).season == Classify(st.catalog, q).season
    requires Classify(st.catalog, p).episode == Classify(st.catalog, q).episode
    ensures var r := ReconcileAll(st, [p, q]).catalog;
            var i, j := Classify(st.catalog, q).season, Classify(st.catalog, q).episode;
            r.Some? && ValidSlot(r.value, i, j) && r.value[i].episodes[j].binary == Some(q)
  {
    var s1 := Step(st, p);
    StepSameShape(st, p);
    ClassifySameShape(s1.catalog, st.catalog, q);
    StepBindsAt(s1, q);
    ReconcileTwo(st, p, q);
  }

  /** A scan of two paths is the two steps in order. */
  lemma ReconcileTwo(st: Scan, p: string, q: string)
    ensures ReconcileAll(st, [p, q]) == Step(Step(st, p), q)
  {
    assert [p, q][1..] == [q];
    assert ReconcileAll(st, [p, q]) == ReconcileAll(Step(st, p), [q]);
    assert [q][1..] == [];
    assert ReconcileAll(Step(st, p), [q]) == ReconcileAll(Step(Step(st, p), q), []);
  }

  /** A matched path is bound at the position its classification names. */
  lemma StepBindsAt(st: Scan, q: string)
    requires Classify(st.catalog, q).Matched?
    ensures var o := Classify(st.catalog, q);
            var r := Step(st, q).catalog;
            r.Some? && ValidSlot(r.value, o.season, o.episode) && r.value[o.season].episodes[o.episode].binary == Some(q)
  {
  }
}
