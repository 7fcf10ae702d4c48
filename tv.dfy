/**
 * models/tv.rb: the playback devices and the choice of the current one.
 * Every TV is a stored document whose `current` flag `TV.default` rewrites
 * in place; `TV.tv` reads the one that is set.
 */
module Tvs {
  import opened Wrappers
  import opened Text

  class TV {
    const name: string
    var current: bool

    /** A new TV is never the current one. */
    constructor (name: string)
      ensures this.name == name && !current
    {
      this.name := name;
      current := false;
    }
  }

  /** Position of the first TV of `ts` whose flag is set. */
  function FirstCurrent(ts: seq<TV>): (r: Option<nat>)
    reads ts
    ensures r.Some? ==> r.value < |ts| && ts[r.value].current
    ensures r.Some? ==> forall x :: 0 <= x < r.value ==> !ts[x].current
    ensures r.None? <==> forall x :: 0 <= x < |ts| ==> !ts[x].current
  {
    if |ts| == 0 then None
    else if ts[0].current then Some(0)
    else match FirstCurrent(ts[1..])
      case None => None
      case Some(k) => Some(k + 1)
  }

  /** When the TV at `j` is the only current one, it is the first. */
  lemma SoleCurrent(ts: seq<TV>, j: nat)
    requires j < |ts| && ts[j].current
    requires forall k :: 0 <= k < |ts| && k != j ==> !ts[k].current
    ensures FirstCurrent(ts) == Some(j)
  {
    var r := FirstCurrent(ts);
    assert r.Some?;
  }

  /** Position of the first TV of `ts` named `n`. */
  function FindName(ts: seq<TV>, n: string): (r: Option<nat>)
    ensures r.Some? ==> r.value < |ts| && ts[r.value].name == n
    ensures r.Some? ==> forall x :: 0 <= x < r.value ==> ts[x].name != n
    ensures r.None? <==> forall x :: 0 <= x < |ts| ==> ts[x].name != n
  {
    if |ts| == 0 then None
    else if ts[0].name == n then Some(0)
    else match FindName(ts[1..], n)
      case None => None
      case Some(k) => Some(k + 1)
  }

  /** The flags `TV.default(n)` leaves behind, given the names in store order. */
  function DefaultFlags(names: seq<string>, n: string): (r: seq<bool>)
    ensures |r| == |names|
    ensures forall i :: 0 <= i < |r| ==> (r[i] <==> names[i] == n)
  {
    seq(|names|, i requires 0 <= i < |names| => names[i] == n)
  }

  /** With unique names, `TV.default(n)` sets exactly one flag when `n` is a TV's name, and none otherwise. */
  lemma DefaultSelectsOne(names: seq<string>, n: string)
    requires forall i, j :: 0 <= i < j < |names| ==> names[i] != names[j]
    ensures var set_ := set i | 0 <= i < |names| && DefaultFlags(names, n)[i];
            (n in names ==> |set_| == 1) && (n !in names ==> |set_| == 0)
  {
    var flags := DefaultFlags(names, n);
    var set_ := set i | 0 <= i < |names| && flags[i];
    if n in names {
      var k :| 0 <= k < |names| && names[k] == n;
      assert set_ == {k};
    } else {
      assert set_ == {};
    }
  }

  /** The TV collection. */
  class TvStore {
    var tvs: seq<TV>

    /** Names are present and unique (the two validations of models/tv.rb). */
    ghost predicate Valid()
      reads this
    {
      (forall i, j :: 0 <= i < j < |tvs| ==> tvs[i].name != tvs[j].name)
      && forall i :: 0 <= i < |tvs| ==> !Blank(tvs[i].name)
    }

    function Names(): (r: seq<string>)
      reads this
      ensures |r| == |tvs| && forall i :: 0 <= i < |tvs| ==> r[i] == tvs[i].name
    {
      seq(|tvs|, i requires 0 <= i < |tvs| reads this => tvs[i].name)
    }

    function Flags(): (r: seq<bool>)
      reads this, tvs
      ensures |r| == |tvs| && forall i :: 0 <= i < |tvs| ==> r[i] == tvs[i].current
    {
      seq(|tvs|, i requires 0 <= i < |tvs| reads this, tvs => tvs[i].current)
    }

    constructor ()
      ensures tvs == [] && Valid()
    {
      tvs := [];
    }

    /** `TV.tv` (`current.one`): the first current TV in store order, if any. */
    function Tv(): (r: Option<TV>)
      reads this, tvs
      ensures r.Some? ==> r.value in tvs && r.value.current
      ensures r.Some? ==> exists k :: 0 <= k < |tvs| && tvs[k] == r.value && forall x :: 0 <= x < k ==> !tvs[x].current
      ensures r.None? <==> forall t :: t in tvs ==> !t.current
    {
      match FirstCurrent(tvs)
      case None => None
      case Some(k) => Some(tvs[k])
    }

    /**
     * `TV.create(name:)`: saved only when the name is present and not taken;
     * the new TV is not current.
     */
    method Add(name: string) returns (ok: bool)
      requires Valid()
      modifies this
      ensures Valid()
      ensures ok <==> !Blank(name) && name !in old(Names())
      ensures ok ==> |tvs| == |old(tvs)| + 1 && tvs[..|old(tvs)|] == old(tvs)
      ensures ok ==> fresh(tvs[|old(tvs)|]) && tvs[|old(tvs)|].name == name && !tvs[|old(tvs)|].current
      ensures !ok ==> tvs == old(tvs)
    {
      ok := !Blank(name) && name !in Names();
      if ok {
        var tv := new TV(name);
        tvs := tvs + [tv];
      }
    }

    /** `where(name: n).one`: the position of the TV named `n`, if there is one. */
    function Find(n: string): (r: Option<nat>)
      reads this
      ensures r.Some? ==> r.value < |tvs| && tvs[r.value].name == n
      ensures r.None? <==> n !in Names()
    {
      FindName(tvs, n)
    }

    /** The first part of `TV.default`: every TV saved with `current` false. */
    method ClearAll()
      modifies tvs
      ensures forall k :: 0 <= k < |tvs| ==> !tvs[k].current
    {
      for i := 0 to |tvs|
        invariant forall k :: 0 <= k < i ==> !tvs[k].current
      {
        tvs[i].current := false;
      }
    }

    /**
     * `TV.default(n)`: every flag is cleared, then the TV named `n` is made
     * current. When there is none the second step fails, after the flags are
     * already cleared, so no TV is current. Only flags change, and the outcome
     * depends on the names alone, so a second call changes nothing.
     */
    method Default(n: string) returns (ok: bool)
      requires Valid()
      modifies tvs
      ensures Valid() && tvs == old(tvs)
      ensures ok <==> n in Names()
      ensures Flags() == DefaultFlags(Names(), n)
      ensures ok ==> Tv().Some? && Tv().value.name == n
      ensures !ok ==> Tv().None?
    {
      ClearAll();
      var found := Find(n);
      ok := found.Some?;
      if ok {
        var j := found.value;
        tvs[j].current := true;
        SoleCurrent(tvs, j);
      }
      assert forall k :: 0 <= k < |tvs| ==> (tvs[k].current <==> tvs[k].name == n);
    }
  }
}
