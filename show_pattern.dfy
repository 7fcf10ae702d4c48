/**
 * The file-name pattern of models/show.rb,
 *
 *     ^(-?)(.+)s([0-9]+)e([0-9]+)(.+)$   (case-insensitive)
 *
 * written out as an explicit matcher. A match is described by four cut
 * points in the base name `s`:
 *
 *     s[..w]      group 1, the watched marker ("" or "-")
 *     s[w..j]     group 2, the show name (non-empty)
 *     s[j]        's' or 'S'
 *     s[j+1..k]   group 3, season digits (non-empty)
 *     s[k]        'e' or 'E'
 *     s[k+1..m]   group 4, episode digits (non-empty)
 *     s[m..]      group 5, the tail (non-empty)
 *
 * A backtracking engine tries the greedy groups longest first, left to
 * right, so the match it reports is the one whose (w, j, k, m) is greatest
 * in lexicographic order. `Locate` computes that match directly.
 */
module ShowPattern {
  import opened Wrappers
  import opened Text

  datatype Span = Span(w: nat, j: nat, k: nat, m: nat)

  predicate IsS(c: char) { c == 's' || c == 'S' }
  predicate IsE(c: char) { c == 'e' || c == 'E' }

  predicate DigitsIn(s: string, lo: nat, hi: nat)
    requires lo <= hi <= |s|
  {
    forall x :: lo <= x < hi ==> IsDigit(s[x])
  }

  /** `s([0-9]+)e([0-9]+)(.+)$` matches from position j with these cut points. */
  predicate SuffixOk(s: string, j: nat, k: nat, m: nat) {
    j + 1 < k && k + 1 < m && m < |s|
    && IsS(s[j]) && DigitsIn(s, j + 1, k) && IsE(s[k]) && DigitsIn(s, k + 1, m)
  }

  /** The whole pattern matches `s` with these cut points. */
  predicate IsMatch(s: string, p: Span) {
    p.w <= 1 && p.w < p.j && SuffixOk(s, p.j, p.k, p.m) && (p.w == 1 ==> s[0] == '-')
  }

  /** The order in which the engine prefers matches: greater is tried first. */
  predicate Prefers(p: Span, q: Span) {
    p.w > q.w
    || (p.w == q.w && (p.j > q.j
    || (p.j == q.j && (p.k > q.k
    || (p.k == q.k && p.m >= q.m)))))
  }

  /** End of the maximal run of digits that starts at i. */
  function RunEnd(s: string, i: nat): (p: nat)
    requires i <= |s|
    ensures i <= p <= |s|
    ensures DigitsIn(s, i, p)
    ensures p == |s| || !IsDigit(s[p])
    decreases |s| - i
  {
    if i < |s| && IsDigit(s[i]) then RunEnd(s, i + 1) else i
  }

  /** A digit string that runs from i up to a non-digit ends where the maximal run ends. */
  lemma RunEndUnique(s: string, i: nat, q: nat)
    requires i <= q < |s| && DigitsIn(s, i, q) && !IsDigit(s[q])
    ensures RunEnd(s, i) == q
  {
  }

  /**
   * The suffix pattern at j: the season digits are the whole digit run after
   * `s`, and the episode digits the whole run after `e` except that one digit
   * is handed to the tail when the run reaches the end of the name.
   */
  function SuffixAt(s: string, j: nat): (r: Option<(nat, nat)>)
    requires j < |s|
    ensures r.Some? ==> SuffixOk(s, j, r.value.0, r.value.1)
    ensures forall k: nat, m: nat :: SuffixOk(s, j, k, m) ==> r.Some? && r.value.0 == k && m <= r.value.1
  {
    if !IsS(s[j]) then None
    else
      var k := RunEnd(s, j + 1);
      if k == j + 1 || k == |s| || !IsE(s[k]) then
        assert forall k': nat, m': nat :: SuffixOk(s, j, k', m') ==> false by {
          forall k': nat, m': nat | SuffixOk(s, j, k', m') ensures false {
            RunEndUnique(s, j + 1, k');
          }
        }
        None
      else
        var r := RunEnd(s, k + 1);
        var m := if r < |s| then r else |s| - 1;
        if m <= k + 1 then
          assert forall k': nat, m': nat :: SuffixOk(s, j, k', m') ==> false by {
            forall k': nat, m': nat | SuffixOk(s, j, k', m') ensures false {
              RunEndUnique(s, j + 1, k');
            }
          }
          None
        else
          assert forall k': nat, m': nat :: SuffixOk(s, j, k', m') ==> k' == k && m' <= m by {
            forall k': nat, m': nat | SuffixOk(s, j, k', m') ensures k' == k && m' <= m {
              RunEndUnique(s, j + 1, k');
              if m' > r { assert !IsDigit(s[r]); }
            }
          }
          Some((k, m))
  }

  /** The largest j in [1, hi) at which the suffix pattern matches. */
  function LastSuffixBelow(s: string, hi: nat): (r: Option<nat>)
    requires hi <= |s|
    ensures r.Some? ==> 1 <= r.value < hi && SuffixAt(s, r.value).Some?
    ensures forall j :: 1 <= j < hi && SuffixAt(s, j).Some? ==> r.Some? && j <= r.value
    decreases hi
  {
    if hi <= 1 then None
    else if SuffixAt(s, hi - 1).Some? then Some(hi - 1)
    else LastSuffixBelow(s, hi - 1)
  }

  /** The match the engine reports, or None when the pattern does not match. */
  function Locate(s: string): (r: Option<Span>)
    ensures r.Some? ==> IsMatch(s, r.value)
    ensures r.None? ==> forall p :: !IsMatch(s, p)
  {
    match LastSuffixBelow(s, |s|)
    case None =>
      assert forall p :: IsMatch(s, p) ==> 1 <= p.j < |s| && SuffixAt(s, p.j).Some?;
      None
    case Some(j) =>
      var km := SuffixAt(s, j).value;
      Some(Span(if s[0] == '-' && j >= 2 then 1 else 0, j, km.0, km.1))
  }

  /** Every match of the pattern is one the engine would try after Locate's. */
  lemma {:induction false} LocateIsGreedy(s: string, q: Span)
    requires IsMatch(s, q)
    ensures Locate(s).Some? && Prefers(Locate(s).value, q)
  {
    assert SuffixAt(s, q.j).Some?;
    var p := Locate(s).value;
    assert q.j <= p.j;
  }

  /** Cutting a string at increasing points and gluing the pieces back gives the string. */
  lemma CutPoints(s: string, w: nat, j: nat, k: nat, m: nat)
    requires w <= j < k < m <= |s|
    ensures s == s[..w] + s[w..j] + [s[j]] + s[j + 1..k] + [s[k]] + s[k + 1..m] + s[m..]
  {
    assert s[..j] == s[..w] + s[w..j];
    assert s[..j + 1] == s[..j] + [s[j]];
    assert s[..k] == s[..j + 1] + s[j + 1..k];
    assert s[..k + 1] == s[..k] + [s[k]];
    assert s[..m] == s[..k + 1] + s[k + 1..m];
    assert s == s[..m] + s[m..];
  }

  /** The five capture groups of a successful match. */
  datatype Captures = Captures(marker: string, name: string, season: string, episode: string, tail: string)
  /** The groups a match cuts out of `s`; glued back together they give `s`. */
  function CapturesAt(s: string, p: Span): (c: Captures)
    requires IsMatch(s, p)
    ensures c.marker == "" || c.marker == "-"
    ensures |c.name| > 0 && |c.tail| > 0 && |c.season| > 0 && |c.episode| > 0
    ensures forall i :: 0 <= i < |c.season| ==> IsDigit(c.season[i])
    ensures forall i :: 0 <= i < |c.episode| ==> IsDigit(c.episode[i])
  {
    var c := Captures(s[..p.w], s[p.w..p.j], s[p.j + 1..p.k], s[p.k + 1..p.m], s[p.m..]);
    assert p.w == 1 ==> c.marker == [s[0]];
    assert forall i :: 0 <= i < |c.season| ==> c.season[i] == s[p.j + 1 + i];
    assert forall i :: 0 <= i < |c.episode| ==> c.episode[i] == s[p.k + 1 + i];
    c
  }

  /** The groups, with the `s` and `e` between them, glue back into the name. */
  lemma CapturesRebuild(s: string, p: Span)
    requires IsMatch(s, p)
    ensures var c := CapturesAt(s, p);
            s == c.marker + c.name + [s[p.j]] + c.season + [s[p.k]] + c.episode + c.tail
  {
    CutPoints(s, p.w, p.j, p.k, p.m);
  }

  /**
   * `file.scan(SHOW_PATTERN).first`: the groups of the greedy match. Group 3
   * and group 4 are never empty, so a caller that checks for their presence
   * after a match always finds them.
   */
  function Parse(s: string): (r: Option<Captures>)
    ensures r.Some? <==> exists p :: IsMatch(s, p)
    ensures r.Some? ==> r.value == CapturesAt(s, Locate(s).value)
    ensures r.Some? ==> r.value.marker in {"", "-"}
    ensures r.Some? ==> |r.value.name| > 0 && |r.value.tail| > 0
    ensures r.Some? ==> |r.value.season| > 0 && AllDigits(r.value.season)
    ensures r.Some? ==> |r.value.episode| > 0 && AllDigits(r.value.episode)
  {
    match Locate(s)
    case None => None
    case Some(p) => Some(CapturesAt(s, p))
  }

  /** Group 1 holds a dash exactly when the name starts with '-' and the greedy match keeps it there. */
  lemma MarkerIsLeadingDash(s: string)
    requires Parse(s).Some?
    ensures Parse(s).value.marker == "-" <==> s[0] == '-' && Locate(s).value.j >= 2
  {
  }

  /** BINARY_TYPES: the container extensions that are bound to episodes. */
  const BinaryTypes: seq<string> := ["mkv", "avi", "mp4", "mpg", "m4v", "ts", "divx"]

  /** Group 5 split on '.', blank pieces dropped. */
  function Tokens(tail: string): (r: seq<string>)
    ensures forall i :: 0 <= i < |r| ==> !Blank(r[i]) && '.' !in r[i]
  {
    NonBlank(SplitOn(tail, '.'))
  }

  /** `spam.pop`: the last token, nil when there is none. */
  function Extension(tokens: seq<string>): Option<string> {
    if |tokens| == 0 then None else Some(tokens[|tokens| - 1])
  }

  /** The tokens left after `pop`. */
  function SpamTokens(tokens: seq<string>): (r: seq<string>)
    ensures tokens == [] ==> r == []
    ensures tokens != [] ==> r + [tokens[|tokens| - 1]] == tokens
  {
    if |tokens| == 0 then [] else tokens[..|tokens| - 1]
  }

  /** A tail without dots is one token, or none when it is blank. */
  lemma TokensOfPiece(a: string)
    requires '.' !in a
    ensures Tokens(a) == if Blank(a) then [] else [a]
  {
    SplitOnNoSep(a, '.');
    NonBlankSingle(a);
  }

  /** The piece after the last dot comes last, after the tokens of everything before it. */
  lemma TokensLast(a: string, piece: string)
    requires '.' !in piece
    ensures Tokens(a + "." + piece) == Tokens(a) + (if Blank(piece) then [] else [piece])
  {
    SplitOnLast(a, piece, '.');
    NonBlankAppend(SplitOn(a, '.'), [piece]);
    NonBlankSingle(piece);
  }

  /**
   * The extension `pop` takes is the non-blank piece after the last dot, and
   * the spam list is the tokens before it, in order.
   */
  lemma ExtensionIsLastPiece(a: string, ext: string)
    requires '.' !in ext && !Blank(ext)
    ensures Extension(Tokens(a + "." + ext)) == Some(ext)
    ensures SpamTokens(Tokens(a + "." + ext)) == Tokens(a)
  {
    TokensLast(a, ext);
  }

  /**
   * A tail such as "720p.HDTV.mkv": the pieces between the dots, in order;
   * the last is the extension and the others are spam.
   */
  lemma TokensOfPieces(a: string, b: string, ext: string)
    requires '.' !in a && '.' !in b && '.' !in ext
    requires !Blank(a) && !Blank(b) && !Blank(ext)
    ensures Tokens(a + "." + b + "." + ext) == [a, b, ext]
    ensures SpamTokens(Tokens(a + "." + b + "." + ext)) == [a, b]
  {
    TokensOfPiece(a);
    TokensLast(a, b);
    TokensLast(a + "." + b, ext);
  }
}
