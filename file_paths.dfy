/**
 * Ruby's `File.basename` and `File.dirname` on POSIX paths with `/` as the
 * only separator.
 */
module FilePaths {
  import opened Wrappers

  /** Position of the last `/` in `s`, if any. */
  function LastSlash(s: string): (r: Option<nat>)
    ensures r.Some? ==> r.value < |s| && s[r.value] == '/'
    ensures r.Some? ==> forall i :: r.value < i < |s| ==> s[i] != '/'
    ensures r.None? ==> forall i :: 0 <= i < |s| ==> s[i] != '/'
  {
    if |s| == 0 then None
    else if s[|s| - 1] == '/' then Some(|s| - 1)
    else LastSlash(s[..|s| - 1])
  }

  /** `s` without its trailing run of slashes (possibly empty). */
  function DropTrailingSlashes(s: string): (r: string)
    ensures |r| <= |s| && r == s[..|r|]
    ensures |r| == 0 || r[|r| - 1] != '/'
    ensures forall i :: |r| <= i < |s| ==> s[i] == '/'
  {
    if |s| > 0 && s[|s| - 1] == '/' then DropTrailingSlashes(s[..|s| - 1]) else s
  }

  /** Trailing slashes removed, but a path made only of slashes becomes "/". */
  function Trimmed(path: string): string {
    var t := DropTrailingSlashes(path);
    if |t| == 0 && |path| > 0 then "/" else t
  }

  /** `File.basename(path)`: the last component, ignoring trailing slashes. */
  function Basename(path: string): (r: string)
    ensures '/' in r ==> r == "/"
  {
    var t := Trimmed(path);
    if t == "/" then "/"
    else match LastSlash(t)
      case None => t
      case Some(i) => t[i + 1..]
  }

  /** `File.dirname(path)`: everything before the last component, "." if none. */
  function Dirname(path: string): string {
    var t := Trimmed(path);
    match LastSlash(t)
    case None => "."
    case Some(i) =>
      var d := DropTrailingSlashes(t[..i]);
      if |d| == 0 then "/" else d
  }

  /**
   * A path written as a non-root directory, one slash and a file name splits
   * back into exactly those two parts.
   */
  lemma SplitPath(dir: string, file: string)
    requires |dir| > 0 && dir[|dir| - 1] != '/'
    requires |file| > 0 && '/' !in file
    ensures Dirname(dir + "/" + file) == dir
    ensures Basename(dir + "/" + file) == file
  {
    var p := dir + "/" + file;
    assert DropTrailingSlashes(p) == p;
    assert Trimmed(p) == p;
    assert p[|dir|] == '/';
    assert LastSlash(p) == Some(|dir|);
    assert p[..|dir|] == dir;
    assert DropTrailingSlashes(dir) == dir;
    assert p[|dir| + 1..] == file;
  }

  /** "/-" occurs somewhere in `s`: the watched marker of a path. */
  predicate HasSlashDash(s: string) {
    exists i :: 0 <= i < |s| - 1 && s[i] == '/' && s[i + 1] == '-'
  }

  /**
   * Joining a directory and a file name with one slash creates a "/-" exactly
   * when the directory already had one or the file name starts with a dash.
   */
  lemma SlashDashJoin(dir: string, file: string)
    requires |dir| > 0 && dir[|dir| - 1] != '/'
    requires |file| > 0 && '/' !in file
    ensures HasSlashDash(dir + "/" + file) <==> HasSlashDash(dir) || file[0] == '-'
  {
    var p := dir + "/" + file;
    if HasSlashDash(p) {
      var i :| 0 <= i < |p| - 1 && p[i] == '/' && p[i + 1] == '-';
      assert forall k :: |dir| < k < |p| ==> p[k] == file[k - |dir| - 1];
      assert p[|dir| - 1] == dir[|dir| - 1];
      if i < |dir| - 1 {
        assert dir[i] == '/' && dir[i + 1] == '-';
      }
    }
    if HasSlashDash(dir) {
      var i :| 0 <= i < |dir| - 1 && dir[i] == '/' && dir[i + 1] == '-';
      assert p[i] == '/' && p[i + 1] == '-';
    }
    if file[0] == '-' {
      assert p[|dir|] == '/' && p[|dir| + 1] == '-';
    }
  }
}
