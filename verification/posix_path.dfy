/**
 * The three POSIX path helpers both converters apply to object keys:
 * `os.path.basename`, `os.path.dirname` and `os.path.splitext`.
 */
module PosixPath {
  import opened Text

  /** `os.path.basename(p)`: everything after the last `/`. */
  function Basename(p: string): (b: string)
    ensures '/' !in b
    ensures |b| <= |p| && p[|p| - |b|..] == b
  {
    var i := LastIndexOf(p, '/');
    p[i + 1..]
  }

  predicate AllSlashes(s: string)
  {
    forall k :: 0 <= k < |s| ==> s[k] == '/'
  }

  function RStripSlashes(s: string): (r: string)
    ensures StartsWith(s, r)
    ensures r == [] || r[|r| - 1] != '/'
    decreases |s|
  {
    if s != [] && s[|s| - 1] == '/' then RStripSlashes(s[..|s| - 1]) else s
  }

  /**
   * `os.path.dirname(p)`: everything up to and including the last `/`,
   * with the trailing slashes then removed unless it consists of slashes
   * only (so `/x` gives `/` and `x` gives the empty string).
   */
  function Dirname(p: string): string
  {
    var i := LastIndexOf(p, '/');
    var head := p[..i + 1];
    if head != [] && !AllSlashes(head) then RStripSlashes(head) else head
  }

  /** A key written as `d/b`, with `b` free of `/` and `d` not ending in `/`, splits back into `d` and `b`. */
  lemma DirnameBasename(d: string, b: string)
    requires '/' !in b
    requires d != [] && d[|d| - 1] != '/' && d[0] != '/'
    ensures Dirname(d + "/" + b) == d
    ensures Basename(d + "/" + b) == b
  {
    var p := d + "/" + b;
    assert p[|d|] == '/';
    assert forall k :: |d| < k < |p| ==> p[k] == b[k - |d| - 1];
    assert LastIndexOf(p, '/') == |d|;
    var head := p[..|d| + 1];
    assert head == d + "/";
    assert head[0] != '/';
    assert !AllSlashes(head);
    assert head[..|head| - 1] == d;
    assert RStripSlashes(d) == d;
    assert RStripSlashes(head) == d;
    assert p[|d| + 1..] == b;
  }

  /**
   * `os.path.splitext(p)`: `(root, ext)` where `ext` runs from the last
   * `.` after the last `/`, provided some character between that `/` and
   * the dot is not a dot (leading dots do not start an extension);
   * otherwise `(p, "")`.
   */
  function SplitExt(p: string): (r: (string, string))
    ensures r.0 + r.1 == p
    ensures r.1 == "" || (r.1[0] == '.' && '/' !in r.1 && forall k :: 0 < k < |r.1| ==> r.1[k] != '.')
  {
    var sepIndex := LastIndexOf(p, '/');
    var dotIndex := LastIndexOf(p, '.');
    if dotIndex > sepIndex && exists k :: sepIndex < k < dotIndex && p[k] != '.'
    then
      assert p[..dotIndex] + p[dotIndex..] == p;
      (p[..dotIndex], p[dotIndex..])
    else (p, "")
  }

  /** `stem.ext` with a stem that is not all dots splits into `(stem, ".ext")`. */
  lemma SplitExtOfName(stem: string, ext: string)
    requires '/' !in stem && '/' !in ext && '.' !in ext
    requires exists k :: 0 <= k < |stem| && stem[k] != '.'
    ensures SplitExt(stem + "." + ext) == (stem, "." + ext)
  {
    var p := stem + "." + ext;
    assert forall k :: 0 <= k < |stem| ==> p[k] == stem[k];
    assert p[|stem|] == '.';
    assert forall k :: |stem| < k < |p| ==> p[k] == ext[k - |stem| - 1];
    assert LastIndexOf(p, '.') == |stem|;
    assert LastIndexOf(p, '/') == -1;
    var k :| 0 <= k < |stem| && stem[k] != '.';
    assert p[k] != '.';
    assert p[..|stem|] == stem && p[|stem|..] == "." + ext;
  }

  /** A name without a dot has no extension. */
  lemma SplitExtNoDot(p: string)
    requires '.' !in p
    ensures SplitExt(p) == (p, "")
  {
  }
}
