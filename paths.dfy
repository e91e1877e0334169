/**
 * The two POSIX path functions that derive a package name: `os.path.basename`
 * and the root half of `os.path.splitext`, with '/' as the separator.
 */
module Paths {
  import opened Strings

  /** `os.path.basename(p)`: the text after the last '/', all of `p` when it has none. */
  function Basename(p: string): (r: string)
    ensures '/' !in r
    ensures |r| <= |p| && r == p[|p| - |r|..]
    ensures '/' !in p ==> r == p
    ensures '/' in p ==> |r| < |p| && p[|p| - |r| - 1] == '/'
  {
    p[RFind(p, '/') + 1..]
  }

  /** Some character of `p[lo..hi]` is not a '.'. */
  predicate HasNonDot(p: string, lo: int, hi: int)
    requires 0 <= lo && hi <= |p|
  {
    exists k :: lo <= k < hi && p[k] != '.'
  }

  /**
   * The root of `os.path.splitext(p)`: `p` cut before its last '.', provided
   * that dot lies after the last '/' and the final component has some
   * character other than '.' before it (so '.bashrc' and '..' keep their
   * dots); otherwise all of `p`.
   */
  function SplitExtRoot(p: string): (r: string)
    ensures r <= p
    ensures r != p ==>
      && p[|r|] == '.'
      && '.' !in p[|r| + 1..]
      && '/' !in p[|r|..]
      && HasNonDot(p, RFind(p, '/') + 1, |r|)
    ensures r == p ==>
      '.' !in p[RFind(p, '/') + 1..] || !HasNonDot(p, RFind(p, '/') + 1, RFind(p, '.'))
  {
    var sepIndex := RFind(p, '/');
    var dotIndex := RFind(p, '.');
    if dotIndex > sepIndex && HasNonDot(p, sepIndex + 1, dotIndex) then
      assert |p[..dotIndex]| == dotIndex;
      assert '.' !in p[dotIndex + 1..];
      assert '/' !in p[dotIndex..];
      p[..dotIndex]
    else
      assert dotIndex <= sepIndex ==> '.' !in p[sepIndex + 1..];
      p
  }

  /** The basename of `dir + "/" + base` is `base`. */
  lemma BasenameAfterSlash(dir: string, base: string)
    requires '/' !in base
    ensures Basename(dir + "/" + base) == base
  {
    var p := dir + "/" + base;
    assert p[|dir|] == '/';
    var k := RFind(p, '/');
    assert k >= |dir|;
    assert p[k + 1..] == base;
  }

  /** Without a '/', the extension after the last '.' is cut off, given some non-dot character before it. */
  lemma SplitExtRootOf(stem: string, ext: string)
    requires '/' !in stem && '/' !in ext && '.' !in ext
    requires exists k :: 0 <= k < |stem| && stem[k] != '.'
    ensures SplitExtRoot(stem + "." + ext) == stem
  {
    var p := stem + "." + ext;
    assert '/' !in p;
    assert p[|stem|] == '.';
    var d := RFind(p, '.');
    assert d >= |stem|;
    var k :| 0 <= k < |stem| && stem[k] != '.';
    assert p[k] != '.';
    assert HasNonDot(p, 0, d);
    assert p[..d] == stem;
  }

  /** A component without '.' has no extension to remove. */
  lemma SplitExtRootNoDot(p: string)
    requires '.' !in p
    ensures SplitExtRoot(p) == p
  {
  }
}
