/**
 * Version strings and lists of versions: a version is four string segments
 * (major, minor, patch, build), compared segment by segment with '*' as a
 * wildcard; a Spec is a list of versions written with ' or ' between them.
 */
module Semver {
  import opened Wrappers
  import opened Strings

  datatype Version = Version(major: string, minor: string, patch: string, build: string)
  {
    /** `Version.__eq__`: all four segments are equal, which is exactly value equality. */
    predicate Equals(other: Version): (r: bool)
      ensures r <==> this == other
    {
      major == other.major && minor == other.minor &&
      patch == other.patch && build == other.build
    }

    /** `Version.match_segment`: two segments match when equal or when either is '*'. */
    static predicate MatchSegment(a: string, b: string)
    {
      a == b || a == "*" || b == "*"
    }

    /**
     * `Version.match`: equal versions match; otherwise every segment must
     * match. The equality shortcut adds nothing: matching is segment-wise.
     */
    predicate Match(other: Version): (r: bool)
      ensures r <==>
        (MatchSegment(major, other.major) && MatchSegment(minor, other.minor) &&
         MatchSegment(patch, other.patch) && MatchSegment(build, other.build))
    {
      Equals(other) ||
      (MatchSegment(major, other.major) && MatchSegment(minor, other.minor) &&
       MatchSegment(patch, other.patch) && MatchSegment(build, other.build))
    }

    /**
     * `Version.parse`: the build is everything after the first '-'; the part
     * before it is split at '.', and the first three pieces are major, minor
     * and patch, an absent piece defaulting to "0" and further pieces dropped.
     */
    static function Parse(versionStr: string): (r: Version)
      ensures '.' !in r.major && '.' !in r.minor && '.' !in r.patch
      ensures r.major <= versionStr
      ensures '-' !in versionStr ==> r.build == ""
    {
      var (primary, _, build) := Partition(versionStr, "-");
      var parts := Split(primary, ".");
      SplitAtChar(primary, '.');
      JoinHead(parts, ".");
      ContainsChar(versionStr, '-');
      assert primary <= versionStr by {
        if Contains(versionStr, "-") {
          assert primary + "-" + build == versionStr;
        }
      }
      FromParts(parts, build)
    }

    /** The first three dotted pieces, "0" standing in for an absent one. */
    static function FromParts(parts: seq<string>, build: string): (r: Version)
      requires |parts| >= 1
      ensures [r.major, r.minor, r.patch] == (parts + ["0", "0"])[..3]
      ensures r.build == build
    {
      Version(parts[0],
              if |parts| > 1 then parts[1] else "0",
              if |parts| > 2 then parts[2] else "0",
              build)
    }

    /** `Version.specificity`, computed by the source's loop over the three dotted segments. */
    method Specificity() returns (r: int)
      ensures r == SpecificityOf(this)
    {
      var specificity := 0;
      var multiplier := 1000;
      var segs := [major, minor, patch];
      var i := 0;
      while i < |segs|
        invariant 0 <= i <= |segs|
        invariant specificity + WeightedScore(segs[i..], multiplier) == WeightedScore(segs, 1000)
      {
        var seg := segs[i];
        var val;
        if seg == "*" {
          val := 1;
        } else if StartsWith(seg, "^") {
          val := 2;
        } else {
          val := 3;
        }
        assert segs[i..][1..] == segs[i + 1..];
        specificity := specificity + val * multiplier;
        multiplier := multiplier / 10;
        i := i + 1;
      }
      if build != "" {
        specificity := specificity + 5;
      }
      assert WeightedScore(segs[2..], 10) == 10 * SegmentScore(patch);
      r := specificity;
    }
  }

  /** Score of one dotted segment: '*' is 1, a '^' constraint 2, anything else 3. */
  function SegmentScore(seg: string): (r: int)
    ensures 1 <= r <= 3
    ensures r == 1 <==> seg == "*"
  {
    if seg == "*" then 1 else if StartsWith(seg, "^") then 2 else 3
  }

  /** Segment scores weighted by `multiplier`, dividing it by ten at each step, as the loop does. */
  function WeightedScore(segs: seq<string>, multiplier: int): int
  {
    if segs == [] then 0
    else SegmentScore(segs[0]) * multiplier + WeightedScore(segs[1..], multiplier / 10)
  }

  /** The specificity score: 1000, 100 and 10 times the segment scores, plus 5 for a build. */
  function SpecificityOf(v: Version): (r: int)
    ensures 1110 <= r <= 3335
    ensures r % 10 == (if v.build != "" then 5 else 0)
  {
    1000 * SegmentScore(v.major) + 100 * SegmentScore(v.minor) + 10 * SegmentScore(v.patch)
      + (if v.build != "" then 5 else 0)
  }

  /** `Spec`: a list of versions, in the order written. */
  datatype Spec = Spec(versions: seq<Version>)
  {
    /** `Spec.__len__`. */
    function Length(): nat
    {
      |versions|
    }

    /**
     * `Spec.__getitem__` with a Python integer index: negative indices count
     * from the end, and an index out of range (IndexError) gives None.
     */
    function Get(item: int): Option<Version>
    {
      if 0 <= item < |versions| then Some(versions[item])
      else if -|versions| <= item < 0 then Some(versions[|versions| + item])
      else None
    }

    /**
     * What `for v in spec` visits from index `i` on: `Spec` defines no
     * `__iter__`, so Python calls `__getitem__` with `i`, `i + 1`, ...
     * until it raises IndexError.
     */
    function ItemsFrom(i: nat): seq<Version>
      decreases |versions| - i
    {
      match Get(i)
      case None => []
      case Some(v) => [v] + ItemsFrom(i + 1)
    }

    /** `Spec.parse`: one version per ' or '-separated piece, in order. */
    static function Parse(versionRange: string): (r: Spec)
      ensures |r.versions| >= 1
    {
      Spec(ParseAll(Split(versionRange, " or ")))
    }

    /**
     * `Spec.intersection`: for each version of this list, in order, one copy
     * of it per version of the parsed argument that it matches. The outer
     * loop iterates through `__getitem__` until IndexError, as Python does.
     */
    method Intersection(v: string) returns (r: Spec)
      ensures r.versions == MatchesIn(versions, Parse(v).versions)
    {
      var spec := Parse(v);
      var matches: seq<Version> := [];
      var i := 0;
      var item := Get(i);
      while item.Some?
        invariant 0 <= i <= |versions|
        invariant item == Get(i)
        invariant matches == MatchesIn(versions[..i], spec.versions)
        decreases |versions| - i
      {
        matches := AppendMatches(matches, item.value, spec.versions);
        MatchesInStep(versions, spec.versions, i);
        i := i + 1;
        item := Get(i);
      }
      assert versions[..i] == versions;
      r := Spec(matches);
    }
  }

  /** The inner loop of `Spec.intersection`: appends `v` once per element of `ws` it matches. */
  method AppendMatches(matches: seq<Version>, v: Version, ws: seq<Version>) returns (r: seq<Version>)
    ensures r == matches + Repeats(v, ws)
  {
    r := matches;
    var j := 0;
    while j < |ws|
      invariant 0 <= j <= |ws|
      invariant r == matches + Repeats(v, ws[..j])
    {
      RepeatsStep(v, ws, j);
      if v.Match(ws[j]) {
        r := r + [v];
      }
      j := j + 1;
    }
    assert ws[..j] == ws;
  }

  /** `Version.parse` applied to every piece. */
  function ParseAll(pieces: seq<string>): (r: seq<Version>)
    ensures |r| == |pieces|
    ensures forall i :: 0 <= i < |pieces| ==> r[i] == Version.Parse(pieces[i])
  {
    if pieces == [] then [] else [Version.Parse(pieces[0])] + ParseAll(pieces[1..])
  }

  /** One copy of `v` for each element of `ws` that it matches. */
  function Repeats(v: Version, ws: seq<Version>): (r: seq<Version>)
    ensures |r| <= |ws|
    ensures forall k :: 0 <= k < |r| ==> r[k] == v
  {
    if ws == [] then []
    else Repeats(v, ws[..|ws| - 1]) + (if v.Match(ws[|ws| - 1]) then [v] else [])
  }

  lemma RepeatsStep(v: Version, ws: seq<Version>, j: nat)
    requires j < |ws|
    ensures Repeats(v, ws[..j + 1]) == Repeats(v, ws[..j]) + (if v.Match(ws[j]) then [v] else [])
  {
    assert ws[..j + 1][..j] == ws[..j];
  }

  lemma MatchesInStep(vs: seq<Version>, ws: seq<Version>, i: nat)
    requires i < |vs|
    ensures MatchesIn(vs[..i + 1], ws) == MatchesIn(vs[..i], ws) + Repeats(vs[i], ws)
  {
    assert vs[..i + 1][..i] == vs[..i];
  }

  /**
   * The copies from Repeats for each element of `vs`, concatenated in the
   * order of `vs`; at most one entry per pair of versions.
   */
  function MatchesIn(vs: seq<Version>, ws: seq<Version>): (r: seq<Version>)
    ensures |r| <= |vs| * |ws|
  {
    if vs == [] then []
    else
      var init := vs[..|vs| - 1];
      assert |vs| * |ws| == |init| * |ws| + |ws|;
      MatchesIn(init, ws) + Repeats(vs[|vs| - 1], ws)
  }

  // ---- Properties of Version.Parse ----

  /** A version written out as major.minor.patch, with "-build" when there is a build. */
  function Format(v: Version): string
  {
    v.major + "." + v.minor + "." + v.patch + (if v.build == "" then "" else "-" + v.build)
  }

  /** A dotted segment that Parse reads back as itself. */
  predicate PlainSegment(seg: string)
  {
    '.' !in seg && '-' !in seg
  }

  /** The build is the text after the first '-' (it may contain '-' itself), and "" without a '-'. */
  lemma ParseBuildAfterFirstDash(s: string)
    ensures '-' !in s ==> Version.Parse(s).build == ""
    ensures '-' in s ==>
      exists k :: 0 <= k < |s| && s[k] == '-' && '-' !in s[..k] && Version.Parse(s).build == s[k + 1..]
  {
    var r := Partition(s, "-");
    ContainsChar(s, '-');
    if '-' in s {
      PartitionHeadClean(s, "-");
      ContainsChar(r.0, '-');
      var k := |r.0|;
      assert s == r.0 + "-" + r.2;
      assert s[k] == '-' && s[..k] == r.0 && s[k + 1..] == r.2;
    }
  }

  /** Parse cuts a build off at a '-' that the primary part does not hold. */
  lemma ParseWithPrimary(primary: string, build: string)
    requires '-' !in primary
    ensures Version.Parse(primary + (if build == "" then "" else "-" + build))
         == Version.FromParts(Split(primary, "."), build)
  {
    if build == "" {
      assert primary + "" == primary;
      ContainsChar(primary, '-');
    } else {
      assert primary + ("-" + build) == primary + "-" + build;
      PartitionAt(primary, "-", build);
    }
  }

  /** Parsing a rendered version gives it back, when its dotted segments hold no '.' or '-'. */
  lemma ParseFormat(v: Version)
    requires PlainSegment(v.major) && PlainSegment(v.minor) && PlainSegment(v.patch)
    ensures Version.Parse(Format(v)) == v
  {
    var primary := v.major + "." + v.minor + "." + v.patch;
    SplitThree(v.major, v.minor, v.patch);
    ParseWithPrimary(primary, v.build);
    assert Format(v) == primary + (if v.build == "" then "" else "-" + v.build);
  }

  lemma SplitThree(a: string, b: string, c: string)
    requires PlainSegment(a) && PlainSegment(b) && PlainSegment(c)
    ensures Split(a + "." + b + "." + c, ".") == [a, b, c]
  {
    JoinThree(a, b, c, ".");
    SplitJoin([a, b, c], ".");
  }

  /** A single segment: minor and patch default to "0". So Parse("1") is 1.0.0 and Parse("") has major "". */
  lemma ParseOneSegment(a: string)
    requires PlainSegment(a)
    ensures Version.Parse(a) == Version(a, "0", "0", "")
  {
    ContainsChar(a, '-');
    SplitJoin([a], ".");
  }

  /** Two segments: only patch defaults. A present but empty minor stays "", so Parse("1.") has minor "". */
  lemma ParseTwoSegments(a: string, b: string)
    requires PlainSegment(a) && PlainSegment(b)
    ensures Version.Parse(a + "." + b) == Version(a, b, "0", "")
  {
    ContainsChar(a + "." + b, '-');
    assert Join([a, b], ".") == a + "." + b;
    SplitJoin([a, b], ".");
  }

  /** Segments beyond the third are discarded. */
  lemma ParseDropsExtraSegments(a: string, b: string, c: string, d: string)
    requires PlainSegment(a) && PlainSegment(b) && PlainSegment(c) && '-' !in d
    ensures Version.Parse(a + "." + b + "." + c + "." + d) == Version(a, b, c, "")
  {
    var s := a + "." + b + "." + c + "." + d;
    var tail := b + "." + (c + "." + d);
    assert s == a + "." + tail;
    assert '-' !in s;
    ContainsChar(s, '-');
    assert Partition(s, "-") == (s, "", "");
    SplitCons(a, ".", tail);
    SplitCons(b, ".", c + "." + d);
    SplitCons(c, ".", d);
    var parts := Split(s, ".");
    assert parts[0] == a && parts[1] == b && parts[2] == c;
  }

  lemma ParseExampleOne()
    ensures Version.Parse("1") == Version("1", "0", "0", "")
  {
    ParseOneSegment("1");
  }

  lemma ParseExampleEmpty()
    ensures Version.Parse("").major == ""
  {
    ParseOneSegment("");
  }

  lemma ParseExampleTrailingDot()
    ensures Version.Parse("1.").minor == ""
  {
    assert "1." == "1" + "." + "";
    ParseTwoSegments("1", "");
  }

  lemma ParseExampleFull()
    ensures Version.Parse("1.2.3") == Version("1", "2", "3", "")
  {
    ParseFormat(Version("1", "2", "3", ""));
    assert Format(Version("1", "2", "3", "")) == "1.2.3";
  }

  lemma ParseExampleDottedBuild()
    ensures Version.Parse("1.2.3-4.5.6") == Version("1", "2", "3", "4.5.6")
  {
    var v := Version("1", "2", "3", "4.5.6");
    assert Format(v) == "1.2.3-4.5.6" by {
      assert "1.2.3-4.5.6" == "1" + "." + "2" + "." + "3" + ("-" + "4.5.6");
    }
    ParseFormat(v);
  }

  // ---- Properties of matching ----

  /** '*' matches every segment, any other segment matches only itself, and matching is symmetric. */
  lemma MatchSegmentMeaning(a: string, b: string)
    ensures Version.MatchSegment("*", b) && Version.MatchSegment(a, "*")
    ensures a != "*" && b != "*" ==> (Version.MatchSegment(a, b) <==> a == b)
    ensures Version.MatchSegment(a, a)
    ensures Version.MatchSegment(a, b) == Version.MatchSegment(b, a)
  {
  }

  lemma MatchReflexiveSymmetric(v: Version, w: Version)
    ensures v.Match(v)
    ensures v.Match(w) == w.Match(v)
  {
  }

  /** Matching is not transitive: a wildcard matches two versions that do not match each other. */
  lemma MatchNotTransitive()
    ensures var a, star, b := Version("1", "0", "0", ""), Version("*", "0", "0", ""), Version("2", "0", "0", "");
      a.Match(star) && star.Match(b) && !a.Match(b)
  {
  }

  // ---- Properties of specificity ----

  lemma SpecificityExamples()
    ensures SpecificityOf(Version("1", "2", "3", "")) == 3330
    ensures SpecificityOf(Version("*", "*", "*", "")) == 1110
    ensures SpecificityOf(Version("^1", "*", "3", "rc")) == 2135
  {
    assert StartsWith("^1", "^");
  }

  // ---- Properties of Spec.parse ----

  /** Pieces joined by ' or ' parse back to one version each, when no piece contains a space. */
  lemma SpecParseJoin(pieces: seq<string>)
    requires |pieces| >= 1
    requires forall i :: 0 <= i < |pieces| ==> ' ' !in pieces[i]
    ensures Spec.Parse(Join(pieces, " or ")).versions == ParseAll(pieces)
    ensures Spec.Parse(Join(pieces, " or ")).Length() == |pieces|
  {
    SplitJoin(pieces, " or ");
  }

  /** Without ' or ' the spec holds exactly one version. */
  lemma SpecParseSingle(s: string)
    requires !Contains(s, " or ")
    ensures Spec.Parse(s).versions == [Version.Parse(s)]
  {
  }

  // ---- Properties of Spec indexing ----

  /** Indices from 0 to the length give the versions in order; negative ones count back from the length. */
  lemma SpecIndexing(s: Spec, item: int)
    ensures s.Get(item).None? <==> item >= s.Length() || item + s.Length() < 0
    ensures 0 <= item < s.Length() ==> s.Get(item) == Some(s.versions[item])
    ensures 0 <= item < s.Length() ==> s.Get(item - s.Length()) == s.Get(item)
  {
  }

  lemma {:induction false} ItemsFromRest(s: Spec, i: nat)
    requires i <= |s.versions|
    ensures s.ItemsFrom(i) == s.versions[i..]
    decreases |s.versions| - i
  {
    if i < |s.versions| {
      ItemsFromRest(s, i + 1);
      assert s.versions[i..] == [s.versions[i]] + s.versions[i + 1..];
    }
  }

  /** Iterating a spec through `__getitem__` visits exactly its versions, in order. */
  lemma SpecIterationVisitsVersions(s: Spec)
    ensures s.ItemsFrom(0) == s.versions
  {
    ItemsFromRest(s, 0);
  }

  /** `len(spec)` is the number of versions that iteration visits. */
  lemma SpecLengthCountsItems(s: Spec)
    ensures s.Length() == |s.ItemsFrom(0)|
  {
    SpecIterationVisitsVersions(s);
  }

  // ---- Properties of Spec.intersection ----

  /** The inner loop adds something exactly when its version matches some parsed version. */
  lemma {:induction false} RepeatsAreCopies(v: Version, ws: seq<Version>)
    ensures Repeats(v, ws) != [] <==> exists w :: w in ws && v.Match(w)
  {
    if ws != [] {
      var init := ws[..|ws| - 1];
      RepeatsAreCopies(v, init);
      assert ws == init + [ws[|ws| - 1]];
      assert forall w :: w in ws <==> w in init || w == ws[|ws| - 1];
    }
  }

  /** An element of the intersection is an element of this list that matches some parsed version, and conversely. */
  lemma {:induction false} MatchesInMembers(vs: seq<Version>, ws: seq<Version>, x: Version)
    ensures x in MatchesIn(vs, ws) <==> x in vs && exists w :: w in ws && x.Match(w)
  {
    if vs != [] {
      var init, last := vs[..|vs| - 1], vs[|vs| - 1];
      MatchesInMembers(init, ws, x);
      RepeatsAreCopies(last, ws);
      assert vs == init + [last];
      assert x in vs <==> x in init || x == last;
      if x in Repeats(last, ws) {
        var k :| 0 <= k < |Repeats(last, ws)| && Repeats(last, ws)[k] == x;
        assert x == last;
      }
      if x == last && Repeats(last, ws) != [] {
        assert Repeats(last, ws)[0] == x;
      }
    }
  }

  /** The intersection keeps the order of this list: it distributes over concatenation. */
  lemma {:induction false} MatchesInAppend(a: seq<Version>, b: seq<Version>, ws: seq<Version>)
    ensures MatchesIn(a + b, ws) == MatchesIn(a, ws) + MatchesIn(b, ws)
  {
    if b != [] {
      var init := b[..|b| - 1];
      assert (a + b)[..|a + b| - 1] == a + init;
      MatchesInAppend(a, init, ws);
    } else {
      assert a + b == a;
    }
  }
}
