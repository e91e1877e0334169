/**
 * The parts of Python's `str` type that the package manager relies on:
 * `find`, `partition`, `split`, `join`, `rfind`, `startswith`, `endswith`
 * and `strip`, on strings modelled as sequences of characters.
 */
module Strings {
  import opened Wrappers

  /** `sep` occurs in `s` starting at index `j`. */
  predicate OccursAt(s: string, sep: string, j: nat)
  {
    j + |sep| <= |s| && s[j..j + |sep|] == sep
  }

  /** Python's `sep in s`. */
  predicate Contains(s: string, sep: string)
  {
    exists j: nat | j <= |s| :: OccursAt(s, sep, j)
  }

  predicate StartsWith(s: string, prefix: string)
  {
    prefix <= s
  }

  predicate EndsWith(s: string, suffix: string)
  {
    |suffix| <= |s| && s[|s| - |suffix|..] == suffix
  }

  /** Occurrences in `s` past its first character are occurrences in `s[1..]`, shifted by one. */
  lemma OccursShift(s: string, sep: string)
    requires |s| >= 1
    ensures forall j: nat :: OccursAt(s, sep, j + 1) <==> OccursAt(s[1..], sep, j)
  {
    forall j: nat
      ensures OccursAt(s, sep, j + 1) <==> OccursAt(s[1..], sep, j)
    {
      if j + 1 + |sep| <= |s| {
        assert s[1..][j..j + |sep|] == s[j + 1..j + 1 + |sep|];
      }
    }
  }

  /** An occurrence inside a prefix of `s` is an occurrence in `s`. */
  lemma OccursInPrefix(s: string, sep: string, i: nat, j: nat)
    requires i <= |s|
    requires OccursAt(s[..i], sep, j)
    ensures OccursAt(s, sep, j) && j + |sep| <= i
  {
    assert s[..i][j..j + |sep|] == s[j..j + |sep|];
  }

  /** A one-character separator occurs exactly where that character stands. */
  lemma ContainsChar(s: string, c: char)
    ensures Contains(s, [c]) <==> c in s
  {
    forall j: nat | j < |s|
      ensures OccursAt(s, [c], j) <==> s[j] == c
    {
      assert s[j..j + 1] == [s[j]];
    }
  }

  /** A string without the separator's first character does not contain the separator. */
  lemma NoLeadingChar(s: string, sep: string)
    requires sep != "" && sep[0] !in s
    ensures !Contains(s, sep)
  {
    forall j: nat | j + |sep| <= |s|
      ensures !OccursAt(s, sep, j)
    {
      assert s[j..j + |sep|][0] == s[j];
    }
  }

  /** Python's `s.find(sep)`: the index of the first occurrence, None standing for -1. */
  function Find(s: string, sep: string): (r: Option<nat>)
    requires sep != ""
    ensures r.Some? ==> OccursAt(s, sep, r.value)
    ensures r.Some? ==> forall j: nat :: j < r.value ==> !OccursAt(s, sep, j)
    ensures r.None? <==> !Contains(s, sep)
    decreases |s|
  {
    if |s| < |sep| then
      None
    else if s[..|sep|] == sep then
      assert OccursAt(s, sep, 0);
      Some(0)
    else
      OccursShift(s, sep);
      assert !OccursAt(s, sep, 0);
      var rest := Find(s[1..], sep);
      if rest.None? then
        assert forall j: nat :: !OccursAt(s, sep, j) by {
          forall j: nat ensures !OccursAt(s, sep, j) {
            if j > 0 { assert !OccursAt(s[1..], sep, j - 1); }
          }
        }
        None
      else
        assert forall j: nat :: j < rest.value + 1 ==> !OccursAt(s, sep, j) by {
          forall j: nat | j < rest.value + 1 ensures !OccursAt(s, sep, j) {
            if j > 0 { assert !OccursAt(s[1..], sep, j - 1); }
          }
        }
        Some(rest.value + 1)
  }

  /** If `sep` occurs at `i` and nowhere before, Find says `i`. */
  lemma FindIs(s: string, sep: string, i: nat)
    requires sep != "" && OccursAt(s, sep, i)
    requires forall j: nat :: j < i ==> !OccursAt(s, sep, j)
    ensures Find(s, sep) == Some(i)
  {
    assert Find(s, sep).Some?;
  }

  /**
   * Python's `s.partition(sep)`: the text before the first occurrence of
   * `sep`, the separator itself and the text after it; `(s, "", "")` when
   * `sep` does not occur.
   */
  function Partition(s: string, sep: string): (r: (string, string, string))
    requires sep != ""
    ensures !Contains(s, sep) ==> r == (s, "", "")
    ensures Contains(s, sep) ==>
      && r.1 == sep
      && r.0 + sep + r.2 == s
      && (forall j: nat :: j < |r.0| ==> !OccursAt(s, sep, j))
      && OccursAt(s, sep, |r.0|)
  {
    match Find(s, sep)
    case None => (s, "", "")
    case Some(i) =>
      assert s[..i] + sep + s[i + |sep|..] == s by {
        assert s == s[..i] + s[i..i + |sep|] + s[i + |sep|..];
      }
      (s[..i], sep, s[i + |sep|..])
  }

  /** The head returned by Partition never contains the separator. */
  lemma PartitionHeadClean(s: string, sep: string)
    requires sep != ""
    ensures !Contains(Partition(s, sep).0, sep)
  {
    var r := Partition(s, sep);
    if Contains(s, sep) && Contains(r.0, sep) {
      var j: nat :| OccursAt(r.0, sep, j);
      assert r.0 == s[..|r.0|];
      OccursInPrefix(s, sep, |r.0|, j);
      assert false;
    }
  }

  /** Partitioning `a + sep + b`, where `a` holds no character of `sep`'s first, splits at `|a|`. */
  lemma PartitionAt(a: string, sep: string, b: string)
    requires sep != "" && sep[0] !in a
    ensures Partition(a + sep + b, sep) == (a, sep, b)
  {
    var s := a + sep + b;
    assert s[|a|..|a| + |sep|] == sep;
    forall j: nat | j < |a| ensures !OccursAt(s, sep, j) {
      assert s[j] == a[j] != sep[0];
      if j + |sep| <= |s| {
        assert s[j..j + |sep|][0] == s[j];
      }
    }
    FindIs(s, sep, |a|);
    assert s[..|a|] == a;
    assert s[|a| + |sep|..] == b;
  }

  /** Python's `sep.join(xs)`. */
  function Join(xs: seq<string>, sep: string): string
  {
    if xs == [] then ""
    else if |xs| == 1 then xs[0]
    else xs[0] + sep + Join(xs[1..], sep)
  }

  lemma JoinThree(a: string, b: string, c: string, sep: string)
    ensures Join([a, b, c], sep) == a + sep + b + sep + c
  {
    assert [a, b, c][1..] == [b, c];
    assert [b, c][1..] == [c];
    assert Join([c], sep) == c;
    assert Join([b, c], sep) == b + sep + c;
  }

  /**
   * Python's `s.split(sep)` for a non-empty separator: the pieces between
   * the non-overlapping occurrences of `sep`, scanning from the left.
   */
  function Split(s: string, sep: string): (r: seq<string>)
    requires sep != ""
    ensures |r| >= 1
    ensures Join(r, sep) == s
    ensures forall i :: 0 <= i < |r| ==> !Contains(r[i], sep)
    ensures forall i :: 0 <= i < |r| - 1 ==> Find(Join(r[i..], sep), sep) == Some(|r[i]|)
    decreases |s|
  {
    match Find(s, sep)
    case None => [s]
    case Some(i) =>
      var head, tail := s[..i], s[i + |sep|..];
      var rest := Split(tail, sep);
      var r := [head] + rest;
      assert head + sep + tail == s by {
        assert s == s[..i] + s[i..i + |sep|] + s[i + |sep|..];
      }
      assert !Contains(head, sep) by {
        if Contains(head, sep) {
          var j: nat :| OccursAt(head, sep, j);
          OccursInPrefix(s, sep, i, j);
          assert false;
        }
      }
      assert r[1..] == rest;
      assert Join(r, sep) == s;
      LeftmostCons(head, rest, sep);
      r
  }

  /** Pieces split leftmost stay so when one more piece, split off at the first occurrence, is put in front. */
  lemma LeftmostCons(head: string, rest: seq<string>, sep: string)
    requires sep != "" && |rest| >= 1
    requires Find(Join([head] + rest, sep), sep) == Some(|head|)
    requires forall i :: 0 <= i < |rest| - 1 ==> Find(Join(rest[i..], sep), sep) == Some(|rest[i]|)
    ensures forall i :: 0 <= i < |rest| ==> Find(Join(([head] + rest)[i..], sep), sep) == Some(|([head] + rest)[i]|)
  {
    var r := [head] + rest;
    forall k | 0 <= k < |rest|
      ensures Find(Join(r[k..], sep), sep) == Some(|r[k]|)
    {
      if k == 0 {
        assert r[0..] == r;
      } else {
        assert r[k..] == rest[k - 1..];
      }
    }
  }

  /** Splitting `a + sep + rest`, where `a` holds no character of `sep`'s first, yields `a` and then the pieces of `rest`. */
  lemma SplitCons(a: string, sep: string, rest: string)
    requires sep != "" && sep[0] !in a
    ensures Split(a + sep + rest, sep) == [a] + Split(rest, sep)
  {
    var s := a + sep + rest;
    PartitionAt(a, sep, rest);
    assert Find(s, sep) == Some(|a|);
    assert s[..|a|] == a;
    assert s[|a| + |sep|..] == rest;
  }

  /** Splitting what Join produced gives the pieces back, when no piece holds the separator's first character. */
  lemma {:induction false} SplitJoin(xs: seq<string>, sep: string)
    requires sep != "" && |xs| >= 1
    requires forall i :: 0 <= i < |xs| ==> sep[0] !in xs[i]
    ensures Split(Join(xs, sep), sep) == xs
  {
    if |xs| == 1 {
      NoLeadingChar(xs[0], sep);
    } else {
      SplitCons(xs[0], sep, Join(xs[1..], sep));
      SplitJoin(xs[1..], sep);
      assert xs == [xs[0]] + xs[1..];
    }
  }

  /** A join starts with its first piece. */
  lemma JoinHead(xs: seq<string>, sep: string)
    requires |xs| >= 1
    ensures xs[0] <= Join(xs, sep)
  {
  }

  /** No piece of a split at one character holds that character. */
  lemma SplitAtChar(s: string, c: char)
    ensures forall i :: 0 <= i < |Split(s, [c])| ==> c !in Split(s, [c])[i]
  {
    var pieces := Split(s, [c]);
    forall i | 0 <= i < |pieces| ensures c !in pieces[i] {
      ContainsChar(pieces[i], c);
    }
  }

  /** Python's `s.rfind(c)` for one character: the last index holding `c`, or -1. */
  function RFind(s: string, c: char): (r: int)
    ensures -1 <= r < |s|
    ensures r >= 0 ==> s[r] == c
    ensures forall j :: r < j < |s| ==> s[j] != c
  {
    if s == [] then -1
    else if s[|s| - 1] == c then |s| - 1
    else RFind(s[..|s| - 1], c)
  }

  /** Python's `re.sub(r"^prefix", "", s)` for a literal prefix: removes one leading copy. */
  function StripPrefix(s: string, prefix: string): (r: string)
    ensures StartsWith(s, prefix) ==> prefix + r == s
    ensures !StartsWith(s, prefix) ==> r == s
  {
    if StartsWith(s, prefix) then s[|prefix|..] else s
  }

  /** Python's `s.lstrip(chars)`. */
  function StripLeft(s: string, chars: set<char>): (r: string)
    ensures |r| <= |s| && r == s[|s| - |r|..]
    ensures r != "" ==> r[0] !in chars
    ensures forall i :: 0 <= i < |s| - |r| ==> s[i] in chars
  {
    if s != "" && s[0] in chars then StripLeft(s[1..], chars) else s
  }

  /** Python's `s.rstrip(chars)`. */
  function StripRight(s: string, chars: set<char>): (r: string)
    ensures r <= s
    ensures r != "" ==> r[|r| - 1] !in chars
    ensures forall i :: |r| <= i < |s| ==> s[i] in chars
  {
    if s != "" && s[|s| - 1] in chars then StripRight(s[..|s| - 1], chars) else s
  }

  /** `r` is `s[a..b]`, and every character of `s` outside that slice is in `chars`. */
  predicate TrimmedAt(s: string, r: string, chars: set<char>, a: int, b: int)
  {
    && 0 <= a <= b <= |s| && r == s[a..b]
    && (forall i :: 0 <= i < a ==> s[i] in chars)
    && (forall i :: b <= i < |s| ==> s[i] in chars)
  }

  /**
   * Python's `s.strip(chars)`: both ends stripped of the given characters,
   * so the result is a slice of `s` with only characters of `chars` cut
   * away on either side, and it neither starts nor ends with one of them.
   */
  function Strip(s: string, chars: set<char>): (r: string)
    ensures r != "" ==> r[0] !in chars && r[|r| - 1] !in chars
    ensures exists a, b :: TrimmedAt(s, r, chars, a, b)
    ensures (forall i :: 0 <= i < |s| ==> s[i] !in chars) ==> r == s
  {
    var left := StripLeft(s, chars);
    var r := StripRight(left, chars);
    TrimmedOfStrips(s, left, r, chars);
    r
  }

  /** Stripping the left, then the right, leaves a slice of `s` with only characters of `chars` outside it. */
  lemma TrimmedOfStrips(s: string, left: string, r: string, chars: set<char>)
    requires |left| <= |s| && left == s[|s| - |left|..]
    requires forall i :: 0 <= i < |s| - |left| ==> s[i] in chars
    requires r <= left
    requires forall i :: |r| <= i < |left| ==> left[i] in chars
    ensures TrimmedAt(s, r, chars, |s| - |left|, |s| - |left| + |r|)
  {
    var a := |s| - |left|;
    forall i | a + |r| <= i < |s| ensures s[i] in chars {
      assert s[i] == left[i - a];
    }
  }

  /** Stripping a string enclosed in two strippable characters leaves exactly its inside, when that starts and ends with kept characters. */
  lemma StripEnclosed(inside: string, open: char, close: char, chars: set<char>)
    requires open in chars && close in chars
    requires inside != "" && inside[0] !in chars && inside[|inside| - 1] !in chars
    ensures Strip([open] + inside + [close], chars) == inside
  {
    var s := [open] + inside + [close];
    assert s[1..] == inside + [close];
    assert StripLeft(s, chars) == inside + [close];
    assert (inside + [close])[..|inside|] == inside;
  }

  /** The last piece of a join follows the last separator. */
  lemma {:induction false} JoinSnoc(xs: seq<string>, sep: string)
    requires |xs| >= 2
    ensures Join(xs, sep) == Join(xs[..|xs| - 1], sep) + sep + xs[|xs| - 1]
    decreases |xs|
  {
    if |xs| > 2 {
      var tail := xs[1..];
      JoinSnoc(tail, sep);
      assert xs[..|xs| - 1][1..] == tail[..|tail| - 1];
    }
  }
}
