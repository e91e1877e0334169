/**
 * Installing and uninstalling: which installer accepts a package reference,
 * how a wheel's requirement list becomes a dependency map, the dependency
 * graph that gathers and intersects version ranges, and the bookkeeping of
 * the `dependencies` entry of a project when `--save` is given.
 */
module Install {
  import opened Wrappers
  import opened Strings
  import opened Json
  import opened Package

  // ---- Installers ----

  /** The two installer classes; each decides from strings alone whether it accepts a package. */
  datatype Installer = GitInstaller | PypiInstaller

  /** The source part before the first '#' starts with "git+" exactly when the reference does. */
  lemma GitPrefixOfSource(reference: string)
    ensures StartsWith(Partition(reference, "#").0, "git+") <==> StartsWith(reference, "git+")
  {
    var parts := Partition(reference, "#");
    ContainsChar(reference, '#');
    if '#' in reference {
      assert reference == parts.0 + "#" + parts.2;
      if StartsWith(reference, "git+") {
        assert reference[|parts.0|] == '#';
        assert forall i :: 0 <= i < 4 ==> reference[i] == "git+"[i];
        assert |parts.0| >= 4;
        assert parts.0[..4] == reference[..4];
      }
      if StartsWith(parts.0, "git+") {
        assert reference[..4] == parts.0[..4];
      }
    }
  }

  /**
   * `GitInstaller.can_install_reference`: accepted when the part before the
   * first '#' ends in ".git" or the reference starts with "git+". One leading
   * "git+" is removed, the rest is parsed at '#', and the version range is
   * the "git+" form of the stored reference.
   */
  function GitCanInstallReference(reference: string): (r: Option<PackageInfo>)
    ensures r.Some? <==> EndsWith(Partition(reference, "#").0, ".git") || StartsWith(reference, "git+")
    ensures r.Some? ==> r.value.versionRange == Some("git+" + r.value.reference)
    ensures r.Some? && StartsWith(reference, "git+") ==> reference == "git+" + r.value.reference
    ensures r.Some? && !StartsWith(reference, "git+") ==> reference == r.value.reference
    ensures r.Some? ==> r.value == PackageInfo.Parse(r.value.reference, "#").(versionRange := r.value.versionRange)
  {
    var (source, _, _) := Partition(reference, "#");
    GitPrefixOfSource(reference);
    if EndsWith(source, ".git") || StartsWith(source, "git+") then
      var info := PackageInfo.Parse(StripPrefix(reference, "git+"), "#");
      Some(info.(versionRange := Some("git+" + info.reference)))
    else
      None
  }

  /** In `prefix + source + "#" + version` with no '#' before it, the '#' after `source` is the first. */
  lemma FirstHashAfter(prefix: string, source: string, version: string)
    requires '#' !in prefix && '#' !in source
    ensures var reference := prefix + source + "#" + version; var k := |prefix| + |source|;
      k < |reference| && reference[k] == '#' && '#' !in reference[..k] && reference[k + 1..] == version
  {
    var reference := prefix + source + "#" + version;
    var k := |prefix| + |source|;
    assert reference[..k] == prefix + source;
  }

  /** Behind a prefix without '#', the text after the first '#' of the rest is what follows the first '#' of the whole. */
  lemma TailAfterFirstHash(prefix: string, stripped: string, source: string, version: string)
    requires '#' !in prefix && '#' !in source && stripped == source + "#" + version
    ensures exists k :: (0 <= k < |prefix + stripped| && (prefix + stripped)[k] == '#'
      && '#' !in (prefix + stripped)[..k] && version == (prefix + stripped)[k + 1..])
  {
    FirstHashAfter(prefix, source, version);
    assert prefix + stripped == prefix + source + "#" + version;
    var k := |prefix| + |source|;
    assert (prefix + stripped)[k] == '#';
  }

  /** The fragment of a reference whose first `n` characters hold no '#' and whose rest was partitioned at '#'. */
  lemma FragmentBehindPrefix(reference: string, n: nat, info: PackageInfo)
    requires n <= |reference| && '#' !in reference[..n] && reference[n..] == info.reference
    requires Contains(info.reference, "#") ==> info.source + "#" + info.version == info.reference && !Contains(info.source, "#")
    requires !Contains(info.reference, "#") ==> info.version == ""
    ensures '#' !in reference ==> info.version == ""
    ensures '#' in reference ==> exists k :: (0 <= k < |reference| && reference[k] == '#'
      && '#' !in reference[..k] && info.version == reference[k + 1..])
  {
    assert reference == reference[..n] + info.reference;
    ContainsChar(info.reference, '#');
    if '#' in info.reference {
      ContainsChar(info.source, '#');
      TailAfterFirstHash(reference[..n], info.reference, info.source, info.version);
    }
  }

  /** What an accepted git reference's package holds after partitioning at '#'. */
  lemma GitPartitionFacts(reference: string, info: PackageInfo)
    requires GitCanInstallReference(reference) == Some(info)
    ensures Contains(info.reference, "#") ==> info.source + "#" + info.version == info.reference && !Contains(info.source, "#")
    ensures !Contains(info.reference, "#") ==> info.version == ""
  {
  }

  /** The removed prefix holds no '#'. */
  lemma NoHashInGitPrefix(reference: string)
    requires StartsWith(reference, "git+")
    ensures '#' !in reference[..4]
  {
    assert reference[..4] == "git+";
  }

  /** What remains after the prefix is the stored reference. */
  lemma GitStoredReference(reference: string, info: PackageInfo)
    requires GitCanInstallReference(reference) == Some(info)
    ensures StartsWith(reference, "git+") ==> reference[4..] == info.reference
    ensures !StartsWith(reference, "git+") ==> reference == info.reference
  {
  }

  /** The version of an accepted git reference is everything after its first '#', or "" without one. */
  lemma GitVersionIsFragment(reference: string, info: PackageInfo)
    requires GitCanInstallReference(reference) == Some(info)
    ensures '#' !in reference ==> info.version == ""
    ensures '#' in reference ==> exists k :: (0 <= k < |reference| && reference[k] == '#' && '#' !in reference[..k]
      && info.version == reference[k + 1..])
  {
    GitPartitionFacts(reference, info);
    GitStoredReference(reference, info);
    if StartsWith(reference, "git+") {
      NoHashInGitPrefix(reference);
    } else {
      assert reference[0..] == reference;
    }
    FragmentBehindPrefix(reference, if StartsWith(reference, "git+") then 4 else 0, info);
  }

  /** The "git+" prefix is optional: "git+U" is always accepted, and gives the same package as U when U is accepted. */
  lemma GitPrefixOptional(u: string)
    requires !StartsWith(u, "git+")
    ensures GitCanInstallReference("git+" + u).Some?
    ensures GitCanInstallReference("git+" + u).value.reference == u
    ensures GitCanInstallReference(u).Some? ==> GitCanInstallReference(u) == GitCanInstallReference("git+" + u)
  {
    assert StartsWith("git+" + u, "git+");
    assert ("git+" + u)[4..] == u;
  }

  /** `PypiInstaller.can_install_reference`: always accepted; one leading "pypi+" is removed and the rest parsed at '@'. */
  function PypiCanInstallReference(reference: string): (r: Option<PackageInfo>)
    ensures r.Some? && r.value.versionRange == None
    ensures StartsWith(reference, "pypi+") ==> reference == "pypi+" + r.value.reference
    ensures !StartsWith(reference, "pypi+") ==> reference == r.value.reference
    ensures r.value == PackageInfo.Parse(r.value.reference, "@")
  {
    Some(PackageInfo.Parse(StripPrefix(reference, "pypi+"), "@"))
  }

  /** The "pypi+" prefix is optional. */
  lemma PypiPrefixOptional(u: string)
    requires !StartsWith(u, "pypi+")
    ensures PypiCanInstallReference("pypi+" + u) == PypiCanInstallReference(u)
  {
    assert StartsWith("pypi+" + u, "pypi+");
    assert ("pypi+" + u)[5..] == u;
  }

  /** "name@version" with a plain name gives that name and that version. */
  lemma PypiNameAndVersion(name: string, version: string)
    requires name != "" && '@' !in name && '/' !in name && '.' !in name && '+' !in name
    ensures PypiCanInstallReference(name + "@" + version).value.name == name
    ensures PypiCanInstallReference(name + "@" + version).value.version == version
  {
    var reference := name + "@" + version;
    assert !StartsWith(reference, "pypi+") by {
      if |reference| >= 5 {
        if |name| >= 5 {
          assert reference[..5][4] == name[4];
        } else {
          assert reference[..5][|name|] == '@';
          assert '@' !in "pypi+";
        }
      }
    }
    Package.ParseSplitsAtFirstDelimiter(name, "@", version);
    Paths.SplitExtRootNoDot(name);
  }

  /** `can_install_reference`, dispatched on the installer. */
  function CanInstallReference(installer: Installer, reference: string): (r: Option<PackageInfo>)
    ensures installer.PypiInstaller? ==> r.Some?
  {
    match installer
    case GitInstaller => GitCanInstallReference(reference)
    case PypiInstaller => PypiCanInstallReference(reference)
  }

  /**
   * `can_install(name, version)`: git parses `version` as a reference and
   * overwrites the name; PyPI parses `name` and overwrites the version.
   */
  function CanInstall(installer: Installer, name: string, version: string): (r: Option<PackageInfo>)
    ensures installer.GitInstaller? ==> (r.Some? <==> GitCanInstallReference(version).Some?)
    ensures installer.GitInstaller? && r.Some? ==>
      r.value.name == name && r.value.(name := "") == GitCanInstallReference(version).value.(name := "")
    ensures installer.PypiInstaller? ==>
      r.Some? && r.value.version == version && r.value.(version := "") == PypiCanInstallReference(name).value.(version := "")
  {
    match CanInstallReference(installer, if installer.GitInstaller? then version else name)
    case None => None
    case Some(info) =>
      if installer.GitInstaller? then Some(info.(name := name)) else Some(info.(version := version))
  }

  /** Only the overwritten field depends on the other argument. */
  lemma CanInstallOverwritesOneField(name1: string, name2: string, version1: string, version2: string)
    ensures CanInstall(GitInstaller, name1, version1).Some? ==>
      CanInstall(GitInstaller, name2, version1) == Some(CanInstall(GitInstaller, name1, version1).value.(name := name2))
    ensures CanInstall(PypiInstaller, name1, version2) == Some(CanInstall(PypiInstaller, name1, version1).value.(version := version2))
  {
  }

  /** What an installer is asked: `find_installer(name, version)` or `find_ref_installer(reference)`. */
  datatype Request = ByName(name: string, version: string) | ByReference(reference: string)

  function Check(installer: Installer, request: Request): Option<PackageInfo>
  {
    match request
    case ByName(name, version) => CanInstall(installer, name, version)
    case ByReference(reference) => CanInstallReference(installer, reference)
  }

  /** The check each installer makes of a request. */
  function CheckFor(request: Request): Installer -> Option<PackageInfo>
  {
    installer => Check(installer, request)
  }

  /** The first candidate in list order whose check returns something, with what it returned. */
  function FirstAccepting<I, T>(candidates: seq<I>, check: I -> Option<T>): (r: Option<(I, T)>)
    ensures r.Some? ==> r.value.0 in candidates && check(r.value.0) == Some(r.value.1)
  {
    if candidates == [] then None
    else match check(candidates[0])
      case Some(info) => Some((candidates[0], info))
      case None => FirstAccepting(candidates[1..], check)
  }

  /** FirstAccepting finds the first accepting candidate, and finds nothing only when none accepts. */
  lemma {:induction false} FirstAcceptingIsFirst<I, T>(candidates: seq<I>, check: I -> Option<T>)
    ensures FirstAccepting(candidates, check).None? <==> forall i :: 0 <= i < |candidates| ==> check(candidates[i]).None?
    ensures FirstAccepting(candidates, check).Some? ==> exists i :: (0 <= i < |candidates|
      && check(candidates[i]).Some?
      && FirstAccepting(candidates, check).value == (candidates[i], check(candidates[i]).value)
      && forall j :: 0 <= j < i ==> check(candidates[j]).None?)
    decreases |candidates|
  {
    if candidates != [] && check(candidates[0]).None? {
      var tail := candidates[1..];
      FirstAcceptingIsFirst(tail, check);
      forall i | 1 <= i < |candidates| ensures candidates[i] == tail[i - 1] { }
      if FirstAccepting(tail, check).Some? {
        var i :| 0 <= i < |tail| && check(tail[i]).Some?
          && FirstAccepting(tail, check).value == (tail[i], check(tail[i]).value)
          && forall j :: 0 <= j < i ==> check(tail[j]).None?;
        assert forall j :: 0 <= j < i + 1 ==> check(candidates[j]).None? by {
          forall j | 0 <= j < i + 1 ensures check(candidates[j]).None? {
            if j > 0 {
              assert candidates[j] == tail[j - 1];
            }
          }
        }
        assert candidates[i + 1] == tail[i];
      }
    }
  }

  /** The loop shared by `find_installer` and `find_ref_installer`: the first candidate that accepts. */
  method FindFirst<I, T>(candidates: seq<I>, check: I -> Option<T>) returns (r: Option<(I, T)>)
    ensures r == FirstAccepting(candidates, check)
    ensures r.None? <==> forall i :: 0 <= i < |candidates| ==> check(candidates[i]).None?
  {
    FirstAcceptingIsFirst(candidates, check);
    var i := 0;
    while i < |candidates|
      invariant 0 <= i <= |candidates|
      invariant FirstAccepting(candidates, check) == FirstAccepting(candidates[i..], check)
    {
      var info := check(candidates[i]);
      if info.Some? {
        return Some((candidates[i], info.value));
      }
      assert candidates[i..][1..] == candidates[i + 1..];
      i := i + 1;
    }
    return None;
  }

  /** `InstallCommand.find_installer`; None where the source falls off the loop. */
  method FindInstaller(installers: seq<Installer>, name: string, version: string) returns (r: Option<(Installer, PackageInfo)>)
    ensures r == FirstAccepting(installers, CheckFor(ByName(name, version)))
  {
    r := FindFirst(installers, CheckFor(ByName(name, version)));
  }

  /** `InstallCommand.find_ref_installer`; None where the source falls off the loop. */
  method FindRefInstaller(installers: seq<Installer>, reference: string) returns (r: Option<(Installer, PackageInfo)>)
    ensures r == FirstAccepting(installers, CheckFor(ByReference(reference)))
  {
    r := FindFirst(installers, CheckFor(ByReference(reference)));
  }

  /** The installers `InstallCommand.make` uses, in order. */
  const DefaultInstallers: seq<Installer> := [GitInstaller, PypiInstaller]

  /** With the default installers every request gets one, and git is chosen exactly when git accepts. */
  lemma DefaultInstallersAlwaysSelect(request: Request)
    ensures FirstAccepting(DefaultInstallers, CheckFor(request)).Some?
    ensures FirstAccepting(DefaultInstallers, CheckFor(request)).value.0.GitInstaller? <==> Check(GitInstaller, request).Some?
  {
    assert DefaultInstallers[1..] == [PypiInstaller];
    assert [PypiInstaller][1..] == [];
  }

  // ---- Requirements of a wheel ----

  /**
   * The parts of `semver.Comparator` and `semver.VersionRange` that
   * `parse_requires` uses: parsing one bound (None where the source raises
   * VersionParseException), the ordering `sorted` applies, and the string
   * of a range built from a lower and an optional upper bound.
   */
  datatype RangeSyntax<!C> = RangeSyntax(
    parseComparator: string -> Option<C>,
    less: (C, C) -> bool,
    render: (C, Option<C>) -> string)

  /** One entry of a wheel's `run_requires`; a missing key and a null value are both None. */
  datatype RequiresEntry = RequiresEntry(extra: Option<string>, environment: Option<string>, requirements: Option<seq<string>>)

  /** The package a requirement names: the text before its first space. */
  function RequirementPackage(requirement: string): (package: string)
    ensures ' ' !in package
    ensures ' ' !in requirement ==> package == requirement
  {
    var (package, _, _) := Partition(requirement, " ");
    PartitionHeadClean(requirement, " ");
    ContainsChar(package, ' ');
    ContainsChar(requirement, ' ');
    package
  }

  /**
   * The range stored for a requirement: "*" without a range; otherwise the
   * parenthesised text split at its first ','. Two bounds are ordered by
   * `sorted` and the first of them is passed as the upper bound; one bound
   * becomes a range without an upper bound; a bound that does not parse
   * leaves the first comma piece.
   */
  function RequirementRange<C>(requirement: string, syntax: RangeSyntax<C>): (range: string)
    ensures ' ' !in requirement ==> range == "*"
  {
    var (_, _, versionRange) := Partition(requirement, " ");
    ContainsChar(requirement, ' ');
    if versionRange == "" then "*"
    else
      var (start, _, end) := Partition(Strip(versionRange, {'(', ')'}), ",");
      if end != "" then
        match (syntax.parseComparator(start), syntax.parseComparator(end))
        case (Some(a), Some(b)) =>
          var (upper, lower) := if syntax.less(b, a) then (b, a) else (a, b);
          syntax.render(lower, Some(upper))
        case _ => start
      else
        match syntax.parseComparator(start)
        case Some(lower) => syntax.render(lower, None)
        case None => start
  }

  /** "package (bound)": a range from the one bound when it parses, the bound itself otherwise. */
  lemma RequirementOneBound<C>(package: string, bound: string, syntax: RangeSyntax<C>)
    requires ' ' !in package && ',' !in bound
    requires bound != "" && bound[0] !in {'(', ')'} && bound[|bound| - 1] !in {'(', ')'}
    ensures RequirementPackage(package + " (" + bound + ")") == package
    ensures RequirementRange(package + " (" + bound + ")", syntax) ==
      match syntax.parseComparator(bound)
      case Some(lower) => syntax.render(lower, None)
      case None => bound
  {
    var requirement := package + " (" + bound + ")";
    assert requirement == package + " " + (['('] + bound + [')']);
    PartitionAt(package, " ", ['('] + bound + [')']);
    StripEnclosed(bound, '(', ')', {'(', ')'});
    ContainsChar(bound, ',');
  }

  /**
   * "package (start,end)": both bounds parsed and ordered, or the first
   * piece when either fails to parse.
   */
  lemma RequirementTwoBounds<C>(package: string, start: string, end: string, syntax: RangeSyntax<C>)
    requires ' ' !in package && ',' !in start
    requires start != "" && start[0] !in {'(', ')'}
    requires end != "" && end[|end| - 1] !in {'(', ')'}
    ensures RequirementRange(package + " (" + start + "," + end + ")", syntax) ==
      match (syntax.parseComparator(start), syntax.parseComparator(end))
      case (Some(a), Some(b)) =>
        if syntax.less(b, a) then syntax.render(a, Some(b)) else syntax.render(b, Some(a))
      case _ => start
  {
    var inside := start + "," + end;
    var requirement := package + " (" + start + "," + end + ")";
    assert requirement == package + " " + (['('] + inside + [')']);
    PartitionAt(package, " ", ['('] + inside + [')']);
    assert inside[|inside| - 1] == end[|end| - 1];
    StripEnclosed(inside, '(', ')', {'(', ')'});
    PartitionAt(start, ",", end);
  }

  /** The inner loop's effect: each requirement in order stores its range under its package. */
  function AddRequirements<C>(dependencies: map<string, string>, requirements: seq<string>, syntax: RangeSyntax<C>): (r: map<string, string>)
    ensures r.Keys == dependencies.Keys + set requirement | requirement in requirements :: RequirementPackage(requirement)
  {
    if requirements == [] then dependencies
    else
      var init, last := requirements[..|requirements| - 1], requirements[|requirements| - 1];
      assert requirements == init + [last];
      assert (set requirement | requirement in requirements :: RequirementPackage(requirement))
        == (set requirement | requirement in init :: RequirementPackage(requirement)) + {RequirementPackage(last)};
      AddRequirements(dependencies, init, syntax)[RequirementPackage(last) := RequirementRange(last, syntax)]
  }

  /** The last requirement naming a package decides its range. */
  lemma {:induction false} LaterRequirementWins<C>(dependencies: map<string, string>, requirements: seq<string>, syntax: RangeSyntax<C>, i: int)
    requires 0 <= i < |requirements|
    requires forall j :: i < j < |requirements| ==> RequirementPackage(requirements[j]) != RequirementPackage(requirements[i])
    ensures RequirementPackage(requirements[i]) in AddRequirements(dependencies, requirements, syntax)
    ensures AddRequirements(dependencies, requirements, syntax)[RequirementPackage(requirements[i])] == RequirementRange(requirements[i], syntax)
    decreases |requirements|
  {
    if i < |requirements| - 1 {
      var init := requirements[..|requirements| - 1];
      LaterRequirementWins(dependencies, init, syntax, i);
    }
  }

  /** A package no requirement names keeps what it had. */
  lemma {:induction false} UnnamedPackageKept<C>(dependencies: map<string, string>, requirements: seq<string>, syntax: RangeSyntax<C>, package: string)
    requires forall j :: 0 <= j < |requirements| ==> RequirementPackage(requirements[j]) != package
    ensures package in AddRequirements(dependencies, requirements, syntax) <==> package in dependencies
    ensures package in dependencies ==> AddRequirements(dependencies, requirements, syntax)[package] == dependencies[package]
    decreases |requirements|
  {
    if requirements != [] {
      UnnamedPackageKept(dependencies, requirements[..|requirements| - 1], syntax, package);
    }
  }

  /** An entry `parse_requires` reads: one with neither an `extra` nor an `environment`. */
  predicate Counted(entry: RequiresEntry)
  {
    entry.extra.None? && entry.environment.None?
  }

  /**
   * One pass of the outer loop of `parse_requires`: a counted entry adds its
   * requirements, an uncounted one adds nothing, and a counted entry without
   * `requires` raises KeyError (None), as does every entry after a failure.
   */
  function AddEntry<C>(dependencies: Option<map<string, string>>, entry: RequiresEntry, syntax: RangeSyntax<C>): (r: Option<map<string, string>>)
    ensures r.None? <==> dependencies.None? || (Counted(entry) && entry.requirements.None?)
    ensures r.Some? ==> dependencies.value.Keys <= r.value.Keys
  {
    match dependencies
    case None => None
    case Some(d) =>
      if !Counted(entry) then Some(d)
      else if entry.requirements.None? then None
      else Some(AddRequirements(d, entry.requirements.value, syntax))
  }

  /**
   * The outer loop of `parse_requires` over all entries in order; it fails
   * exactly when some counted entry has no `requires`.
   */
  function CollectRequires<C>(entries: seq<RequiresEntry>, syntax: RangeSyntax<C>): (r: Option<map<string, string>>)
    ensures r.None? <==> exists i :: 0 <= i < |entries| && Counted(entries[i]) && entries[i].requirements.None?
  {
    if entries == [] then Some(map[])
    else
      var init := entries[..|entries| - 1];
      assert forall i :: 0 <= i < |init| ==> init[i] == entries[i];
      AddEntry(CollectRequires(init, syntax), entries[|entries| - 1], syntax)
  }

  lemma CollectSnoc<C>(entries: seq<RequiresEntry>, entry: RequiresEntry, syntax: RangeSyntax<C>)
    ensures CollectRequires(entries + [entry], syntax) == AddEntry(CollectRequires(entries, syntax), entry, syntax)
  {
    assert (entries + [entry])[..|entries|] == entries;
  }

  /** Once a missing `requires` has raised, nothing later changes the outcome. */
  lemma {:induction false} CollectFailurePersists<C>(before: seq<RequiresEntry>, after: seq<RequiresEntry>, syntax: RangeSyntax<C>)
    requires CollectRequires(before, syntax).None?
    ensures CollectRequires(before + after, syntax).None?
    decreases |after|
  {
    if after != [] {
      var init := after[..|after| - 1];
      CollectFailurePersists(before, init, syntax);
      assert before + after == (before + init) + [after[|after| - 1]];
      CollectSnoc(before + init, after[|after| - 1], syntax);
    } else {
      assert before + after == before;
    }
  }

  /** An entry with an `extra` or an `environment` contributes nothing, wherever it stands. */
  lemma {:induction false} UncountedEntryIgnored<C>(before: seq<RequiresEntry>, entry: RequiresEntry, after: seq<RequiresEntry>, syntax: RangeSyntax<C>)
    requires !Counted(entry)
    ensures CollectRequires(before + [entry] + after, syntax) == CollectRequires(before + after, syntax)
    decreases |after|
  {
    if after == [] {
      CollectSnoc(before, entry, syntax);
      assert before + [entry] + after == before + [entry];
      assert before + after == before;
    } else {
      var init := after[..|after| - 1];
      var last := after[|after| - 1];
      UncountedEntryIgnored(before, entry, init, syntax);
      assert before + [entry] + after == (before + [entry] + init) + [last];
      assert before + after == (before + init) + [last];
      CollectSnoc(before + [entry] + init, last, syntax);
      CollectSnoc(before + init, last, syntax);
    }
  }

  /** A counted entry without `requires` makes the whole parse fail (the KeyError propagates). */
  lemma MissingRequiresFails<C>(before: seq<RequiresEntry>, entry: RequiresEntry, after: seq<RequiresEntry>, syntax: RangeSyntax<C>)
    requires Counted(entry) && entry.requirements.None?
    ensures CollectRequires(before + [entry] + after, syntax).None?
  {
    CollectSnoc(before, entry, syntax);
    CollectFailurePersists(before + [entry], after, syntax);
  }

  /** The inner loop of `parse_requires`: store each requirement's range under its package. */
  method StoreRequirements<C>(dependencies: map<string, string>, requirements: seq<string>, syntax: RangeSyntax<C>) returns (updated: map<string, string>)
    ensures updated == AddRequirements(dependencies, requirements, syntax)
  {
    updated := dependencies;
    for j := 0 to |requirements|
      invariant updated == AddRequirements(dependencies, requirements[..j], syntax)
    {
      assert requirements[..j + 1][..j] == requirements[..j];
      updated := updated[RequirementPackage(requirements[j]) := RequirementRange(requirements[j], syntax)];
    }
    assert requirements[..|requirements|] == requirements;
  }

  /**
   * `PypiInstaller.parse_requires`: a missing or empty list gives the empty
   * map; otherwise the entries are folded in order.
   */
  method ParseRequires<C>(wheelRequires: Option<seq<RequiresEntry>>, syntax: RangeSyntax<C>) returns (r: Option<map<string, string>>)
    ensures r == CollectRequires(if wheelRequires.Some? then wheelRequires.value else [], syntax)
    ensures wheelRequires.None? || wheelRequires == Some([]) ==> r == Some(map[])
  {
    var entries := if wheelRequires.Some? then wheelRequires.value else [];
    var dependencies: map<string, string> := map[];
    for i := 0 to |entries|
      invariant CollectRequires(entries[..i], syntax) == Some(dependencies)
    {
      var elem := entries[i];
      CollectSnoc(entries[..i], elem, syntax);
      assert entries[..i + 1] == entries[..i] + [elem];
      if elem.extra.None? && elem.environment.None? {
        if elem.requirements.None? {
          CollectFailurePersists(entries[..i + 1], entries[i + 1..], syntax);
          assert entries[..i + 1] + entries[i + 1..] == entries;
          return None;
        }
        dependencies := StoreRequirements(dependencies, elem.requirements.value, syntax);
      }
    }
    assert entries[..|entries|] == entries;
    return Some(dependencies);
  }

  // ---- Dependency graph ----

  /** `functools.reduce` over a non-empty list: a left fold starting from its first element. */
  function FoldFrom<R>(acc: R, rest: seq<R>, f: (R, R) -> R): R
    decreases |rest|
  {
    if rest == [] then acc else FoldFrom(f(acc, rest[0]), rest[1..], f)
  }

  function Reduce<R>(ranges: seq<R>, f: (R, R) -> R): (r: R)
    requires ranges != []
    ensures |ranges| == 1 ==> r == ranges[0]
  {
    FoldFrom(ranges[0], ranges[1..], f)
  }

  lemma {:induction false} FoldFromSnoc<R>(acc: R, rest: seq<R>, x: R, f: (R, R) -> R)
    ensures FoldFrom(acc, rest + [x], f) == f(FoldFrom(acc, rest, f), x)
    decreases |rest|
  {
    if rest != [] {
      FoldFromSnoc(f(acc, rest[0]), rest[1..], x, f);
      assert (rest + [x])[1..] == rest[1..] + [x];
    }
  }

  /** Adding one more range intersects it into what the list resolved to before. */
  lemma ReduceSnoc<R>(ranges: seq<R>, x: R, f: (R, R) -> R)
    requires ranges != []
    ensures Reduce(ranges + [x], f) == f(Reduce(ranges, f), x)
  {
    assert (ranges + [x])[1..] == ranges[1..] + [x];
    FoldFromSnoc(ranges[0], ranges[1..], x, f);
  }

  /**
   * `DependencyGraph`: for each package name, the version ranges required of
   * it, in the order they were added. `R` stands for `semver.VersionRange`.
   */
  class DependencyGraph<R> {
    var dependencies: map<string, seq<R>>

    constructor ()
      ensures dependencies == map[]
    {
      dependencies := map[];
    }

    /** The list the defaultdict yields for a name. */
    function RangesOf(name: string): seq<R>
      reads this
    {
      if name in dependencies then dependencies[name] else []
    }

    ghost predicate AllNonEmpty()
      reads this
    {
      forall name :: name in dependencies ==> dependencies[name] != []
    }

    /**
     * `add`: the parsed range is appended to that name's list. The
     * defaultdict creates the (empty) list before the range is parsed, so a
     * parse failure (false) still leaves the name present.
     */
    method Add(name: string, versionRange: string, parse: string -> Option<R>) returns (ok: bool)
      modifies this
      ensures ok <==> parse(versionRange).Some?
      ensures ok ==> dependencies == old(dependencies)[name := old(RangesOf(name)) + [parse(versionRange).value]]
      ensures !ok ==> dependencies == old(dependencies)[name := old(RangesOf(name))]
      ensures ok && old(AllNonEmpty()) ==> AllNonEmpty()
    {
      var ranges := RangesOf(name);
      dependencies := dependencies[name := ranges];
      var parsed := parse(versionRange);
      if parsed.None? {
        return false;
      }
      dependencies := dependencies[name := ranges + [parsed.value]];
      return true;
    }

    /**
     * `resolve`: every name mapped to the fold of `intersect` over its
     * ranges; None where some list is empty (reduce raises TypeError).
     */
    method Resolve(intersect: (R, R) -> R) returns (r: Option<map<string, R>>)
      ensures r.Some? <==> AllNonEmpty()
      ensures r.Some? ==> r.value.Keys == dependencies.Keys
      ensures r.Some? ==> forall name :: name in r.value ==> r.value[name] == Reduce(dependencies[name], intersect)
    {
      var resolutions: map<string, R> := map[];
      var pending := dependencies.Keys;
      while pending != {}
        invariant pending <= dependencies.Keys
        invariant resolutions.Keys == dependencies.Keys - pending
        invariant forall name :: name in resolutions ==> dependencies[name] != [] && resolutions[name] == Reduce(dependencies[name], intersect)
        decreases pending
      {
        var name :| name in pending;
        var ranges := dependencies[name];
        if ranges == [] {
          return None;
        }
        resolutions := resolutions[name := Reduce(ranges, intersect)];
        pending := pending - {name};
      }
      return Some(resolutions);
    }
  }

  // ---- Saving the dependency map ----

  /** `InstallCommand.packages_key`. */
  const DependenciesKey := "dependencies"

  /**
   * The `save` step of `InstallCommand.install`: the new package's range is
   * stored under its name in the project's dependencies. False where the
   * source raises: no `dependencies` key (KeyError) or one that is not an
   * object (TypeError).
   */
  method RecordInstall(project: PymPackage, newName: string, versionRange: string, save: bool) returns (ok: bool)
    modifies project
    ensures project.location == old(project.location) && project.saved == old(project.saved)
    ensures ok <==> !save || (DependenciesKey in old(project.config) && old(project.config)[DependenciesKey].JObj?)
    ensures !save || !ok ==> project.config == old(project.config)
    ensures save && ok ==> (project.config ==
      old(project.config)[DependenciesKey := JObj(old(project.config)[DependenciesKey].fields[newName := JStr(versionRange)])])
  {
    if !save {
      return true;
    }
    var dependencies := project.Get(DependenciesKey);
    if dependencies.None? || !dependencies.value.JObj? {
      return false;
    }
    project.Set(DependenciesKey, JObj(dependencies.value.fields[newName := JStr(versionRange)]));
    return true;
  }

  // ---- Uninstalling ----

  /**
   * What `UninstallCommand.run` works on: the package directories present
   * under the install location, the project configuration, and whether a
   * TypeError has ended the loop.
   */
  datatype UninstallState = UninstallState(present: set<string>, config: map<string, Value>, aborted: bool)

  /**
   * One pass of the loop: a missing directory only warns; a removed one, with
   * `save`, also has its dependency entry deleted, where a missing key is
   * only logged and a non-object `dependencies` raises.
   */
  function UninstallStep(st: UninstallState, removable: string, save: bool): (r: UninstallState)
    ensures st.aborted ==> r == st
    ensures !st.aborted ==> r.present == st.present - {removable}
    ensures r.config.Keys == st.config.Keys
    ensures !save ==> r.config == st.config && r.aborted == st.aborted
  {
    if st.aborted || removable !in st.present then st
    else
      var removed := st.(present := st.present - {removable});
      if !save || DependenciesKey !in st.config then removed
      else match st.config[DependenciesKey]
        case JObj(dependencies) =>
          if removable in dependencies then removed.(config := st.config[DependenciesKey := JObj(dependencies - {removable})])
          else removed
        case _ => removed.(aborted := true)
  }

  /** The whole loop of `UninstallCommand.run`, one step per listed package in order. */
  function UninstallAll(st: UninstallState, removables: seq<string>, save: bool): (r: UninstallState)
    ensures st.aborted ==> r == st
    ensures r.present <= st.present
    ensures r.config.Keys == st.config.Keys
    ensures !save ==> r.config == st.config && r.aborted == st.aborted
  {
    if removables == [] then st
    else UninstallStep(UninstallAll(st, removables[..|removables| - 1], save), removables[|removables| - 1], save)
  }

  lemma UninstallSnoc(st: UninstallState, removables: seq<string>, removable: string, save: bool)
    ensures UninstallAll(st, removables + [removable], save) == UninstallStep(UninstallAll(st, removables, save), removable, save)
  {
    assert (removables + [removable])[..|removables|] == removables;
  }

  /** After an abort nothing further happens. */
  lemma {:induction false} AbortStops(st: UninstallState, before: seq<string>, after: seq<string>, save: bool)
    requires UninstallAll(st, before, save).aborted
    ensures UninstallAll(st, before + after, save) == UninstallAll(st, before, save)
    decreases |after|
  {
    if after != [] {
      var init := after[..|after| - 1];
      AbortStops(st, before, init, save);
      assert before + after == (before + init) + [after[|after| - 1]];
      UninstallSnoc(st, before + init, after[|after| - 1], save);
    } else {
      assert before + after == before;
    }
  }

  /** Without `save`: every listed directory that exists is removed and the configuration is untouched. */
  lemma {:induction false} UninstallWithoutSave(st: UninstallState, removables: seq<string>)
    requires !st.aborted
    ensures UninstallAll(st, removables, false) == st.(present := st.present - (set r | r in removables))
    decreases |removables|
  {
    if removables == [] {
      assert (set r | r in removables) == {};
    } else {
      var init := removables[..|removables| - 1];
      var last := removables[|removables| - 1];
      UninstallWithoutSave(st, init);
      assert removables == init + [last];
      assert (set r | r in removables) == (set r | r in init) + {last};
    }
  }

  /**
   * With `save` and an object `dependencies`: the directories are removed as
   * without `save`, and exactly the listed names whose directory existed lose
   * their dependency entry.
   */
  lemma {:induction false} UninstallWithSave(st: UninstallState, removables: seq<string>)
    requires !st.aborted
    requires DependenciesKey in st.config && st.config[DependenciesKey].JObj?
    ensures !UninstallAll(st, removables, true).aborted
    ensures UninstallAll(st, removables, true).present == st.present - (set r | r in removables)
    ensures UninstallAll(st, removables, true).config == st.config[DependenciesKey :=
      JObj(st.config[DependenciesKey].fields - (set r | r in removables && r in st.present))]
    decreases |removables|
  {
    var fields := st.config[DependenciesKey].fields;
    if removables == [] {
      assert (set r | r in removables && r in st.present) == {};
      assert fields - {} == fields;
    } else {
      var init := removables[..|removables| - 1];
      var last := removables[|removables| - 1];
      UninstallWithSave(st, init);
      assert removables == init + [last];
      var gone := set r | r in init && r in st.present;
      var before := UninstallAll(st, init, true);
      assert (set r | r in removables) == (set r | r in init) + {last};
      if last in before.present {
        var now := gone + {last};
        assert (set r | r in removables && r in st.present) == now;
        var deps := fields - gone;
        assert before.config[DependenciesKey] == JObj(deps);
        if last in deps {
          assert deps - {last} == fields - now;
        } else {
          assert deps == fields - now;
        }
      } else {
        assert (set r | r in removables && r in st.present) == gone;
      }
    }
  }

  /** With `save` but no `dependencies` key, the KeyError is caught and only directories are removed. */
  lemma {:induction false} UninstallWithSaveNoDependencies(st: UninstallState, removables: seq<string>)
    requires !st.aborted && DependenciesKey !in st.config
    ensures UninstallAll(st, removables, true) == st.(present := st.present - (set r | r in removables))
    decreases |removables|
  {
    if removables == [] {
      assert (set r | r in removables) == {};
    } else {
      var init := removables[..|removables| - 1];
      var last := removables[|removables| - 1];
      UninstallWithSaveNoDependencies(st, init);
      assert removables == init + [last];
      assert (set r | r in removables) == (set r | r in init) + {last};
    }
  }

  /**
   * `UninstallCommand.run` over the set of present directories: the loop,
   * then `project.save()`. ok is false where a TypeError ended the loop, in
   * which case nothing is saved.
   */
  method Uninstall(project: PymPackage, present: set<string>, removables: seq<string>, save: bool) returns (remaining: set<string>, ok: bool)
    modifies project
    ensures var final := UninstallAll(UninstallState(present, old(project.config), false), removables, save);
      remaining == final.present && project.config == final.config && ok == !final.aborted
    ensures ok ==> project.saved == Some(project.config)
    ensures !ok ==> project.saved == old(project.saved)
    ensures project.location == old(project.location)
  {
    ghost var start := UninstallState(present, project.config, false);
    remaining := present;
    var i := 0;
    while i < |removables|
      invariant 0 <= i <= |removables|
      invariant UninstallAll(start, removables[..i], save) == UninstallState(remaining, project.config, false)
      invariant project.location == old(project.location) && project.saved == old(project.saved)
    {
      var removable := removables[i];
      UninstallSnoc(start, removables[..i], removable, save);
      assert removables[..i + 1] == removables[..i] + [removable];
      if removable in remaining {
        remaining := remaining - {removable};
        if save {
          var dependencies := project.Get(DependenciesKey);
          if dependencies.Some? {
            if !dependencies.value.JObj? {
              AbortStops(start, removables[..i + 1], removables[i + 1..], save);
              assert removables[..i + 1] + removables[i + 1..] == removables;
              return remaining, false;
            }
            if removable in dependencies.value.fields {
              project.Set(DependenciesKey, JObj(dependencies.value.fields - {removable}));
            }
          }
        }
      }
      i := i + 1;
    }
    assert removables[..i] == removables;
    project.Save();
    return remaining, true;
  }
}
