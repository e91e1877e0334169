# pym core, modelled in Dafny

pym is a project-local package manager for Python. A project directory holds a
`pym.json` configuration whose `dependencies` object maps package names to
version ranges. `pym install` resolves package references to installers
(git repositories or PyPI wheels) and gathers the dependencies of what it
installs. With `--save` it records those resolved dependencies in
`pym.json`; the packages named on the command line are installed without
`save` (src/install.py:98), so only the dependencies resolved at
src/install.py:113 are recorded. `pym uninstall` removes
package directories and, with `--save`, their dependency entries.

This project models the deterministic core of that program:

- `semver.dfy` (module `Semver`): versions as four string segments with `*`
  as a wildcard, their parsing, matching and specificity score, and `Spec`
  (versions joined by ` or `) with its length, indexing, parsing and
  intersection.
- `package.dfy` (module `Package`): `PackageInfo.parse`, the default values
  and default configuration, `PymConfigBuilder.build`, the default merge of
  `PymPackage.load`, and `PymPackage` as a class whose `config` dictionary
  `__setitem__` updates in place.
- `install.dfy` (module `Install`): how the git and PyPI installers accept
  references, the first-accepting installer search, `parse_requires`,
  `DependencyGraph` as a class, the `--save` step of `install`, and the loop
  of `UninstallCommand.run` over a set of present package directories.
- `pypi.dfy` (module `Pypi`): the local file name of `download_file`.
- `strings.dfy`, `paths.dfy`, `json.dfy`, `wrappers.dfy`: the Python
  behaviour the core relies on. This covers `str.partition`, `str.split`,
  `str.strip`, `startswith`/`endswith`, a one-prefix `re.sub`, and the POSIX
  `os.path.basename` and `os.path.splitext`. It also covers JSON values with
  Python truthiness, and an `Option` type.

Most operations of the range classes (`Comparator`, `VersionRange`) are
used by the core but defined elsewhere. They are passed in as function
parameters: `RangeSyntax` for `parse_requires`, and for `DependencyGraph`,
`parse` and `intersect`. Error paths that raise in the source return `None`
or `false` in the model, and the contracts state when:

- the KeyError from a missing `requires`;
- the TypeError from `reduce` over an empty list;
- the KeyError or TypeError when writing into a missing or non-object
  `dependencies` entry;
- an IndexError in `Spec.__getitem__`.

`PackageInfo.parse` does not reject an empty reference, nor one with
several `@` or `#` markers:

- `a@b@c` gives the source `a` and the version `b@c` (see
  `Package.ParseSplitsAtFirstDelimiter`);
- an empty reference gives an empty name, source and version.

In `parse_requires` the two bounds of a range are sorted and assigned as
`upper, lower`. So the bound that sorts first is passed as the upper bound
of `VersionRange`. The comparator ordering is not part of this model, so
the model keeps that assignment as written (`Install.RequirementTwoBounds`).

## Model

| member | source | states |
|---|---|---|
| `Semver.Version.Equals` | src/semver.py:13-15 | true exactly when all four segments agree, which is value equality of versions |
| `Semver.Version.Match` | src/semver.py:23-27 | `match` holds exactly when each of the four segment pairs matches; the equality shortcut adds nothing |
| `Semver.MatchSegmentMeaning` | src/semver.py:46-51 | `*` matches every segment, two other segments match only when equal, and the relation is reflexive and symmetric |
| `Semver.MatchReflexiveSymmetric` | src/semver.py:23-27 | every version matches itself, and matching is symmetric |
| `Semver.MatchNotTransitive` | src/semver.py:23-27 | a wildcard version matches two versions that do not match each other |
| `Semver.SegmentScore` | src/semver.py:34-39 | a segment scores from 1 to 3, and scores 1 exactly when it is `*` |
| `Semver.Version.Specificity` | src/semver.py:29-44 | the loop's result is 1000, 100 and 10 times the major, minor and patch scores, plus 5 when there is a build |
| `Semver.SpecificityOf` | src/semver.py:29-44 | specificity lies between 1110 and 3335, and its last digit is 5 exactly when there is a build |
| `Semver.SpecificityExamples` | src/semver.py:29-44 | `1.2.3` scores 3330, `*.*.*` scores 1110, `^1.*.3-rc` scores 2135 |
| `Semver.ParseBuildAfterFirstDash` | src/semver.py:55 | the build is the text after the first `-`, and empty without one |
| `Semver.Version.Parse` | src/semver.py:53-60 | major, minor and patch hold no `.`; the major is a prefix of the input; without a `-` the build is empty |
| `Semver.Version.FromParts` | src/semver.py:56-59 | major, minor and patch are the first three dotted pieces, padded with `0` where fewer exist; the build is kept |
| `Semver.ParseWithPrimary` | src/semver.py:55-60 | a build is cut off at a `-` that the dotted part does not contain |
| `Semver.ParseFormat` | src/semver.py:53-60 | parsing `major.minor.patch[-build]` gives the version back when its segments hold no `.` or `-` |
| `Semver.ParseOneSegment` | src/semver.py:56-59 | one segment gives minor and patch `0` |
| `Semver.ParseTwoSegments` | src/semver.py:56-59 | two segments give patch `0`; an empty second segment stays empty |
| `Semver.ParseDropsExtraSegments` | src/semver.py:56-59 | dotted segments after the third are dropped |
| `Semver.ParseExampleOne` | src/semver.py:53-60 | `1` parses as 1.0.0 with no build |
| `Semver.ParseExampleEmpty` | src/semver.py:53-60 | the empty string parses with an empty major |
| `Semver.ParseExampleTrailingDot` | src/semver.py:53-60 | `1.` parses with an empty minor |
| `Semver.ParseExampleFull` | src/semver.py:53-60 | `1.2.3` parses as 1.2.3 with no build |
| `Semver.ParseExampleDottedBuild` | src/semver.py:53-60 | `1.2.3-4.5.6` parses with build `4.5.6` |
| `Semver.SpecIndexing` | src/semver.py:70-71 | `spec[i]` fails (IndexError) exactly when `i` is at least `len(spec)` or below `-len(spec)`; `spec[i]` for `0 <= i < len(spec)` is the i-th version and `spec[i - len(spec)]` is the same one |
| `Semver.SpecIterationVisitsVersions` | src/semver.py:84 | iterating a spec, which goes through `__getitem__` until IndexError, visits exactly its versions in order |
| `Semver.SpecLengthCountsItems` | src/semver.py:67-68 | `len(spec)` is the number of versions that iteration visits |
| `Semver.Spec.Parse` | src/semver.py:90-93 | a parsed spec holds at least one version |
| `Semver.ParseAll` | src/semver.py:92 | one parsed version per piece, in order |
| `Semver.SpecParseJoin` | src/semver.py:90-93 | pieces without spaces joined by ` or ` parse to one version per piece |
| `Semver.SpecParseSingle` | src/semver.py:90-93 | a range without ` or ` gives a spec of exactly one version |
| `Semver.Spec.Intersection` | src/semver.py:81-88 | the outer loop, iterating through `__getitem__` until IndexError, and the inner loop produce, for each version in order, one copy per parsed version it matches |
| `Semver.AppendMatches` | src/semver.py:85-87 | the inner loop appends the copies for one version to the list so far |
| `Semver.Repeats` | src/semver.py:85-87 | what the inner loop adds for one version: copies of that version only, at most one per parsed version |
| `Semver.RepeatsAreCopies` | src/semver.py:85-87 | the inner loop adds something exactly when its version matches some parsed version |
| `Semver.MatchesInMembers` | src/semver.py:81-88 | a version is in the intersection exactly when it is in the spec and matches some parsed version |
| `Semver.MatchesIn` | src/semver.py:81-88 | the intersection has at most one entry per pair of versions |
| `Semver.MatchesInAppend` | src/semver.py:84-88 | the intersection keeps the spec's order: it distributes over concatenation |
| `Strings.Partition` | src/package.py:63 | without the separator the whole string and two empty strings; otherwise the text before its first occurrence, the separator and the rest, which rejoin to the input |
| `Strings.Split` | src/semver.py:56 | at least one piece, the pieces rejoin to the input, no piece contains the separator, and each split is at the first occurrence of the separator in what remains, as Python splits from the left |
| `Strings.SplitAtChar` | src/pypi.py:9 | no piece of a split at one character holds that character |
| `Strings.StripPrefix` | src/install.py:232 | one leading copy of the prefix is removed when present, and nothing otherwise |
| `Strings.Strip` | src/install.py:409 | the result is a slice of the input with only stripped characters cut away before and after it; it neither starts nor ends with a stripped character; a string with none is unchanged |
| `Paths.Basename` | src/package.py:64 | the text after the last `/`: a suffix without `/`, the whole path when it has no `/` |
| `Paths.SplitExtRoot` | src/package.py:64 | the path cut before its last `.` after the last `/` when a non-dot character precedes that `.` in the final component, and unchanged otherwise |
| `Paths.BasenameAfterSlash` | src/package.py:64 | the basename of `dir/base` is `base` |
| `Paths.SplitExtRootOf` | src/package.py:64 | `stem.ext` loses `.ext` when the stem has a non-dot character |
| `Paths.SplitExtRootNoDot` | src/package.py:64 | a name without `.` keeps its whole text |
| `Package.PackageInfo.Parse` | src/package.py:61-70 | keeps the reference; source and version rejoin to it around the first delimiter, or the version is empty; the name is a prefix of the source's basename without `/` |
| `Package.ParseNamesStem` | src/package.py:63-64 | a reference `dir/stem.ext` without `@` is named by its stem |
| `Package.ParseNamesRepository` | src/package.py:64 | `https://github.com/tornadoweb/tornado.git` is named `tornado` |
| `Package.ParseSplitsAtFirstDelimiter` | src/package.py:63 | only the first delimiter splits; later delimiters stay in the version |
| `Package.Build` | src/package.py:39-41 | exactly the default configuration's keys, each holding the supplied value when truthy and the default otherwise |
| `Package.BuildIdempotent` | src/package.py:40 | building a built configuration changes nothing |
| `Package.BuildFillsRequiredFields` | src/package.py:40 | version, source directory and licence of a built configuration are never empty |
| `Package.BuildWithoutValues` | src/package.py:17-24 | without supplied values a new configuration is exactly the defaults, with no dependencies |
| `Package.WithDefaults` | src/package.py:104 | the file's keys override the default values, and both locations are always present |
| `Package.EmptyFileGetsDefaultLocations` | src/package.py:11-14 | a `pym.json` holding `{}` loads with exactly the default locations, installing into `pym_packages` |
| `Package.PymPackage.constructor` | src/package.py:84-86 | a project holds the given location and configuration, not yet saved |
| `Package.PymPackage.Load` | src/package.py:98-106 | no project for a missing file; otherwise a fresh project holding the merged configuration, in which both locations can always be read |
| `Package.PymPackage.Set` | src/package.py:91-92 | afterwards the key reads back the value and every other key reads as before |
| `Package.PymPackage.Save` | src/package.py:94-96 | the saved file holds the current configuration |
| `Install.GitPrefixOfSource` | src/install.py:230-231 | the part before the first `#` starts with `git+` exactly when the reference does |
| `Install.GitCanInstallReference` | src/install.py:228-236 | accepted exactly when the part before the first `#` ends in `.git` or the reference starts with `git+`; one `git+` is removed, the rest is parsed at `#`, and the range is `git+` and the stored reference |
| `Install.GitVersionIsFragment` | src/install.py:232-234 | the version of an accepted reference is the text after its first `#`, or empty without one |
| `Install.GitPrefixOptional` | src/install.py:231-234 | `git+U` is always accepted and gives the same package as `U` whenever `U` is accepted |
| `Install.PypiCanInstallReference` | src/install.py:281-285 | always accepted; one `pypi+` is removed and the rest is parsed at `@`, with no range |
| `Install.PypiPrefixOptional` | src/install.py:283 | `pypi+U` and `U` give the same package |
| `Install.PypiNameAndVersion` | src/install.py:282-285 | `name@version` with a plain name gives that name and that version |
| `Install.CanInstallReference` | src/install.py:172 | the PyPI installer accepts every reference |
| `Install.CanInstall` | src/install.py:221-226 | git accepts exactly when it accepts the version as a reference, and then only the name differs from that result; PyPI always accepts, and only the version differs from parsing the name |
| `Install.CanInstallOverwritesOneField` | src/install.py:274-279 | the other argument changes only the overwritten field of the result |
| `Install.FirstAcceptingIsFirst` | src/install.py:160-176 | the result is the first installer that accepts, with what it returned; nothing exactly when none accepts |
| `Install.FirstAccepting` | src/install.py:160-176 | a result is an installer from the list together with what its check returned |
| `Install.FindFirst` | src/install.py:160-176 | the loop returns that first accepting installer, and nothing only when none accepts |
| `Install.FindInstaller` | src/install.py:160-167 | the first installer accepting the name and version |
| `Install.FindRefInstaller` | src/install.py:169-176 | the first installer accepting the reference |
| `Install.DefaultInstallersAlwaysSelect` | src/install.py:57-60 | with git then PyPI every request gets an installer, and git is chosen exactly when it accepts |
| `Install.RequirementPackage` | src/install.py:405 | the package is the text before the first space, and the whole requirement without one |
| `Install.RequirementRange` | src/install.py:405-421 | a requirement without a space stores `*` |
| `Install.RequirementOneBound` | src/install.py:409-417 | `pkg (bound)` stores a range from that bound, or the bound itself when it does not parse |
| `Install.RequirementTwoBounds` | src/install.py:409-420 | `pkg (a,b)` stores a range from the two ordered bounds, or the first piece when either fails to parse |
| `Install.LaterRequirementWins` | src/install.py:404-421 | the last requirement naming a package decides its stored range |
| `Install.UnnamedPackageKept` | src/install.py:404-421 | a package no requirement names keeps its entry, or stays absent |
| `Install.AddRequirements` | src/install.py:404-421 | the stored names are the earlier ones plus the package of every requirement |
| `Install.AddEntry` | src/install.py:401-421 | one entry fails exactly when it is counted and has no `requires`, or an earlier one failed; otherwise no stored name is lost |
| `Install.CollectRequires` | src/install.py:399-421 | the parse fails exactly when some counted entry has no `requires` |
| `Install.CollectFailurePersists` | src/install.py:403 | once a missing `requires` has raised, later entries do not change the outcome |
| `Install.UncountedEntryIgnored` | src/install.py:402 | an entry with an `extra` or an `environment` contributes nothing, wherever it stands |
| `Install.MissingRequiresFails` | src/install.py:402-403 | a counted entry without `requires` makes the parse fail (KeyError) |
| `Install.StoreRequirements` | src/install.py:404-421 | the inner loop stores each requirement's range under its package, in order |
| `Install.ParseRequires` | src/install.py:365-423 | a missing or empty list gives the empty map; otherwise the entries are folded in order |
| `Install.Reduce` | src/install.py:483 | a single range resolves to itself |
| `Install.ReduceSnoc` | src/install.py:483 | one more range intersects into what the earlier ranges resolved to |
| `Install.DependencyGraph.constructor` | src/install.py:469-472 | a new graph has no names |
| `Install.DependencyGraph.Add` | src/install.py:474-477 | the parsed range is appended to that name's list only; on a parse failure the name is still entered, with its old or empty list |
| `Install.DependencyGraph.Resolve` | src/install.py:479-485 | exactly the graph's names, each mapped to the left fold of `intersect` over its ranges; None exactly when some list is empty |
| `Install.RecordInstall` | src/install.py:139-140 | with `save`, the dependencies gain the new package's range and nothing else changes; without `save` nothing changes; a missing or non-object entry fails |
| `Install.UninstallStep` | src/install.py:451-461 | once aborted nothing changes; otherwise the directory is gone afterwards; the configuration keeps its keys; without `save` it is untouched and nothing aborts |
| `Install.UninstallAll` | src/install.py:450-461 | directories are only removed, the configuration keeps its keys, without `save` it is untouched, and an aborted state stays as it is |
| `Install.AbortStops` | src/install.py:450-461 | after a TypeError nothing further happens |
| `Install.UninstallWithoutSave` | src/install.py:450-461 | without `save` every listed directory that exists is removed and the configuration is untouched |
| `Install.UninstallWithSave` | src/install.py:450-461 | with `save`, exactly the listed names whose directory existed lose their dependency entry |
| `Install.UninstallWithSaveNoDependencies` | src/install.py:455-461 | with `save` but no `dependencies` key, the KeyError is caught and only directories are removed |
| `Install.Uninstall` | src/install.py:445-462 | the loop's result and the saved configuration are those of the step-by-step definition; the project is saved unless a TypeError ended the loop |
| `Pypi.LastPieceOfJoin` | src/pypi.py:9 | the last of pieces joined by `/` is the text after the last `/` |
| `Pypi.LocalFilename` | src/pypi.py:9 | the name has no `/` or `#`; it is the text after the URL's last `/`, cut before its first `#`; a URL with neither character is its own name |

## Left out

- Network, git and wheels are left out because they are I/O: cloning and checkout, PyPI page fetches (including `find_max_version`'s `rstrip('.0')` loop), download URLs, streaming downloads, and wheel installation and metadata.
- Filesystem work is left out: `unstage`, `cleanup`, `rmdir`, `guess_src`, and the reading and writing of `pym.json`. Each is an effect on the disk. `Save` records what would be written, and `Load` takes the parsed file content (or its absence) as a parameter.
- The orchestration in `InstallCommand.run` is left out: the reference set, the staging directory, the resolution loop and messages. It is sequencing of I/O around the modelled operations.
- The terminal interface is left out: `cli.py`, `pym.py`, `PymConfigBuilder.query`'s prompts, and the import hook in `loader/pym.py`.
- The range classes `Comparator`, `VersionRange` and the other range types are not part of this model. Their parse, ordering, rendering and intersection are parameters.
- The module-level `match` stub (src/semver.py:2-3) is left out: it only returns None.
- `Version.__iter__` is left out: it uses undefined names (src/semver.py:17-21).
- `Spec.__eq__` is left out: it returns an undefined `false` (src/semver.py:73-79).
- Semver.Version.Specificity: the float multiplier takes only the values 1000, 100.0 and 10.0, so it is modelled with integers.
- Package.Build: values are copied. The one `dependencies` dictionary of `DEFAULT_CONFIG`, shared by every built configuration, is not modelled.
- Package.PymPackage.Load: a `pym.json` that is not a JSON object is not modelled (the merge would raise TypeError), and neither is malformed JSON.
- Install.FindInstaller: a None result is returned as is. What the caller then does with it (unpacking None raises TypeError) is not modelled.
- Install.RecordInstall: the stored range is a string. At src/install.py:140 the source stores `info.version_range`. When git installs the package, that is the `VersionRange` object set at src/install.py:111, which is not part of this model. When PyPI installs it, `PypiInstaller.install` has replaced it by the string `'^' + version` (src/install.py:312-316).
- Install.RecordInstall: the new package's name is a parameter; the KeyError that `new_package['name']` raises for a configuration without `name` is not modelled.
- Install.DependencyGraph.Resolve: the result is a map. The insertion order of Python's dictionary is not modelled.
- Install.Uninstall: package directories are identified by package name. The path built with `os.path.join` and the install location is not modelled.
- Install.ParseRequires: the wheel entries are records with optional fields. A present key holding JSON null is treated like a missing key, as `dict.get` does. A `wheel_requires` that is falsy without being a list (such as an empty dictionary) is not modelled.
- Json.Value: `JNum` holds only integers, so JSON floating-point numbers are left out. The core only tests values for truthiness, and a float is falsy exactly when it is zero, as an integer is.
