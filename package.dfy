/**
 * Package references and project configuration: what a reference string
 * says about a package (PackageInfo), the default configuration of a new
 * project, and a project (PymPackage) whose configuration is a dictionary
 * read from and written back to its `pym.json`.
 */
module Package {
  import opened Wrappers
  import opened Strings
  import opened Json
  import Paths

  /**
   * `PackageInfo`: the reference as given, the source before the delimiter,
   * the version after it, and the package name derived from the source.
   * `versionRange` is the `version_range` entry, present only once an
   * installer has set it.
   */
  datatype PackageInfo = PackageInfo(
    reference: string,
    name: string,
    version: string,
    source: string,
    versionRange: Option<string>)
  {
    /**
     * `PackageInfo.parse`: split the reference at the first `delim`; the
     * name is the basename of the source with its extension removed.
     */
    static function Parse(reference: string, delim: string): (info: PackageInfo)
      requires delim != ""
      ensures info.reference == reference
      ensures info.versionRange == None
      ensures Contains(reference, delim) ==>
        info.source + delim + info.version == reference && !Contains(info.source, delim)
      ensures !Contains(reference, delim) ==> info.source == reference && info.version == ""
      ensures '/' !in info.name && info.name <= Paths.Basename(info.source)
    {
      var (source, _, version) := Partition(reference, delim);
      PartitionHeadClean(reference, delim);
      PackageInfo(reference, Paths.SplitExtRoot(Paths.Basename(source)), version, source, None)
    }
  }

  /** A reference `dir/stem.ext` without '@' is named by its stem. */
  lemma ParseNamesStem(dir: string, stem: string, ext: string)
    requires '@' !in dir && '@' !in stem && '@' !in ext
    requires '/' !in stem && '/' !in ext && '.' !in ext
    requires stem != "" && stem[0] != '.'
    ensures PackageInfo.Parse(dir + "/" + (stem + "." + ext), "@").name == stem
  {
    var reference := dir + "/" + (stem + "." + ext);
    assert '@' !in reference;
    ContainsChar(reference, '@');
    Paths.BasenameAfterSlash(dir, stem + "." + ext);
    Paths.SplitExtRootOf(stem, ext);
  }

  /** A git URL names the repository: 'https://github.com/tornadoweb/tornado.git' gives 'tornado'. */
  lemma ParseNamesRepository(reference: string)
    requires reference == "https://github.com/tornadoweb/tornado.git"
    ensures PackageInfo.Parse(reference, "@").name == "tornado"
  {
    var dir, stem, ext := "https://github.com/tornadoweb", "tornado", "git";
    assert reference == dir + "/" + (stem + "." + ext);
    ParseNamesStem(dir, stem, ext);
  }

  /** Only the first delimiter splits: the rest of the text, delimiters included, is the version. */
  lemma ParseSplitsAtFirstDelimiter(source: string, delim: string, version: string)
    requires delim != "" && delim[0] !in source
    ensures PackageInfo.Parse(source + delim + version, delim).source == source
    ensures PackageInfo.Parse(source + delim + version, delim).version == version
  {
    PartitionAt(source, delim, version);
  }

  // ---- Configuration defaults ----

  /** `DEFAULT_VALUES`: where packages are staged and installed, relative to the project (POSIX separator). */
  const DefaultValues: map<string, Value> := map[
    "staging_location" := JStr("pym_packages/.staging"),
    "install_location" := JStr("pym_packages")]

  /** `DEFAULT_CONFIG`: the keys of a new project's configuration and their defaults. */
  const DefaultConfig: map<string, Value> := map[
    "name" := JStr(""),
    "version" := JStr("0.1.0"),
    "description" := JStr(""),
    "src" := JStr("src"),
    "license" := JStr("MIT"),
    "dependencies" := JObj(map[])]

  /**
   * `PymConfigBuilder.build`: exactly the default configuration's keys, each
   * holding the supplied value when that is truthy and the default otherwise.
   */
  function Build(values: map<string, Value>): (config: map<string, Value>)
    ensures config.Keys == DefaultConfig.Keys
    ensures forall k :: k in DefaultConfig && k in values && Truthy(values[k]) ==> config[k] == values[k]
    ensures forall k :: k in DefaultConfig && (k !in values || !Truthy(values[k])) ==> config[k] == DefaultConfig[k]
  {
    map k | k in DefaultConfig :: if k in values && Truthy(values[k]) then values[k] else DefaultConfig[k]
  }

  /** Building an already built configuration changes nothing. */
  lemma BuildIdempotent(values: map<string, Value>)
    ensures Build(Build(values)) == Build(values)
  {
    var once := Build(values);
    forall k | k in DefaultConfig ensures Build(once)[k] == once[k] {
      if !Truthy(once[k]) {
        assert once[k] == DefaultConfig[k];
      }
    }
  }

  /** The version, source directory and licence of a built configuration are never empty. */
  lemma BuildFillsRequiredFields(values: map<string, Value>)
    ensures Truthy(Build(values)["version"])
    ensures Truthy(Build(values)["src"])
    ensures Truthy(Build(values)["license"])
  {
  }

  /** Without supplied values a new project gets exactly the defaults: version 0.1.0, sources in `src`, MIT, no dependencies. */
  lemma BuildWithoutValues()
    ensures Build(map[]) == DefaultConfig
    ensures Build(map[])["dependencies"] == JObj(map[])
  {
    assert Build(map[]).Keys == DefaultConfig.Keys;
  }

  /**
   * The merge in `PymPackage.load`: the file's keys over `DEFAULT_VALUES`, so
   * the staging and install locations are always present.
   */
  function WithDefaults(fileConfig: map<string, Value>): (config: map<string, Value>)
    ensures config.Keys == DefaultValues.Keys + fileConfig.Keys
    ensures forall k :: k in fileConfig ==> config[k] == fileConfig[k]
    ensures forall k :: k in DefaultValues && k !in fileConfig ==> config[k] == DefaultValues[k]
    ensures "staging_location" in config && "install_location" in config
  {
    DefaultValues + fileConfig
  }

  /** A `pym.json` holding `{}` loads with the default locations, `pym_packages/.staging` and `pym_packages`. */
  lemma EmptyFileGetsDefaultLocations()
    ensures WithDefaults(map[]) == DefaultValues
    ensures WithDefaults(map[])["install_location"] == JStr("pym_packages")
  {
  }

  /**
   * `PymPackage`: a project directory and its configuration dictionary.
   * `saved` is what the last `save` wrote to `pym.json` (None before any).
   */
  class PymPackage {
    var location: string
    var config: map<string, Value>
    var saved: Option<map<string, Value>>

    constructor (location: string, config: map<string, Value>)
      ensures this.location == location && this.config == config && saved == None
    {
      this.location := location;
      this.config := config;
      saved := None;
    }

    /**
     * `PymPackage.load` given the parsed content of `pym.json`; None for a
     * missing file (PymPackageException). The result holds the merged configuration.
     */
    static method Load(location: string, file: Option<map<string, Value>>) returns (p: Option<PymPackage>)
      ensures file.None? <==> p.None?
      ensures p.Some? ==> fresh(p.value) && p.value.location == location && p.value.saved == None
      ensures p.Some? ==> p.value.config == WithDefaults(file.value)
      ensures p.Some? ==> p.value.Get("staging_location").Some? && p.value.Get("install_location").Some?
    {
      if file.None? {
        return None;
      }
      var package := new PymPackage(location, WithDefaults(file.value));
      return Some(package);
    }

    /** `PymPackage.__getitem__`; None for a missing key (KeyError). */
    function Get(item: string): (r: Option<Value>)
      reads this
      ensures r.Some? <==> item in config
      ensures r.Some? ==> r.value == config[item]
    {
      if item in config then Some(config[item]) else None
    }

    /** `PymPackage.__setitem__`: afterwards the key reads back the value and no other key changes. */
    method Set(key: string, value: Value)
      modifies this
      ensures config == old(config)[key := value]
      ensures Get(key) == Some(value)
      ensures forall k :: k != key ==> Get(k) == old(Get(k))
      ensures location == old(location) && saved == old(saved)
    {
      config := config[key := value];
    }

    /** `PymPackage.save`: the file now holds the current configuration. */
    method Save()
      modifies this
      ensures saved == Some(config)
      ensures config == old(config) && location == old(location)
    {
      saved := Some(config);
    }
  }
}
