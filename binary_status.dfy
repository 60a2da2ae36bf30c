/** The install-status decision of the tutorial's binary section: whether the `now`
    command-line tool counts as installed. Every probe the component makes (the global
    package registry, the version endpoint, `now -v`, the filesystem) is an input value;
    what is left is a first-match chain of early returns. */
module BinaryStatus {
  import opened Semver

  datatype Option<T> = None | Some(value: T)

  /** One record of the global package registry. */
  datatype Package = Package(name: string, linked: bool)

  /** The registry query either throws or yields the installed global packages. */
  datatype RegistryQuery = RegistryFailed | Packages(list: seq<Package>)

  /** The remote "latest" lookup: it throws, resolves to nothing, or yields a version. */
  datatype RemoteLookup = LookupThrew | LookupEmpty | Latest(version: Version)

  /** Running the local binary with `-v`: the spawn throws or reports a version. */
  datatype LocalProbe = SpawnFailed | Reported(version: Version)

  /** Everything one evaluation learns from the outside world. */
  datatype Facts = Facts(
    registry: RegistryQuery,
    pathExists: bool,
    isSymlink: bool,
    remote: RemoteLookup,
    local: LocalProbe)

  /** The name the registry is searched for. */
  const CliName: string := "now"

  /** `i` is the position of the first package called `name`. */
  ghost predicate IsFirstNamed(pkgs: seq<Package>, i: int, name: string) {
    0 <= i < |pkgs| && pkgs[i].name == name &&
    forall j :: 0 <= j < i ==> pkgs[j].name != name
  }

  /** Array `find`: the first package called `name`, if any. */
  function Find(pkgs: seq<Package>, name: string): (r: Option<Package>)
    ensures r.None? <==> forall i :: 0 <= i < |pkgs| ==> pkgs[i].name != name
    ensures r.Some? ==> exists i :: IsFirstNamed(pkgs, i, name) && pkgs[i] == r.value
    ensures forall i :: IsFirstNamed(pkgs, i, name) ==> r == Some(pkgs[i])
  {
    if |pkgs| == 0 then None
    else if pkgs[0].name == name then
      assert IsFirstNamed(pkgs, 0, name);
      Some(pkgs[0])
    else
      var r := Find(pkgs[1..], name);
      assert forall i :: IsFirstNamed(pkgs, i, name) ==> IsFirstNamed(pkgs[1..], i - 1, name);
      assert forall i :: IsFirstNamed(pkgs[1..], i, name) ==> IsFirstNamed(pkgs, i + 1, name);
      r
  }

  /** `installedWithNPM`: the first registry entry called `now` exists and is not linked;
      a failed registry query counts as "no". */
  function InstalledWithNPM(registry: RegistryQuery): (r: bool)
    ensures registry.RegistryFailed? ==> !r
    ensures r <==> (registry.Packages? &&
      exists i :: IsFirstNamed(registry.list, i, CliName) && !registry.list[i].linked)
  {
    match registry
    case RegistryFailed => false
    case Packages(list) =>
      match Find(list, CliName)
      case None => false
      case Some(found) => !found.linked
  }

  /** `isOlderThanLatest`: `Some(true)` when the remote version is strictly newer than the
      local one, `Some(false)` when it is not, `None` (undefined) when a probe failed. */
  function IsOlderThanLatest(remote: RemoteLookup, local: LocalProbe): (r: Option<bool>)
    ensures r.None? <==> remote.LookupThrew? || remote.LookupEmpty? || local.SpawnFailed?
    ensures r == Some(true) <==>
      remote.Latest? && local.Reported? && Precedes(local.version, remote.version)
    ensures r == Some(false) <==>
      remote.Latest? && local.Reported? &&
      (Precedes(remote.version, local.version) || remote.version == local.version)
  {
    match remote
    case LookupThrew => None
    case LookupEmpty => None
    case Latest(remoteVersion) =>
      match local
      case SpawnFailed => None
      case Reported(localVersion) =>
        PrecedenceTotal(remoteVersion, localVersion);
        Some(Compare(remoteVersion, localVersion) == 1)
  }

  /** The local binary is known to be older than the latest release. */
  predicate KnownOutdated(f: Facts) {
    f.remote.Latest? && f.local.Reported? && Precedes(f.local.version, f.remote.version)
  }

  /** `binaryInstalled`: the ordered chain npm-installed, path exists, not a symlink,
      not known to be outdated. */
  function BinaryInstalled(f: Facts): (r: bool)
    ensures r <==> (InstalledWithNPM(f.registry) ||
      (f.pathExists && !f.isSymlink && !KnownOutdated(f)))
  {
    if InstalledWithNPM(f.registry) then true
    else if !f.pathExists then false
    else if f.isSymlink then false
    else if IsOlderThanLatest(f.remote, f.local) == Some(true) then false
    else true
  }

  /** A first `now` entry that is linked hides every later entry of that name. */
  lemma {:induction false} LinkedEntryShadowsLater(pre: seq<Package>, post: seq<Package>)
    requires forall j :: 0 <= j < |pre| ==> pre[j].name != CliName
    ensures !InstalledWithNPM(Packages(pre + [Package(CliName, true)] + post))
  {
    var list := pre + [Package(CliName, true)] + post;
    assert IsFirstNamed(list, |pre|, CliName);
    assert Find(list, CliName) == Some(list[|pre|]);
  }

  /** A registry without any `now` entry does not count as an npm install. */
  lemma NoEntryNotInstalled(list: seq<Package>)
    requires forall j :: 0 <= j < |list| ==> list[j].name != CliName
    ensures !InstalledWithNPM(Packages(list))
  {
  }

  /** An npm install wins whatever the filesystem and version probes say. */
  lemma NpmInstallOverrides(f: Facts, pathExists: bool, isSymlink: bool,
                            remote: RemoteLookup, local: LocalProbe)
    requires InstalledWithNPM(f.registry)
    ensures BinaryInstalled(f.(pathExists := pathExists, isSymlink := isSymlink,
                               remote := remote, local := local))
  {
  }

  /** Without an npm install, a missing path is "not installed". */
  lemma MissingPathNotInstalled(f: Facts)
    requires !InstalledWithNPM(f.registry) && !f.pathExists
    ensures !BinaryInstalled(f)
  {
  }

  /** Without an npm install, a symlink at the path is "not installed", and the version
      probes are never consulted: any other outcome of them gives the same answer. */
  lemma SymlinkNotInstalled(f: Facts, remote: RemoteLookup, local: LocalProbe)
    requires !InstalledWithNPM(f.registry) && f.pathExists && f.isSymlink
    ensures !BinaryInstalled(f)
    ensures BinaryInstalled(f.(remote := remote, local := local)) == BinaryInstalled(f)
  {
  }

  /** For a plain file, a failed version probe counts as installed. */
  lemma UnknownVersionCountsInstalled(f: Facts)
    requires !InstalledWithNPM(f.registry) && f.pathExists && !f.isSymlink
    requires IsOlderThanLatest(f.remote, f.local).None?
    ensures BinaryInstalled(f)
  {
  }

  /** For a plain file with both versions known, it is installed exactly when the
      latest release is not newer than the local binary. */
  lemma InstalledIffUpToDate(f: Facts, latest: Version, current: Version)
    requires !InstalledWithNPM(f.registry) && f.pathExists && !f.isSymlink
    requires f.remote == Latest(latest) && f.local == Reported(current)
    ensures BinaryInstalled(f) <==> (Precedes(latest, current) || latest == current)
  {
    PrecedenceTotal(latest, current);
  }
}
