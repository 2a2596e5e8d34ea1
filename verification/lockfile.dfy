/** The parts of the manifest and of the lockfile that decide what is installed. */
module Lockfiles {
  import opened Wrappers
  import opened PkgVerPeers
  import opened DependencyPaths
  import opened SnapshotReferences
  import PkgNames

  datatype DependencyGroup = Prod | Dev | Optional | Peer

  datatype Manifest = Manifest(
    dependencies: map<string, string>,
    devDependencies: map<string, string>,
    optionalDependencies: map<string, string>,
    peerDependencies: map<string, string>)
  {
    function Group(group: DependencyGroup): map<string, string> {
      match group
      case Prod => dependencies
      case Dev => devDependencies
      case Optional => optionalDependencies
      case Peer => peerDependencies
    }
  }

  datatype LockfileResolution =
    | TarballResolution(tarball: string, tarballIntegrity: Option<string>)
    | RegistryResolution(integrity: string)
    | DirectoryResolution(directory: string)
    | GitResolution(repo: string, commit: string)

  datatype PackageSnapshot = PackageSnapshot(
    resolution: LockfileResolution,
    dependencies: Option<map<PkgNames.PkgName, PackageSnapshotDependency>>,
    optionalDependencies: Option<map<string, string>>,
    dev: Option<bool>,
    optional: Option<bool>)

  datatype ResolvedDependencySpec = ResolvedDependencySpec(specifier: string, version: PkgVerPeer)

  type ResolvedDependencyMap = map<PkgNames.PkgName, ResolvedDependencySpec>

  datatype ProjectSnapshot = ProjectSnapshot(
    dependencies: Option<ResolvedDependencyMap>,
    optionalDependencies: Option<ResolvedDependencyMap>,
    devDependencies: Option<ResolvedDependencyMap>)
  {
    function GetMapByGroup(group: DependencyGroup): Option<ResolvedDependencyMap> {
      match group
      case Prod => dependencies
      case Optional => optionalDependencies
      case Dev => devDependencies
      case Peer => None
    }
  }

  datatype RootProjectSnapshot = Multi(importers: map<string, ProjectSnapshot>) | Single(project: ProjectSnapshot)

  type Packages = map<DependencyPath, PackageSnapshot>

  datatype Lockfile = Lockfile(projectSnapshot: RootProjectSnapshot, packages: Option<Packages>)

  function OrEmpty<K, V>(m: Option<map<K, V>>): map<K, V> {
    if m.Some? then m.value else map[]
  }
}
