# Verification of the pacquet package manager's core

pacquet decides which packages a project needs, downloads them once, keeps them in a content-addressed store, and
describes the outcome in a pnpm lockfile (format 6.0). This project models the parts of it that decide *what* is
installed and *whether the store can be trusted*, and proves that they do what they are for.

The modules ending in `ByField`, `ByKey` and `ByPath` say the main results once more in terms of fields, keys and paths
only, without the functions that the others share with the methods they describe.

`dafny verify dfyconfig.toml` checks everything.

## What is modelled

* **Lockfile grammar** (`text`, `pkg_name`, `pkg_ver_peer`, `semver`, `pkg_name_suffix`, `dependency_path`,
  `snapshot_reference`, `virtual_store_name`). The nested parsers and printers of lockfile keys, the untagged choice
  between the two reference syntaxes, and the single-pass virtual store name next to the four `replace` calls it took
  the place of. Round trips are equivalences: a value survives printing and parsing exactly when parsing can produce it.
* **Dependency closure** (`graph`, `registry`, `lockfile`, `dependency_context`, `lockfile_walk`, `generate_lockfile`,
  `generation`, `generated_lockfile`, `generated_by_field`, `generation_holds`, `behind_optional`, `optional_flags`,
  `package_index`, `fetch`, `fetch_by_key`, `fetch_generated`, `store_names`, `install_without_lockfile`, `store_add`,
  `one_closure`; and, as registries of a few packages that show what can happen, `small_registries`, `listed_twice`,
  `colliding_names`, `order_shows`). The registry is a finite graph, cycles allowed. `LockfileBuilder` and `StoreAdder`
  are classes with the source's recursion; the first is proved against a function of the orders in which dependencies are
  listed, about which the rest is proved. `collect_selected_packages` is the worklist loop; the installer without a
  lockfile is a step system in which any task may run next. Elsewhere iteration over a hash map is a choice of any
  listing.
* **Lockfile reuse** (`lockfile_match`).
* **Tarball cache protocol** (`mem_cache_cooperative`, `mem_cache_interleaved`). Once with the code between two awaits
  as one step, once with every interleaving of single accesses.
* **Store** (`store_layout`, `plain_codec`, `store_contents`, `store_by_path`, `store_dir`, `archive_names`, `tarball`,
  `store_runs`). The disk is a map from paths to contents. Pruning, status and unpacking are methods with the source's
  loops, proved against functions on the disk.

## Findings

* A key is read back as the same reference except when its registry reads as a version followed by an opening
  parenthesis (`SnapshotReferences.DecodePrint`). The lockfile and the fetch command disagree about a text exactly when
  it is a version whose peer text holds a package specifier behind its first `/`
  (`SnapshotReferences.OrdersAgreeExactly`); scoped peers that have peers of their own are of that kind
  (`SnapshotReferences.NestedPeerIsReadBothWays`), unnested peers never are (`SnapshotReferences.AtMostOneParser`).
* Two packages whose names differ only by an exchange of `/` and `+` share a store name. The installer fetches both and
  expands the dependencies of exactly one (`CollidingNames.InstallerExpandsOne`); the store command leaves one of them
  out (`CollidingNames.StoreHoldsOne`). Both are complete exactly when no two reachable packages share a name.
* In the cache, a caller that has found its URL keeps the concurrent map's shard guard across its awaits. When all
  callers are polled by one thread this can block the thread exactly when a shard holds a URL wanted twice and another
  URL (`MemCacheCooperative.BlocksExactlyOnConflict`); all complete runs serve every caller exactly when no shard does
  (`MemCacheCooperative.ServesAllExactly`).
* With threads, a wake-up can be lost: `notify_waiters` may come between reading `InProgress` and starting to wait. A
  caller can be stranded in this way exactly when some URL is wanted twice
  (`MemCacheInterleaved.StrandsExactlyOnRepeat`), and then for good (`MemCacheInterleaved.StrandedForGood`). What is
  returned is sound all the same (`MemCacheInterleaved.RunsAreSound`). In this repository each command polls its
  callers with `join_all` (crates/package-manager/src/create_virtual_store.rs:38-54,
  crates/package-manager/src/install_without_lockfile.rs:60-91), which is the model of the previous point; there no
  wake-up is lost (`MemCacheCooperative.OneLeaderAndNoLostWaiter`).
* A leader that fails returns without notifying and leaves its cell in progress. A task that waits for it then waits for
  good (`MemCacheInterleaved.OrphanedForGood`), which can happen exactly when some URL is wanted twice
  (`MemCacheInterleaved.OrphansExactlyOnRepeat`).
* A lockfile snapshot has one entry for each dependency name, so a name that a package lists twice at ranges that
  resolve differently has both versions on file but only one edge. Fetching follows the edges, and selects every key
  exactly when the winning ranges lead to all that is needed (`FetchGenerated.EverythingIsFetchedExactly`); a registry
  in which they do not is `ListedTwice.KeyIsLeftOut`.
* The optional flags of a lockfile can depend on the order in which a package's dependencies are listed, because a
  revisit does not walk on: in the registry of `OrderShows.OrderDecides` that order alone decides one of them, and
  nothing but the optional flags ever depends on orders (`GenerationHolds.OrdersShowInFlagsOnly`). Production comes
  first and is bounded by itself; the flags are exact on every order when all that firm edges lead to has support from
  a package that its pass cannot walk as optional (`OptionalFlags.OptionalIsExact`). What the optional pass meets first
  stays optional, and so does what only such packages need (`OptionalFlags.LateSupportIsLost`).
* A prune among downloads does no harm, then or later, exactly when each download has its index or leaves behind
  nothing that its index will list, that no index lists yet and that it does not write again
  (`StoreRuns.PruneIsSafeExactly`). The first entry of a first download already is at risk
  (`StoreRuns.FirstEntryIsAtRisk`), so the safety of whole runs is proved for prunes that wait.

## Assumptions

* `Semver` stands for the node-semver library: text in, canonical text of the version out. It is asked for accepting
  only text without `( ) @ /` (sections 2, 9 and 10 of Semantic Versioning 2.0.0) and for reading its own canonical text
  as it is; `StrictSemver` shows that this can be met. Versions are compared by canonical text.
* `Registry.pick` stands for ranges and tags. A registry files each version under the name and version it carries, and
  published names, versions and integrities can be read, which the source takes for granted with `expect`
  (crates/package-manager/src/generate_lockfile.rs:98, 134-136, 146, 210).
* `Codec` stands for hashing, integrity texts and JSON: hashes and integrities are hexadecimal with at least two
  digits, an integrity text leads back to its hash, and an index file reads back as what was written; `PlainCodec` shows
  that this can be met. Nothing is assumed about collisions.
* The installer's step out of a fetch stands for metadata and a tarball that have arrived. That a tarball does arrive is
  the business of the cache, where a thread can block, so the installer's progress is progress between fetches.
* The concurrent map is taken to lock by shards: an entry that has been found holds a read guard until it is dropped,
  and an insertion waits for all guards of its shard. Which URLs share a shard is a parameter.
* Only `ensure_file`'s creating a file if it is absent is modelled, as one step.

## Model

| member | source | states |
|---|---|---|
| PkgNames.PrintParse | crates/lockfile/src/pkg_name.rs:32-82 | an accepted name prints as the text it was read from, and is a value parsing can produce |
| PkgNames.ParsePrint | crates/lockfile/src/pkg_name.rs:36-48 | parsing the printed name gives the name back iff its scope has no `/` and, without a scope, it is neither empty nor starts with `@` |
| PkgNames.PrintInjective | crates/lockfile/src/pkg_name.rs:74-82 | distinct parsed names print differently |
| PkgNames.ParseExactly | crates/lockfile/src/pkg_name.rs:36-49 | which text reads as which name, and which of the two errors every other text gets |
| PkgVerPeers.ParseShape | crates/lockfile/src/pkg_ver_peer.rs:47-66 | an accepted text is a spelling of the version followed by the peer text, which is kept unchanged |
| PkgVerPeers.ParsePrint | crates/lockfile/src/pkg_ver_peer.rs:13-66 | a version with peers survives printing and parsing iff parsing can produce it |
| PkgVerPeers.ParseExactly | crates/lockfile/src/pkg_ver_peer.rs:47-66 | the parenthesis error comes iff the text ends with `)` and holds no `(`, or does not and holds either; any other text is a spelling, with a text in parentheses behind it or not, and is read iff the library reads the spelling |
| StrictSemver.StrictIsSemverLibrary | crates/lockfile/src/pkg_ver_peer.rs:55-63 | a parser of canonical Semantic Versioning text meets everything asked of the version library |
| PkgNameSuffixes.SplitNameAt | crates/lockfile/src/pkg_name_suffix.rs:53-63 | the separating `@` is found again, whether or not the name has a scope |
| PkgNameSuffixes.ParseShape | crates/lockfile/src/pkg_name_suffix.rs:48-74 | an accepted specifier is the printed name, `@`, a spelling of the version and the peers |
| PkgNameSuffixes.ParsePrint | crates/lockfile/src/pkg_name_suffix.rs:12-74 | a specifier survives printing and parsing iff parsing can produce it |
| PkgNameSuffixes.NoSeparator | crates/lockfile/src/pkg_name_suffix.rs:50-63 | text without an `@` behind its first character lacks a suffix, and the empty text is empty |
| PkgNameSuffixes.ParseExactly | crates/lockfile/src/pkg_name_suffix.rs:50-74 | any other text is taken apart at that `@`: blank names, a missing suffix, the suffix and the name are looked at in this order, each with its own error |
| DependencyPaths.PrintParse | crates/lockfile/src/dependency_path.rs:36-47 | printing an accepted key gives the text back iff the version in it was spelled canonically |
| DependencyPaths.ParsePrint | crates/lockfile/src/dependency_path.rs:20-47 | a key survives printing and parsing iff parsing can produce it |
| DependencyPaths.ReparseIsStable | crates/lockfile/src/dependency_path.rs:20-60 | reading, printing and reading a key again gives the same key |
| DependencyPaths.PrintInjective | crates/package-manager/src/fetch.rs:108-116 | distinct parsed keys never share an entry of the map from printed keys |
| DependencyPaths.ParseExactly | crates/lockfile/src/dependency_path.rs:36-47 | text without `/` is invalid; otherwise what stands before the first `/` is the registry, none if it is empty, and the rest is read as a specifier |
| SnapshotReferences.PathAcceptedAsVersion | crates/lockfile/src/package_snapshot_dependency.rs:6-11 | the version parser takes a printed key iff its registry has a readable version before a `(` and the key has peers |
| SnapshotReferences.DecodePrint | crates/lockfile/src/package_snapshot_dependency.rs:6-11 | a printed reference decodes to the same variant and value iff it is not such a key; registries without `(` are always safe |
| SnapshotReferences.PathInPeer | crates/lockfile/src/dependency_path.rs:36-47 | a version followed by peer text reads as a key iff a package specifier can be read behind the first `/` of the peer text, and which key |
| SnapshotReferences.OrdersAgreeExactly | crates/package-manager/src/fetch.rs:162-183 | on any text the two reading orders agree iff it is not a version whose peer text holds a package specifier behind its first `/` |
| SnapshotReferences.AtMostOneParser | crates/package-manager/src/fetch.rs:162-183 | a version with unnested peers is not a key, so both reading orders agree |
| SnapshotReferences.NestedPeerIsReadBothWays | crates/package-manager/src/fetch.rs:162-183 | a nested scoped peer is such a text, and these are the two different answers |
| VirtualStoreNames.PushVirtualStorePeerSuffix | crates/lockfile/src/pkg_name_ver_peer.rs:51-60 | the character loop appends the peer text flattened character by character |
| VirtualStoreNames.PushVirtualStoreName | crates/lockfile/src/pkg_name_ver_peer.rs:41-49 | appends the name with `+` between scope and bare name |
| VirtualStoreNames.ToVirtualStoreNameFromParts | crates/lockfile/src/pkg_name_ver_peer.rs:21-32 | the one-pass builder returns the legacy form iff neither scope nor bare name holds `/`, `(` or `)` |
| VirtualStoreNames.LegacyIsFlatten | tasks/micro-benchmark/src/main.rs:57-64 | the four replacements, on any text, amount to one replacement per character |
| VirtualStoreNames.FastEqualsLegacy | tasks/micro-benchmark/src/main.rs:57-64 | one-pass and legacy names agree iff the name holds none of `/ ( )`, for all peer texts |
| VirtualStoreNames.FastEqualsRegistry | crates/registry/src/package_version.rs:55-57 | without peers the name equals the registry's own iff the bare name holds no `/` |
| VirtualStoreNames.StoreNameInjective | crates/lockfile/src/pkg_name_ver_peer.rs:21-49 | names whose parts hold no `+`, `@` or `/` and plain versions can be read back from a store name |
| Graphs.ReachStaysInside | crates/package-manager/src/generate_lockfile.rs:161-227 | any set with the roots that is closed under edges holds everything reachable |
| Registries.List | crates/registry/src/package_version.rs:67-79 | iterating over a hash map yields each entry once, in some order |
| Registries.Dependencies | crates/registry/src/package_version.rs:63-80 | dependencies come first, then optional ones, then peers if asked for, each in some order |
| Registries.ListingIsOrderFree | crates/registry/src/package_version.rs:63-80 | what is listed, and which range wins for a name, does not depend on that order |
| Registries.KeyInjective | crates/package-manager/src/generate_lockfile.rs:133-142 | two published versions with one lockfile key are the same version |
| GeneratedByField.EdgeIsLead | crates/package-manager/src/generate_lockfile.rs:200-217 | the graph has an edge iff one of the fields of dependencies, with that of the peers if they are installed, has a range for which the registry picks that version; firm edges leave out names listed as optional |
| GeneratedByField.ReachIsByField | crates/package-manager/src/generate_lockfile.rs:27-70 | reachable versions, those of production and optional dependencies, and those along firm edges, as the versions that no set closed under picking leaves out |
| LockfileWalk.MergeKeeps | crates/package-manager/src/generate_lockfile.rs:156-172 | merging flags on a revisit keeps all that is known of the packages walked, finished or not |
| LockfileWalk.PlaceholderKeeps | crates/package-manager/src/generate_lockfile.rs:174-198 | filing the placeholder before descending keeps it too |
| LockfileWalk.FinishKeeps | crates/package-manager/src/generate_lockfile.rs:219-224 | filling in the edges settles the package and keeps it too |
| GenerateLockfile.LockfileBuilder.constructor | crates/package-manager/src/generate_lockfile.rs:37-43 | the builder starts with no packages |
| GenerateLockfile.LockfileBuilder.BuildPackageSnapshot | crates/package-manager/src/generate_lockfile.rs:161-227 | terminates on cyclic graphs, and leaves exactly the packages that the walk of the package has, in the orders in which dependencies are listed, or returns its error |
| GenerateLockfile.LockfileBuilder.BuildDependency | crates/package-manager/src/generate_lockfile.rs:200-217 | one turn of the loop takes one entry off the walk, or returns its error |
| GenerateLockfile.LockfileBuilder.BuildRootGroup | crates/package-manager/src/generate_lockfile.rs:82-114 | the packages and the recorded direct dependencies are those of the group's pass |
| GenerateLockfile.Run | crates/package-manager/src/generate_lockfile.rs:27-70 | returns what the generating function has for these orders; succeeds iff every request of the manifest and of everything reachable resolves, and then the lockfile is a generated one |
| GenerationHolds.WalkHolds | crates/package-manager/src/generate_lockfile.rs:161-227 | from any state of a walk, the walk of a package completes what it starts, merges flags exactly, takes nothing back, and fails only over a reachable request that cannot be met |
| GenerationHolds.EntriesHold | crates/package-manager/src/generate_lockfile.rs:200-217 | so does the loop over its dependencies, from any of them on |
| GenerationHolds.RootsHold | crates/package-manager/src/generate_lockfile.rs:92-111 | the loop over direct dependencies records each with its range and version and leaves nothing in progress |
| GenerationHolds.GroupHolds | crates/package-manager/src/generate_lockfile.rs:82-114 | one pass |
| GenerationHolds.GenerateHolds | crates/package-manager/src/generate_lockfile.rs:27-70 | whatever the orders, generation succeeds iff every request can be met, and its result is a generated lockfile |
| GenerationHolds.SomeOrders | crates/registry/src/package_version.rs:63-80 | every manifest and registry have orders of listing |
| GenerationHolds.OrdersShowInFlagsOnly | crates/package-manager/src/generate_lockfile.rs:27-70 | for any two orders the outcome is the same, and so is the lockfile but for its optional flags |
| GeneratedLockfiles.AtRestIsReach | crates/package-manager/src/generate_lockfile.rs:161-227 | between groups, what has been walked is exactly what the roots so far reach |
| GeneratedLockfiles.FinalFiles | crates/package-manager/src/generate_lockfile.rs:82-114 | the keys are those of the reachable versions, with all their edges on file |
| GeneratedLockfiles.FinalDev | crates/package-manager/src/generate_lockfile.rs:45-51 | `dev` is true iff no production or optional dependency leads to the package, because of the order of the passes |
| GeneratedLockfiles.StartsInProd | crates/package-manager/src/generate_lockfile.rs:45-46 | what the production pass meets it walks as optional only behind something optional of that pass, and as non-optional only along its firm edges |
| GeneratedLockfiles.StartsInOptional | crates/package-manager/src/generate_lockfile.rs:47-49 | what only the optional pass meets first is always walked as optional |
| GeneratedLockfiles.StartsInDev | crates/package-manager/src/generate_lockfile.rs:50-51 | what only the development pass meets is bounded like production, by development alone |
| GeneratedLockfiles.FinalOptional | crates/package-manager/src/generate_lockfile.rs:156-216 | a non-optional package has a path of firm edges from a production or development root; the flag is false iff it was asked for so or has a firm edge from a package first walked as non-optional; and the pass in which a package is first met bounds how it is walked then |
| BehindOptional.ChildBehind | crates/package-manager/src/generate_lockfile.rs:203-216 | a dependency is walked as optional only behind an optional dependency of the manifest or of a needed package |
| OptionalFlags.FlagsOf | crates/package-manager/src/generate_lockfile.rs:45-51 | pass by pass: firm support from a package that no order walks as optional first makes the flag false, and a false flag needs firm support from a package that some order may walk as non-optional first |
| OptionalFlags.OptionalIsDetermined | crates/package-manager/src/generate_lockfile.rs:156-216 | where these two kinds of support agree, the flags are a function of the manifest and the registry |
| OptionalFlags.OptionalIsExact | crates/package-manager/src/generate_lockfile.rs:156-216 | where all that firm edges lead to has the first kind, a package is marked optional iff no path of firm edges leads to it |
| OptionalFlags.LateSupportIsLost | crates/package-manager/src/generate_lockfile.rs:168-172 | a package is marked optional on every order if whatever needs it firmly is first met in the optional pass, even if development leads to it along firm edges, or in another pass that leads to it along optional edges only |
| OptionalFlags.NothingIsOptional | crates/package-manager/src/generate_lockfile.rs:156-216 | with nothing optional in the manifest or among the needed packages no package is marked optional |
| OrderShows.OrderDecides | crates/package-manager/src/generate_lockfile.rs:161-227 | in a registry of four packages, whatever the orders, the flag of the fourth is true iff the first lists the package with the optional edge first |
| OrderShows.FlagHangsOnOrder | crates/package-manager/src/generate_lockfile.rs:161-227 | both listings are possible, and the lockfiles generated with them differ in that flag |
| GeneratedLockfiles.Generated | crates/package-manager/src/generate_lockfile.rs:45-69 | three passes in the order production, optional, development give a lockfile with all of these |
| GeneratedLockfiles.GenerationIsOrderFree | crates/package-manager/src/generate_lockfile.rs:27-70 | two lockfiles generated from the same inputs agree on everything but the optional flags |
| GeneratedByField.KeysByField | crates/package-manager/src/generate_lockfile.rs:133-142 | the keys are, without registry and peers, the names and versions of exactly those versions |
| GeneratedByField.ResolutionByField | crates/package-manager/src/generate_lockfile.rs:144-154 | a resolution holds the tarball URL iff the setting asks for it, and the integrity in either case |
| GeneratedByField.EdgesByField | crates/package-manager/src/generate_lockfile.rs:200-223 | a snapshot holds each name once, at the version picked for the range of the peers if they count, else of the optional, else of the other dependencies; nothing is listed as optional, and no empty map is written |
| GeneratedByField.FlagsByField | crates/package-manager/src/generate_lockfile.rs:45-51 | `dev` is true iff production and optional dependencies can do without the package; what is asked for as non-optional is not marked optional, and what is not marked so cannot be left out along firm edges |
| GeneratedByField.OptionalByField | crates/package-manager/src/generate_lockfile.rs:203-216 | what is marked optional is in every set that holds what the manifest or a needed version lists as optional and what that leads to |
| GeneratedByField.FirmByField | crates/package-manager/src/generate_lockfile.rs:203-216 | and what a needed version outside such a set needs without listing it as optional is not marked optional |
| GeneratedByField.ProjectByField | crates/package-manager/src/generate_lockfile.rs:53-69 | each field of the lockfile records, name by name, range and version of the field of that name of the manifest if its group is enabled, and nothing otherwise |
| PackageIndexes.NewIndex | crates/package-manager/src/fetch.rs:106-118 | both maps hold exactly the keys, each once, whatever order they come in |
| PackageIndexes.LookupIsLinearScan | crates/package-manager/src/fetch.rs:120-131 | a lookup finds a key iff a scan of all keys would, and the one in the requested registry if there is one |
| PackageIndexes.PrintedKeyIsFound | crates/package-manager/src/fetch.rs:156-164 | an optional dependency given by a printed key is looked up as that key |
| Fetch.PushRequired | crates/package-manager/src/fetch.rs:229-234 | pushes exactly what the required dependencies resolve to, or names one that resolves to nothing |
| Fetch.PushOptional | crates/package-manager/src/fetch.rs:236-243 | the same for optional dependencies, with the error of the step that failed and no other |
| Fetch.RootDependencyPaths | crates/package-manager/src/fetch.rs:249-263 | all direct dependencies of the groups asked for, or one that resolves to nothing |
| Fetch.AllRootDependencyPaths | crates/package-manager/src/fetch.rs:192-204 | the same over all projects of a workspace |
| Fetch.CollectSelectedPackages | crates/package-manager/src/fetch.rs:186-247 | terminates on every lockfile; succeeds iff all roots and all references of reachable snapshots resolve to present keys and none is Git; then selects, once each, the reachable keys from a registry or tarball; every error names a real fault |
| Fetch.PushKeeps | crates/package-manager/src/fetch.rs:229-243 | once its references are pushed the package is accounted for |
| Fetch.WalkDone | crates/package-manager/src/fetch.rs:208-246 | with an empty stack the visited set is exactly the reachable set |
| FetchByKey.Select | crates/package-manager/src/fetch.rs:62-72 | from a whole lockfile: what is selected follows from its keys and fields alone, each dependency being answered by the key of the registry that asks if there is one, and every error names a fault of something that cannot be left out |
| FetchByKey.RequiredIsAnswered | crates/package-manager/src/fetch.rs:141-157 | a version is looked up in the registry of the package that lists it, a key stands for itself, and a lookup fails iff no key has that name and version |
| FetchByKey.OptionalIsAnswered | crates/package-manager/src/fetch.rs:159-187 | a text that reads as a key stands for the key that prints so, any other for a version of the name in the same registry; unreadable ones and missing ones get different errors |
| FetchByKey.WalkIsByKey | crates/package-manager/src/fetch.rs:190-247 | a successful walk reaches a set of keys that answers all direct dependencies and all that its own keys list, and holds none that can be left out |
| FetchByKey.JustifiedIsFault | crates/package-manager/src/fetch.rs:190-247 | what the walk reports is so of a key that no closed set leaves out |
| FetchGenerated.EdgesNameKeys | crates/package-manager/src/generate_lockfile.rs:200-223 | every edge stored in a snapshot of a generated lockfile names a key of `packages` |
| FetchGenerated.TargetsAreWinners | crates/package-manager/src/generate_lockfile.rs:200-223 | a snapshot refers to exactly the versions that the winning ranges of the package resolve to |
| FetchGenerated.WalkReachesWinners | crates/package-manager/src/fetch.rs:208-244 | the walk over the lockfile reaches exactly the keys of the versions reached in the registry along winning ranges |
| FetchGenerated.GeneratedCanBeFetched | crates/package-manager/src/fetch.rs:62-72 | a generated lockfile can be fetched for any choice of groups, and what is selected is determined by the registry |
| FetchGenerated.EverythingIsFetchedExactly | crates/package-manager/src/fetch.rs:62-72 | for any groups, every key is selected iff the winning ranges of the chosen groups lead to all that is needed |
| FetchGenerated.EverythingIsFetched | crates/package-manager/src/fetch.rs:62-72 | so it is with all enabled groups when no package resolves a name twice |
| ListedTwice.CanBeGenerated | crates/package-manager/src/generate_lockfile.rs:200-217 | a registry with a package that lists a name twice, from which a lockfile can be generated |
| ListedTwice.KeyIsLeftOut | crates/package-manager/src/fetch.rs:62-72 | for that registry one version is on file and not selected, whatever the groups |
| LockfileMatch.Specifiers | crates/package-manager/src/install.rs:48-56 | the map by printed names holds each recorded range and no other name |
| LockfileMatch.GroupMatchIsEquality | crates/package-manager/src/install.rs:58-61 | comparing sizes and looking up one side is equality of the two maps |
| LockfileMatch.MatchIsEquality | crates/package-manager/src/install.rs:37-63 | the check holds iff the lockfile is of one project and the maps of each checked group are equal |
| LockfileMatch.MatchIsByField | crates/package-manager/src/install.rs:37-63 | field by field: production, optional and development dependencies are compared with what is on record under the same name, and peers have to be absent |
| LockfileMatch.GeneratedMatches | crates/package-manager/src/install.rs:37-63 | a lockfile just generated is accepted iff each checked group was generated or has no entries |
| StoreNames.PlainStoreNames | crates/registry/src/package_version.rs:55-57 | with plain names two versions never share a store name |
| StoreNames.PlainNamesTellApart | crates/registry/src/package_version.rs:55-57 | so no two reachable versions do |
| StoreNames.PlusNamesCollide | crates/registry/src/package_version.rs:55-57 | a concrete family of distinct names with one store name |
| CollidingNames.PlusAndSlashCollide | crates/registry/src/package_version.rs:55-57 | published packages of such names, for any parts without `/` |
| CollidingNames.InstallerExpandsOne | crates/package-manager/src/install_without_lockfile.rs:104-151 | with two such packages every finished interleaving of the installer has expanded exactly one |
| CollidingNames.StoreHoldsOne | crates/package-manager/src/store_add.rs:89-146 | and the store command ends with exactly one in the store |
| StoreNames.StoreNameOfKey | crates/lockfile/src/pkg_name_ver_peer.rs:16-32 | the store name of a version is the directory name of its lockfile key |
| InstallWithoutLockfile.RunKeeps | crates/package-manager/src/install_without_lockfile.rs:60-151 | in every state of every interleaving each package is expanded at most once, only reachable ones are, and no request is lost |
| InstallWithoutLockfile.QuietIsReachable | crates/package-manager/src/install_without_lockfile.rs:60-151 | when nothing is left to do the expanded packages are exactly the reachable ones iff no two of those share a store name |
| InstallWithoutLockfile.PanicHasReason | crates/package-manager/src/install_without_lockfile.rs:142-144 | a run panics only over a request that cannot be met, made by the manifest or something reachable |
| InstallWithoutLockfile.BusyCanStep | crates/package-manager/src/install_without_lockfile.rs:129-148 | while there are tasks and no panic, some step is possible, given that fetches return |
| InstallWithoutLockfile.CompletesExactly | crates/package-manager/src/install_without_lockfile.rs:60-151 | when store names tell packages apart, a run that can go no further has expanded exactly the reachable packages iff every request of the manifest and of all it leads to can be met |
| InstallWithoutLockfile.RunsAreFinite | crates/package-manager/src/install_without_lockfile.rs:115-148 | no interleaving is longer than a bound fixed by the registry and the manifest, cycles included |
| StoreAdd.StoreAdder.constructor | crates/package-manager/src/store_add.rs:43-49 | nothing is taken at the start |
| StoreAdd.StoreAdder.ResolveDependencies | crates/package-manager/src/store_add.rs:119-139 | all dependencies are resolved, or one that cannot be is named, before any is stored |
| StoreAdd.StoreAdder.StorePackageAndDependencies | crates/package-manager/src/store_add.rs:89-146 | terminates on cycles; on success the package's name is taken and everything entered on the way is complete |
| StoreAdd.Run | crates/package-manager/src/store_add.rs:33-77 | on success every root and all its needs are in under their store names, each with its tarball; a failure names a reachable cause; when store names tell packages apart it succeeds iff every request that is made can be met and every tarball can be had |
| StoreAdd.FilledIsReachable | crates/package-manager/src/store_add.rs:89-146 | what is stored is exactly what is reachable iff no two reachable versions share a store name |
| OneClosure.SamePackages | crates/package-manager/src/install_without_lockfile.rs:60-151 | generated lockfile, installer under any interleaving and store command end with the same packages under the same names |
| MemCacheCooperative.OneLeaderAndNoLostWaiter | crates/tarball/src/lib.rs:162-207 | in every state a URL has at most one leader, no waiter is parked on an available cell, and the `unreachable!` is not reached |
| MemCacheCooperative.BlocksExactlyOnConflict | crates/tarball/src/lib.rs:168-189 | the thread can block iff some shard holds a URL wanted twice and another URL |
| MemCacheCooperative.NeverBlocked | crates/tarball/src/lib.rs:168-189 | without such a shard no run blocks |
| MemCacheCooperative.ConflictBlocks | crates/tarball/src/lib.rs:168-189 | with such a shard three polls block the thread for good, no leader having failed |
| MemCacheCooperative.NewcomerBlocksExactly | crates/tarball/src/lib.rs:168-187 | the first to want a URL blocks iff another task has found a URL of that shard and not returned, whichever of its awaits it is at |
| MemCacheCooperative.FinalRunServesAll | crates/tarball/src/lib.rs:162-207 | a run that can go no further, with no failed leader, has given all callers of a URL one map iff it is not blocked |
| MemCacheCooperative.ServesAllExactly | crates/tarball/src/lib.rs:162-207 | all runs that can go no further without a failed leader serve every caller alike iff no shard holds a URL wanted twice and another URL |
| MemCacheCooperative.EveryoneCanBeServed | crates/tarball/src/lib.rs:162-207 | whatever the shards and the maps of the URLs, some run serves every caller with the map of its URL |
| MemCacheCooperative.RunsAreFinite | crates/tarball/src/lib.rs:162-207 | every run comes to an end |
| MemCacheInterleaved.RunsAreSound | crates/tarball/src/lib.rs:168-205 | under every interleaving, racing inserts included, the `unreachable!` is not reached and every returned map was produced by a leader of that URL |
| MemCacheInterleaved.CellsSettleOnce | crates/tarball/src/lib.rs:202-203 | a cell becomes available at most once and never changes afterwards |
| MemCacheInterleaved.WakeUpCanBeLost | crates/tarball/src/lib.rs:168-177 | among any URLs, for any two tasks of one URL, a run that strands the second on an available cell whose leader has returned |
| MemCacheInterleaved.WaiterCanBeServed | crates/tarball/src/lib.rs:168-205 | a task that begins to wait in time is woken: for any two tasks of one URL a run in which the second waits and both end with the leader's map |
| MemCacheInterleaved.LateTaskCanBeServed | crates/tarball/src/lib.rs:168-175 | and one that comes after the leader has returned takes the map in two accesses, without waiting |
| MemCacheInterleaved.NobodyWaits | crates/tarball/src/lib.rs:168-177 | when no URL is wanted twice no task ever finds another's cell or waits on it |
| MemCacheInterleaved.StrandsExactlyOnRepeat | crates/tarball/src/lib.rs:168-205 | some run strands a task, or parks one on an available cell, iff some URL is wanted twice |
| MemCacheInterleaved.StrandedForGood | crates/tarball/src/lib.rs:168-205 | a stranded task stays so in every continuation |
| MemCacheInterleaved.OrphansExactlyOnRepeat | crates/tarball/src/lib.rs:192-200 | a failing leader can leave a task waiting for it iff some URL is wanted twice |
| MemCacheInterleaved.OrphanedForGood | crates/tarball/src/lib.rs:192-205 | a task left so waits in every continuation |
| PlainCodec.PlainIsSound | crates/store-dir/src/index_file.rs:60-85 | a concrete codec meets all that is assumed of hashing, integrities and index files |
| StoreLayout.AddressesDiffer | crates/store-dir/src/store_dir.rs:56-66 | plain, `-exec` and `-index.json` addresses never meet, and each belongs to one hash |
| StoreLayout.AddressKind | crates/store-dir/src/index_file.rs:16-23 | an address has the name of an index file iff it is the address of an index |
| StoreByPath.MaskIsBits | crates/fs/src/file_mode.rs:10-12 | a file is executable iff user, group and others may execute it |
| StoreByPath.AddressOf | crates/store-dir/src/store_dir.rs:56-66 | an address is `v3/files`, the first two digits of the hash, and the others with the suffix |
| StoreByPath.CasFileIsAt | crates/store-dir/src/cas_file.rs:11-22 | the suffix is `-exec` iff the three bits are set, and empty otherwise |
| StoreByPath.PrunedByPath | crates/store-dir/src/prune.rs:46-128 | what is left is nothing under `v3/tmp`, and of the files in directories of `v3/files` those named `-index.json` and those that stand where the hash and mode in a readable index say |
| StoreByPath.ListedFilesAreLeft | crates/store-dir/src/prune.rs:62-68 | of an index with a 0o644 and a 0o755 file the one stays under its hash and the other under its hash with `-exec` |
| StoreByPath.StatusByPath | crates/store-dir/src/status.rs:58-91 | a store checks out iff every index and integrity reads and every listed file stands at that place with that hash |
| StoreByPath.LoadByPath | crates/tarball/src/lib.rs:137-158 | reloading finds nothing iff there is no index file of the hash, fails iff it or an integrity in it does not read, and otherwise gives the place of each file listed |
| StoreContents.OneHashPerAddress | crates/store-dir/src/cas_file.rs:11-22 | a file address determines the hash it stands for |
| StoreContents.PruneIsIdempotent | crates/store-dir/src/prune.rs:46-51 | pruning twice is pruning once |
| StoreContents.PruneKeepsReload | crates/store-dir/src/prune.rs:46-128 | reloading any package gives the same answer after pruning |
| StoreContents.PruneKeepsStatus | crates/store-dir/src/status.rs:58-91 | whether the store checks out, its index files and what they reference are the same after pruning |
| StoreDirs.StoreDir.constructor | crates/store-dir/src/store_dir.rs:61-66 | a store directory is whatever is on the disk |
| StoreDirs.StoreDir.WriteCasFile | crates/store-dir/src/cas_file.rs:11-43 | the file is created under the hash of its contents, with `-exec` behind it iff it is executable, unless it is there, and nothing else changes |
| StoreDirs.StoreDir.WriteIndexFile | crates/store-dir/src/index_file.rs:60-70 | the index is created unless there is one, and nothing else changes |
| StoreDirs.StoreDir.IndexFilePaths | crates/store-dir/src/prune.rs:130-160 | the nested directory loops find every index file once, and only those |
| StoreDirs.StoreDir.ReferencedByIndex | crates/store-dir/src/prune.rs:62-68 | adds exactly the addresses one index lists, or fails iff one of its integrities does not read |
| StoreDirs.StoreDir.ReferencedStoreFiles | crates/store-dir/src/prune.rs:53-72 | the addresses listed anywhere; fails iff some index does not read, and says which |
| StoreDirs.ReferencedFilesAreReferenced | crates/store-dir/src/prune.rs:53-72 | the collected set holds a path iff some readable index file lists it |
| StoreDirs.StoreDir.RemoveOrphansIn | crates/store-dir/src/prune.rs:91-106 | one directory loses its unlisted non-index files and no other file |
| StoreDirs.StoreDir.RemoveOrphanCasFiles | crates/store-dir/src/prune.rs:74-110 | all directories lose exactly those |
| StoreDirs.StoreDir.ClearTmpDir | crates/store-dir/src/prune.rs:112-128 | everything under `tmp` goes and nothing else |
| StoreDirs.StoreDir.Prune | crates/store-dir/src/prune.rs:46-51 | succeeds iff every index reads, and then exactly the unreferenced non-index files and whatever lies under `tmp` are gone; otherwise nothing is removed and the reason given is a real one |
| StoreDirs.StoreDir.UniqueFilesOfIndex | crates/store-dir/src/status.rs:71-78 | each listed address is kept with a hash it is the address of |
| StoreDirs.StoreDir.UniqueFiles | crates/store-dir/src/status.rs:60-79 | one entry for each listed address; fails iff some index does not read |
| StoreDirs.StoreDir.CheckFiles | crates/store-dir/src/status.rs:81-88 | succeeds iff every listed file is there with the contents of its address |
| StoreDirs.StoreDir.Status | crates/store-dir/src/status.rs:58-91 | succeeds iff every index reads and every file it lists verifies, counts packages and distinct files, and otherwise gives a real fault |
| StoreDirs.ExplainsByPath | crates/store-dir/src/status.rs:58-91 | the path in an error is that of an index that does not read, of one with an integrity that does not, or of a listed file that is missing or has another hash |
| StoreDirs.StatusIsPerFile | crates/store-dir/src/status.rs:77-88 | checking each address once, with the first integrity seen, is as strict as checking every mention |
| Tarballs.LastEntryCounts | crates/tarball/src/lib.rs:289-305 | of entries with one cleaned path the last counts, in the returned map and in the index alike |
| Tarballs.DownloadThenReload | crates/tarball/src/lib.rs:137-312 | with no index before, reloading gives exactly the map the download returned, for all entries |
| Tarballs.DownloadKeepsIndexes | crates/tarball/src/lib.rs:308-310 | packages that have an index reload as before, the downloaded one included |
| ArchiveNames.NameIsCleanedPath | crates/tarball/src/lib.rs:278-284 | a file gets the one name that splits at `/` into the components of its path without the first |
| Tarballs.MapsAreByName | crates/tarball/src/lib.rs:274-305 | a name is in the returned map, and in the index, iff it is that of some entry; under it stand the place, hash, mode, clock and size of the last |
| Tarballs.TopDirectoryDoesNotCount | crates/tarball/src/lib.rs:278-284 | archives that differ in the name of the top directory only unpack to the same map and the same index |
| Tarballs.RunWithoutMemCache | crates/tarball/src/lib.rs:245-312 | the entry loop writes each file under its hash and the index last, both under the names that the archive calls for; a wrong checksum writes nothing |
| Tarballs.LoadOrDownload | crates/tarball/src/lib.rs:192-201 | a leader's result is what reloading now gives; an index that does not read is an error, and without one it is an error to be offline, and after that to have an archive that is not intact |
| StoreRuns.StepKeeps | crates/tarball/src/lib.rs:267-310 | every step of a download, a stop at any point, and a prune with no download under way keep the store sound |
| StoreRuns.PruneByPath | crates/store-dir/src/prune.rs:46-51 | a prune waits for downloads, leaves what is listed, and does nothing to a store with an index that cannot be read |
| StoreRuns.StopsAndPrunesAreSteps | crates/store-dir/src/prune.rs:46-51 | any download may stop at any point, and with none under way the store may be pruned |
| StoreRuns.StatusSucceedsThroughout | crates/store-dir/src/status.rs:58-91 | in every state of every run from a sound store all that is listed exists, every file has the contents of its address, and status succeeds |
| StoreRuns.ReloadFindsFiles | crates/tarball/src/lib.rs:137-158 | in such a store every package with an index reloads, and each of its files is there with the right contents |
| StoreRuns.DownloadIsRun | crates/tarball/src/lib.rs:245-312 | what the entry loop does from start to end is one run of these steps |
| StoreRuns.SafeExactly | crates/tarball/src/lib.rs:267-310 | from a sound store, status succeeds in whatever may follow iff for each download under way the index is there, or all it will list is there or still to be written |
| StoreRuns.PruneIsSafeExactly | crates/store-dir/src/prune.rs:46-51 | a prune among downloads leaves status succeeding in whatever may follow iff each download has its index, or what it wrote and its index will list is listed by some index or written again |
| StoreRuns.WrittenStayExactly | crates/store-dir/src/prune.rs:74-110 | a prune leaves every file written by downloads under way in place iff some index lists each |
| StoreRuns.PruneHasToWait | crates/store-dir/src/prune.rs:46-51 | otherwise the download that is not so can go on to its end and leave a store that does not check out |
| StoreRuns.FirstEntryIsAtRisk | crates/tarball/src/lib.rs:285-287 | after one entry into an empty store a prune already has to wait |

## Left out

- GeneratedLockfiles.FinalOptional: that a package reached by firm edges is always marked non-optional is not claimed: a revisit updates the visited package only, so the flag can depend on the order of the walk (OrderShows.OrderDecides); OptionalFlags.OptionalIsDetermined says where it cannot, and no condition is given that is also necessary.
- GenerationHolds.GenerateHolds: the order in which a package lists its dependencies is a function of the package, since a package is expanded at most once in a run.
- FetchGenerated.EverythingIsFetched: for packages that resolve one name twice only the edges of the winning range are followed, as in the code; EverythingIsFetchedExactly covers them.
- Registries.KeyInjective: versions are compared by their text; versions that differ only in build metadata, which the version library holds equal, would share a key in the code.
- InstallWithoutLockfile.PanicHasReason: failures of a download, an import or a link panic as well and are not modelled.
- InstallWithoutLockfile.BusyCanStep: waiting in the tarball cache is modelled apart, in MemCacheCooperative, where a thread can block.
- MemCacheCooperative.FinalRunServesAll: failing leaders leave their cell in progress for good, so completion is stated for runs without them.
- MemCacheInterleaved.RunsAreSound: the locks around a cell and the guards of the map only rule out interleavings that are allowed here; the run of WakeUpCanBeLost needs none of those.
- StoreRuns.StepKeeps: a file written only in part is not modelled; a prune while a download is under way is no step of a run, and is dealt with by PruneIsSafeExactly.
- StoreAdd.Run: the downloads of a package and the resolving of its dependencies, which are awaited together, are taken one after the other.
- GenerateLockfile.LockfileBuilder.BuildDependency: the body of the loop in `build_package_snapshot`, which is not a function of its own in the source.
- PkgNameSuffixes.ParsePrint: the generic suffix is modelled for `PkgVerPeer`, the only one that lockfile keys use.
- Tarballs.RunWithoutMemCache: HTTP, gzip and tar decoding are inputs, and so are the clock and the header sizes; entries that are directories have been filtered out, and panics over headers or paths that cannot be read are not modelled. What the names are is stated for components without `/` below the top directory, the only ones that taking a path apart yields.
- StoreDirs.StoreDir.WriteCasFile: I/O errors, file modes on disk, and directories at the address of a file are not modelled.
- StoreDirs.StoreDir.Status: an index file that is not UTF-8 text is reported as an index that cannot be parsed, where the source reports that it cannot be read.
- StoreLayout.AddressKind: integrities that combine several algorithms are not modelled, nor is the panic over algorithms other than SHA-1 and SHA-512.
- Range matching and tags, which are the library's.
- The npm registry over HTTP, metadata caches, throttling, TLS, YAML, JSON and INI texts.
- Symlinks, reflinks, `.bin` links, virtual store directories and the clean-up of direct links.
- Manifest editing, command line flags, settings, scripts, tracing, benchmarks other than the legacy store name.
- Lockfile fields that generation leaves empty and fetching does not read, such as engines and deprecation notes.
