/** The check that decides whether a lockfile may be reused for a manifest. */
module LockfileMatch {
  import opened Wrappers
  import opened Registries
  import opened Lockfiles
  import opened DependencyContexts
  import opened LockfileWalk
  import opened GeneratedLockfiles
  import PkgNames

  /** Names in a lockfile have been read by the name parser. */
  ghost predicate HasParsedNames(m: ResolvedDependencyMap) {
    forall n :: n in m ==> PkgNames.IsParsed(n)
  }

  /** The ranges on record, under the printed names. */
  function Specifiers(m: ResolvedDependencyMap): (r: map<string, string>)
    requires HasParsedNames(m)
    ensures forall n :: n in m ==> PkgNames.Print(n) in r && r[PkgNames.Print(n)] == m[n].specifier
    ensures forall name :: name in r ==> exists n :: n in m && PkgNames.Print(n) == name
  {
    assert forall a, b :: a in m && b in m && PkgNames.Print(a) == PkgNames.Print(b) ==> a == b by {
      forall a, b | a in m && b in m && PkgNames.Print(a) == PkgNames.Print(b)
        ensures a == b
      {
        PkgNames.PrintInjective(a, b);
      }
    }
    map n | n in m :: PkgNames.Print(n) := m[n].specifier
  }

  function SnapshotSpecifiers(project: ProjectSnapshot, group: DependencyGroup): map<string, string>
    requires HasParsedNames(OrEmpty(project.GetMapByGroup(group)))
  {
    Specifiers(OrEmpty(project.GetMapByGroup(group)))
  }

  predicate GroupMatches(manifest: map<string, string>, snapshot: map<string, string>) {
    && |manifest| == |snapshot|
    && forall name | name in manifest :: name in snapshot && snapshot[name] == manifest[name]
  }

  ghost predicate ProjectHasParsedNames(project: ProjectSnapshot) {
    && HasParsedNames(OrEmpty(project.dependencies))
    && HasParsedNames(OrEmpty(project.optionalDependencies))
    && HasParsedNames(OrEmpty(project.devDependencies))
  }

  predicate LockfileMatchesManifest(manifest: Manifest, lockfile: Lockfile, groups: seq<DependencyGroup>)
    requires lockfile.projectSnapshot.Single? ==> ProjectHasParsedNames(lockfile.projectSnapshot.project)
  {
    match lockfile.projectSnapshot
    case Multi(_) => false
    case Single(project) =>
      forall group | group in groups :: GroupMatches(manifest.Group(group), SnapshotSpecifiers(project, group))
  }

  lemma {:induction false} SameKeys<K>(a: set<K>, b: set<K>)
    requires a <= b && |a| == |b|
    ensures a == b
  {
    if a != {} {
      var x :| x in a;
      SameKeys(a - {x}, b - {x});
    }
  }

  /** Comparing sizes and looking up one side is enough to compare both. */
  lemma GroupMatchIsEquality(manifest: map<string, string>, snapshot: map<string, string>)
    ensures GroupMatches(manifest, snapshot) <==> manifest == snapshot
  {
    if GroupMatches(manifest, snapshot) {
      assert |manifest.Keys| == |manifest| && |snapshot.Keys| == |snapshot|;
      SameKeys(manifest.Keys, snapshot.Keys);
    }
  }

  /** The check holds exactly when the ranges of each checked group are the ones on record. */
  lemma MatchIsEquality(manifest: Manifest, lockfile: Lockfile, groups: seq<DependencyGroup>)
    requires lockfile.projectSnapshot.Single? ==> ProjectHasParsedNames(lockfile.projectSnapshot.project)
    ensures LockfileMatchesManifest(manifest, lockfile, groups) <==>
      && lockfile.projectSnapshot.Single?
      && forall group :: group in groups ==>
           manifest.Group(group) == SnapshotSpecifiers(lockfile.projectSnapshot.project, group)
  {
    if lockfile.projectSnapshot.Single? {
      forall group | group in groups
        ensures GroupMatches(manifest.Group(group), SnapshotSpecifiers(lockfile.projectSnapshot.project, group))
           <==> manifest.Group(group) == SnapshotSpecifiers(lockfile.projectSnapshot.project, group)
      {
        GroupMatchIsEquality(manifest.Group(group), SnapshotSpecifiers(lockfile.projectSnapshot.project, group));
      }
    }
  }

  /** What is on record are these names and ranges, no more and no fewer. */
  ghost predicate RecordsRanges(recorded: Option<ResolvedDependencyMap>, m: map<string, string>) {
    && (forall name :: name in m ==> recorded.Some? && exists n :: IsRangeOf(recorded.value, n, name, m[name]))
    && (recorded.Some? ==> forall n :: n in recorded.value ==>
          PkgNames.Print(n) in m && m[PkgNames.Print(n)] == recorded.value[n].specifier)
  }

  predicate IsRangeOf(recorded: ResolvedDependencyMap, n: PkgNames.PkgName, name: string, range: string) {
    n in recorded && PkgNames.Print(n) == name && recorded[n].specifier == range
  }

  lemma SpecifiersAreRanges(recorded: Option<ResolvedDependencyMap>, m: map<string, string>)
    requires HasParsedNames(OrEmpty(recorded))
    ensures m == Specifiers(OrEmpty(recorded)) <==> RecordsRanges(recorded, m)
  {
    var stored := OrEmpty(recorded);
    var specifiers := Specifiers(stored);
    hide Specifiers;
    hide PkgNames.Print;
    hide PkgNames.IsParsed;
    if m == specifiers {
      forall name | name in m
        ensures recorded.Some? && exists n :: IsRangeOf(recorded.value, n, name, m[name])
      {
        var n :| n in stored && PkgNames.Print(n) == name;
        assert IsRangeOf(stored, n, name, m[name]);
      }
    }
    if RecordsRanges(recorded, m) {
      forall name | name in m
        ensures name in specifiers && specifiers[name] == m[name]
      {
        var n :| IsRangeOf(recorded.value, n, name, m[name]);
      }
    }
  }

  /** A project has nothing on record for peers. */
  lemma SpecifiersByField(project: ProjectSnapshot)
    requires ProjectHasParsedNames(project)
    ensures forall group :: HasParsedNames(OrEmpty(project.GetMapByGroup(group)))
    ensures SnapshotSpecifiers(project, Prod) == Specifiers(OrEmpty(project.dependencies))
    ensures SnapshotSpecifiers(project, Optional) == Specifiers(OrEmpty(project.optionalDependencies))
    ensures SnapshotSpecifiers(project, Dev) == Specifiers(OrEmpty(project.devDependencies))
    ensures SnapshotSpecifiers(project, Peer) == map[]
  {
    hide PkgNames.Print;
    hide PkgNames.IsParsed;
  }

  lemma MatchInFour(manifest: Manifest, project: ProjectSnapshot, packages: Option<Packages>,
                    groups: seq<DependencyGroup>)
    requires ProjectHasParsedNames(project)
    ensures LockfileMatchesManifest(manifest, Lockfile(Single(project), packages), groups) <==>
      && (Prod in groups ==> manifest.dependencies == SnapshotSpecifiers(project, Prod))
      && (Optional in groups ==> manifest.optionalDependencies == SnapshotSpecifiers(project, Optional))
      && (Dev in groups ==> manifest.devDependencies == SnapshotSpecifiers(project, Dev))
      && (Peer in groups ==> manifest.peerDependencies == SnapshotSpecifiers(project, Peer))
  {
    hide *;
    SpecifiersByField(project);
    GroupsByField(manifest);
    var lockfile := Lockfile(Single(project), packages);
    assert lockfile.projectSnapshot.project == project;
    MatchIsEquality(manifest, lockfile, groups);
    if && (Prod in groups ==> manifest.dependencies == SnapshotSpecifiers(project, Prod))
       && (Optional in groups ==> manifest.optionalDependencies == SnapshotSpecifiers(project, Optional))
       && (Dev in groups ==> manifest.devDependencies == SnapshotSpecifiers(project, Dev))
       && (Peer in groups ==> manifest.peerDependencies == SnapshotSpecifiers(project, Peer)) {
      forall group | group in groups
        ensures manifest.Group(group) == SnapshotSpecifiers(project, group)
      {
        match group {
          case Prod =>
          case Optional =>
          case Dev =>
          case Peer =>
        }
      }
    }
  }

  /** The check compares each group with the field of its name; peers are never on record. */
  lemma MatchIsByField(manifest: Manifest, lockfile: Lockfile, groups: seq<DependencyGroup>)
    requires lockfile.projectSnapshot.Single? ==> ProjectHasParsedNames(lockfile.projectSnapshot.project)
    ensures LockfileMatchesManifest(manifest, lockfile, groups) <==>
      && lockfile.projectSnapshot.Single?
      && var project := lockfile.projectSnapshot.project;
      && (Prod in groups ==> RecordsRanges(project.dependencies, manifest.dependencies))
      && (Optional in groups ==> RecordsRanges(project.optionalDependencies, manifest.optionalDependencies))
      && (Dev in groups ==> RecordsRanges(project.devDependencies, manifest.devDependencies))
      && (Peer in groups ==> manifest.peerDependencies == map[])
  {
    MatchIsEquality(manifest, lockfile, groups);
    if lockfile.projectSnapshot.Single? {
      var project := lockfile.projectSnapshot.project;
      assert HasParsedNames(OrEmpty(project.dependencies)) && HasParsedNames(OrEmpty(project.devDependencies))
        && HasParsedNames(OrEmpty(project.optionalDependencies));
      hide *;
      SpecifiersByField(project);
      MatchInFour(manifest, project, lockfile.packages, groups);
      SpecifiersAreRanges(project.dependencies, manifest.dependencies);
      SpecifiersAreRanges(project.optionalDependencies, manifest.optionalDependencies);
      SpecifiersAreRanges(project.devDependencies, manifest.devDependencies);
      assert lockfile == Lockfile(Single(project), lockfile.packages);
    }
  }

  lemma RecordedRange(ctx: Context, m: map<string, string>, stored: ResolvedDependencyMap, name: string)
    requires StoresRoots(ctx, m.Items, stored) && name in m
    ensures NameOf(name) in stored && stored[NameOf(name)].specifier == m[name] && PkgNames.Print(NameOf(name)) == name
  {
    hide Resolve;
    assert (name, m[name]) in m.Items;
    assert StoresRoot(ctx, stored, (name, m[name]));
    PkgNames.PrintParse(name);
  }

  lemma RecordedRanges(ctx: Context, m: map<string, string>, stored: ResolvedDependencyMap)
    requires StoresRoots(ctx, m.Items, stored)
    ensures HasParsedNames(stored) && Specifiers(stored) == m
  {
    hide StoresRoot;
    hide PkgNames.Print;
    hide PkgNames.IsParsed;
    forall name | name in m
      ensures name in Specifiers(stored) && Specifiers(stored)[name] == m[name]
    {
      RecordedRange(ctx, m, stored, name);
    }
    forall n | n in stored
      ensures PkgNames.Print(n) in m
    {
      var e :| e in m.Items && e.0 == PkgNames.Print(n);
    }
  }

  lemma GeneratedSpecifiers(inputs: Inputs, project: ProjectSnapshot, group: DependencyGroup)
    requires HoldsTheGroups(inputs, project)
    ensures HasParsedNames(OrEmpty(project.GetMapByGroup(group)))
    ensures SnapshotSpecifiers(project, group)
      == if group != Peer && group in inputs.groups then inputs.manifest.Group(group) else map[]
  {
    if group != Peer {
      var m := if group in inputs.groups then inputs.manifest.Group(group) else map[];
      assert inputs.Requested(group) == m.Items;
      RecordedRanges(inputs.ctx, m, OrEmpty(project.GetMapByGroup(group)));
    }
  }

  /**
   * A lockfile just generated is accepted for the manifest it came from, unless a checked group that has entries
   * was not generated; in particular for any of the enabled groups other than peers.
   */
  lemma GeneratedMatches(inputs: Inputs, lockfile: Lockfile, groups: seq<DependencyGroup>)
    requires IsGenerated(inputs, lockfile)
    ensures ProjectHasParsedNames(lockfile.projectSnapshot.project)
    ensures LockfileMatchesManifest(inputs.manifest, lockfile, groups) <==>
      && (Prod in groups ==> Prod in inputs.groups || inputs.manifest.dependencies == map[])
      && (Optional in groups ==> Optional in inputs.groups || inputs.manifest.optionalDependencies == map[])
      && (Dev in groups ==> Dev in inputs.groups || inputs.manifest.devDependencies == map[])
      && (Peer in groups ==> inputs.manifest.peerDependencies == map[])
  {
    hide *;
    GeneratedProject(inputs, lockfile);
    var project := lockfile.projectSnapshot.project;
    GeneratedNames(inputs, project);
    forall group
      ensures HasParsedNames(OrEmpty(project.GetMapByGroup(group)))
      ensures SnapshotSpecifiers(project, group)
        == if group != Peer && group in inputs.groups then inputs.manifest.Group(group) else map[]
    {
      GeneratedSpecifiers(inputs, project, group);
    }
    GroupsByField(inputs.manifest);
    MatchInFour(inputs.manifest, project, lockfile.packages, groups);
    assert lockfile == Lockfile(Single(project), lockfile.packages);
  }

  lemma GroupsByField(manifest: Manifest)
    ensures manifest.Group(Prod) == manifest.dependencies
    ensures manifest.Group(Optional) == manifest.optionalDependencies
    ensures manifest.Group(Dev) == manifest.devDependencies
    ensures manifest.Group(Peer) == manifest.peerDependencies
  {
  }

  lemma GeneratedNames(inputs: Inputs, project: ProjectSnapshot)
    requires HoldsTheGroups(inputs, project)
    ensures ProjectHasParsedNames(project)
  {
    GeneratedSpecifiers(inputs, project, Prod);
    GeneratedSpecifiers(inputs, project, Optional);
    GeneratedSpecifiers(inputs, project, Dev);
    hide HoldsTheGroups;
    hide HasParsedNames;
    hide SnapshotSpecifiers;
  }

  lemma GeneratedProject(inputs: Inputs, lockfile: Lockfile)
    requires IsGenerated(inputs, lockfile)
    ensures lockfile.projectSnapshot.Single? && HoldsTheGroups(inputs, lockfile.projectSnapshot.project)
  {
  }
}
