/** The manifest diff of src/Package.ts: a Package keeps the `dependencies` and
    `devDependencies` sections of a package.json, and `getDifferences` compares it
    with a changed Package, section by section. */
module Packages {
  import opened Shared

  /** PackageSection: the two sections that are compared. */
  datatype Section = Dependencies | DevDependencies

  /** The object form of a package.json that the Package constructor accepts (PackageJson of src/shared.ts). */
  datatype PackageJson = PackageJson(dependencies: Dependency, devDependencies: Dependency)

  /** The constructor's object-input branch: the new Package keeps exactly the two sections of its input. */
  function FromObject(input: PackageJson): (p: Package)
    ensures p.Get(Dependencies) == input.dependencies
    ensures p.Get(DevDependencies) == input.devDependencies
  {
    Package(input.dependencies, input.devDependencies)
  }

  /** The result of getDifferences: new-or-changed entries and removed entries, both shaped like a package. */
  datatype PackageDiff = PackageDiff(newDeps: Package, removedDeps: Package)

  const NoDeps := Package(map[], map[])

  datatype Package = Package(dependencies: Dependency, devDependencies: Dependency)
  {
    /** `this[section]` */
    function Get(section: Section): Dependency
    {
      match section
      case Dependencies => dependencies
      case DevDependencies => devDependencies
    }

    /** This package with `section` replaced by `deps` and the other section untouched. */
    function With(section: Section, deps: Dependency): (p: Package)
      ensures p.Get(section) == deps
      ensures forall s :: s != section ==> p.Get(s) == Get(s)
    {
      match section
      case Dependencies => this.(dependencies := deps)
      case DevDependencies => this.(devDependencies := deps)
    }

    /** The dependency did not exist in this (the old) package: then no version of it counts
        as a change, and otherwise some version does. */
    predicate IsNewDep(depName: string, section: Section): (r: bool)
      ensures r <==> forall version :: !IsChangedDep(depName, version, section)
    {
      assert depName in Get(section) ==> IsChangedDep(depName, Get(section)[depName] + "!", section);
      depName !in Get(section)
    }

    /** The dependency existed in this package with a different version string: exactly when
        recording `version` for it would alter this package's section. */
    predicate IsChangedDep(depName: string, version: string, section: Section): (r: bool)
      ensures r <==> depName in Get(section) && Get(section)[depName := version] != Get(section)
    {
      assert depName in Get(section) && Get(section)[depName] == version ==>
        Get(section)[depName := version] == Get(section);
      assert depName in Get(section) && Get(section)[depName] != version ==>
        Get(section)[depName := version][depName] != Get(section)[depName];
      depName in Get(section) && Get(section)[depName] != version
    }

    /** The dependency is new or changed: it is reported unless this package already has exactly `version` for it. */
    predicate IsNewOrChangedDep(depName: string, version: string, section: Section): (r: bool)
      ensures r <==> !(depName in Get(section) && Get(section)[depName] == version)
    {
      IsNewDep(depName, section) || IsChangedDep(depName, version, section)
    }

    /** The dependency of this package does not exist in the changed package: it has been
        uninstalled exactly when dropping its name from the changed section changes nothing. */
    predicate IsRemovedDep(depName: string, changedPackage: Package, section: Section): (r: bool)
      ensures r <==> changedPackage.Get(section) - {depName} == changedPackage.Get(section)
    {
      assert depName !in changedPackage.Get(section) - {depName};
      depName !in changedPackage.Get(section)
    }

    /** What the second forOwn loop puts in `newDeps[section]`. */
    function NewOrChangedIn(changedPackage: Package, section: Section): Dependency
    {
      var changed := changedPackage.Get(section);
      map depName | depName in changed && IsNewOrChangedDep(depName, changed[depName], section) :: changed[depName]
    }

    /** What the first forOwn loop puts in `removedDeps[section]`. */
    function RemovedIn(changedPackage: Package, section: Section): Dependency
    {
      var current := Get(section);
      map depName | depName in current && IsRemovedDep(depName, changedPackage, section) :: current[depName]
    }

    /** The value getDifferences returns. */
    function Differences(changedPackage: Package): PackageDiff
    {
      PackageDiff(
        Package(NewOrChangedIn(changedPackage, Dependencies), NewOrChangedIn(changedPackage, DevDependencies)),
        Package(RemovedIn(changedPackage, Dependencies), RemovedIn(changedPackage, DevDependencies)))
    }

    /** getDifferences: for each of the two sections, first collect the removed entries
        of this package, then the new or changed entries of `changedPackage`. */
    method GetDifferences(changedPackage: Package) returns (diff: PackageDiff)
      ensures diff == Differences(changedPackage)
    {
      var newDeps := NoDeps;
      var removedDeps := NoDeps;
      var sections := [Dependencies, DevDependencies];
      for i := 0 to |sections|
        invariant forall j :: 0 <= j < i ==>
          newDeps.Get(sections[j]) == NewOrChangedIn(changedPackage, sections[j]) &&
          removedDeps.Get(sections[j]) == RemovedIn(changedPackage, sections[j])
      {
        var section := sections[i];
        var removed := CollectRemoved(changedPackage, section);
        removedDeps := removedDeps.With(section, removed);
        var added := CollectNewOrChanged(changedPackage, section);
        newDeps := newDeps.With(section, added);
      }
      assert sections[0] == Dependencies && sections[1] == DevDependencies;
      assert newDeps == Package(newDeps.Get(Dependencies), newDeps.Get(DevDependencies));
      assert removedDeps == Package(removedDeps.Get(Dependencies), removedDeps.Get(DevDependencies));
      diff := PackageDiff(newDeps, removedDeps);
    }

    /** The forOwn loop over this package's section that fills `removedDeps[section]`. */
    method CollectRemoved(changedPackage: Package, section: Section) returns (removed: Dependency)
      ensures removed == RemovedIn(changedPackage, section)
    {
      var current := Get(section);
      removed := map[];
      var todo := current.Keys;
      while todo != {}
        invariant todo <= current.Keys
        invariant removed == map depName | depName in current.Keys - todo && IsRemovedDep(depName, changedPackage, section) :: current[depName]
        decreases todo
      {
        var depName :| depName in todo;
        if IsRemovedDep(depName, changedPackage, section) {
          removed := removed[depName := current[depName]];
        }
        todo := todo - {depName};
      }
    }

    /** The forOwn loop over the changed package's section that fills `newDeps[section]`. */
    method CollectNewOrChanged(changedPackage: Package, section: Section) returns (added: Dependency)
      ensures added == NewOrChangedIn(changedPackage, section)
    {
      var changed := changedPackage.Get(section);
      added := map[];
      var todo := changed.Keys;
      while todo != {}
        invariant todo <= changed.Keys
        invariant added == map depName | depName in changed.Keys - todo && IsNewOrChangedDep(depName, changed[depName], section) :: changed[depName]
        decreases todo
      {
        var depName :| depName in todo;
        var version := changed[depName];
        if IsNewOrChangedDep(depName, version, section) {
          added := added[depName := version];
        }
        todo := todo - {depName};
      }
    }
  }

  /** Comparing a package with itself reports nothing in either section. */
  lemma SelfDifferencesEmpty(p: Package)
    ensures p.Differences(p) == PackageDiff(NoDeps, NoDeps)
  {
  }

  /** A name of the changed section that the current section lacks is reported as new, with the changed version. */
  lemma NewDepReported(current: Package, changed: Package, section: Section, depName: string)
    requires depName in changed.Get(section) && depName !in current.Get(section)
    ensures var diff := current.Differences(changed);
      && depName in diff.newDeps.Get(section)
      && diff.newDeps.Get(section)[depName] == changed.Get(section)[depName]
      && depName !in diff.removedDeps.Get(section)
  {
  }

  /** A name in both sections with different versions is reported as new with the new version, and not as removed. */
  lemma ChangedDepReported(current: Package, changed: Package, section: Section, depName: string)
    requires depName in changed.Get(section) && depName in current.Get(section)
    requires changed.Get(section)[depName] != current.Get(section)[depName]
    ensures var diff := current.Differences(changed);
      && depName in diff.newDeps.Get(section)
      && diff.newDeps.Get(section)[depName] == changed.Get(section)[depName]
      && depName !in diff.removedDeps.Get(section)
  {
  }

  /** A name in both sections with the same version is reported in neither result. */
  lemma UnchangedDepNotReported(current: Package, changed: Package, section: Section, depName: string)
    requires depName in changed.Get(section) && depName in current.Get(section)
    requires changed.Get(section)[depName] == current.Get(section)[depName]
    ensures var diff := current.Differences(changed);
      depName !in diff.newDeps.Get(section) && depName !in diff.removedDeps.Get(section)
  {
  }

  /** `removedDeps[section]` is exactly the current entries whose name the changed section lacks, at their current version. */
  lemma RemovedExactly(current: Package, changed: Package, section: Section)
    ensures var removed := current.Differences(changed).removedDeps.Get(section);
      && (forall depName :: depName in removed <==> depName in current.Get(section) && depName !in changed.Get(section))
      && (forall depName :: depName in removed ==> removed[depName] == current.Get(section)[depName])
  {
  }

  /** `newDeps[section]` is exactly the changed entries that are absent from, or differ from, the current section. */
  lemma NewOrChangedExactly(current: Package, changed: Package, section: Section)
    ensures var added := current.Differences(changed).newDeps.Get(section);
      && (forall depName :: depName in added <==>
            depName in changed.Get(section) &&
            (depName !in current.Get(section) || current.Get(section)[depName] != changed.Get(section)[depName]))
      && (forall depName :: depName in added ==> added[depName] == changed.Get(section)[depName])
  {
  }

  /** Per section, new names come from the changed package, removed names from the current one, and no name is both. */
  lemma DifferenceKeys(current: Package, changed: Package, section: Section)
    ensures var diff := current.Differences(changed);
      && diff.newDeps.Get(section).Keys <= changed.Get(section).Keys
      && diff.removedDeps.Get(section).Keys <= current.Get(section).Keys
      && diff.newDeps.Get(section).Keys !! diff.removedDeps.Get(section).Keys
  {
  }

  /** Each section's result depends only on that section of the two packages. */
  lemma SectionsIndependent(current: Package, changed: Package, current': Package, changed': Package, section: Section)
    requires current.Get(section) == current'.Get(section)
    requires changed.Get(section) == changed'.Get(section)
    ensures current.Differences(changed).newDeps.Get(section) == current'.Differences(changed').newDeps.Get(section)
    ensures current.Differences(changed).removedDeps.Get(section) == current'.Differences(changed').removedDeps.Get(section)
  {
  }

  /** The diff is complete: dropping the removed names from the current section and
      applying the new-or-changed entries yields the changed section. */
  lemma DifferencesApply(current: Package, changed: Package, section: Section)
    ensures var diff := current.Differences(changed);
      (current.Get(section) - diff.removedDeps.Get(section).Keys) + diff.newDeps.Get(section) == changed.Get(section)
  {
  }

  /** The version-bump scenario: a changed version is reinstalled, nothing is removed. */
  lemma VersionBumpScenario()
    ensures var current := Package(map["json2ts" := "^0.0.7"], map["vscode" := "^0.11.0"]);
      var changed := Package(map["json2ts" := "^0.0.8"], map["vscode" := "^0.11.0"]);
      current.Differences(changed) == PackageDiff(Package(map["json2ts" := "^0.0.8"], map[]), NoDeps)
  {
  }
}
