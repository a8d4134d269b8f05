/** The older manifest diff of src/PackageWatcher.ts, the one the extension wires in:
    a PackageWatcher retains the last package.json it saw and, on `changed`, reports the
    names added to and deleted from its `engines`, `dependencies` and `devDependencies`
    sections, then retains the new package.json. */
module Watcher {
  import opened Shared
  import Packages

  /** A section of a parsed package.json: the property is missing (`undefined`), is `null`, or is an object. */
  datatype Section = Undefined | Null | Defined(deps: Dependency)
  {
    /** The entries a `for...in` loop or `_.forOwn` visits: none for `undefined` or `null`. */
    function Own(): Dependency
    {
      if Defined? then deps else map[]
    }
  }

  /** The Package interface of src/PackageWatcher.ts. */
  datatype Package = Package(engines: Section, dependencies: Section, devDependencies: Section)

  /** The three sections of a reported package, which `changed` always creates as objects. */
  datatype Found = Found(engines: Dependency, dependencies: Dependency, devDependencies: Dependency)

  const NothingFound := Found(map[], map[], map[])

  /** The two arguments `changed` passes to its callback: `newPackages` and `deletedPackes`. */
  datatype Report = Report(newPackages: Found, deletedPackages: Found)

  /** exisitsPackage (the name is the source's): true exactly when the section is an object
      that LACKS the key; false for `null`, and also for `undefined`, since `undefined != null` is false. */
  function ExisitsPackage(dependencies: Section, key: string): (r: bool)
    ensures r ==> key !in dependencies.Own()
    ensures r <== dependencies.Defined? && key !in dependencies.deps
    ensures dependencies.Null? || dependencies.Undefined? ==> !r
  {
    match dependencies
    case Defined(deps) => key !in deps
    case _ => false
  }

  /** What a `for (const key in from) if (exisitsPackage(against, key))` loop copies. */
  function Missing(from: Section, against: Section): Dependency
  {
    map key | key in from.Own() && ExisitsPackage(against, key) :: from.Own()[key]
  }

  /** Reference definition of the entries reported as new in one section, by the shape of both snapshots. */
  function SectionAdded(before: Section, after: Section): Dependency
  {
    match (before, after)
    case (Defined(was), Defined(now)) => map key | key in now && key !in was :: now[key]
    case (Undefined, Defined(now)) => now
    case _ => map[]
  }

  /** Reference definition of the entries reported as deleted in one section. */
  function SectionDeleted(before: Section, after: Section): Dependency
  {
    match (before, after)
    case (Defined(was), Defined(now)) => map key | key in was && key !in now :: was[key]
    case (Defined(was), Undefined) => was
    case _ => map[]
  }

  /** The report of `changed` from the retained snapshot `before` to `after`. */
  function Detect(before: Package, after: Package): Report
  {
    Report(
      Found(SectionAdded(before.engines, after.engines),
            SectionAdded(before.dependencies, after.dependencies),
            SectionAdded(before.devDependencies, after.devDependencies)),
      Found(SectionDeleted(before.engines, after.engines),
            SectionDeleted(before.dependencies, after.dependencies),
            SectionDeleted(before.devDependencies, after.devDependencies)))
  }

  /** A `for (const key in from)` loop that copies into `acc` each entry `exisitsPackage(against, key)` accepts. */
  method CopyMissing(from: Section, against: Section, acc: Dependency) returns (r: Dependency)
    ensures r == acc + Missing(from, against)
  {
    var entries := from.Own();
    r := acc;
    var todo := entries.Keys;
    while todo != {}
      invariant todo <= entries.Keys
      invariant r == acc + map key | key in entries.Keys - todo && ExisitsPackage(against, key) :: entries[key]
      decreases todo
    {
      var key :| key in todo;
      if ExisitsPackage(against, key) {
        r := r[key := entries[key]];
      }
      todo := todo - {key};
    }
  }

  /** A `_.forOwn(from, (value, key) => acc[key] = value)` loop. */
  method CopyAll(from: Section, acc: Dependency) returns (r: Dependency)
    ensures r == acc + from.Own()
  {
    var entries := from.Own();
    r := acc;
    var todo := entries.Keys;
    while todo != {}
      invariant todo <= entries.Keys
      invariant r == acc + map key | key in entries.Keys - todo :: entries[key]
      decreases todo
    {
      var key :| key in todo;
      r := r[key := entries[key]];
      todo := todo - {key};
    }
  }

  /** The new-packages loops of one section (the `for...in` loop, then `_.forOwn` when
      the old section is `undefined`) produce SectionAdded. */
  lemma AddedByLoops(before: Section, after: Section)
    ensures map[] + Missing(after, before) + (if before.Undefined? then after.Own() else map[]) == SectionAdded(before, after)
  {
  }

  /** The deleted-packages loops of one section (`_.forOwn` when the new section is
      `undefined`, then the `for...in` loop) produce SectionDeleted. */
  lemma DeletedByLoops(before: Section, after: Section)
    ensures (map[] + if after.Undefined? then before.Own() else map[]) + Missing(before, after) == SectionDeleted(before, after)
  {
  }

  /** The new-package passes of one section: `for...in` over the new section, then `_.forOwn`
      over it when the old section is `undefined`. */
  method NewInSection(before: Section, after: Section) returns (r: Dependency)
    ensures r == SectionAdded(before, after)
  {
    r := CopyMissing(after, before, map[]);
    if before.Undefined? {
      r := CopyAll(after, r);
    }
    AddedByLoops(before, after);
  }

  /** The deleted-package passes of one section: `_.forOwn` over the old section when the new
      one is `undefined`, then `for...in` over the old section. */
  method DeletedInSection(before: Section, after: Section) returns (r: Dependency)
    ensures r == SectionDeleted(before, after)
  {
    r := map[];
    if after.Undefined? {
      r := CopyAll(before, r);
    }
    r := CopyMissing(before, after, r);
    DeletedByLoops(before, after);
  }

  class PackageWatcher {
    /** The retained snapshot. */
    var packageJson: Package

    constructor(packageJson: Package)
      ensures this.packageJson == packageJson
    {
      this.packageJson := packageJson;
    }

    /** changed: diff the retained snapshot against `changedPackage`, retain `changedPackage`,
        and return what is passed to the callback, which is invoked once, after the replacement. */
    method Changed(changedPackage: Package) returns (report: Report)
      modifies this
      ensures packageJson == changedPackage
      ensures report == Detect(old(packageJson), changedPackage)
    {
      // engines, then dependencies and devDependencies; the source interleaves the passes of
      // the last two sections, which write to different objects
      var newEngines := NewInSection(packageJson.engines, changedPackage.engines);
      var deletedEngines := DeletedInSection(packageJson.engines, changedPackage.engines);
      var newDependencies := NewInSection(packageJson.dependencies, changedPackage.dependencies);
      var newDevDependencies := NewInSection(packageJson.devDependencies, changedPackage.devDependencies);
      var deletedDependencies := DeletedInSection(packageJson.dependencies, changedPackage.dependencies);
      var deletedDevDependencies := DeletedInSection(packageJson.devDependencies, changedPackage.devDependencies);
      report := Report(Found(newEngines, newDependencies, newDevDependencies),
                       Found(deletedEngines, deletedDependencies, deletedDevDependencies));
      packageJson := changedPackage;
    }
  }

  /** After `changed`, the retained snapshot is the new package, so a second call with it reports nothing. */
  method ChangedTwice(watcher: PackageWatcher, changedPackage: Package) returns (first: Report, second: Report)
    modifies watcher
    ensures first == Detect(old(watcher.packageJson), changedPackage)
    ensures second == Report(NothingFound, NothingFound)
    ensures watcher.packageJson == changedPackage
  {
    first := watcher.Changed(changedPackage);
    second := watcher.Changed(changedPackage);
    DetectSelfEmpty(changedPackage);
  }

  /** Both sections defined: a name only in the new section is reported new with its new value, and not deleted. */
  lemma AddedWhenBothDefined(was: Dependency, now: Dependency, key: string)
    requires key in now && key !in was
    ensures key in SectionAdded(Defined(was), Defined(now))
    ensures SectionAdded(Defined(was), Defined(now))[key] == now[key]
    ensures key !in SectionDeleted(Defined(was), Defined(now))
  {
  }

  /** Both sections defined: a name only in the old section is reported deleted with its old value, and not new. */
  lemma DeletedWhenBothDefined(was: Dependency, now: Dependency, key: string)
    requires key in was && key !in now
    ensures key in SectionDeleted(Defined(was), Defined(now))
    ensures SectionDeleted(Defined(was), Defined(now))[key] == was[key]
    ensures key !in SectionAdded(Defined(was), Defined(now))
  {
  }

  /** A name in both sections is reported in neither, whatever its two version strings are. */
  lemma PresentInBothNotReported(before: Section, after: Section, key: string)
    requires key in before.Own() && key in after.Own()
    ensures key !in SectionAdded(before, after) && key !in SectionDeleted(before, after)
  {
  }

  /** An `undefined` old section reports every entry of the new section as new and nothing as deleted. */
  lemma OldUndefinedAllNew(after: Section)
    ensures SectionAdded(Undefined, after) == after.Own()
    ensures SectionDeleted(Undefined, after) == map[]
  {
  }

  /** An `undefined` new section reports every entry of the old section as deleted and nothing as new. */
  lemma NewUndefinedAllDeleted(before: Section)
    ensures SectionDeleted(before, Undefined) == before.Own()
    ensures SectionAdded(before, Undefined) == map[]
  {
  }

  /** A `null` section on either side makes exisitsPackage false, so that section reports nothing. */
  lemma NullReportsNothing(before: Section, after: Section)
    requires before.Null? || after.Null?
    ensures SectionAdded(before, after) == map[] && SectionDeleted(before, after) == map[]
  {
  }

  /** Diffing a package against itself reports nothing. */
  lemma DetectSelfEmpty(p: Package)
    ensures Detect(p, p) == Report(NothingFound, NothingFound)
  {
  }

  /** A single section compared with itself reports nothing, whatever its shape: an object has
      no key it lacks, `null` makes exisitsPackage false, and for `undefined` the
      `=== undefined` branches copy the other side, which is just as empty. */
  lemma SelfEmptySection(s: Section)
    ensures SectionAdded(s, s) == map[] && SectionDeleted(s, s) == map[]
  {
  }

  /** On two defined sections, the watcher and Package.getDifferences agree on deletions; the watcher
      reports as new only names absent from the old section, so it misses exactly the version changes. */
  lemma AgainstGetDifferences(current: Packages.Package, changed: Packages.Package, section: Packages.Section)
    ensures var diff := current.Differences(changed);
      var before := Defined(current.Get(section));
      var after := Defined(changed.Get(section));
      && SectionDeleted(before, after) == diff.removedDeps.Get(section)
      && SectionAdded(before, after).Keys <= diff.newDeps.Get(section).Keys
      && (forall key :: key in diff.newDeps.Get(section) && key !in SectionAdded(before, after) <==>
            key in current.Get(section) && key in changed.Get(section) &&
            current.Get(section)[key] != changed.Get(section)[key])
  {
  }

  /** A package with empty `engines` and the given two sections, as in the tests. */
  function TestPackage(dependencies: Dependency, devDependencies: Dependency): Package
  {
    Package(Defined(map[]), Defined(dependencies), Defined(devDependencies))
  }

  function Reported(dependencies: Dependency, devDependencies: Dependency): Found
  {
    Found(map[], dependencies, devDependencies)
  }

  /** Test "Zero changed packages". */
  lemma ZeroChangedScenario()
    ensures var p := TestPackage(map["json2ts" := "^0.0.7"], map["vscode" := "^0.11.0"]);
      Detect(p, p) == Report(NothingFound, NothingFound)
  {
  }

  /** Test "One new dependency package". */
  lemma OneNewDependencyScenario()
    ensures Detect(TestPackage(map["json2ts" := "^0.0.7"], map["vscode" := "^0.11.0"]),
                   TestPackage(map["jasmine" := "*", "json2ts" := "^0.0.7"], map["vscode" := "^0.11.0"]))
         == Report(Reported(map["jasmine" := "*"], map[]), NothingFound)
  {
  }

  /** Test "Two new dependency package". */
  lemma TwoNewDependenciesScenario()
    ensures Detect(TestPackage(map["json2ts" := "^0.0.7"], map["vscode" := "^0.11.0"]),
                   TestPackage(map["jasmine" := "*", "jasmine-node" := "*", "json2ts" := "^0.0.7"], map["vscode" := "^0.11.0"]))
         == Report(Reported(map["jasmine" := "*", "jasmine-node" := "*"], map[]), NothingFound)
  {
  }

  /** Test "One new devDependency package". */
  lemma OneNewDevDependencyScenario()
    ensures Detect(TestPackage(map["json2ts" := "^0.0.7"], map[]),
                   TestPackage(map["json2ts" := "^0.0.7"], map["vscode" := "^0.11.0"]))
         == Report(Reported(map[], map["vscode" := "^0.11.0"]), NothingFound)
  {
  }

  /** Test "Two new devDependency package". */
  lemma TwoNewDevDependenciesScenario()
    ensures Detect(TestPackage(map["json2ts" := "^0.0.7"], map[]),
                   TestPackage(map["json2ts" := "^0.0.7"], map["typescript" := "*", "vscode" := "^0.11.0"]))
         == Report(Reported(map[], map["typescript" := "*", "vscode" := "^0.11.0"]), NothingFound)
  {
  }

  /** Test "One deleted dependency package". */
  lemma OneDeletedDependencyScenario()
    ensures Detect(TestPackage(map["json2ts" := "^0.0.7"], map[]), TestPackage(map[], map[]))
         == Report(NothingFound, Reported(map["json2ts" := "^0.0.7"], map[]))
  {
  }

  /** Test "Two deleted dependency package". */
  lemma TwoDeletedDependenciesScenario()
    ensures Detect(TestPackage(map["json2ts" := "^0.0.7", "rxjs" := "*"], map[]), TestPackage(map[], map[]))
         == Report(NothingFound, Reported(map["json2ts" := "^0.0.7", "rxjs" := "*"], map[]))
  {
  }

  /** Test "One deleted devDependency package". */
  lemma OneDeletedDevDependencyScenario()
    ensures Detect(TestPackage(map["json2ts" := "^0.0.7"], map["vscode" := "^0.11.0"]),
                   TestPackage(map["json2ts" := "^0.0.7"], map[]))
         == Report(NothingFound, Reported(map[], map["vscode" := "^0.11.0"]))
  {
  }

  /** Test "Two deleted devDependency package". */
  lemma TwoDeletedDevDependenciesScenario()
    ensures Detect(TestPackage(map["json2ts" := "^0.0.7"], map["typescript" := "*", "vscode" := "^0.11.0"]),
                   TestPackage(map["json2ts" := "^0.0.7"], map[]))
         == Report(NothingFound, Reported(map[], map["typescript" := "*", "vscode" := "^0.11.0"]))
  {
  }

  /** Test "Cross dependencies changed": new rxjs and gulp, deleted json2ts and typescript, one entry each. */
  lemma CrossScenario()
    ensures Detect(TestPackage(map["json2ts" := "^0.0.7"], map["typescript" := "*", "vscode" := "^0.11.0"]),
                   TestPackage(map["rxjs" := "*"], map["gulp" := "*", "vscode" := "^0.11.0"]))
         == Report(Reported(map["rxjs" := "*"], map["gulp" := "*"]),
                   Reported(map["json2ts" := "^0.0.7"], map["typescript" := "*"]))
  {
  }

  /** The cross scenario driven through a watcher: the callback arguments, then the retained snapshot. */
  method CrossScenarioThroughWatcher() returns (report: Report)
    ensures report == Report(Reported(map["rxjs" := "*"], map["gulp" := "*"]),
                             Reported(map["json2ts" := "^0.0.7"], map["typescript" := "*"]))
  {
    var watcher := new PackageWatcher(TestPackage(map["json2ts" := "^0.0.7"], map["typescript" := "*", "vscode" := "^0.11.0"]));
    var changedPackage := TestPackage(map["rxjs" := "*"], map["gulp" := "*", "vscode" := "^0.11.0"]);
    report := watcher.Changed(changedPackage);
    CrossScenario();
    assert watcher.packageJson == changedPackage;
  }
}
