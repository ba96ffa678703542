/** The pipeline of `main` (src/main.rs:82-121): read the manifest, collect the declared
    dependencies, scan the project, subtract what is used, required by the lockfile or
    listed in `.cnpignore`, and hand the rest to the uninstall step. Everything the program
    reads from outside is a field of `Project`. */
module Cli {
  import opened Strings
  import Config
  import Dependency
  import FileScanner
  import TscDiagnostics
  import Uninstall

  /** A parsed `package.json`: the keys of its `dependencies` field when that field is an
      object, `None` when it is missing or is not an object. */
  datatype Manifest = Manifest(dependencies: Option<seq<string>>)

  /** What the program finds in and around the working directory, and what the user answers. */
  datatype Project = Project(
    manifest: Dependency.Loaded<Manifest>,
    glob: string -> seq<FileScanner.GlobItem>,
    typescriptExtensions: seq<string>,
    isTypescriptProject: bool,
    tsc: TscDiagnostics.TscRun,
    sources: map<string, string>,
    isMacos: bool,
    lockfiles: Dependency.LockfilePresence,
    lockfileContents: Dependency.LockfileContents,
    cnpignore: Option<string>,
    dryRun: bool,
    interactive: bool,
    confirmation: string,
    prompt: seq<string> -> Option<seq<nat>>,
    nodeModulesExists: bool,
    removeSucceeds: bool,
    succeeds: Uninstall.Command -> bool)

  /** The prompt only reports indices of the entries it lists. */
  ghost predicate PromptInRange(prompt: seq<string> -> Option<seq<nat>>) {
    forall l: seq<string>, k: nat | prompt(l).Some? && k < |prompt(l).value| :: prompt(l).value[k] < |l|
  }

  /** How a run ends: exit status 1 because `package.json` cannot be read or parsed, or
      the report data and what the uninstall step did. */
  datatype Outcome =
    | ManifestError
    | Finished(
        declared: set<string>,
        used: set<string>,
        explored: seq<string>,
        ignored: seq<string>,
        unused: seq<string>,
        handled: bool,
        effects: seq<Uninstall.Effect>,
        deleted: seq<string>)

  /** The declared dependencies: the keys of the `dependencies` object, or none. */
  function DeclaredDependencies(m: Manifest): (r: set<string>)
    ensures forall d :: d in r <==> m.dependencies.Some? && d in m.dependencies.value
  {
    match m.dependencies
    case None => {}
    case Some(keys) => Elems(keys)
  }

  /** A declared dependency that is neither used, nor required by the lockfile, nor ignored. */
  predicate IsUnused(d: string, declared: set<string>, used: set<string>, required: set<string>, ignored: set<string>) {
    d in declared && d !in used && d !in required && d !in ignored
  }

  /** `dependencies.difference(&used).filter(..).collect()`: the unused dependencies, each
      once, in the iteration order of the set difference. */
  method CollectUnused(declared: set<string>, used: set<string>, required: set<string>, ignored: set<string>)
    returns (unused: seq<string>)
    ensures NoDup(unused)
    ensures forall d :: d in unused <==> IsUnused(d, declared, used, required, ignored)
    ensures Elems(unused) == declared - used - required - ignored
  {
    unused := [];
    var rest := declared - used;
    while rest != {}
      invariant rest <= declared - used
      invariant NoDup(unused)
      invariant forall d :: d in unused <==> IsUnused(d, declared, used, required, ignored) && d !in rest
      decreases rest
    {
      var d :| d in rest;
      if d !in required && d !in ignored {
        forall i, j | 0 <= i < j < |unused + [d]| ensures (unused + [d])[i] != (unused + [d])[j] {
          if j == |unused| {
            assert (unused + [d])[i] in unused;
          } else {
            assert (unused + [d])[i] == unused[i] && (unused + [d])[j] == unused[j];
          }
        }
        unused := unused + [d];
      }
      rest := rest - {d};
    }
  }

  /** `main` from reading `package.json` on. */
  method Run(p: Project) returns (o: Outcome)
    requires PromptInRange(p.prompt)
    ensures o.ManifestError? <==> !p.manifest.Loaded?
    ensures o.Finished? ==>
      var required := Dependency.RequiredDependencies(p.lockfiles, p.lockfileContents);
      var ignoredNames := Dependency.ReadCnpignore(p.cnpignore);
      var unusedImports := TscDiagnostics.TypescriptUnusedImports(
        p.isTypescriptProject, p.tsc, p.typescriptExtensions, p.sources);
      && o.declared == DeclaredDependencies(p.manifest.doc)
      && (o.used, o.explored, o.ignored)
         == FileScanner.ScanResult(FileScanner.GlobItems(p.glob, Config.GlobPatterns()), o.declared, p.typescriptExtensions, p.isMacos, unusedImports)
      && o.used <= o.declared
      && NoDup(o.explored + o.ignored)
      && NoDup(o.unused)
      && (forall d :: d in o.unused <==> IsUnused(d, o.declared, o.used, required, ignoredNames))
      && (o.handled <==> o.unused != [])
      && (!o.handled ==> o.effects == [] && o.deleted == [])
      && (o.handled ==>
           var env := Uninstall.Env(p.lockfiles, p.nodeModulesExists, p.removeSucceeds, p.succeeds);
           (o.effects, o.deleted)
           == Uninstall.HandleResult(o.unused, p.dryRun, p.interactive, p.confirmation, p.prompt(o.unused), env))
  {
    if !p.manifest.Loaded? {
      // the error is printed and the process exits with status 1
      return ManifestError;
    }
    var declared := DeclaredDependencies(p.manifest.doc);
    var used, explored, ignored := FileScanner.ScanFiles(
      p.glob, declared, p.typescriptExtensions, p.isMacos, p.isTypescriptProject, p.tsc, p.sources);
    var required := Dependency.GetRequiredDependencies(p.lockfiles, p.lockfileContents);
    var ignoredNames := Dependency.ReadCnpignore(p.cnpignore);
    var unused := CollectUnused(declared, used, required, ignoredNames);
    // the report is printed
    var effects: seq<Uninstall.Effect>, deleted: seq<string> := [], [];
    if unused != [] {
      var env := Uninstall.Env(p.lockfiles, p.nodeModulesExists, p.removeSucceeds, p.succeeds);
      effects, deleted := Uninstall.HandleUnusedDependencies(
        unused, p.dryRun, p.interactive, p.confirmation, p.prompt(unused), env);
    }
    o := Finished(declared, used, explored, ignored, unused, unused != [], effects, deleted);
  }
}
