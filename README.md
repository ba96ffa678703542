# cnp: unused npm dependencies, modelled in Dafny

cnp reads the `dependencies` of a project's `package.json` and scans the project's source
files (`.js`, `.ts`, `.jsx`, `.tsx`, `.mdx`) for imports and `require` calls of those
dependencies. It reports a dependency as unused when no scanned file references it, the
single lockfile of the project does not record it, and `.cnpignore` does not list it. It then
offers to remove the unused dependencies with the detected package manager and reinstalls
`node_modules` after a removal.

This project models that core in Dafny:

- `strings.dfy` (`Strings`): the Rust `str` operations the code relies on (`trim`, `lines`,
  `split(c).next()`, `rsplitn(2, c).last()`, `trim_end_matches`, `to_lowercase`).
- `config.dfy` (`Config`): the extensions and ignored folder names.
- `dependency.dfy` (`Dependency`): the lockfile policy and the per-format name rules of
  `get_required_dependencies`, and `read_cnpignore`.
- `import_matcher.dfy` (`ImportMatcher`): the three-form import matcher of
  `find_dependencies_in_content`.
- `tsc_diagnostics.dfy` (`TscDiagnostics`): reading the TypeScript compiler's TS6133
  diagnostics (`extract_file_and_line`, `extract_package_name_from_file_line`,
  `get_typescript_unused_imports`).
- `file_scanner.dfy` (`FileScanner`): `normalize_path`, `should_ignore` and the walk of
  `scan_files`.
- `package_manager.dfy` (`PackageManager`): `detect_package_manager`.
- `uninstall.dfy` (`Uninstall`): the removal step.
- `cli.dfy` (`Cli`): the part of `main` that computes the unused set and calls the removal
  step.

File contents, lockfile presence, glob results, the compiler's output, the user's answers
and the exit status of every command are inputs. The effects of the removal step are
returned as a log of `Effect`s.

## Model

| member | source | states |
|---|---|---|
| Dependency.ExistingLockfiles | src/dependency.rs:14-25 | the existing lockfiles, each listed once, are exactly the present ones |
| Dependency.PackagesKeyNameAsWritten | src/dependency.rs:46-59 | as written: a `packages` key contributes iff it starts with `/`; the name is the longest `@`-free prefix of the rest, so it ends at the first `@` or at the end; a key starting with `/@` gives the empty name |
| Dependency.PackagesKeyScopedDroppedAsWritten | src/dependency.rs:48-50 | as written, every scoped key `/@scope/name@version` yields the empty name, which is then dropped; the corrected rule yields a non-empty name |
| Dependency.PackagesKeyName | src/dependency.rs:46-59 | corrected rule: a key contributes iff it starts with `/`; the name is a prefix of the rest that ends at an `@` or at the end, and only its first character can be `@` |
| Dependency.PackagesKeyNameRoundTrip | src/dependency.rs:46-59 | the corrected rule recovers every scoped or unscoped package name from `/<name>@<version>` |
| Dependency.YarnLineName | src/dependency.rs:69-77 | a yarn.lock line gives a name iff it ends with `:` and does not start with `#`; the name is the rule below applied to the colon-stripped, trimmed entry |
| Dependency.YarnEntryName | src/dependency.rs:72-77 | for an entry starting with `@`, the text before its last `@`; otherwise the text before its first `@` (all of it if there is none) |
| Dependency.PnpmKeyName | src/dependency.rs:92-98 | a pnpm key, without one optional leading `/`, cut before its first `@` |
| Dependency.PackagesNamesAsWrittenDropScoped | src/dependency.rs:46-60 | the loop as written records exactly the corrected rule's names that do not start with `@`: every scoped package is lost |
| Dependency.RequiredDependencies | src/dependency.rs:12-123 | no lockfile or several give the empty set; a package-lock.json that does not parse gives the empty set; every name is non-empty |
| Dependency.GetRequiredDependencies | src/dependency.rs:12-123 | the per-format loops fill `required` with exactly the names of `RequiredDependencies`, which reads `packages` keys with the corrected rule |
| Dependency.ExtendNonEmpty | src/dependency.rs:43-45 | the `dependencies` (and bun `packages`) keys are added verbatim, except the empty key |
| Dependency.InsertPackagesNames | src/dependency.rs:46-60 | the loop over `packages` keys adds exactly the non-empty names of the corrected key rule |
| Dependency.InsertYarnNames | src/dependency.rs:68-82 | the loop over yarn.lock lines adds exactly the non-empty names of the line rule |
| Dependency.InsertPnpmNames | src/dependency.rs:89-104 | the loop over pnpm keys adds the non-empty names of the string keys and skips other keys |
| Dependency.ReadCnpignore | src/dependency.rs:125-136 | a missing `.cnpignore` gives the empty set |
| Dependency.IgnoreEntriesAreTrimmed | src/dependency.rs:129-131 | every ignored name is non-empty, trimmed and does not start with `#` |
| Dependency.IgnoreFileRoundTrip | src/dependency.rs:125-136 | a file listing trimmed, non-comment names one per line reads back as exactly those names |
| ImportMatcher.FindDependenciesInContent | src/file_scanner.rs:235-252 | the result is a subset of the dependencies, and each dependency is in it iff its own pattern matches the content |
| ImportMatcher.MatchIsQuoted | src/file_scanner.rs:241 | every match has the dependency name directly between two quote characters |
| ImportMatcher.UnquotedNeverMatches | src/file_scanner.rs:241 | text in which the name never stands directly between two quote characters never matches |
| ImportMatcher.RequireMatches | src/file_scanner.rs:241 | `require("dep")` matches whatever text surrounds it |
| ImportMatcher.NamedImportMatches | src/file_scanner.rs:241 | `import { names } from "dep"` matches when `names` holds no `}` |
| ImportMatcher.MissingCharNeverMatches | src/file_scanner.rs:241 | a name with a character absent from the text never matches |
| ImportMatcher.ExampleReferences | src/file_scanner.rs:227-233 | the documented example text references both `lodash` and `moment` |
| ImportMatcher.DocumentedExample | src/file_scanner.rs:227-233 | on the documented example the finder returns `{lodash, moment}` |
| TscDiagnostics.LastDotIs | src/file_scanner.rs:316 | the greedy `.*` stops at the one dot, before the line limit, that is followed by a listed extension and after which no later dot is |
| TscDiagnostics.ExtractFileAndLine | src/file_scanner.rs:306-325 | a returned line number fits in a 64-bit `usize` |
| TscDiagnostics.ExtractedLocation | src/file_scanner.rs:316-322 | a result is a prefix of the line that ends with `.<ext>` for a listed extension, is followed by `(<digits>,<digits>)`, and carries the value of the first digit run |
| TscDiagnostics.NoPositionNoResult | src/file_scanner.rs:316-319 | without `.<ext>(<digits>,<digits>)` before the first line feed there is no result |
| TscDiagnostics.ExtractFileAndLineRoundTrip | src/file_scanner.rs:306-325 | `<file>.<ext>(<line>,<column>)<message>` gives back `<file>.<ext>` and the value of `<line>`, when the extensions hold no `.` or `(` and the message no `(` |
| TscDiagnostics.DocumentedDiagnostic | src/file_scanner.rs:301-304 | `src/file.ts(1,8): error TS6133` gives `("src/file.ts", 1)` |
| TscDiagnostics.LeftmostKeyword | src/file_scanner.rs:374 | the leftmost position where `kw\s+['"]name['"]` matches, and no match before it |
| TscDiagnostics.MiddlePatternsNeverDecide | src/file_scanner.rs:374-400 | whenever the default, namespace or combined pattern matches, the named pattern, tried first, matches too |
| TscDiagnostics.ImportLineTarget | src/file_scanner.rs:368-407 | an empty or comment line gives nothing; a result is a non-empty name without quotes or whitespace |
| TscDiagnostics.NamedImportLine | src/file_scanner.rs:374-385 | the `from` pattern captures `<name>` from `... from "<name>"` when it matches nowhere earlier in the line |
| TscDiagnostics.NamedImportLineTarget | src/file_scanner.rs:367-385 | a trimmed, non-comment line holding `from "<name>"`, with no earlier `from` match, names `<name>` |
| TscDiagnostics.SideEffectImportLineTarget | src/file_scanner.rs:367-405 | a trimmed, non-comment line holding `import "<name>"`, with no `from` match anywhere and no earlier `import` match, names `<name>` |
| TscDiagnostics.ExtractPackageNameFromFileLine | src/file_scanner.rs:353-408 | an unreadable file, line number 0 or a line number past the end gives nothing; otherwise the result is the import target of line `lineNumber` of the file |
| TscDiagnostics.CombinedPatternRejected | src/file_scanner.rs:378-379 | the combined-import pattern as written has an unescaped `{` followed by `(`, which the regex crate does not accept |
| TscDiagnostics.ImportLineTargetAsWritten | src/file_scanner.rs:367-407 | as written: a line that passes the empty and comment checks panics iff some pattern is not accepted; otherwise the line's target |
| TscDiagnostics.CombinedPatternAborts | src/file_scanner.rs:374-380 | as written, every line that passes the empty and comment checks panics |
| TscDiagnostics.TypescriptUnusedImports | src/file_scanner.rs:67-106 | empty unless the project is a TypeScript project and the compiler ran and exited with failure |
| TscDiagnostics.GetTypescriptUnusedImports | src/file_scanner.rs:67-106 | the loop over the diagnostic lines collects exactly the names of the TS6133 lines; every name is non-empty |
| FileScanner.NormalizePath | src/file_scanner.rs:35-45 | the canonical path, or the displayed one when canonicalisation fails; on macOS a leading `/private` is removed once, elsewhere nothing changes |
| FileScanner.PrivatePrefixStripped | src/file_scanner.rs:40-44 | `/private<rest>` becomes `<rest>` on macOS and is kept elsewhere |
| FileScanner.ShouldIgnore | src/file_scanner.rs:274-280 | a path is ignored iff one of its components equals an ignored folder name |
| FileScanner.ShouldIgnoreExamples | src/file_scanner.rs:268-272 | `node_modules/package/file.js` is ignored; `src/file.js` and `src/my_build/file.js` are not |
| FileScanner.VisitConsistent | src/file_scanner.rs:155-184 | one glob item keeps the lists free of duplicates, the seen set equal to the two lists, and the used set declared |
| FileScanner.WalkConsistent | src/file_scanner.rs:144-190 | the walk keeps that invariant over all glob items |
| FileScanner.TypescriptUsesDeclared | src/file_scanner.rs:194-205 | the TypeScript pass adds only declared dependencies and none that tsc reports |
| FileScanner.ScanResultConsistent | src/file_scanner.rs:136-208 | the used set is declared; explored and ignored paths are disjoint and together free of duplicates |
| FileScanner.WalkRecorded | src/file_scanner.rs:155-184 | explored paths come from files outside the ignored folders, ignored paths from entries under one, and every file's path is recorded |
| FileScanner.WalkUsesExplained | src/file_scanner.rs:166-173 | a package used after the walk is referenced by a non-TypeScript file; each put-aside text belongs to a TypeScript file |
| FileScanner.TypescriptUsesExplained | src/file_scanner.rs:194-204 | a package added in the TypeScript pass is declared, not reported by tsc, and referenced by a put-aside text |
| FileScanner.UsedExplained | src/file_scanner.rs:166-204 | a used package is referenced by a non-TypeScript file, or by a TypeScript file while tsc does not report it |
| FileScanner.UnusedImportNeedsDirectUse | src/file_scanner.rs:194-204 | a package that tsc reports is used only through a non-TypeScript file |
| FileScanner.NotSeenBeforeFirstSighting | src/file_scanner.rs:156-160 | a path that no earlier entry recorded is not in the seen set when its entry comes |
| FileScanner.WalkGrows | src/file_scanner.rs:150-190 | later entries only add used packages and only append put-aside TypeScript texts |
| FileScanner.DirectUseCounts | src/file_scanner.rs:170-172 | a new non-TypeScript file outside the ignored folders makes every declared dependency it references used, whatever tsc reports |
| FileScanner.TypescriptUseCounts | src/file_scanner.rs:194-204 | a new TypeScript file outside the ignored folders makes every declared dependency it references used unless tsc reports it |
| FileScanner.ExploredHaveSourceExtensions | src/file_scanner.rs:140-176 | when each glob yields only paths its pattern matches, every explored path is the path of a file whose name ends with `.<ext>` for a configured extension |
| FileScanner.VisitItem | src/file_scanner.rs:154-186 | one glob item updates the accumulators as `Visit` says |
| FileScanner.WalkGlob | src/file_scanner.rs:151-190 | the items one pattern yields, in order, extend the walk |
| FileScanner.WalkPatterns | src/file_scanner.rs:150-191 | the glob of each pattern in turn gives the walk of all items, pattern after pattern |
| FileScanner.ScanFiles | src/file_scanner.rs:136-208 | over the globs of the patterns built from the configured extensions, the used set, explored and ignored lists are those of the walk plus the TypeScript pass; the used set is declared and no path is listed twice |
| PackageManager.DetectPackageManager | src/package_manager.rs:23-33 | pnpm iff `pnpm-lock.yaml` exists; yarn iff `yarn.lock` exists and no pnpm lockfile; bun iff only `bun.lock` of the three exists; otherwise npm; always one of the four |
| PackageManager.UnconsultedLockfiles | src/package_manager.rs:24-32 | `package-lock.json` and `bun.lockb` never change the detected manager |
| Uninstall.UninstallVerb | src/uninstall.rs:254-261 | `uninstall` iff npm, `remove` iff pnpm, yarn or bun, nothing iff the manager is not one of those four |
| Uninstall.UninstallDependency | src/uninstall.rs:253-268 | an unsupported manager runs nothing and fails; otherwise exactly `<pm> <verb> <dep>` runs and its success decides |
| Uninstall.DetectedManagerHasVerb | src/uninstall.rs:254-261 | a detected manager always has a verb, so the unsupported branch is never taken for it |
| Uninstall.ConfirmAllDeletion | src/uninstall.rs:211-227 | the whole list iff the trimmed, lower-cased input is `y` or `yes`; otherwise nothing |
| Uninstall.PaddedAnswer | src/uninstall.rs:222 | whitespace around the typed answer does not change the decision |
| Uninstall.UpperCaseConfirms | src/uninstall.rs:222-223 | `YES` followed by a line break confirms |
| Uninstall.PaddedYConfirms | src/uninstall.rs:222-223 | ` y ` confirms |
| Uninstall.NoDeclines | src/uninstall.rs:222-225 | `n` declines and nothing is chosen |
| Uninstall.SelectDependenciesInteractively | src/uninstall.rs:169-188 | a cancelled or failed prompt gives nothing; otherwise the entries at the chosen indices, in order |
| Uninstall.SelectionFromList | src/uninstall.rs:180-184 | only listed dependencies are ever selected |
| Uninstall.ReinstallModules | src/uninstall.rs:29-55 | `node_modules` is removed iff it exists; install runs iff that removal did not fail, and it is then the last effect; success needs the install to succeed |
| Uninstall.SuccessesAreSucceededAttempts | src/uninstall.rs:126-139 | a dependency is deleted iff it was chosen and its removal command succeeded; no more deletions than attempts |
| Uninstall.SuccessesInOrder | src/uninstall.rs:126-139 | the deleted list is an order-preserving subsequence of the chosen list, at the positions `SuccessPositions` gives |
| Uninstall.SuccessPositionsExact | src/uninstall.rs:126-139 | those positions are exactly the ones whose removal command succeeds |
| Uninstall.HandleOutcome | src/uninstall.rs:92-146 | dry run does nothing; otherwise one removal command per chosen dependency in order, followed by the reinstall's effects exactly when something was deleted and by nothing else; nothing for an empty choice; deleted iff chosen and removed, in the order chosen |
| Uninstall.DeleteChosen | src/uninstall.rs:126-145 | the deletion loop runs the removal commands in order, collects the successes, then reinstalls iff any succeeded |
| Uninstall.HandleUnusedDependencies | src/uninstall.rs:92-146 | the effects and deleted list are those of `HandleResult`, whose properties `HandleOutcome` states |
| Cli.DeclaredDependencies | src/main.rs:88-91 | the declared names are the keys of the `dependencies` object, or none when it is missing or not an object |
| Cli.CollectUnused | src/main.rs:103-107 | no duplicates; a name is listed iff it is declared and neither used, required nor ignored |
| Cli.Run | src/main.rs:82-121 | a manifest that cannot be read or parsed ends the run before any scan; otherwise the unused list is the difference above, the used set is declared, and the removal step runs iff the unused list is non-empty |

## Left out

- File system access (reading files, `canonicalize`, `exists`, `remove_dir_all`, the glob walk) is replaced by inputs. `glob` gives the entries a pattern yields. A file's text is read once, when its entry is met; the source reads a TypeScript file again after the walk.
- Child processes (`tsc`, `<pm> install`, `<pm> uninstall|remove <dep>`) are replaced by their outcome. A command's success is a function of the command, so running the same command twice gives the same result.
- Which stream the compiler writes its diagnostics to is outside the model. The model takes the text of the stream the code reads, standard error, and skips the lossy UTF-8 decoding.
- The regex engine is replaced by hand-written matchers for the fixed patterns.
- ImportMatcher.ClauseSpan: `\w` is taken as ASCII letters, digits and `_`. The regex crate's Unicode `\w` also accepts other letters in a default import name.
- TscDiagnostics.ExtractFileAndLine: `\d` is taken as the ASCII digits. The regex crate also accepts other Unicode decimal digits, and on those the source's `parse` fails and gives no result.
- TscDiagnostics.ExtractPackageNameFromFileLine follows the evident intent of the five patterns: the combined-import pattern's `{` is read as a literal brace. As written, the regex crate rejects that pattern and `unwrap` panics (see Findings). `TscDiagnostics.MiddlePatternsNeverDecide` shows that the default, namespace and combined branches cannot change the result.
- TscDiagnostics.BracesAccepted checks only the rule for `{`, not the rest of the regex syntax.
- `is_typescript_project` and `TYPESCRIPT_EXTENSIONS` are not defined in the source files of this model. They are parameters (`isTsProject`, `tsExts`).
- `cfg!(target_os = "macos")` is the parameter `isMacos`.
- Console output is not modelled: the progress bars, colours, the printed report (src/report.rs, src/utils.rs), the dry-run listing and the warnings.
- Command-line parsing with clap is not modelled. `dryRun` and `interactive` are inputs.
- The prompts are inputs. The confirmation prompt is the text typed, and a failed stdin read, which panics, is not modelled. The interactive prompt is the list of chosen indices, or `None` when it is cancelled or fails; the prompt's all-unselected defaults are presentation.
- Uninstall.Confirms: lower-casing covers ASCII letters only. No other character lower-cases to `y`, `e` or `s`, so the decision is unchanged.
- `get_required_dependencies` is declared without parameters, yet `main` passes it the working directory. The model follows the declaration and reads the lockfiles of the working directory.
- The iteration order of Rust's `HashSet` is unspecified. `Cli.CollectUnused` picks the next element arbitrarily, and `Cli.Run` states the unused list up to order.
- The parsed JSON and YAML documents are reduced to the keys the code reads, in parser order. Serde parsing itself is not modelled.
- Dependency.RequiredDependencies uses the corrected `packages` key rule, `Dependency.PackagesKeyName`. The rule as written is `Dependency.PackagesKeyNameAsWritten` (see Findings).
- Dependency.GetRequiredDependencies records the scoped names of a package-lock.json `packages` object, which the code as written drops. `Dependency.PackagesNamesAsWrittenDropScoped` states the difference exactly.
- Dependency.InsertPackagesNames adds the names of the corrected key rule. The loop as written adds `Dependency.PackagesNamesAsWritten`, the same names without the scoped ones.
- The yarn.lock and pnpm rules follow the code rather than its tests. A quoted yarn entry keeps its quote, and the pnpm key `/react/18.2.0` gives `react/18.2.0`.

## Findings

| source | as written | input that shows it | evidently intended | confidence | as-written member | corrected member |
|---|---|---|---|---|---|---|
| src/dependency.rs:48-50 | for a `packages` key whose text after `/` starts with `@`, the scope branch takes `splitn(2, '@').next()`, the empty text before that leading `@` | the key `/@vercel/analytics@1.0.0` yields the empty name, which is dropped, so the scoped package is never required | the scoped name `@vercel/analytics`, up to the `@` that begins the version | not executed; follows from the definition of `splitn` | Dependency.PackagesKeyScopedDroppedAsWritten | Dependency.PackagesKeyNameRoundTrip |
| src/file_scanner.rs:378-379 | the combined-import pattern has an unescaped `{` right before `(`; the regex crate reads `{` as the start of a counted repetition, rejects the pattern, and `unwrap` panics; all five patterns are compiled before any is tried | a TS6133 diagnostic whose line is `import x from "y"` aborts the program | `{` as a literal brace, so that this line names `y` | not executed; depends on the regex crate's syntax for `{` | TscDiagnostics.CombinedPatternAborts | TscDiagnostics.NamedImportLineTarget |
