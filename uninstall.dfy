/** The removal of unused dependencies (src/uninstall.rs). Commands, the prompt and the
    file system are replaced by inputs: the text typed at the confirmation prompt, the
    indices chosen in the interactive list (or `None` when it is cancelled or fails), whether
    `node_modules` exists and can be removed, and an oracle telling whether a command run
    exits successfully. What the step does to the outside world is returned as a log. */
module Uninstall {
  import opened Strings
  import Dependency
  import PackageManager

  /** A child process: the program and its arguments. */
  datatype Command = Command(program: string, args: seq<string>)

  /** An action on the outside world: removing `node_modules`, or running a command. */
  datatype Effect = RemoveNodeModules | Run(command: Command)

  /** The world the step acts on. `succeeds` says whether running a command gives a
      successful exit status (a command that cannot be spawned does not succeed). */
  datatype Env = Env(
    lockfiles: Dependency.LockfilePresence,
    nodeModulesExists: bool,
    removeSucceeds: bool,
    succeeds: Command -> bool)

  // ---------------------------------------------------------------------------
  // uninstall_dependency

  /** The subcommand that removes a dependency: `uninstall` for npm, `remove` for pnpm,
      yarn and bun, none for any other manager. */
  function UninstallVerb(pm: string): (r: Option<string>)
    ensures r == Some("uninstall") <==> pm == "npm"
    ensures r == Some("remove") <==> pm in {"pnpm", "yarn", "bun"}
    ensures r.None? <==> pm !in PackageManager.Supported
  {
    match pm
    case "npm" => Some("uninstall")
    case "pnpm" => Some("remove")
    case "yarn" => Some("remove")
    case "bun" => Some("remove")
    case _ => None
  }

  /** The command that removes `dep` with a supported manager. */
  function UninstallCommand(dep: string, pm: string): Command
    requires pm in PackageManager.Supported
  {
    Command(pm, [UninstallVerb(pm).value, dep])
  }

  /** `uninstall_dependency`: the effects and whether the dependency was removed. An
      unsupported manager runs nothing and fails; otherwise exactly the removal command
      runs and its exit status decides. */
  function UninstallDependency(dep: string, pm: string, succeeds: Command -> bool): (r: (seq<Effect>, bool))
    ensures pm !in PackageManager.Supported ==> r == ([], false)
    ensures pm in PackageManager.Supported ==>
      r.0 == [Run(UninstallCommand(dep, pm))] && (r.1 <==> succeeds(UninstallCommand(dep, pm)))
  {
    match UninstallVerb(pm)
    case None => ([], false)
    case Some(verb) =>
      var command := Command(pm, [verb, dep]);
      ([Run(command)], succeeds(command))
  }

  /** A detected manager is always supported, so removal never takes the unsupported
      branch in the uninstall step. */
  lemma DetectedManagerHasVerb(p: Dependency.LockfilePresence)
    ensures UninstallVerb(PackageManager.DetectPackageManager(p)).Some?
  {
    var pm := PackageManager.DetectPackageManager(p);
    assert pm in PackageManager.Supported;
  }

  // ---------------------------------------------------------------------------
  // The two ways of choosing what to delete

  /** The confirmation prompt accepts `y` or `yes`, in any case and with surrounding
      whitespace. */
  predicate Confirms(input: string) {
    var answer := ToLower(Trim(input));
    answer == "y" || answer == "yes"
  }

  /** `confirm_all_deletion`: everything on confirmation, nothing otherwise. */
  function ConfirmAllDeletion(unused: seq<string>, input: string): (r: seq<string>)
    ensures Confirms(input) ==> r == unused
    ensures !Confirms(input) ==> r == []
  {
    if Confirms(input) then unused else []
  }

  /** An upper-case answer followed by a line break confirms. */
  lemma UpperCaseConfirms(unused: seq<string>, input: string)
    requires input == "YES\n"
    ensures ConfirmAllDeletion(unused, input) == unused
  {
    assert input == "YES" + "\n" && ToLower("YES") == "yes";
    PaddedAnswer([], "YES", "\n");
  }

  /** A padded `y` confirms. */
  lemma PaddedYConfirms(unused: seq<string>, input: string)
    requires input == " y "
    ensures ConfirmAllDeletion(unused, input) == unused
  {
    assert input == " " + "y" + " " && ToLower("y") == "y";
    PaddedAnswer(" ", "y", " ");
  }

  /** `n` declines. */
  lemma NoDeclines(unused: seq<string>, input: string)
    requires input == "n\n"
    ensures ConfirmAllDeletion(unused, input) == []
  {
    assert input == "n" + "\n" && ToLower("n") == "n";
    PaddedAnswer([], "n", "\n");
  }

  /** Whitespace around the answer does not matter. */
  lemma PaddedAnswer(pre: string, answer: string, post: string)
    requires forall i | 0 <= i < |pre| :: IsWhitespace(pre[i])
    requires forall i | 0 <= i < |post| :: IsWhitespace(post[i])
    requires answer != [] && !IsWhitespace(answer[0]) && !IsWhitespace(answer[|answer| - 1])
    ensures Confirms(pre + answer + post) <==> ToLower(answer) == "y" || ToLower(answer) == "yes"
  {
    TrimAround(pre, answer, post);
  }

  /** `select_dependencies_interactively`: the entries at the chosen indices, in the order
      the prompt reports them; nothing when the prompt is cancelled or fails. The prompt
      only reports indices of the listed entries. */
  function SelectDependenciesInteractively(unused: seq<string>, selection: Option<seq<nat>>): (r: seq<string>)
    requires selection.Some? ==> forall k | 0 <= k < |selection.value| :: selection.value[k] < |unused|
    ensures selection.None? ==> r == []
    ensures selection.Some? ==>
      (|r| == |selection.value| && forall k | 0 <= k < |r| :: r[k] == unused[selection.value[k]])
  {
    match selection
    case None => []
    case Some(indices) => seq(|indices|, k requires 0 <= k < |indices| => unused[indices[k]])
  }

  /** Only listed entries are ever selected. */
  lemma SelectionFromList(unused: seq<string>, selection: Option<seq<nat>>)
    requires selection.Some? ==> forall k | 0 <= k < |selection.value| :: selection.value[k] < |unused|
    ensures forall d | d in SelectDependenciesInteractively(unused, selection) :: d in unused
  {
    var r := SelectDependenciesInteractively(unused, selection);
    forall d | d in r ensures d in unused {
      var k :| 0 <= k < |r| && r[k] == d;
      assert unused[selection.value[k]] == d;
    }
  }

  /** The entries chosen for deletion. */
  function ToDelete(unused: seq<string>, interactive: bool, input: string, selection: Option<seq<nat>>): seq<string>
    requires selection.Some? ==> forall k | 0 <= k < |selection.value| :: selection.value[k] < |unused|
  {
    if interactive then SelectDependenciesInteractively(unused, selection)
    else ConfirmAllDeletion(unused, input)
  }

  // ---------------------------------------------------------------------------
  // reinstall_modules

  /** `reinstall_modules`: removes `node_modules` when it exists and, unless that fails,
      runs `<manager> install`; the effects and whether both steps succeeded. */
  function ReinstallModules(env: Env): (r: (seq<Effect>, bool))
    ensures var install := Run(Command(PackageManager.DetectPackageManager(env.lockfiles), ["install"]));
      && r.0 != []
      && (RemoveNodeModules in r.0 <==> env.nodeModulesExists)
      && (install in r.0 <==> !(env.nodeModulesExists && !env.removeSucceeds))
      && (install in r.0 ==> r.0[|r.0| - 1] == install)
      && (r.1 <==> install in r.0 && env.succeeds(install.command))
  {
    var removal := if env.nodeModulesExists then [RemoveNodeModules] else [];
    if env.nodeModulesExists && !env.removeSucceeds then (removal, false)
    else
      var install := Command(PackageManager.DetectPackageManager(env.lockfiles), ["install"]);
      (removal + [Run(install)], env.succeeds(install))
  }

  /** Reinstalling acts on `node_modules` or runs the install command, or both. */
  predicate Reinstalls(effects: seq<Effect>, pm: string) {
    RemoveNodeModules in effects || Run(Command(pm, ["install"])) in effects
  }

  // ---------------------------------------------------------------------------
  // handle_unused_dependencies

  /** The removal commands run for `deps`, one per entry, in order. */
  function UninstallCommands(deps: seq<string>, pm: string): (r: seq<Effect>)
    requires pm in PackageManager.Supported
    ensures |r| == |deps|
  {
    seq(|deps|, k requires 0 <= k < |deps| => Run(UninstallCommand(deps[k], pm)))
  }

  /** The entries of `deps` whose removal succeeds, in order. */
  function Successes(deps: seq<string>, pm: string, succeeds: Command -> bool): seq<string>
    requires pm in PackageManager.Supported
    decreases |deps|
  {
    if deps == [] then []
    else
      var last := deps[|deps| - 1];
      Successes(deps[..|deps| - 1], pm, succeeds) + (if succeeds(UninstallCommand(last, pm)) then [last] else [])
  }

  /** A dependency is deleted exactly when it was chosen and its removal command succeeds,
      and no more deletions are reported than attempts were made. */
  lemma {:induction false} SuccessesAreSucceededAttempts(deps: seq<string>, pm: string, succeeds: Command -> bool)
    requires pm in PackageManager.Supported
    ensures |Successes(deps, pm, succeeds)| <= |deps|
    ensures forall d :: d in Successes(deps, pm, succeeds) <==> d in deps && succeeds(UninstallCommand(d, pm))
    decreases |deps|
  {
    if deps != [] {
      var init := deps[..|deps| - 1];
      SuccessesAreSucceededAttempts(init, pm, succeeds);
      assert deps == init + [deps[|deps| - 1]];
    }
  }

  /** `idx` lists positions of `b`, strictly increasing, at which `b` holds `a`: `a` is an
      order-preserving subsequence of `b`. */
  predicate Picks<T(==)>(idx: seq<nat>, a: seq<T>, b: seq<T>) {
    && |idx| == |a|
    && (forall k | 0 <= k < |idx| :: idx[k] < |b| && b[idx[k]] == a[k])
    && (forall k, l | 0 <= k < l < |idx| :: idx[k] < idx[l])
  }

  /** The positions in `deps` of the successful removals, in increasing order. */
  function SuccessPositions(deps: seq<string>, pm: string, succeeds: Command -> bool): (idx: seq<nat>)
    requires pm in PackageManager.Supported
    ensures forall k | 0 <= k < |idx| :: idx[k] < |deps|
    decreases |deps|
  {
    if deps == [] then []
    else
      var n := |deps| - 1;
      SuccessPositions(deps[..n], pm, succeeds) + (if succeeds(UninstallCommand(deps[n], pm)) then [n] else [])
  }

  /** The deleted list is the entries at the positions of the successful removals, in order. */
  lemma {:induction false} SuccessesInOrder(deps: seq<string>, pm: string, succeeds: Command -> bool)
    requires pm in PackageManager.Supported
    ensures Picks(SuccessPositions(deps, pm, succeeds), Successes(deps, pm, succeeds), deps)
    decreases |deps|
  {
    if deps != [] {
      var n := |deps| - 1;
      var init := SuccessPositions(deps[..n], pm, succeeds);
      var a := Successes(deps[..n], pm, succeeds);
      SuccessesInOrder(deps[..n], pm, succeeds);
      var ok := succeeds(UninstallCommand(deps[n], pm));
      var idx := init + (if ok then [n] else []);
      var b := a + (if ok then [deps[n]] else []);
      assert idx == SuccessPositions(deps, pm, succeeds);
      assert b == Successes(deps, pm, succeeds);
      forall k | 0 <= k < |idx| ensures idx[k] < |deps| && deps[idx[k]] == b[k] {
        if k < |init| {
          assert deps[..n][init[k]] == a[k];
        }
      }
    }
  }

  /** Exactly the positions whose removal command succeeds are listed. */
  lemma {:induction false} SuccessPositionsExact(deps: seq<string>, pm: string, succeeds: Command -> bool)
    requires pm in PackageManager.Supported
    ensures forall i | 0 <= i < |deps| :: i in SuccessPositions(deps, pm, succeeds) <==> succeeds(UninstallCommand(deps[i], pm))
    decreases |deps|
  {
    if deps != [] {
      var n := |deps| - 1;
      SuccessPositionsExact(deps[..n], pm, succeeds);
      var init := SuccessPositions(deps[..n], pm, succeeds);
      assert forall k | 0 <= k < |init| :: init[k] < n;
      forall i | 0 <= i < n ensures i in init <==> succeeds(UninstallCommand(deps[i], pm)) {
        assert deps[..n][i] == deps[i];
      }
    }
  }

  /** Deleting `chosen` one by one with `pm`, then reinstalling if any deletion succeeded. */
  function DeletionEffects(chosen: seq<string>, pm: string, env: Env): seq<Effect>
    requires pm in PackageManager.Supported
  {
    var deleted := Successes(chosen, pm, env.succeeds);
    UninstallCommands(chosen, pm) + (if deleted != [] then ReinstallModules(env).0 else [])
  }

  /** What the whole step does: the effects in order, and the dependencies deleted. */
  function HandleResult(unused: seq<string>, dryRun: bool, interactive: bool, input: string,
                        selection: Option<seq<nat>>, env: Env): (seq<Effect>, seq<string>)
    requires selection.Some? ==> forall k | 0 <= k < |selection.value| :: selection.value[k] < |unused|
  {
    if dryRun then ([], [])
    else
      var pm := PackageManager.DetectPackageManager(env.lockfiles);
      var chosen := ToDelete(unused, interactive, input, selection);
      if chosen == [] then ([], [])
      else (DeletionEffects(chosen, pm, env), Successes(chosen, pm, env.succeeds))
  }

  /** In dry-run mode nothing is done. Otherwise each chosen dependency gets exactly one
      removal command, in order, with the detected manager, and nothing else follows but the
      reinstall, exactly when something was deleted; an empty choice does nothing; the
      deleted list holds the chosen dependencies whose command succeeded, in their order. */
  lemma {:induction false} HandleOutcome(unused: seq<string>, dryRun: bool, interactive: bool, input: string,
                                         selection: Option<seq<nat>>, env: Env)
    requires selection.Some? ==> forall k | 0 <= k < |selection.value| :: selection.value[k] < |unused|
    ensures var (effects, deleted) := HandleResult(unused, dryRun, interactive, input, selection, env);
      && (dryRun ==> effects == [] && deleted == [])
      && (!dryRun ==>
        var pm := PackageManager.DetectPackageManager(env.lockfiles);
        var chosen := ToDelete(unused, interactive, input, selection);
        && |chosen| <= |effects|
        && effects[..|chosen|] == UninstallCommands(chosen, pm)
        && (chosen == [] ==> effects == [])
        && (forall d :: d in deleted <==> d in chosen && env.succeeds(UninstallCommand(d, pm)))
        && Picks(SuccessPositions(chosen, pm, env.succeeds), deleted, chosen)
        && effects[|chosen|..] == (if deleted != [] then ReinstallModules(env).0 else [])
        && (Reinstalls(effects[|chosen|..], pm) <==> deleted != []))
  {
    if !dryRun {
      var pm := PackageManager.DetectPackageManager(env.lockfiles);
      var chosen := ToDelete(unused, interactive, input, selection);
      SuccessesAreSucceededAttempts(chosen, pm, env.succeeds);
      SuccessesInOrder(chosen, pm, env.succeeds);
      if chosen == [] {
        assert Successes(chosen, pm, env.succeeds) == [];
        assert UninstallCommands(chosen, pm) == [];
      } else {
        var effects := DeletionEffects(chosen, pm, env);
        var commands := UninstallCommands(chosen, pm);
        assert effects[..|chosen|] == commands;
        CommandsDoNotReinstall(chosen, pm);
        var rest := effects[|chosen|..];
        assert effects == commands + rest;
        ReinstallsAppend(commands, rest, pm);
      }
    }
  }

  lemma ReinstallsAppend(a: seq<Effect>, b: seq<Effect>, pm: string)
    ensures Reinstalls(a + b, pm) <==> Reinstalls(a, pm) || Reinstalls(b, pm)
  {
  }

  /** `handle_unused_dependencies`. In dry-run mode nothing happens besides the listing.
      Otherwise the dependencies to delete are chosen, each is removed once in order with
      the detected manager, the successful ones are collected, and `node_modules` is
      reinstalled if any succeeded. */
  method HandleUnusedDependencies(
    unused: seq<string>, dryRun: bool, interactive: bool, input: string,
    selection: Option<seq<nat>>, env: Env)
    returns (effects: seq<Effect>, deleted: seq<string>)
    requires selection.Some? ==> forall k | 0 <= k < |selection.value| :: selection.value[k] < |unused|
    ensures (effects, deleted) == HandleResult(unused, dryRun, interactive, input, selection, env)
  {
    if dryRun {
      // the dependencies that would be deleted are listed
      return [], [];
    }
    var pm := PackageManager.DetectPackageManager(env.lockfiles);
    var chosen := if interactive then SelectDependenciesInteractively(unused, selection)
                  else ConfirmAllDeletion(unused, input);
    assert chosen == ToDelete(unused, interactive, input, selection);
    effects, deleted := [], [];
    if chosen == [] {
      return;
    }
    effects, deleted := DeleteChosen(chosen, pm, env);
  }

  /** The deletion loop of `handle_unused_dependencies` and the reinstall after it. */
  method DeleteChosen(chosen: seq<string>, pm: string, env: Env) returns (effects: seq<Effect>, deleted: seq<string>)
    requires pm in PackageManager.Supported
    ensures effects == DeletionEffects(chosen, pm, env)
    ensures deleted == Successes(chosen, pm, env.succeeds)
  {
    effects, deleted := [], [];
    for i := 0 to |chosen|
      invariant effects == UninstallCommands(chosen[..i], pm)
      invariant deleted == Successes(chosen[..i], pm, env.succeeds)
    {
      assert chosen[..i + 1][..i] == chosen[..i];
      var (attempt, ok) := UninstallDependency(chosen[i], pm, env.succeeds);
      effects := effects + attempt;
      if ok {
        deleted := deleted + [chosen[i]];
      }
    }
    assert chosen[..|chosen|] == chosen;
    if deleted != [] {
      var (reinstall, _) := ReinstallModules(env);
      effects := effects + reinstall;
    }
  }

  /** Removal commands neither touch `node_modules` nor run `install`. */
  lemma CommandsDoNotReinstall(deps: seq<string>, pm: string)
    requires pm in PackageManager.Supported
    ensures !Reinstalls(UninstallCommands(deps, pm), pm)
  {
    var cs := UninstallCommands(deps, pm);
    forall k | 0 <= k < |cs| ensures cs[k] != Run(Command(pm, ["install"])) {
      assert |cs[k].command.args| == 2;
    }
  }
}
