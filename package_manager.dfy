/** `detect_package_manager` (src/package_manager.rs:23-33): the package manager is chosen
    from the lockfiles present in the working directory, by a fixed priority. */
module PackageManager {
  import Dependency

  /** The names `detect_package_manager` can return; the same names select a command verb
      in `uninstall_dependency`. */
  const Supported: set<string> := {"pnpm", "yarn", "bun", "npm"}

  /** `pnpm-lock.yaml` wins over `yarn.lock`, which wins over `bun.lock`; without any of
      them the manager is npm. `package-lock.json` and `bun.lockb` are not consulted. */
  function DetectPackageManager(p: Dependency.LockfilePresence): (r: string)
    ensures r in Supported
    ensures r == "pnpm" <==> p.pnpmLock
    ensures r == "yarn" <==> !p.pnpmLock && p.yarnLock
    ensures r == "bun" <==> !p.pnpmLock && !p.yarnLock && p.bunLock
    ensures r == "npm" <==> !p.pnpmLock && !p.yarnLock && !p.bunLock
  {
    if p.pnpmLock then "pnpm"
    else if p.yarnLock then "yarn"
    else if p.bunLock then "bun"
    else "npm"
  }

  /** The presence of `package-lock.json` or `bun.lockb` never changes the result. */
  lemma UnconsultedLockfiles(p: Dependency.LockfilePresence, packageLock: bool, bunLockb: bool)
    ensures DetectPackageManager(p.(packageLock := packageLock, bunLockb := bunLockb)) == DetectPackageManager(p)
  {
    var q := p.(packageLock := packageLock, bunLockb := bunLockb);
    assert q.pnpmLock == p.pnpmLock && q.yarnLock == p.yarnLock && q.bunLock == p.bunLock;
  }
}
