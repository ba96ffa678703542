/** The lockfile resolver and the ignore-list reader (src/dependency.rs).

    The file system is replaced by inputs: which of the five lockfiles exist, and for each
    the outcome of reading and parsing it. A parsed JSON lockfile is reduced to the keys of
    its `dependencies` and `packages` objects, a parsed YAML lockfile to the keys of its
    `packages` mapping, in the order the parser yields them. */
module Dependency {
  import opened Strings

  datatype Lockfile = PackageLockJson | YarnLock | PnpmLockYaml | BunLock | BunLockb

  /** Which lockfiles exist in the project directory. */
  datatype LockfilePresence = LockfilePresence(
    packageLock: bool, yarnLock: bool, pnpmLock: bool, bunLock: bool, bunLockb: bool)

  /** Reading and parsing a file: the read fails, the parse fails, or the parsed document. */
  datatype Loaded<+T> = Unreadable | Malformed | Loaded(doc: T)

  /** A parsed JSON lockfile: the keys of its `dependencies` and of its `packages`
      objects; `None` when the field is missing or is not an object. */
  datatype JsonLock = JsonLock(dependencies: Option<seq<string>>, packages: Option<seq<string>>)

  /** A key of a YAML mapping: a string, or any other YAML value. */
  datatype YamlKey = StrKey(text: string) | OtherKey

  /** A parsed pnpm lockfile: the keys of its `packages` mapping, if it is one. */
  datatype YamlLock = YamlLock(packages: Option<seq<YamlKey>>)

  /** What reading each lockfile would give. yarn.lock is only read, never parsed. */
  datatype LockfileContents = LockfileContents(
    packageLock: Loaded<JsonLock>,
    yarnLock: Option<string>,
    pnpmLock: Loaded<YamlLock>,
    bunLock: Loaded<JsonLock>,
    bunLockb: Loaded<JsonLock>)

  /** The five lockfile names, in the order `get_required_dependencies` checks them. */
  const AllLockfiles: seq<Lockfile> := [PackageLockJson, YarnLock, PnpmLockYaml, BunLock, BunLockb]

  predicate IsPresent(p: LockfilePresence, l: Lockfile) {
    match l
    case PackageLockJson => p.packageLock
    case YarnLock => p.yarnLock
    case PnpmLockYaml => p.pnpmLock
    case BunLock => p.bunLock
    case BunLockb => p.bunLockb
  }

  /** The lockfiles of `ls` that exist, in the order of `ls`. */
  function FilterPresent(p: LockfilePresence, ls: seq<Lockfile>): (r: seq<Lockfile>)
    ensures forall l :: l in r <==> l in ls && IsPresent(p, l)
    ensures NoDup(ls) ==> NoDup(r)
    ensures |r| <= |ls|
  {
    if ls == [] then []
    else
      var rest := FilterPresent(p, ls[1..]);
      assert NoDup(ls) ==> ls[0] !in ls[1..] && NoDup(ls[1..]);
      if IsPresent(p, ls[0]) then [ls[0]] + rest else rest
  }

  /** The lockfiles that exist, in the order they are checked, each once. */
  function ExistingLockfiles(p: LockfilePresence): (r: seq<Lockfile>)
    ensures NoDup(r)
    ensures forall l :: l in r <==> IsPresent(p, l)
  {
    AllLockfilesListed();
    FilterPresent(p, AllLockfiles)
  }

  lemma AllLockfilesListed()
    ensures forall l :: l in AllLockfiles
  {
    forall l: Lockfile ensures l in AllLockfiles {
      match l
      case PackageLockJson => assert AllLockfiles[0] == l;
      case YarnLock => assert AllLockfiles[1] == l;
      case PnpmLockYaml => assert AllLockfiles[2] == l;
      case BunLock => assert AllLockfiles[3] == l;
      case BunLockb => assert AllLockfiles[4] == l;
    }
  }

  // ---------------------------------------------------------------------------
  // Per-format name rules

  /** A key of the `packages` object of package-lock.json, exactly as the code treats it:
      only a key starting with `/` contributes, and the name is the text before the first
      `@` after that slash. The branch meant for scoped keys (`k.splitn(2, '@').next()`)
      returns that same first field, which is empty when the key starts with `@`. */
  function PackagesKeyNameAsWritten(key: string): (r: Option<string>)
    ensures r.Some? <==> StartsWith(key, "/")
    ensures r.Some? ==> '@' !in r.value && StartsWith(key[1..], r.value)
    ensures r.Some? ==> |r.value| == |key| - 1 || key[1 + |r.value|] == '@'
    ensures StartsWith(key, "/@") ==> r == Some("")
  {
    if !StartsWith(key, "/") then None
    else
      var k := key[1..];
      if StartsWith(k, "@") then Some(BeforeFirst(k, '@'))
      else Some(BeforeFirst(k, '@'))
  }

  /** A scoped key such as `/@vercel/analytics@1.0.0` yields the empty name under the
      code as written, so the scoped package is dropped. */
  lemma PackagesKeyScopedDroppedAsWritten(name: string, version: string)
    requires StartsWith(name, "@")
    ensures PackagesKeyNameAsWritten("/" + name + "@" + version) == Some("")
    ensures PackagesKeyName("/" + name + "@" + version) != Some("")
  {
    var key := "/" + name + "@" + version;
    assert key[1..] == name + "@" + version;
    assert key[1..][..1] == name[..1];
  }

  /** A package name as it appears in a lockfile key: non-empty, and an `@` can only be
      its first character (the scope marker). */
  predicate IsPackageName(name: string) {
    name != "" && '@' !in name[1..]
  }

  /** The corrected rule for a `packages` key: a key starting with `/` contributes, and
      the name runs up to the `@` that begins the version, keeping a leading scope `@`. */
  function PackagesKeyName(key: string): (r: Option<string>)
    ensures r.Some? <==> StartsWith(key, "/")
    ensures r.Some? ==> StartsWith(key[1..], r.value)
    ensures r.Some? && r.value != "" ==> '@' !in r.value[1..]
    ensures r.Some? ==> |r.value| == |key| - 1 || key[1 + |r.value|] == '@'
  {
    if !StartsWith(key, "/") then None
    else
      var k := key[1..];
      if StartsWith(k, "@") then
        var rest := BeforeFirst(k[1..], '@');
        assert k[..1 + |rest|] == [k[0]] + k[1..][..|rest|];
        Some("@" + rest)
      else Some(BeforeFirst(k, '@'))
  }

  /** The corrected rule recovers every (scoped or unscoped) name from `/<name>@<version>`. */
  lemma {:induction false} PackagesKeyNameRoundTrip(name: string, version: string)
    requires IsPackageName(name)
    ensures PackagesKeyName("/" + name + "@" + version) == Some(name)
  {
    var key := "/" + name + "@" + version;
    var k := key[1..];
    assert k == name + "@" + version;
    if StartsWith(k, "@") {
      assert k[1..] == name[1..] + "@" + version;
      BeforeFirstUpTo(name[1..], version);
      assert "@" + name[1..] == name;
    } else {
      assert '@' !in name by {
        assert name == [name[0]] + name[1..];
      }
      BeforeFirstUpTo(name, version);
    }
  }

  /** Splitting `a@b` at its first `@` gives `a` when `a` holds no `@`. */
  lemma BeforeFirstUpTo(a: string, b: string)
    requires '@' !in a
    ensures BeforeFirst(a + "@" + b, '@') == a
  {
    var s := a + "@" + b;
    assert s[|a|] == '@';
    assert s[..|a|] == a;
  }

  /** A yarn.lock line: `Some(name)` for a line that ends with `:` and does not start with
      `#` (the name may be empty), `None` for any other line. */
  function YarnLineName(line: string): (r: Option<string>)
    ensures r.Some? <==> EndsWith(line, ":") && !StartsWith(line, "#")
    ensures r.Some? ==> r.value == YarnEntryName(YarnEntry(line))
  {
    if EndsWith(line, ":") && !StartsWith(line, "#") && Trim(line) != "" then
      Some(YarnEntryName(YarnEntry(line)))
    else
      assert EndsWith(line, ":") ==> Trim(line) != "" by {
        if EndsWith(line, ":") { TrimKeepsNonWhitespace(line, |line| - 1); }
      }
      None
  }

  /** The entry text of a yarn.lock line: trailing colons removed, then trimmed. */
  function YarnEntry(line: string): string {
    Trim(TrimEndChar(line, ':'))
  }

  /** The name of a yarn.lock entry: for an entry starting with `@`, the text before its
      last `@`; for any other entry, the text before its first `@`. */
  function YarnEntryName(dep: string): (r: string)
    ensures StartsWith(dep, r)
    ensures !StartsWith(dep, "@") ==> '@' !in r && (|r| == |dep| || dep[|r|] == '@')
    ensures StartsWith(dep, "@") ==> |r| < |dep| && dep[|r|] == '@' && '@' !in dep[|r| + 1..]
  {
    assert StartsWith(dep, "@") ==> dep[0] == '@' && '@' in dep;
    if '@' in dep && StartsWith(dep, "@") then BeforeLast(dep, '@')
    else BeforeFirst(dep, '@')
  }

  /** Trimming never removes a non-whitespace character, so it leaves a non-empty string. */
  lemma TrimKeepsNonWhitespace(s: string, i: nat)
    requires i < |s| && !IsWhitespace(s[i])
    ensures Trim(s) != ""
  {
    var t := TrimStart(s);
    assert i >= |s| - |t|;
    assert t[i - (|s| - |t|)] == s[i];
    var r := TrimEnd(t);
    assert |r| > i - (|s| - |t|);
  }

  /** A key of the pnpm `packages` mapping: one leading `/` removed, then the text before
      the first `@`. */
  function PnpmKeyName(key: string): (r: string)
    ensures '@' !in r
    ensures StartsWith(PnpmKeyBody(key), r)
    ensures |r| == |PnpmKeyBody(key)| || PnpmKeyBody(key)[|r|] == '@'
  {
    BeforeFirst(PnpmKeyBody(key), '@')
  }

  /** A pnpm key without its optional leading `/`. */
  function PnpmKeyBody(key: string): string {
    if StartsWith(key, "/") then key[1..] else key
  }

  // ---------------------------------------------------------------------------
  // The names each format contributes

  function NonEmptyKeys(keys: seq<string>): set<string> {
    set k | k in keys && k != ""
  }

  function PackagesNames(keys: seq<string>): set<string> {
    set k | k in keys && PackagesKeyName(k).Some? && PackagesKeyName(k).value != "" :: PackagesKeyName(k).value
  }

  /** The names the loop over the `packages` keys records as written. */
  function PackagesNamesAsWritten(keys: seq<string>): set<string> {
    set k | k in keys && PackagesKeyNameAsWritten(k).Some? && PackagesKeyNameAsWritten(k).value != ""
      :: PackagesKeyNameAsWritten(k).value
  }

  /** The two key rules agree on every key that is not scoped, and on a scoped key the
      code as written records nothing where the corrected rule records a name with a leading `@`. */
  lemma KeyRulesAgree(key: string)
    ensures PackagesKeyNameAsWritten(key).Some? && PackagesKeyNameAsWritten(key).value != ""
      ==> PackagesKeyName(key) == PackagesKeyNameAsWritten(key) && !StartsWith(PackagesKeyName(key).value, "@")
    ensures PackagesKeyName(key).Some? && PackagesKeyName(key).value != "" && !StartsWith(PackagesKeyName(key).value, "@")
      ==> PackagesKeyNameAsWritten(key) == PackagesKeyName(key)
  {
    if StartsWith(key, "/") {
      var k := key[1..];
      if StartsWith(k, "@") {
        assert StartsWith(key, "/@") by { assert key[..2] == [key[0]] + k[..1]; }
        assert PackagesKeyName(key).value[0] == '@';
      } else {
        var w := PackagesKeyNameAsWritten(key).value;
        assert w != "" ==> w[0] == k[0];
      }
    }
  }

  /** As written, the `packages` loop records exactly the names of the corrected rule that
      are not scoped: every scoped package of a package-lock.json is lost. */
  lemma PackagesNamesAsWrittenDropScoped(keys: seq<string>)
    ensures PackagesNamesAsWritten(keys) == set n | n in PackagesNames(keys) && !StartsWith(n, "@")
  {
    forall n | n in PackagesNamesAsWritten(keys) ensures n in PackagesNames(keys) && !StartsWith(n, "@") {
      var k :| k in keys && PackagesKeyNameAsWritten(k).Some? && PackagesKeyNameAsWritten(k).value == n && n != "";
      KeyRulesAgree(k);
    }
    forall n | n in PackagesNames(keys) && !StartsWith(n, "@") ensures n in PackagesNamesAsWritten(keys) {
      var k :| k in keys && PackagesKeyName(k).Some? && PackagesKeyName(k).value == n && n != "";
      KeyRulesAgree(k);
    }
  }

  function YarnNames(lines: seq<string>): set<string> {
    set l | l in lines && YarnLineName(l).Some? && YarnLineName(l).value != "" :: YarnLineName(l).value
  }

  function PnpmNames(keys: seq<YamlKey>): set<string> {
    set k | k in keys && k.StrKey? && PnpmKeyName(k.text) != "" :: PnpmKeyName(k.text)
  }

  /** The names of a parsed JSON lockfile's object, if present. */
  function KeysOf(keys: Option<seq<string>>): seq<string> {
    keys.GetOr([])
  }

  /** The required set: empty unless exactly one lockfile exists; then the names that
      lockfile records. A package-lock.json that does not parse gives the empty set even
      though an unreadable one also gives nothing. */
  function RequiredDependencies(p: LockfilePresence, c: LockfileContents): (r: set<string>)
    ensures |ExistingLockfiles(p)| != 1 ==> r == {}
    ensures forall n | n in r :: n != ""
    ensures ExistingLockfiles(p) == [PackageLockJson] && !c.packageLock.Loaded? ==> r == {}
  {
    var existing := ExistingLockfiles(p);
    if |existing| != 1 then {}
    else match existing[0]
      case PackageLockJson =>
        (match c.packageLock
         case Loaded(lock) => NonEmptyKeys(KeysOf(lock.dependencies)) + PackagesNames(KeysOf(lock.packages))
         case _ => {})
      case YarnLock =>
        (match c.yarnLock
         case Some(text) => YarnNames(Lines(text))
         case None => {})
      case PnpmLockYaml =>
        (match c.pnpmLock
         case Loaded(yaml) => PnpmNames(yaml.packages.GetOr([]))
         case _ => {})
      case BunLock =>
        (match c.bunLock
         case Loaded(lock) => NonEmptyKeys(KeysOf(lock.packages))
         case _ => {})
      case BunLockb =>
        (match c.bunLockb
         case Loaded(lock) => NonEmptyKeys(KeysOf(lock.packages))
         case _ => {})
  }

  // ---------------------------------------------------------------------------
  // get_required_dependencies: the per-format loops that fill `required`

  method GetRequiredDependencies(p: LockfilePresence, c: LockfileContents) returns (required: set<string>)
    ensures required == RequiredDependencies(p, c)
  {
    required := {};
    var existing := ExistingLockfiles(p);
    if |existing| > 1 {
      // a warning naming the lockfiles is printed
      return {};
    }
    if |existing| == 1 {
      match existing[0]
      case PackageLockJson =>
        match c.packageLock {
          case Unreadable =>
          case Malformed =>
            return {};
          case Loaded(lock) =>
            if lock.dependencies.Some? {
              required := ExtendNonEmpty(required, lock.dependencies.value);
            }
            if lock.packages.Some? {
              required := InsertPackagesNames(required, lock.packages.value);
            }
        }
      case YarnLock =>
        if c.yarnLock.Some? {
          required := InsertYarnNames(required, Lines(c.yarnLock.value));
        }
      case PnpmLockYaml =>
        if c.pnpmLock.Loaded? && c.pnpmLock.doc.packages.Some? {
          required := InsertPnpmNames(required, c.pnpmLock.doc.packages.value);
        }
      case BunLock =>
        if c.bunLock.Loaded? && c.bunLock.doc.packages.Some? {
          required := ExtendNonEmpty(required, c.bunLock.doc.packages.value);
        }
      case BunLockb =>
        if c.bunLockb.Loaded? && c.bunLockb.doc.packages.Some? {
          required := ExtendNonEmpty(required, c.bunLockb.doc.packages.value);
        }
    }
  }

  /** `required.extend(keys.filter(|k| !k.is_empty()))`. */
  method ExtendNonEmpty(acc: set<string>, keys: seq<string>) returns (r: set<string>)
    ensures r == acc + NonEmptyKeys(keys)
  {
    r := acc;
    for i := 0 to |keys|
      invariant r == acc + NonEmptyKeys(keys[..i])
    {
      assert keys[..i + 1] == keys[..i] + [keys[i]];
      if keys[i] != "" {
        r := r + {keys[i]};
      }
    }
    assert keys[..|keys|] == keys;
  }

  /** The loop over the `packages` keys of package-lock.json. */
  method InsertPackagesNames(acc: set<string>, keys: seq<string>) returns (r: set<string>)
    ensures r == acc + PackagesNames(keys)
  {
    r := acc;
    for i := 0 to |keys|
      invariant r == acc + PackagesNames(keys[..i])
    {
      assert keys[..i + 1] == keys[..i] + [keys[i]];
      var name := PackagesKeyName(keys[i]);
      if name.Some? && name.value != "" {
        r := r + {name.value};
      }
    }
    assert keys[..|keys|] == keys;
  }

  /** The loop over the lines of yarn.lock. */
  method InsertYarnNames(acc: set<string>, lines: seq<string>) returns (r: set<string>)
    ensures r == acc + YarnNames(lines)
  {
    r := acc;
    assert lines[..|lines|] == lines;
    for i := 0 to |lines|
      invariant r == acc + YarnNames(lines[..i])
    {
      var name := YarnLineName(lines[i]);
      YarnNamesStep(lines, i);
      r := if name.Some? && name.value != "" then r + {name.value} else r;
    }
  }

  /** The loop over the keys of the pnpm `packages` mapping. */
  method InsertPnpmNames(acc: set<string>, keys: seq<YamlKey>) returns (r: set<string>)
    ensures r == acc + PnpmNames(keys)
  {
    r := acc;
    for i := 0 to |keys|
      invariant r == acc + PnpmNames(keys[..i])
    {
      assert keys[..i + 1] == keys[..i] + [keys[i]];
      if keys[i].StrKey? {
        var name := PnpmKeyName(keys[i].text);
        if name != "" {
          r := r + {name};
        }
      }
    }
    assert keys[..|keys|] == keys;
  }

  lemma YarnNamesStep(lines: seq<string>, i: nat)
    requires i < |lines|
    ensures var l := lines[i];
      YarnNames(lines[..i + 1])
      == YarnNames(lines[..i]) + (if YarnLineName(l).Some? && YarnLineName(l).value != "" then {YarnLineName(l).value} else {})
  {
    assert lines[..i + 1] == lines[..i] + [lines[i]];
  }

  // ---------------------------------------------------------------------------
  // read_cnpignore

  /** The ignore list: every trimmed line of `.cnpignore` that is neither empty nor starts
      with `#`; a missing file gives the empty set. Text after a `#` inside a line is kept. */
  function ReadCnpignore(content: Option<string>): (r: set<string>)
    ensures content.None? ==> r == {}
  {
    match content
    case None => {}
    case Some(text) =>
      set l | l in Lines(text) && Trim(l) != "" && !StartsWith(Trim(l), "#") :: Trim(l)
  }

  /** Every ignored name is non-empty, is not a comment, and is already trimmed. */
  lemma IgnoreEntriesAreTrimmed(content: Option<string>)
    ensures forall n | n in ReadCnpignore(content) :: n != "" && !StartsWith(n, "#") && Trim(n) == n
  {
    forall n | n in ReadCnpignore(content)
      ensures Trim(n) == n
    {
      var l :| l in Lines(content.value) && n == Trim(l);
      TrimIdempotent(l);
    }
  }

  /** A name that `.cnpignore` can list on a line of its own. */
  predicate IsIgnoreName(n: string) {
    n != "" && Trim(n) == n && !StartsWith(n, "#") && '\n' !in n
  }

  /** The ignore file that lists `names`, one per line, each line ended by `\n`. */
  function IgnoreFile(names: seq<string>): string {
    if names == [] then "" else names[0] + "\n" + IgnoreFile(names[1..])
  }

  /** Writing names one per line and reading the file back gives exactly those names. */
  lemma IgnoreFileRoundTrip(names: seq<string>)
    requires forall n | n in names :: IsIgnoreName(n)
    ensures ReadCnpignore(Some(IgnoreFile(names))) == Elems(names)
  {
    IgnoreFileLines(names);
    forall n | n in names ensures Trim(n) == n && Trim(n) != "" && !StartsWith(Trim(n), "#") { }
  }

  lemma LastNotWhitespace(n: string)
    requires IsIgnoreName(n)
    ensures DropCr(n) == n
  {
    assert !IsWhitespace(Trim(n)[|n| - 1]);
  }

  lemma {:induction false} IgnoreFileLines(names: seq<string>)
    requires forall n | n in names :: IsIgnoreName(n)
    ensures Lines(IgnoreFile(names)) == names
  {
    if names != [] {
      var n, tail := names[0], names[1..];
      assert IsIgnoreName(n);
      LastNotWhitespace(n);
      assert forall m | m in tail :: m in names;
      IgnoreFileLines(tail);
      assert IgnoreFile(names) == n + "\n" + IgnoreFile(tail);
      LinesCons(n, IgnoreFile(tail));
      assert names == [n] + tail;
    }
  }
}
