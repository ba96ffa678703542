/** The project walk of `scan_files` (src/file_scanner.rs:136-208) and the path helpers it
    uses. The file system is an input: what the glob of each pattern yields, each entry with
    what the file system reports about it. */
module FileScanner {
  import opened Strings
  import Config
  import ImportMatcher
  import TscDiagnostics

  // ---------------------------------------------------------------------------
  // Paths

  /** `normalize_path`: the canonical path when canonicalisation succeeds, else the path as
      displayed; on macOS a leading `/private` is removed once. */
  function NormalizePath(display: string, canonical: Option<string>, isMacos: bool): (r: string)
    ensures var s := canonical.GetOr(display);
      if isMacos && StartsWith(s, "/private") then s == "/private" + r else r == s
  {
    var s := canonical.GetOr(display);
    if isMacos && StartsWith(s, "/private") then s[8..] else s
  }

  /** On macOS `/private/tmp/file.txt` becomes `/tmp/file.txt`; elsewhere nothing changes. */
  lemma PrivatePrefixStripped(display: string, rest: string)
    ensures NormalizePath(display, Some("/private" + rest), true) == rest
    ensures NormalizePath(display, Some("/private" + rest), false) == "/private" + rest
  {
    assert StartsWith("/private" + rest, "/private");
  }

  /** `should_ignore`: some component of the path equals one of the ignored folder names. */
  function ShouldIgnore(components: seq<string>): (r: bool)
    ensures r <==> exists i | 0 <= i < |components| :: components[i] in Config.IgnoreFolders
  {
    if components == [] then false
    else if components[0] in Config.IgnoreFolders then true
    else
      var r := ShouldIgnore(components[1..]);
      assert forall i | 1 <= i < |components| :: components[i] == components[1..][i - 1];
      r
  }

  /** The documented cases: `node_modules/package/file.js` is ignored, `src/file.js` is not,
      and a name only containing an ignored folder name is not ignored. */
  lemma ShouldIgnoreExamples()
    ensures ShouldIgnore(["node_modules", "package", "file.js"])
    ensures !ShouldIgnore(["src", "file.js"])
    ensures !ShouldIgnore(["src", "my_build", "file.js"])
  {
    assert ["node_modules", "package", "file.js"][0] in Config.IgnoreFolders;
  }

  // ---------------------------------------------------------------------------
  // Glob entries

  /** What the file system reports for one path a glob pattern yields: the components of
      the path as globbed, the path as displayed, its canonical form when canonicalisation
      succeeds, whether it is neither a directory nor a symbolic link, its extension and its
      text when it can be read. */
  datatype Entry = Entry(
    components: seq<string>,
    display: string,
    canonical: Option<string>,
    isFile: bool,
    extension: Option<string>,
    content: Option<string>)

  /** One item of a glob iteration: an error, or a path. */
  datatype GlobItem = GlobError | Found(entry: Entry)

  /** The glob items of the given patterns, pattern after pattern, as `scan_files` meets
      them; `glob` gives what one pattern yields. */
  function GlobItems(glob: string -> seq<GlobItem>, patterns: seq<string>): seq<GlobItem>
    decreases |patterns|
  {
    if patterns == [] then []
    else GlobItems(glob, patterns[..|patterns| - 1]) + glob(patterns[|patterns| - 1])
  }

  /** Every item comes from the glob of one of the patterns. */
  lemma {:induction false} GlobItemOrigin(glob: string -> seq<GlobItem>, patterns: seq<string>, i: nat)
    returns (g: nat, j: nat)
    requires i < |GlobItems(glob, patterns)|
    ensures g < |patterns| && j < |glob(patterns[g])| && glob(patterns[g])[j] == GlobItems(glob, patterns)[i]
    decreases |patterns|
  {
    var n := |patterns| - 1;
    var prev := GlobItems(glob, patterns[..n]);
    if i < |prev| {
      g, j := GlobItemOrigin(glob, patterns[..n], i);
      assert patterns[..n][g] == patterns[g];
    } else {
      g, j := n, i - |prev|;
    }
  }

  // A pattern `**/*.<ext>` yields only paths whose name ends with `.<ext>`.
  predicate GlobMatches(pattern: string, e: Entry) {
    StartsWith(pattern, "**/*.") && EndsWith(e.display, "." + pattern[5..])
  }

  /** The glob of every pattern yields only paths the pattern matches. */
  ghost predicate GlobSound(glob: string -> seq<GlobItem>) {
    forall pattern, j | 0 <= j < |glob(pattern)| && glob(pattern)[j].Found? :: GlobMatches(pattern, glob(pattern)[j].entry)
  }

  function PathOf(e: Entry, isMacos: bool): string {
    NormalizePath(e.display, e.canonical, isMacos)
  }

  predicate IsTypescript(e: Entry, tsExts: seq<string>) {
    e.extension.Some? && e.extension.value in tsExts
  }

  /** The dependencies a file's text references; an unreadable file references none. */
  function Uses(content: Option<string>, deps: set<string>): set<string> {
    match content
    case None => {}
    case Some(c) => ImportMatcher.Referenced(c, deps)
  }

  // ---------------------------------------------------------------------------
  // The walk, as a function of the entries seen so far

  /** The accumulators of `scan_files`: used packages, explored and ignored paths, the set
      of paths already seen and the texts of the TypeScript files put aside for later. */
  datatype Scan = Scan(
    used: set<string>,
    explored: seq<string>,
    ignored: seq<string>,
    seen: set<string>,
    typescript: seq<Option<string>>)

  const Start := Scan({}, [], [], {}, [])

  /** One glob item. A file (not a directory, not a symbolic link) is skipped when its path
      was seen, recorded as ignored under an ignored folder, put aside when it has a
      TypeScript extension and otherwise searched at once; in the last two cases it is
      explored. Any other path is recorded as ignored only under an ignored folder and when
      not seen. Errors are skipped. */
  function Visit(st: Scan, item: GlobItem, deps: set<string>, tsExts: seq<string>, isMacos: bool): Scan {
    match item
    case GlobError => st
    case Found(e) =>
      var p := PathOf(e, isMacos);
      if e.isFile then
        if p in st.seen then st
        else if ShouldIgnore(e.components) then st.(ignored := st.ignored + [p], seen := st.seen + {p})
        else if IsTypescript(e, tsExts) then
          st.(explored := st.explored + [p], seen := st.seen + {p}, typescript := st.typescript + [e.content])
        else
          st.(used := st.used + Uses(e.content, deps), explored := st.explored + [p], seen := st.seen + {p})
      else if ShouldIgnore(e.components) && p !in st.seen then
        st.(ignored := st.ignored + [p], seen := st.seen + {p})
      else st
  }

  /** The accumulators after the given glob items. */
  function Walk(items: seq<GlobItem>, deps: set<string>, tsExts: seq<string>, isMacos: bool): Scan
    decreases |items|
  {
    if items == [] then Start
    else Visit(Walk(items[..|items| - 1], deps, tsExts, isMacos), items[|items| - 1], deps, tsExts, isMacos)
  }

  /** What the TypeScript files add: each file's dependencies that tsc did not report as
      unused imports. */
  function TypescriptUses(contents: seq<Option<string>>, deps: set<string>, unused: set<string>): set<string>
    decreases |contents|
  {
    if contents == [] then {}
    else TypescriptUses(contents[..|contents| - 1], deps, unused) + (Uses(contents[|contents| - 1], deps) - unused)
  }

  /** The three results of `scan_files`. */
  function ScanResult(items: seq<GlobItem>, deps: set<string>, tsExts: seq<string>, isMacos: bool, unused: set<string>)
    : (set<string>, seq<string>, seq<string>)
  {
    var w := Walk(items, deps, tsExts, isMacos);
    (w.used + TypescriptUses(w.typescript, deps, unused), w.explored, w.ignored)
  }

  // ---------------------------------------------------------------------------
  // What the walk keeps

  /** No path is recorded twice, the explored and ignored paths are exactly the seen ones,
      and only declared dependencies are used. */
  ghost predicate Consistent(st: Scan, deps: set<string>) {
    && NoDup(st.explored + st.ignored)
    && (forall p :: p in st.seen <==> p in st.explored || p in st.ignored)
    && st.used <= deps
  }

  lemma NoDupAppendLeft(a: seq<string>, b: seq<string>, x: string)
    requires NoDup(a + b) && x !in a && x !in b
    ensures NoDup((a + [x]) + b)
  {
    var s, t := a + b, (a + [x]) + b;
    forall i, j | 0 <= i < j < |t| ensures t[i] != t[j] {
      if i < |a| && j == |a| {
        assert t[i] == a[i];
      } else if i == |a| {
        assert t[j] == b[j - |a| - 1];
      } else if j < |a| {
        assert t[i] == s[i] && t[j] == s[j];
      } else if i < |a| {
        assert t[i] == s[i] && t[j] == s[j - 1];
      } else {
        assert t[i] == s[i - 1] && t[j] == s[j - 1];
      }
    }
  }

  lemma NoDupAppendRight(a: seq<string>, b: seq<string>, x: string)
    requires NoDup(a + b) && x !in a && x !in b
    ensures NoDup(a + (b + [x]))
  {
    var t := a + (b + [x]);
    assert t == (a + b) + [x];
    forall i, j | 0 <= i < j < |t| ensures t[i] != t[j] {
      if j == |t| - 1 {
        assert t[i] in a + b;
      } else {
        assert t[i] == (a + b)[i] && t[j] == (a + b)[j];
      }
    }
  }

  lemma VisitConsistent(st: Scan, item: GlobItem, deps: set<string>, tsExts: seq<string>, isMacos: bool)
    requires Consistent(st, deps)
    ensures Consistent(Visit(st, item, deps, tsExts, isMacos), deps)
  {
    if item.Found? {
      var e := item.entry;
      var p := PathOf(e, isMacos);
      if p !in st.seen {
        if e.isFile && !ShouldIgnore(e.components) {
          NoDupAppendLeft(st.explored, st.ignored, p);
        } else {
          NoDupAppendRight(st.explored, st.ignored, p);
        }
      }
    }
  }

  lemma {:induction false} WalkConsistent(items: seq<GlobItem>, deps: set<string>, tsExts: seq<string>, isMacos: bool)
    ensures Consistent(Walk(items, deps, tsExts, isMacos), deps)
    decreases |items|
  {
    if items != [] {
      WalkConsistent(items[..|items| - 1], deps, tsExts, isMacos);
      VisitConsistent(Walk(items[..|items| - 1], deps, tsExts, isMacos), items[|items| - 1], deps, tsExts, isMacos);
    }
  }

  lemma {:induction false} TypescriptUsesDeclared(contents: seq<Option<string>>, deps: set<string>, unused: set<string>)
    ensures TypescriptUses(contents, deps, unused) <= deps
    ensures TypescriptUses(contents, deps, unused) !! unused
    decreases |contents|
  {
    if contents != [] {
      TypescriptUsesDeclared(contents[..|contents| - 1], deps, unused);
    }
  }

  /** The used set is declared, the explored and ignored lists are disjoint and together
      free of duplicates. */
  lemma ScanResultConsistent(items: seq<GlobItem>, deps: set<string>, tsExts: seq<string>, isMacos: bool, unused: set<string>)
    ensures var (used, explored, ignored) := ScanResult(items, deps, tsExts, isMacos, unused);
      && used <= deps
      && NoDup(explored + ignored)
      && forall p | p in explored :: p !in ignored
  {
    var w := Walk(items, deps, tsExts, isMacos);
    WalkConsistent(items, deps, tsExts, isMacos);
    TypescriptUsesDeclared(w.typescript, deps, unused);
    forall i, j | 0 <= i < |w.explored| && 0 <= j < |w.ignored| ensures w.explored[i] != w.ignored[j] {
      assert (w.explored + w.ignored)[i] == w.explored[i];
      assert (w.explored + w.ignored)[|w.explored| + j] == w.ignored[j];
    }
  }

  // ---------------------------------------------------------------------------
  // Where the recorded paths come from

  /** Item `i` is a file whose normalised path is `p`. */
  predicate FileAt(items: seq<GlobItem>, i: int, p: string, isMacos: bool) {
    0 <= i < |items| && items[i].Found? && items[i].entry.isFile && PathOf(items[i].entry, isMacos) == p
  }

  /** Item `i` is a path under an ignored folder whose normalised path is `p`. */
  predicate IgnoredAt(items: seq<GlobItem>, i: int, p: string, isMacos: bool) {
    0 <= i < |items| && items[i].Found? && ShouldIgnore(items[i].entry.components)
      && PathOf(items[i].entry, isMacos) == p
  }

  /** Every explored path is the path of a file that is not under an ignored folder; every
      ignored path is the path of an entry under an ignored folder; and every file, as every
      entry under an ignored folder, has its path recorded in one of the two lists. */
  ghost predicate Recorded(items: seq<GlobItem>, st: Scan, isMacos: bool) {
    && (forall p | p in st.explored :: exists i :: FileAt(items, i, p, isMacos) && !ShouldIgnore(items[i].entry.components))
    && (forall p | p in st.ignored :: exists i :: IgnoredAt(items, i, p, isMacos))
    && (forall i | 0 <= i < |items| && items[i].Found? && (items[i].entry.isFile || ShouldIgnore(items[i].entry.components))
          :: PathOf(items[i].entry, isMacos) in st.seen)
  }

  lemma {:induction false} WalkRecorded(items: seq<GlobItem>, deps: set<string>, tsExts: seq<string>, isMacos: bool)
    ensures Recorded(items, Walk(items, deps, tsExts, isMacos), isMacos)
    decreases |items|
  {
    if items != [] {
      var n := |items| - 1;
      var prev := items[..n];
      var st := Walk(prev, deps, tsExts, isMacos);
      WalkRecorded(prev, deps, tsExts, isMacos);
      var st' := Walk(items, deps, tsExts, isMacos);
      assert st' == Visit(st, items[n], deps, tsExts, isMacos);
      assert forall i | 0 <= i < n :: items[i] == prev[i];
      forall p | p in st'.explored
        ensures exists i :: FileAt(items, i, p, isMacos) && !ShouldIgnore(items[i].entry.components)
      {
        if p in st.explored {
          var i :| FileAt(prev, i, p, isMacos) && !ShouldIgnore(prev[i].entry.components);
          assert FileAt(items, i, p, isMacos);
        } else {
          assert FileAt(items, n, p, isMacos);
        }
      }
      forall p | p in st'.ignored ensures exists i :: IgnoredAt(items, i, p, isMacos) {
        if p in st.ignored {
          var i :| IgnoredAt(prev, i, p, isMacos);
          assert IgnoredAt(items, i, p, isMacos);
        } else {
          assert IgnoredAt(items, n, p, isMacos);
        }
      }
    }
  }

  /** With the patterns `scan_files` builds, every explored path is the path of a file whose
      name ends with `.<ext>` for a configured extension. */
  lemma ExploredHaveSourceExtensions(glob: string -> seq<GlobItem>, deps: set<string>, tsExts: seq<string>,
                                     isMacos: bool, unused: set<string>, p: string)
    requires GlobSound(glob)
    requires p in ScanResult(GlobItems(glob, Config.GlobPatterns()), deps, tsExts, isMacos, unused).1
    ensures exists i, k :: (
      && FileAt(GlobItems(glob, Config.GlobPatterns()), i, p, isMacos)
      && 0 <= k < |Config.Extensions|
      && EndsWith(GlobItems(glob, Config.GlobPatterns())[i].entry.display, "." + Config.Extensions[k]))
  {
    var patterns := Config.GlobPatterns();
    var items := GlobItems(glob, patterns);
    WalkRecorded(items, deps, tsExts, isMacos);
    var i :| FileAt(items, i, p, isMacos) && !ShouldIgnore(items[i].entry.components);
    var g, j := GlobItemOrigin(glob, patterns, i);
    assert GlobMatches(patterns[g], items[i].entry);
    assert patterns[g][5..] == Config.Extensions[g];
  }

  // ---------------------------------------------------------------------------
  // Where the used packages come from

  /** Item `i` is a file searched at once (not under an ignored folder, not TypeScript)
      whose text references `d`. */
  predicate DirectUseAt(items: seq<GlobItem>, i: int, d: string, tsExts: seq<string>) {
    && 0 <= i < |items| && items[i].Found?
    && var e := items[i].entry;
    && e.isFile && !ShouldIgnore(e.components) && !IsTypescript(e, tsExts)
    && e.content.Some? && ImportMatcher.ReferencesDependency(e.content.value, d)
  }

  /** Item `i` is a TypeScript file (not under an ignored folder) whose text references `d`. */
  predicate TypescriptUseAt(items: seq<GlobItem>, i: int, d: string, tsExts: seq<string>) {
    && 0 <= i < |items| && items[i].Found?
    && var e := items[i].entry;
    && e.isFile && !ShouldIgnore(e.components) && IsTypescript(e, tsExts)
    && e.content.Some? && ImportMatcher.ReferencesDependency(e.content.value, d)
  }

  /** Each package the walk marks used is referenced by a non-TypeScript file; each text put
      aside belongs to a TypeScript file. */
  ghost predicate UsesExplained(items: seq<GlobItem>, st: Scan, tsExts: seq<string>) {
    && (forall d | d in st.used :: exists i :: DirectUseAt(items, i, d, tsExts))
    && (forall c | c in st.typescript :: exists i :: PutAsideAt(items, i, c, tsExts))
  }

  /** Item `i` is a TypeScript file (not under an ignored folder) with the given text. */
  predicate PutAsideAt(items: seq<GlobItem>, i: int, content: Option<string>, tsExts: seq<string>) {
    && 0 <= i < |items| && items[i].Found?
    && var e := items[i].entry;
    && e.isFile && !ShouldIgnore(e.components) && IsTypescript(e, tsExts) && e.content == content
  }

  lemma {:induction false} WalkUsesExplained(items: seq<GlobItem>, deps: set<string>, tsExts: seq<string>, isMacos: bool)
    ensures UsesExplained(items, Walk(items, deps, tsExts, isMacos), tsExts)
    decreases |items|
  {
    if items != [] {
      var n := |items| - 1;
      var prev := items[..n];
      var st := Walk(prev, deps, tsExts, isMacos);
      WalkUsesExplained(prev, deps, tsExts, isMacos);
      var st' := Walk(items, deps, tsExts, isMacos);
      assert st' == Visit(st, items[n], deps, tsExts, isMacos);
      assert forall i | 0 <= i < n :: items[i] == prev[i];
      forall d | d in st'.used ensures exists i :: DirectUseAt(items, i, d, tsExts) {
        if d in st.used {
          var i :| DirectUseAt(prev, i, d, tsExts);
          assert DirectUseAt(items, i, d, tsExts);
        } else {
          assert DirectUseAt(items, n, d, tsExts);
        }
      }
      forall c | c in st'.typescript ensures exists i :: PutAsideAt(items, i, c, tsExts) {
        if c in st.typescript {
          var i :| PutAsideAt(prev, i, c, tsExts);
          assert PutAsideAt(items, i, c, tsExts);
        } else {
          assert PutAsideAt(items, n, c, tsExts);
        }
      }
    }
  }

  lemma {:induction false} TypescriptUsesExplained(contents: seq<Option<string>>, deps: set<string>, unused: set<string>, d: string)
    requires d in TypescriptUses(contents, deps, unused)
    ensures d in deps && d !in unused
    ensures exists k | 0 <= k < |contents| :: contents[k].Some? && ImportMatcher.ReferencesDependency(contents[k].value, d)
    decreases |contents|
  {
    var n := |contents| - 1;
    if d in TypescriptUses(contents[..n], deps, unused) {
      TypescriptUsesExplained(contents[..n], deps, unused, d);
      var k :| 0 <= k < n && contents[..n][k].Some? && ImportMatcher.ReferencesDependency(contents[..n][k].value, d);
      assert contents[k] == contents[..n][k];
    } else {
      assert contents[n].Some? && ImportMatcher.ReferencesDependency(contents[n].value, d);
    }
  }

  /** A package counts as used only if a non-TypeScript file references it, or a TypeScript
      file references it and tsc did not report it as an unused import. */
  lemma UsedExplained(items: seq<GlobItem>, deps: set<string>, tsExts: seq<string>, isMacos: bool, unused: set<string>, d: string)
    requires d in ScanResult(items, deps, tsExts, isMacos, unused).0
    ensures (exists i :: DirectUseAt(items, i, d, tsExts))
         || (d !in unused && exists i :: TypescriptUseAt(items, i, d, tsExts))
  {
    var w := Walk(items, deps, tsExts, isMacos);
    WalkUsesExplained(items, deps, tsExts, isMacos);
    if d !in w.used {
      TypescriptUsesExplained(w.typescript, deps, unused, d);
      var k :| 0 <= k < |w.typescript| && w.typescript[k].Some? && ImportMatcher.ReferencesDependency(w.typescript[k].value, d);
      assert w.typescript[k] in w.typescript;
      var i :| PutAsideAt(items, i, w.typescript[k], tsExts);
      assert TypescriptUseAt(items, i, d, tsExts);
    }
  }

  /** A package that tsc reports as an unused import is used only through a file that is
      searched at once. */
  lemma UnusedImportNeedsDirectUse(items: seq<GlobItem>, deps: set<string>, tsExts: seq<string>, isMacos: bool, unused: set<string>, d: string)
    requires d in unused && d in ScanResult(items, deps, tsExts, isMacos, unused).0
    ensures exists i :: DirectUseAt(items, i, d, tsExts)
  {
    UsedExplained(items, deps, tsExts, isMacos, unused, d);
  }

  // ---------------------------------------------------------------------------
  // Which references make a package used

  /** No item before `i` has put the path of item `i` into the seen set. */
  predicate FirstSighting(items: seq<GlobItem>, i: int, isMacos: bool) {
    && 0 <= i < |items| && items[i].Found?
    && forall j | 0 <= j < i && items[j].Found? && (items[j].entry.isFile || ShouldIgnore(items[j].entry.components))
         :: PathOf(items[j].entry, isMacos) != PathOf(items[i].entry, isMacos)
  }

  /** A path sighted for the first time at item `i` is not in the seen set before it. */
  lemma NotSeenBeforeFirstSighting(items: seq<GlobItem>, deps: set<string>, tsExts: seq<string>, isMacos: bool, i: int)
    requires FirstSighting(items, i, isMacos)
    ensures PathOf(items[i].entry, isMacos) !in Walk(items[..i], deps, tsExts, isMacos).seen
  {
    var prev := items[..i];
    var st := Walk(prev, deps, tsExts, isMacos);
    WalkRecorded(prev, deps, tsExts, isMacos);
    WalkConsistent(prev, deps, tsExts, isMacos);
    var p := PathOf(items[i].entry, isMacos);
    forall q | q in st.seen ensures q != p {
      if q in st.explored {
        var j :| FileAt(prev, j, q, isMacos) && !ShouldIgnore(prev[j].entry.components);
        assert items[j] == prev[j];
      } else {
        var j :| IgnoredAt(prev, j, q, isMacos);
        assert items[j] == prev[j];
      }
    }
  }

  /** Later items only add used packages and only append put-aside texts. */
  lemma {:induction false} WalkGrows(items: seq<GlobItem>, deps: set<string>, tsExts: seq<string>, isMacos: bool, j: nat)
    requires j <= |items|
    ensures var a, b := Walk(items[..j], deps, tsExts, isMacos), Walk(items, deps, tsExts, isMacos);
      a.used <= b.used && |a.typescript| <= |b.typescript| && a.typescript == b.typescript[..|a.typescript|]
    decreases |items| - j
  {
    if j < |items| {
      WalkGrows(items, deps, tsExts, isMacos, j + 1);
      assert items[..j + 1][..j] == items[..j];
      var a := Walk(items[..j], deps, tsExts, isMacos);
      var a' := Walk(items[..j + 1], deps, tsExts, isMacos);
      assert a' == Visit(a, items[j], deps, tsExts, isMacos);
      assert a'.typescript[..|a.typescript|] == a.typescript;
    } else {
      assert items[..j] == items;
    }
  }

  lemma {:induction false} TypescriptUsesIncludes(contents: seq<Option<string>>, deps: set<string>, unused: set<string>, k: nat, d: string)
    requires k < |contents| && contents[k].Some? && ImportMatcher.ReferencesDependency(contents[k].value, d)
    requires d in deps && d !in unused
    ensures d in TypescriptUses(contents, deps, unused)
    decreases |contents|
  {
    var n := |contents| - 1;
    if k < n {
      assert contents[..n][k] == contents[k];
      TypescriptUsesIncludes(contents[..n], deps, unused, k, d);
    }
  }

  /** A non-TypeScript file outside the ignored folders, met for the first time, makes
      every declared dependency it references used, whatever tsc reports. */
  lemma DirectUseCounts(items: seq<GlobItem>, deps: set<string>, tsExts: seq<string>, isMacos: bool, unused: set<string>, i: int, d: string)
    requires FirstSighting(items, i, isMacos) && DirectUseAt(items, i, d, tsExts) && d in deps
    ensures d in ScanResult(items, deps, tsExts, isMacos, unused).0
  {
    NotSeenBeforeFirstSighting(items, deps, tsExts, isMacos, i);
    assert items[..i + 1][..i] == items[..i];
    var st := Walk(items[..i], deps, tsExts, isMacos);
    assert Walk(items[..i + 1], deps, tsExts, isMacos) == Visit(st, items[i], deps, tsExts, isMacos);
    WalkGrows(items, deps, tsExts, isMacos, i + 1);
  }

  /** A TypeScript file outside the ignored folders, met for the first time, makes every
      declared dependency it references used unless tsc reports it as an unused import. */
  lemma TypescriptUseCounts(items: seq<GlobItem>, deps: set<string>, tsExts: seq<string>, isMacos: bool, unused: set<string>, i: int, d: string)
    requires FirstSighting(items, i, isMacos) && TypescriptUseAt(items, i, d, tsExts) && d in deps && d !in unused
    ensures d in ScanResult(items, deps, tsExts, isMacos, unused).0
  {
    NotSeenBeforeFirstSighting(items, deps, tsExts, isMacos, i);
    assert items[..i + 1][..i] == items[..i];
    var st := Walk(items[..i], deps, tsExts, isMacos);
    var st' := Walk(items[..i + 1], deps, tsExts, isMacos);
    assert st' == Visit(st, items[i], deps, tsExts, isMacos);
    assert st'.typescript == st.typescript + [items[i].entry.content];
    WalkGrows(items, deps, tsExts, isMacos, i + 1);
    var w := Walk(items, deps, tsExts, isMacos);
    var k := |st.typescript|;
    assert w.typescript[k] == st'.typescript[k];
    TypescriptUsesIncludes(w.typescript, deps, unused, k, d);
  }

  // ---------------------------------------------------------------------------
  // scan_files

  /** One glob item of the walk: the accumulators after it are those `Visit` gives. */
  method VisitItem(
    used: set<string>, explored: seq<string>, ignored: seq<string>, seen: set<string>,
    typescript: seq<Option<string>>, item: GlobItem, deps: set<string>, tsExts: seq<string>, isMacos: bool)
    returns (used': set<string>, explored': seq<string>, ignored': seq<string>, seen': set<string>,
             typescript': seq<Option<string>>)
    ensures Scan(used', explored', ignored', seen', typescript')
         == Visit(Scan(used, explored, ignored, seen, typescript), item, deps, tsExts, isMacos)
  {
    used', explored', ignored', seen', typescript' := used, explored, ignored, seen, typescript;
    match item {
      case GlobError =>
      case Found(e) =>
        var p := NormalizePath(e.display, e.canonical, isMacos);
        if e.isFile {
          if p !in seen {
            seen' := seen + {p};
            if ShouldIgnore(e.components) {
              ignored' := ignored + [p];
            } else {
              if IsTypescript(e, tsExts) {
                typescript' := typescript + [e.content];
              } else if e.content.Some? {
                var found := ImportMatcher.FindDependenciesInContent(e.content.value, deps);
                used' := used + found;
              }
              explored' := explored + [p];
            }
          }
        } else if ShouldIgnore(e.components) && p !in seen {
          ignored' := ignored + [p];
          seen' := seen + {p};
        }
    }
  }

  /** The walk after one more item. */
  lemma WalkAppendOne(items: seq<GlobItem>, x: GlobItem, deps: set<string>, tsExts: seq<string>, isMacos: bool)
    ensures Walk(items + [x], deps, tsExts, isMacos) == Visit(Walk(items, deps, tsExts, isMacos), x, deps, tsExts, isMacos)
  {
    assert (items + [x])[..|items|] == items;
  }

  /** The inner glob loop of `scan_files`: the items one pattern yields, in order. */
  method WalkGlob(
    used: set<string>, explored: seq<string>, ignored: seq<string>, seen: set<string>,
    typescript: seq<Option<string>>, ghost done: seq<GlobItem>, items: seq<GlobItem>,
    deps: set<string>, tsExts: seq<string>, isMacos: bool)
    returns (used': set<string>, explored': seq<string>, ignored': seq<string>, seen': set<string>,
             typescript': seq<Option<string>>)
    requires Scan(used, explored, ignored, seen, typescript) == Walk(done, deps, tsExts, isMacos)
    ensures Scan(used', explored', ignored', seen', typescript') == Walk(done + items, deps, tsExts, isMacos)
  {
    used', explored', ignored', seen', typescript' := used, explored, ignored, seen, typescript;
    assert done + items[..0] == done;
    for j := 0 to |items|
      invariant Scan(used', explored', ignored', seen', typescript') == Walk(done + items[..j], deps, tsExts, isMacos)
    {
      assert done + items[..j + 1] == (done + items[..j]) + [items[j]];
      WalkAppendOne(done + items[..j], items[j], deps, tsExts, isMacos);
      used', explored', ignored', seen', typescript' :=
        VisitItem(used', explored', ignored', seen', typescript', items[j], deps, tsExts, isMacos);
    }
    assert items[..|items|] == items;
  }

  /** The outer glob loop of `scan_files`: the patterns in order. */
  method WalkPatterns(glob: string -> seq<GlobItem>, patterns: seq<string>, deps: set<string>, tsExts: seq<string>, isMacos: bool)
    returns (used: set<string>, explored: seq<string>, ignored: seq<string>, seen: set<string>,
             typescript: seq<Option<string>>)
    ensures Scan(used, explored, ignored, seen, typescript) == Walk(GlobItems(glob, patterns), deps, tsExts, isMacos)
  {
    used, explored, ignored, seen, typescript := {}, [], [], {}, [];
    for g := 0 to |patterns|
      invariant Scan(used, explored, ignored, seen, typescript) == Walk(GlobItems(glob, patterns[..g]), deps, tsExts, isMacos)
    {
      assert patterns[..g + 1][..g] == patterns[..g];
      assert GlobItems(glob, patterns[..g + 1]) == GlobItems(glob, patterns[..g]) + glob(patterns[g]);
      used, explored, ignored, seen, typescript :=
        WalkGlob(used, explored, ignored, seen, typescript, GlobItems(glob, patterns[..g]), glob(patterns[g]), deps, tsExts, isMacos);
    }
    assert patterns[..|patterns|] == patterns;
  }

  /** `scan_files`: walks the glob of each pattern built from the configured extensions,
      then searches the TypeScript files put aside and adds the packages they reference
      that `get_typescript_unused_imports` did not report. */
  method ScanFiles(
    glob: string -> seq<GlobItem>, deps: set<string>, tsExts: seq<string>, isMacos: bool,
    isTsProject: bool, run: TscDiagnostics.TscRun, files: map<string, string>)
    returns (used: set<string>, explored: seq<string>, ignored: seq<string>)
    ensures (used, explored, ignored)
         == ScanResult(GlobItems(glob, Config.GlobPatterns()), deps, tsExts, isMacos,
                       TscDiagnostics.TypescriptUnusedImports(isTsProject, run, tsExts, files))
    ensures used <= deps && NoDup(explored + ignored)
  {
    var patterns := Config.GlobPatterns();
    var seen, typescript;
    used, explored, ignored, seen, typescript := WalkPatterns(glob, patterns, deps, tsExts, isMacos);
    var unused := TscDiagnostics.GetTypescriptUnusedImports(isTsProject, run, tsExts, files);
    ghost var direct := used;
    assert typescript[..|typescript|] == typescript;
    for k := 0 to |typescript|
      invariant used == direct + TypescriptUses(typescript[..k], deps, unused)
    {
      assert typescript[..k + 1][..k] == typescript[..k];
      if typescript[k].Some? {
        var found := ImportMatcher.FindDependenciesInContent(typescript[k].value, deps);
        ghost var before := used;
        var rest := found;
        while rest != {}
          invariant rest <= found
          invariant used == before + ((found - rest) - unused)
          decreases rest
        {
          var d :| d in rest;
          if d !in unused {
            used := used + {d};
          }
          rest := rest - {d};
        }
      }
    }
    ScanResultConsistent(GlobItems(glob, patterns), deps, tsExts, isMacos, unused);
  }
}
