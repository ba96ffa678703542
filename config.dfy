/** The fixed configuration of the scanner (src/config.rs). */
module Config {

  /** Source-file extensions; `scan_files` globs one recursive pattern per extension, in this order. */
  const Extensions: seq<string> := ["js", "ts", "jsx", "tsx", "mdx"]

  /** A path with a component equal to one of these names is never scanned. */
  const IgnoreFolders: seq<string> :=
    ["node_modules", "dist", "build", "public", ".next", ".git", "coverage", "cypress", "test", "output"]

  /** The glob patterns `scan_files` walks, one per extension. */
  function GlobPatterns(): (r: seq<string>)
    ensures |r| == |Extensions|
    ensures forall i | 0 <= i < |r| :: r[i] == "**/*." + Extensions[i]
  {
    seq(|Extensions|, i requires 0 <= i < |Extensions| => "**/*." + Extensions[i])
  }
}
