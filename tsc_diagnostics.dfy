/** Reading the TypeScript compiler's "declared but never read" diagnostics
    (src/file_scanner.rs:67-106, 306-325, 353-408). The compiler run, the project marker
    test and the file reads are inputs; the set of TypeScript extensions is a parameter. */
module TscDiagnostics {
  import opened Strings

  /** The largest `usize` on a 64-bit target: a longer line number does not parse. */
  const UsizeMax: nat := 0xFFFF_FFFF_FFFF_FFFF

  /** The diagnostic code whose lines are read. */
  const UnusedCode: string := "TS6133"

  // ---------------------------------------------------------------------------
  // extract_file_and_line: the pattern ^(.*\.(ext1|ext2|...))\((\d+),\d+\)

  /** The end of the run of ASCII digits that starts at `i`. */
  function DigitsEnd(s: string, i: nat): (r: nat)
    requires i <= |s|
    ensures i <= r <= |s|
    ensures forall t | i <= t < r :: IsAsciiDigit(s[t])
    ensures r == |s| || !IsAsciiDigit(s[r])
    decreases |s| - i
  {
    if i < |s| && IsAsciiDigit(s[i]) then DigitsEnd(s, i + 1) else i
  }

  /** The value of an ASCII digit; it is only ever applied to digits. */
  function DigitValue(c: char): (r: nat)
    ensures IsAsciiDigit(c) ==> r == c as int - '0' as int
  {
    if IsAsciiDigit(c) then c as int - '0' as int else 0
  }

  /** The number written in decimal by `digits` (`str::parse` on a run of ASCII digits,
      before the `usize` range check). */
  function DecimalValue(digits: string): nat {
    if digits == [] then 0
    else DecimalValue(digits[..|digits| - 1]) * 10 + DigitValue(digits[|digits| - 1])
  }

  /** `\((\d+),\d+\)` matches at `p`. Both digit runs are maximal, because neither `,`
      nor `)` is a digit, so the match at `p` is unique. */
  predicate PositionAt(s: string, p: nat) {
    && p < |s| && s[p] == '('
    && var q := DigitsEnd(s, p + 1);
    && q > p + 1 && q < |s| && s[q] == ','
    && var r := DigitsEnd(s, q + 1);
    && r > q + 1 && r < |s| && s[r] == ')'
  }

  /** `\.ext` followed by a position, with the dot at index `d`. */
  predicate ExtAt(s: string, d: nat, ext: string) {
    d < |s| && s[d] == '.' && StartsAt(s, d + 1, ext) && PositionAt(s, d + 1 + |ext|)
  }

  /** The first extension, in the order of the alternation, that completes a match with its
      dot at `d`. */
  function FirstExt(s: string, d: nat, exts: seq<string>): (r: Option<string>)
    ensures r.Some? ==> r.value in exts && ExtAt(s, d, r.value)
  {
    if exts == [] then None
    else if ExtAt(s, d, exts[0]) then Some(exts[0])
    else FirstExt(s, d, exts[1..])
  }

  /** The greedy `.*`: the last dot before index `n` at which some extension completes a match. */
  function LastDot(s: string, exts: seq<string>, n: nat): (r: Option<nat>)
    requires n <= |s|
    ensures r.Some? ==> r.value < n && FirstExt(s, r.value, exts).Some?
  {
    if n == 0 then None
    else if FirstExt(s, n - 1, exts).Some? then Some(n - 1)
    else LastDot(s, exts, n - 1)
  }

  /** No extension completes a match at a dot exactly when `FirstExt` finds none. */
  lemma {:induction false} FirstExtNone(s: string, d: nat, exts: seq<string>)
    ensures FirstExt(s, d, exts).None? <==> forall e | e in exts :: !ExtAt(s, d, e)
  {
    if exts != [] {
      FirstExtNone(s, d, exts[1..]);
      assert forall e | e in exts[1..] :: e in exts;
      assert forall e | e in exts :: e == exts[0] || e in exts[1..];
    }
  }

  /** The greedy match takes the one dot before `n` after which no dot completes a match. */
  lemma {:induction false} LastDotIs(s: string, exts: seq<string>, n: nat, d: nat)
    requires d < n <= |s| && FirstExt(s, d, exts).Some?
    requires forall d' | d < d' < n :: FirstExt(s, d', exts).None?
    ensures LastDot(s, exts, n) == Some(d)
  {
    if d < n - 1 {
      assert FirstExt(s, n - 1, exts).None?;
      LastDotIs(s, exts, n - 1, d);
    }
  }

  /** Without a dot that completes a match before `n` there is no match. */
  lemma {:induction false} LastDotNone(s: string, exts: seq<string>, n: nat)
    requires n <= |s|
    requires forall d | 0 <= d < n :: FirstExt(s, d, exts).None?
    ensures LastDot(s, exts, n).None?
  {
    if n > 0 {
      assert FirstExt(s, n - 1, exts).None?;
      LastDotNone(s, exts, n - 1);
    }
  }

  /** `.` does not match a line feed, so a match lies before the first `\n`. */
  function LineLimit(s: string): (r: nat)
    ensures r <= |s| && '\n' !in s[..r]
    ensures r == |s| || s[r] == '\n'
  {
    match IndexOf(s, '\n')
    case None => |s|
    case Some(k) => k
  }

  /** `extract_file_and_line`: the file path and line number at the head of a diagnostic,
      `None` when the line has no `<path>.<ext>(<digits>,<digits>)` prefix or the line number
      does not fit in a `usize`. */
  function ExtractFileAndLine(diag: string, exts: seq<string>): (r: Option<(string, nat)>)
    ensures r.Some? ==> r.value.1 <= UsizeMax
  {
    match LastDot(diag, exts, LineLimit(diag))
    case None => None
    case Some(d) =>
      var p := d + 1 + |FirstExt(diag, d, exts).value|;
      var n := DecimalValue(diag[p + 1..DigitsEnd(diag, p + 1)]);
      if n > UsizeMax then None
      else Some((diag[..p], n))
  }

  /** A result is a prefix of the diagnostic that ends with a dot and one of the extensions
      and is followed by `(<digits>,<digits>)`; the line number is the value of the first
      digit run. */
  lemma ExtractedLocation(diag: string, exts: seq<string>)
    requires ExtractFileAndLine(diag, exts).Some?
    ensures var (file, line) := ExtractFileAndLine(diag, exts).value;
      && StartsWith(diag, file)
      && PositionAt(diag, |file|)
      && line == DecimalValue(diag[|file| + 1..DigitsEnd(diag, |file| + 1)])
      && exists e | e in exts :: |e| < |file| && ExtAt(diag, |file| - |e| - 1, e)
  {
    var d := LastDot(diag, exts, LineLimit(diag)).value;
    var ext := FirstExt(diag, d, exts).value;
    assert ExtAt(diag, d, ext);
    assert |ExtractFileAndLine(diag, exts).value.0| == d + 1 + |ext|;
  }

  /** Without any `.<ext>(<digits>,<digits>)` before the first line feed there is no result. */
  lemma NoPositionNoResult(diag: string, exts: seq<string>)
    requires forall d, e | 0 <= d < LineLimit(diag) && e in exts :: !ExtAt(diag, d, e)
    ensures ExtractFileAndLine(diag, exts).None?
  {
    forall d | 0 <= d < LineLimit(diag) ensures FirstExt(diag, d, exts).None? {
      FirstExtNone(diag, d, exts);
    }
    LastDotNone(diag, exts, LineLimit(diag));
  }

  /** Round trip: a diagnostic written as `<file>.<ext>(<line>,<column>)<message>` gives back
      the file and the line, provided the extensions contain neither `.` nor `(` and the
      message has no `(` (otherwise the greedy `.*` may reach a later position in the message). */
  lemma ExtractFileAndLineRoundTrip(
    diag: string, file: string, ext: string, line: string, column: string, message: string, exts: seq<string>)
    requires diag == file + "." + ext + "(" + line + "," + column + ")" + message
    requires ext in exts && forall e | e in exts :: '(' !in e && '.' !in e
    requires '\n' !in file
    requires line != [] && column != [] && '(' !in message
    requires forall i | 0 <= i < |line| :: IsAsciiDigit(line[i])
    requires forall i | 0 <= i < |column| :: IsAsciiDigit(column[i])
    requires DecimalValue(line) <= UsizeMax
    ensures ExtractFileAndLine(diag, exts) == Some((file + "." + ext, DecimalValue(line)))
  {
    DiagnosticMatch(file, ext, line, column, message, exts);
    ExtractMatched(diag, file, ext, line, exts);
  }

  /** The documented diagnostic `src/file.ts(1,8): error TS6133` names `src/file.ts`, line 1. */
  lemma DocumentedDiagnostic(diag: string, exts: seq<string>)
    requires diag == "src/file" + "." + "ts" + "(" + "1" + "," + "8" + ")" + ": error TS6133"
    requires "ts" in exts && forall e | e in exts :: '(' !in e && '.' !in e
    ensures ExtractFileAndLine(diag, exts) == Some(("src/file.ts", 1))
  {
    ExtractFileAndLineRoundTrip(diag, "src/file", "ts", "1", "8", ": error TS6133", exts);
    assert "src/file" + "." + "ts" == "src/file.ts";
    assert DecimalValue("1") == 1;
  }

  /** The result once the match is known: the path up to the extension and the line digits. */
  lemma ExtractMatched(diag: string, file: string, ext: string, line: string, exts: seq<string>)
    requires LastDot(diag, exts, LineLimit(diag)) == Some(|file|) && FirstExt(diag, |file|, exts) == Some(ext)
    requires DigitsEnd(diag, |file| + 1 + |ext| + 1) == |file| + 1 + |ext| + 1 + |line| <= |diag|
    requires diag[..|file| + 1 + |ext|] == file + "." + ext
    requires diag[|file| + 1 + |ext| + 1..|file| + 1 + |ext| + 1 + |line|] == line
    requires DecimalValue(line) <= UsizeMax
    ensures ExtractFileAndLine(diag, exts) == Some((file + "." + ext, DecimalValue(line)))
  {
    ExtractAtDot(diag, exts, |file|, ext, |file| + 1 + |ext| + 1 + |line|, file + "." + ext, line);
  }

  /** The positions of a diagnostic: the file's dot at `d`, the extension, `(`, `lineLen`
      digits, `,`, `columnLen` digits and `)`, with no line feed before the dot, no dot
      inside the extension and no `(` after the `)`. */
  predicate DiagnosticShape(s: string, d: nat, ext: string, lineLen: nat, columnLen: nat) {
    var p := d + 1 + |ext|;
    var q := p + 1 + lineLen;
    var r := q + 1 + columnLen;
    && lineLen > 0 && columnLen > 0 && r < |s|
    && (forall t | 0 <= t < d :: s[t] != '\n')
    && s[d] == '.' && s[p] == '(' && s[q] == ',' && s[r] == ')'
    && StartsAt(s, d + 1, ext)
    && (forall t | d < t < p :: s[t] != '.')
    && (forall t | p < t < q :: IsAsciiDigit(s[t]))
    && (forall t | q < t < r :: IsAsciiDigit(s[t]))
    && (forall t | r < t < |s| :: s[t] != '(')
  }

  /** What the greedy match chooses on `<file>.<ext>(<line>,<column>)<message>`. */
  lemma DiagnosticMatch(file: string, ext: string, line: string, column: string, message: string, exts: seq<string>)
    requires ext in exts && forall e | e in exts :: '(' !in e && '.' !in e
    requires '\n' !in file && '(' !in message && line != [] && column != []
    requires forall i | 0 <= i < |line| :: IsAsciiDigit(line[i])
    requires forall i | 0 <= i < |column| :: IsAsciiDigit(column[i])
    ensures var s := file + "." + ext + "(" + line + "," + column + ")" + message;
      && LastDot(s, exts, LineLimit(s)) == Some(|file|) && FirstExt(s, |file|, exts) == Some(ext)
      && DigitsEnd(s, |file| + 1 + |ext| + 1) == |file| + 1 + |ext| + 1 + |line| <= |s|
      && s[..|file| + 1 + |ext|] == file + "." + ext
      && s[|file| + 1 + |ext| + 1..|file| + 1 + |ext| + 1 + |line|] == line
  {
    var s := file + "." + ext + "(" + line + "," + column + ")" + message;
    DiagnosticLayout(s, file, ext, line, column, message);
    MatchAt(s, |file|, ext, |line|, |column|, exts);
  }

  /** Where each part of a diagnostic `<file>.<ext>(<line>,<column>)<message>` sits. */
  lemma DiagnosticLayout(s: string, file: string, ext: string, line: string, column: string, message: string)
    requires s == file + "." + ext + "(" + line + "," + column + ")" + message
    requires '\n' !in file && '.' !in ext && '(' !in message && line != [] && column != []
    requires forall i | 0 <= i < |line| :: IsAsciiDigit(line[i])
    requires forall i | 0 <= i < |column| :: IsAsciiDigit(column[i])
    ensures DiagnosticShape(s, |file|, ext, |line|, |column|)
    ensures s[..|file| + 1 + |ext|] == file + "." + ext
    ensures s[|file| + 1 + |ext| + 1..|file| + 1 + |ext| + 1 + |line|] == line
  {
    var d := |file|;
    var p := d + 1 + |ext|;
    var q := p + 1 + |line|;
    var r := q + 1 + |column|;
    forall t | d < t < p ensures s[t] != '.' { assert s[t] == ext[t - d - 1]; }
    forall t | p < t < q ensures IsAsciiDigit(s[t]) { assert s[t] == line[t - p - 1]; }
    forall t | q < t < r ensures IsAsciiDigit(s[t]) { assert s[t] == column[t - q - 1]; }
    forall t | r < t < |s| ensures s[t] != '(' { assert s[t] == message[t - r - 1]; }
    assert StartsAt(s, d + 1, ext) by {
      forall j | 0 <= j < |ext| ensures s[d + 1 + j] == ext[j] { }
    }
    assert s[..p] == file + "." + ext;
    assert s[p + 1..q] == line;
  }

  /** On a diagnostic of that shape the greedy match chooses the dot at `d`, the extension
      `ext` and the digit run of `lineLen` digits after the `(`. */
  lemma MatchAt(s: string, d: nat, ext: string, lineLen: nat, columnLen: nat, exts: seq<string>)
    requires ext in exts && forall e | e in exts :: '(' !in e
    requires DiagnosticShape(s, d, ext, lineLen, columnLen)
    ensures LastDot(s, exts, LineLimit(s)) == Some(d) && FirstExt(s, d, exts) == Some(ext)
    ensures var p := d + 1 + |ext|; DigitsEnd(s, p + 1) == p + 1 + lineLen
  {
    var p := d + 1 + |ext|;
    var q := p + 1 + lineLen;
    var r := q + 1 + columnLen;
    DigitsEndAt(s, p + 1, q);
    DigitsEndAt(s, q + 1, r);
    assert PositionAt(s, p);
    assert ExtAt(s, d, ext);
    LaterDotsFail(s, d, ext, lineLen, columnLen, exts);
    var lim := LineLimit(s);
    assert d < lim;
    FirstExtNone(s, d, exts);
    LastDotIs(s, exts, lim, d);
    ExtsAtSameDot(s, d, ext, FirstExt(s, d, exts).value);
  }

  /** No dot after the file's own completes a match. */
  lemma LaterDotsFail(s: string, d: nat, ext: string, lineLen: nat, columnLen: nat, exts: seq<string>)
    requires DiagnosticShape(s, d, ext, lineLen, columnLen)
    ensures forall d' | d < d' < |s| :: FirstExt(s, d', exts).None?
  {
    forall d' | d < d' < |s| ensures FirstExt(s, d', exts).None? {
      forall e | e in exts ensures !ExtAt(s, d', e) {
      }
      FirstExtNone(s, d', exts);
    }
  }

  /** Once the greedy match has chosen its dot and extension, the result is read off from them. */
  lemma ExtractAtDot(s: string, exts: seq<string>, d: nat, ext: string, q: nat, path: string, digits: string)
    requires LastDot(s, exts, LineLimit(s)) == Some(d) && FirstExt(s, d, exts) == Some(ext)
    requires var p := d + 1 + |ext|; p < q <= |s| && DigitsEnd(s, p + 1) == q
    requires path == s[..d + 1 + |ext|] && digits == s[d + 1 + |ext| + 1..q]
    requires DecimalValue(digits) <= UsizeMax
    ensures ExtractFileAndLine(s, exts) == Some((path, DecimalValue(digits)))
  {
  }

  /** At one dot two extensions both complete a match only if they are equal or one of them
      holds `(`. */
  lemma ExtsAtSameDot(s: string, d: nat, ext: string, ext': string)
    requires ExtAt(s, d, ext) && ExtAt(s, d, ext')
    ensures ext' == ext || '(' in ext || '(' in ext'
  {
    if |ext'| < |ext| {
      assert ext[|ext'|] == s[d + 1 + |ext'|];
    } else if |ext'| > |ext| {
      assert ext'[|ext|] == s[d + 1 + |ext|];
    } else {
      forall j | 0 <= j < |ext| ensures ext'[j] == ext[j] {
        assert s[d + 1 + j] == ext'[j];
      }
    }
  }

  /** A run of digits from `i` to a non-digit at `j` is the digit run that starts at `i`. */
  lemma DigitsEndAt(s: string, i: nat, j: nat)
    requires i <= j < |s| && !IsAsciiDigit(s[j])
    requires forall t | i <= t < j :: IsAsciiDigit(s[t])
    ensures DigitsEnd(s, i) == j
    decreases j - i
  {
    if i < j {
      DigitsEndAt(s, i + 1, j);
    }
  }

  // ---------------------------------------------------------------------------
  // extract_package_name_from_file_line: the line logic

  /** The end of the run of characters that are neither quotes nor whitespace: `[^'"\s]+`. */
  function NameEnd(s: string, i: nat): (r: nat)
    requires i <= |s|
    ensures i <= r <= |s|
    ensures forall t | i <= t < r :: !IsQuote(s[t]) && !IsWhitespace(s[t])
    ensures r == |s| || IsQuote(s[r]) || IsWhitespace(s[r])
    decreases |s| - i
  {
    if i < |s| && !IsQuote(s[i]) && !IsWhitespace(s[i]) then NameEnd(s, i + 1) else i
  }

  /** `kw\s+['"]([^'"\s]+)['"]` matches at `k`. Each run in it is maximal, so the match
      at `k` and its capture are unique. */
  predicate KeywordQuotedAt(s: string, k: nat, kw: string) {
    && StartsAt(s, k, kw)
    && var d := SkipWhitespace(s, k + |kw|);
    && d > k + |kw| && d < |s| && IsQuote(s[d])
    && var e := NameEnd(s, d + 1);
    && e > d + 1 && e < |s| && IsQuote(s[e])
  }

  /** The text captured by a match of `KeywordQuotedAt` at `k`. */
  function KeywordCapture(s: string, k: nat, kw: string): (r: string)
    requires KeywordQuotedAt(s, k, kw)
    ensures r != [] && forall i | 0 <= i < |r| :: !IsQuote(r[i]) && !IsWhitespace(r[i])
  {
    var d := SkipWhitespace(s, k + |kw|);
    s[d + 1..NameEnd(s, d + 1)]
  }

  /** The leftmost match of `KeywordQuotedAt` at or after `k`. */
  function LeftmostKeyword(s: string, kw: string, k: nat): (r: Option<nat>)
    requires k <= |s|
    ensures r.Some? ==> k <= r.value <= |s| && KeywordQuotedAt(s, r.value, kw)
    ensures r.Some? ==> forall j | k <= j < r.value :: !KeywordQuotedAt(s, j, kw)
    ensures r.None? ==> forall j | k <= j <= |s| :: !KeywordQuotedAt(s, j, kw)
    decreases |s| - k
  {
    if KeywordQuotedAt(s, k, kw) then Some(k)
    else if k == |s| then None
    else LeftmostKeyword(s, kw, k + 1)
  }

  /** The capture of the leftmost match of `kw\s+['"]([^'"\s]+)['"]` in `s`. */
  function CaptureKeyword(s: string, kw: string): Option<string> {
    match LeftmostKeyword(s, kw, 0)
    case None => None
    case Some(k) => Some(KeywordCapture(s, k, kw))
  }

  /** The end of a run of characters that are neither whitespace nor `,`: `[^\s,]+`. */
  function BindingEnd(s: string, i: nat): (r: nat)
    requires i <= |s|
    ensures i <= r <= |s|
    ensures forall t | i <= t < r :: !IsWhitespace(s[t]) && s[t] != ','
    decreases |s| - i
  {
    if i < |s| && !IsWhitespace(s[i]) && s[i] != ',' then BindingEnd(s, i + 1) else i
  }

  /** The end of a run of non-whitespace characters: `[^\s]+`. */
  function WordEnd(s: string, i: nat): (r: nat)
    requires i <= |s|
    ensures i <= r <= |s|
    decreases |s| - i
  {
    if i < |s| && !IsWhitespace(s[i]) then WordEnd(s, i + 1) else i
  }

  /** The end of a run of characters other than `}`: `[^}]+`. */
  function BraceEnd(s: string, i: nat): (r: nat)
    requires i <= |s|
    ensures i <= r <= |s|
    decreases |s| - i
  {
    if i < |s| && s[i] != '}' then BraceEnd(s, i + 1) else i
  }

  /** At least one whitespace character starts at `i`; `\s+` then ends at the result. */
  predicate WsPlus(s: string, i: nat) {
    i <= |s| && SkipWhitespace(s, i) > i
  }

  /** The default-import pattern `import\s+([^\s,]+)\s+from\s+['"]([^'"\s]+)['"]` matches at `k`;
      its tail is the named-import pattern at the returned index of `from`. */
  function DefaultFrom(s: string, k: nat): Option<nat> {
    if !StartsAt(s, k, "import") || !WsPlus(s, k + 6) then None else
    var a := SkipWhitespace(s, k + 6);
    var b := BindingEnd(s, a);
    if b == a || !WsPlus(s, b) then None else
    var c := SkipWhitespace(s, b);
    if KeywordQuotedAt(s, c, "from") then Some(c) else None
  }

  /** The namespace-import pattern `import\s+\*\s+as\s+([^\s]+)\s+from\s+['"]([^'"\s]+)['"]`
      matches at `k`. */
  function NamespaceFrom(s: string, k: nat): Option<nat> {
    if !StartsAt(s, k, "import") || !WsPlus(s, k + 6) then None else
    var a := SkipWhitespace(s, k + 6);
    if !StartsAt(s, a, "*") || !WsPlus(s, a + 1) then None else
    var b := SkipWhitespace(s, a + 1);
    if !StartsAt(s, b, "as") || !WsPlus(s, b + 2) then None else
    var c := SkipWhitespace(s, b + 2);
    var e := WordEnd(s, c);
    if e == c || !WsPlus(s, e) then None else
    var f := SkipWhitespace(s, e);
    if KeywordQuotedAt(s, f, "from") then Some(f) else None
  }

  /** The combined-import pattern
      `import\s+([^\s,]+)\s*,\s*{([^}]+)}\s+from\s+['"]([^'"\s]+)['"]` matches at `k`,
      reading the `{` as a literal brace, as evidently intended (the regex crate rejects the
      pattern as written: see `CombinedPatternRejected`). */
  function CombinedFrom(s: string, k: nat): Option<nat> {
    if !StartsAt(s, k, "import") || !WsPlus(s, k + 6) then None else
    var a := SkipWhitespace(s, k + 6);
    var b := BindingEnd(s, a);
    if b == a then None else
    var c := SkipWhitespace(s, b);
    if !StartsAt(s, c, ",") then None else
    var d := SkipWhitespace(s, c + 1);
    if !StartsAt(s, d, "{") then None else
    var e := BraceEnd(s, d + 1);
    if e == d + 1 || !StartsAt(s, e, "}") || !WsPlus(s, e + 1) then None else
    var f := SkipWhitespace(s, e + 1);
    if KeywordQuotedAt(s, f, "from") then Some(f) else None
  }

  /** The default, namespace and combined patterns all end with the named-import pattern, so
      whenever one of them matches, the named-import pattern matches too and is tried first:
      the three middle branches of the source never decide the result. */
  lemma MiddlePatternsNeverDecide(s: string, k: nat)
    requires DefaultFrom(s, k).Some? || NamespaceFrom(s, k).Some? || CombinedFrom(s, k).Some?
    ensures CaptureKeyword(s, "from").Some?
  {
    var f := if DefaultFrom(s, k).Some? then DefaultFrom(s, k).value
      else if NamespaceFrom(s, k).Some? then NamespaceFrom(s, k).value
      else CombinedFrom(s, k).value;
    assert KeywordQuotedAt(s, f, "from");
    assert f <= |s|;
  }

  /** The package named by one line of a file, as `extract_package_name_from_file_line`
      reads it: the trimmed line must be non-empty and not start a comment; the first
      `from '<name>'` wins, then a side-effect `import '<name>'`. */
  function ImportLineTarget(line: string): (r: Option<string>)
    ensures r.Some? ==> r.value != [] && forall i | 0 <= i < |r.value| :: !IsQuote(r.value[i]) && !IsWhitespace(r.value[i])
    ensures var t := Trim(line); (t == [] || StartsWith(t, "//") || StartsWith(t, "/*")) ==> r.None?
  {
    var t := Trim(line);
    if t == [] || StartsWith(t, "//") || StartsWith(t, "/*") then None
    else match CaptureKeyword(t, "from")
      case Some(name) => Some(name)
      case None => CaptureKeyword(t, "import")
  }

  // ---------------------------------------------------------------------------
  // The five patterns as written

  const NamedPattern := "from\\s+['\"]([^'\"\\s]+)['\"]"
  const DefaultPattern := "import\\s+([^\\s,]+)\\s+from\\s+['\"]([^'\"\\s]+)['\"]"
  const NamespacePattern := "import\\s+\\*\\s+as\\s+([^\\s]+)\\s+from\\s+['\"]([^'\"\\s]+)['\"]"
  const CombinedPattern := "import\\s+([^\\s,]+)\\s*,\\s*{([^}]+)}\\s+from\\s+['\"]([^'\"\\s]+)['\"]"
  const SideEffectPattern := "import\\s+['\"]([^'\"\\s]+)['\"]"

  /** The patterns compiled, in order, once a line passes the empty and comment checks. */
  const LinePatterns := [NamedPattern, DefaultPattern, NamespacePattern, CombinedPattern, SideEffectPattern]

  /** A condition the regex crate places on a pattern with no `{` inside a character class:
      an unescaped `{` opens a counted repetition (`{n}`, `{n,}` or `{n,m}`), so a decimal
      digit must follow it; otherwise compiling the pattern fails. */
  predicate BracesAccepted(p: string) {
    forall i | 0 <= i < |p| && p[i] == '{' && (i == 0 || p[i - 1] != '\\') :: i + 1 < |p| && IsAsciiDigit(p[i + 1])
  }

  /** The combined-import pattern, as written, has a `{` followed by `(`. */
  lemma CombinedPatternRejected()
    ensures !BracesAccepted(CombinedPattern)
  {
    assert CombinedPattern[25] == '{' && CombinedPattern[24] == '*' && CombinedPattern[26] == '(';
  }

  /** The trimmed line is non-empty and does not start a comment, so the patterns are compiled. */
  predicate ReachesPatterns(line: string) {
    var t := Trim(line);
    t != [] && !StartsWith(t, "//") && !StartsWith(t, "/*")
  }

  /** How one line ends under the code as written: a panic of `unwrap` on a pattern that does
      not compile, or a returned target. */
  datatype LineOutcome = Panicked | Returned(target: Option<string>)

  /** The line logic as written: every pattern is compiled before any is tried. */
  function ImportLineTargetAsWritten(line: string): (r: LineOutcome)
    ensures r.Panicked? <==> ReachesPatterns(line) && exists p | p in LinePatterns :: !BracesAccepted(p)
    ensures r.Returned? ==> r.target == ImportLineTarget(line)
  {
    if !ReachesPatterns(line) then Returned(None)
    else if forall p | p in LinePatterns :: BracesAccepted(p) then Returned(ImportLineTarget(line))
    else Panicked
  }

  /** As written, every line that passes the empty and comment checks aborts the program,
      among them `import x from "y"`, which the intended rule reads as naming `y`. */
  lemma CombinedPatternAborts(line: string)
    requires ReachesPatterns(line)
    ensures ImportLineTargetAsWritten(line) == Panicked
  {
    CombinedPatternRejected();
    assert CombinedPattern in LinePatterns;
  }

  /** `extract_package_name_from_file_line` on the text of the file (`None` when it cannot be
      opened) and a 1-based line number. */
  function ExtractPackageNameFromFileLine(content: Option<string>, lineNumber: nat): (r: Option<string>)
    ensures (content.None? || lineNumber == 0 || lineNumber > |Lines(content.value)|) ==> r.None?
    ensures content.Some? && 1 <= lineNumber <= |Lines(content.value)|
      ==> r == ImportLineTarget(Lines(content.value)[lineNumber - 1])
  {
    match content
    case None => None
    case Some(text) =>
      var lines := Lines(text);
      if lineNumber == 0 || lineNumber > |lines| then None
      else ImportLineTarget(lines[lineNumber - 1])
  }

  /** `kw "<name>"` written at `k` is a match of `kw\s+['"]([^'"\s]+)['"]` capturing `<name>`. */
  lemma KeywordMatchAt(s: string, k: nat, kw: string, name: string)
    requires name != [] && forall i | 0 <= i < |name| :: !IsQuote(name[i]) && !IsWhitespace(name[i])
    requires k + |kw| + 2 + |name| < |s| && StartsAt(s, k, kw)
    requires s[k + |kw|] == ' ' && s[k + |kw| + 1] == '"' && s[k + |kw| + 2 + |name|] == '"'
    requires forall j | 0 <= j < |name| :: s[k + |kw| + 2 + j] == name[j]
    ensures KeywordQuotedAt(s, k, kw) && KeywordCapture(s, k, kw) == name
  {
    var n := k + |kw|;
    assert SkipWhitespace(s, n) == n + 1 by {
      assert SkipWhitespace(s, n + 1) == n + 1;
    }
    NameEndOf(s, n + 2, name);
    assert s[n + 2..n + 2 + |name|] == name;
  }

  /** `kw "<name>"` at the end of `pre` is a match of `kw\s+['"]([^'"\s]+)['"]` capturing
      `<name>`, and the leftmost one when none starts inside `pre`. */
  lemma CaptureAfterKeyword(pre: string, kw: string, name: string, post: string)
    requires name != [] && forall i | 0 <= i < |name| :: !IsQuote(name[i]) && !IsWhitespace(name[i])
    requires forall j | 0 <= j < |pre| :: !KeywordQuotedAt(pre + kw + " \"" + name + "\"" + post, j, kw)
    ensures CaptureKeyword(pre + kw + " \"" + name + "\"" + post, kw) == Some(name)
  {
    var s := pre + kw + " \"" + name + "\"" + post;
    var k := |pre|;
    var n := k + |kw|;
    assert forall j | 0 <= j < |kw| :: s[k + j] == kw[j];
    assert forall j | 0 <= j < |name| :: s[n + 2 + j] == name[j];
    assert s[n] == ' ' && s[n + 1] == '"' && s[n + 2 + |name|] == '"';
    KeywordMatchAt(s, k, kw, name);
    assert LeftmostKeyword(s, kw, 0) == Some(k);
  }

  /** A named import `... from "<name>"` on a line yields that name when no earlier part of
      the line matches. */
  lemma NamedImportLine(pre: string, name: string, post: string)
    requires name != [] && forall i | 0 <= i < |name| :: !IsQuote(name[i]) && !IsWhitespace(name[i])
    requires forall j | 0 <= j < |pre| :: !KeywordQuotedAt(pre + "from \"" + name + "\"" + post, j, "from")
    ensures CaptureKeyword(pre + "from \"" + name + "\"" + post, "from") == Some(name)
  {
    assert pre + "from \"" + name + "\"" + post == pre + "from" + " \"" + name + "\"" + post;
    CaptureAfterKeyword(pre, "from", name, post);
  }

  /** A line that neither starts nor ends with whitespace is its own trimmed form. */
  lemma TrimmedLine(line: string)
    requires line != [] && !IsWhitespace(line[0]) && !IsWhitespace(line[|line| - 1])
    ensures Trim(line) == line
  {
    TrimAround([], line, []);
    assert [] + line + [] == line;
  }

  /** `pre + mid + post`, with `mid` starting with a letter and ending with a quote, starts
      and ends as `pre` and `post` allow. */
  lemma LineEnds(pre: string, mid: string, post: string, line: string)
    requires line == pre + mid + post
    requires |mid| >= 2 && 'a' <= mid[0] <= 'z' && mid[|mid| - 1] == '"'
    requires pre == [] || (!IsWhitespace(pre[0]) && pre[0] != '/')
    requires post == [] || !IsWhitespace(post[|post| - 1])
    ensures line != [] && !IsWhitespace(line[0]) && line[0] != '/' && !IsWhitespace(line[|line| - 1])
  {
    if pre == [] { assert line[0] == mid[0]; } else { assert line[0] == pre[0]; }
    if post == [] { assert line[|line| - 1] == mid[|mid| - 1]; } else { assert line[|line| - 1] == post[|post| - 1]; }
  }

  /** On a trimmed line that is not a comment, a `from` capture decides. */
  lemma FromDecides(line: string, name: string)
    requires line != [] && !IsWhitespace(line[0]) && line[0] != '/' && !IsWhitespace(line[|line| - 1])
    requires CaptureKeyword(line, "from") == Some(name)
    ensures ImportLineTarget(line) == Some(name)
  {
    TrimmedLine(line);
  }

  /** On a trimmed line that is not a comment and has no `from` match, an `import` capture decides. */
  lemma ImportDecides(line: string, name: string)
    requires line != [] && !IsWhitespace(line[0]) && line[0] != '/' && !IsWhitespace(line[|line| - 1])
    requires forall j | 0 <= j <= |line| :: !KeywordQuotedAt(line, j, "from")
    requires CaptureKeyword(line, "import") == Some(name)
    ensures ImportLineTarget(line) == Some(name)
  {
    TrimmedLine(line);
    assert CaptureKeyword(line, "from").None?;
  }

  /** A trimmed line holding `from "<name>"`, with no earlier `from` match, names `<name>`:
      the first branch of the line rule decides. */
  lemma NamedImportLineTarget(pre: string, name: string, post: string)
    requires name != [] && forall i | 0 <= i < |name| :: !IsQuote(name[i]) && !IsWhitespace(name[i])
    requires pre == [] || (!IsWhitespace(pre[0]) && pre[0] != '/')
    requires post == [] || !IsWhitespace(post[|post| - 1])
    requires forall j | 0 <= j < |pre| :: !KeywordQuotedAt(pre + "from \"" + name + "\"" + post, j, "from")
    ensures ImportLineTarget(pre + "from \"" + name + "\"" + post) == Some(name)
  {
    var mid := "from \"" + name + "\"";
    var line := pre + "from \"" + name + "\"" + post;
    assert line == pre + mid + post;
    LineEnds(pre, mid, post, line);
    NamedImportLine(pre, name, post);
    FromDecides(line, name);
  }

  /** A trimmed side-effect import `import "<name>"` on a line with no `from` match anywhere
      names `<name>`, when no earlier `import` match precedes it: the last branch decides. */
  lemma SideEffectImportLineTarget(pre: string, name: string, post: string)
    requires name != [] && forall i | 0 <= i < |name| :: !IsQuote(name[i]) && !IsWhitespace(name[i])
    requires pre == [] || (!IsWhitespace(pre[0]) && pre[0] != '/')
    requires post == [] || !IsWhitespace(post[|post| - 1])
    requires forall j | 0 <= j <= |pre + "import \"" + name + "\"" + post|
      :: !KeywordQuotedAt(pre + "import \"" + name + "\"" + post, j, "from")
    requires forall j | 0 <= j < |pre| :: !KeywordQuotedAt(pre + "import \"" + name + "\"" + post, j, "import")
    ensures ImportLineTarget(pre + "import \"" + name + "\"" + post) == Some(name)
  {
    var mid := "import \"" + name + "\"";
    var line := pre + "import \"" + name + "\"" + post;
    assert line == pre + mid + post;
    LineEnds(pre, mid, post, line);
    assert line == pre + "import" + " \"" + name + "\"" + post;
    CaptureAfterKeyword(pre, "import", name, post);
    ImportDecides(line, name);
  }

  /** The name run of `s` that starts where `name` was written ends right after it. */
  lemma NameEndOf(s: string, i: nat, name: string)
    requires i + |name| < |s| && (IsQuote(s[i + |name|]) || IsWhitespace(s[i + |name|]))
    requires forall t | 0 <= t < |name| :: !IsQuote(name[t]) && !IsWhitespace(name[t]) && s[i + t] == name[t]
    ensures NameEnd(s, i) == i + |name|
    decreases |name|
  {
    if name != [] {
      assert s[i + 0] == name[0];
      forall t | 0 <= t < |name| - 1
        ensures !IsQuote(name[1..][t]) && !IsWhitespace(name[1..][t]) && s[i + 1 + t] == name[1..][t]
      {
        assert name[1..][t] == name[t + 1];
        assert s[i + (t + 1)] == name[t + 1];
      }
      NameEndOf(s, i + 1, name[1..]);
    }
  }

  // ---------------------------------------------------------------------------
  // get_typescript_unused_imports

  /** The outcome of running `tsc --noEmit --pretty false --noUnusedLocals`. */
  datatype TscRun = SpawnFailed | Exited(success: bool, stderr: string)

  /** The name one diagnostic line contributes, if any; `files` maps a path to the text of
      the file it names (a missing path cannot be opened). */
  function UnusedImportOfLine(line: string, exts: seq<string>, files: map<string, string>): Option<string> {
    if !Contains(line, UnusedCode) then None
    else match ExtractFileAndLine(line, exts)
      case None => None
      case Some(loc) =>
        ExtractPackageNameFromFileLine(if loc.0 in files then Some(files[loc.0]) else None, loc.1)
  }

  /** The names reported by the diagnostic lines. */
  function UnusedImportsOfLines(lines: seq<string>, exts: seq<string>, files: map<string, string>): set<string> {
    set l | l in lines && UnusedImportOfLine(l, exts, files).Some? :: UnusedImportOfLine(l, exts, files).value
  }

  /** `get_typescript_unused_imports`: empty unless the project is a TypeScript project and
      the compiler ran and failed; then one name per readable TS6133 line. */
  function TypescriptUnusedImports(isTsProject: bool, run: TscRun, exts: seq<string>, files: map<string, string>): (r: set<string>)
    ensures !isTsProject || run.SpawnFailed? || (run.Exited? && run.success) ==> r == {}
  {
    if !isTsProject then {}
    else match run
      case SpawnFailed => {}
      case Exited(success, stderr) =>
        if success then {} else UnusedImportsOfLines(Lines(stderr), exts, files)
  }

  method GetTypescriptUnusedImports(isTsProject: bool, run: TscRun, exts: seq<string>, files: map<string, string>)
    returns (unused: set<string>)
    ensures unused == TypescriptUnusedImports(isTsProject, run, exts, files)
    ensures forall n | n in unused :: n != []
  {
    unused := {};
    if !isTsProject {
      return;
    }
    match run {
      case SpawnFailed =>
        return;
      case Exited(success, stderr) =>
        if success {
          return;
        }
        var lines := Lines(stderr);
        assert lines[..|lines|] == lines;
        for i := 0 to |lines|
          invariant unused == UnusedImportsOfLines(lines[..i], exts, files)
        {
          UnusedImportsStep(lines, i, exts, files);
          var found := UnusedImportOfLine(lines[i], exts, files);
          unused := if found.Some? then unused + {found.value} else unused;
        }
    }
  }

  lemma UnusedImportsStep(lines: seq<string>, i: nat, exts: seq<string>, files: map<string, string>)
    requires i < |lines|
    ensures var f := UnusedImportOfLine(lines[i], exts, files);
      UnusedImportsOfLines(lines[..i + 1], exts, files)
      == UnusedImportsOfLines(lines[..i], exts, files) + (if f.Some? then {f.value} else {})
  {
    assert lines[..i + 1] == lines[..i] + [lines[i]];
  }
}
