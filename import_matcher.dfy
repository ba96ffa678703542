/** The fixed import/require matcher of `find_dependencies_in_content`
    (src/file_scanner.rs:235-252). For every dependency `dep` the source builds one regular
    expression with three alternatives, `dep` escaped so that it matches only itself:

      import \s* ( \{ [^}]* \} | \w* ) \s* from \s* QUOTE dep QUOTE
      require \s* \( \s* QUOTE dep QUOTE \s* \)
      import \s* QUOTE dep QUOTE \s* ;

    where QUOTE is either `'` or `"` (the two quotes need not agree). The regex matches when
    some start position admits one of the alternatives; each predicate below states one
    alternative with the positions the regex engine may choose as existential witnesses. */
module ImportMatcher {
  import opened Strings

  /** `s[i..j]` is a (possibly empty) run of whitespace: the regex `\s*`. */
  predicate WsSpan(s: string, i: nat, j: nat) {
    i <= j <= |s| && forall t | i <= t < j :: IsWhitespace(s[t])
  }

  /** A quote, the text `dep`, a quote, starting at `d`. */
  predicate QuotedAt(s: string, d: nat, dep: string) {
    d + |dep| + 2 <= |s| && IsQuote(s[d]) && StartsAt(s, d + 1, dep) && IsQuote(s[d + 1 + |dep|])
  }

  /** `\s* QUOTE dep QUOTE` starting at `i`. */
  predicate WsThenQuoted(s: string, i: nat, dep: string) {
    exists d | i <= d <= |s| :: WsSpan(s, i, d) && QuotedAt(s, d, dep)
  }

  /** The import clause `\{[^}]*\}|\w*` spans `s[a..b]`. */
  predicate ClauseSpan(s: string, a: nat, b: nat) {
    && a <= b <= |s|
    && ((b >= a + 2 && s[a] == '{' && s[b - 1] == '}' && forall t | a + 1 <= t < b - 1 :: s[t] != '}')
        || (forall t | a <= t < b :: IsWordChar(s[t])))
  }

  /** `\s* from \s* QUOTE dep QUOTE` starting at `b`. */
  predicate FromTail(s: string, b: nat, dep: string) {
    exists c | b <= c <= |s| :: WsSpan(s, b, c) && StartsAt(s, c, "from") && WsThenQuoted(s, c + 4, dep)
  }

  /** `(\{[^}]*\}|\w*) \s* from \s* QUOTE dep QUOTE` starting at `a`. */
  predicate ClauseFrom(s: string, a: nat, dep: string) {
    exists b | a <= b <= |s| :: ClauseSpan(s, a, b) && FromTail(s, b, dep)
  }

  /** First alternative, `import ... from 'dep'`, starting at `k`. */
  predicate ImportFromAt(s: string, k: nat, dep: string) {
    StartsAt(s, k, "import") && exists a | k + 6 <= a <= |s| :: WsSpan(s, k + 6, a) && ClauseFrom(s, a, dep)
  }

  /** `QUOTE dep QUOTE \s* \)` starting at `d`. */
  predicate QuotedThenClose(s: string, d: nat, dep: string) {
    QuotedAt(s, d, dep)
      && exists e | d + |dep| + 2 <= e < |s| :: WsSpan(s, d + |dep| + 2, e) && s[e] == ')'
  }

  /** Second alternative, `require('dep')`, starting at `k`. */
  predicate RequireAt(s: string, k: nat, dep: string) {
    && StartsAt(s, k, "require")
    && exists p | k + 7 <= p < |s| :: WsSpan(s, k + 7, p) && s[p] == '('
         && exists d | p + 1 <= d <= |s| :: WsSpan(s, p + 1, d) && QuotedThenClose(s, d, dep)
  }

  /** `QUOTE dep QUOTE \s* ;` starting at `d`. */
  predicate QuotedThenSemicolon(s: string, d: nat, dep: string) {
    QuotedAt(s, d, dep)
      && exists e | d + |dep| + 2 <= e < |s| :: WsSpan(s, d + |dep| + 2, e) && s[e] == ';'
  }

  /** Third alternative, `import 'dep';`, starting at `k`. */
  predicate SideEffectImportAt(s: string, k: nat, dep: string) {
    StartsAt(s, k, "import")
      && exists d | k + 6 <= d <= |s| :: WsSpan(s, k + 6, d) && QuotedThenSemicolon(s, d, dep)
  }

  /** The per-dependency regex matches somewhere in `s`. */
  predicate ReferencesDependency(s: string, dep: string) {
    exists k | 0 <= k <= |s| :: ImportFromAt(s, k, dep) || RequireAt(s, k, dep) || SideEffectImportAt(s, k, dep)
  }

  /** The dependencies whose pattern matches the content. */
  function Referenced(content: string, deps: set<string>): set<string> {
    set d | d in deps && ReferencesDependency(content, d)
  }

  /** `find_dependencies_in_content`: the dependencies whose pattern matches the content,
      each decided on its own. */
  method FindDependenciesInContent(content: string, deps: set<string>) returns (found: set<string>)
    ensures found <= deps
    ensures forall d | d in deps :: d in found <==> ReferencesDependency(content, d)
    ensures found == Referenced(content, deps)
  {
    found := {};
    var rest := deps;
    while rest != {}
      invariant rest <= deps
      invariant found == set d | d in deps - rest && ReferencesDependency(content, d)
      decreases rest
    {
      var d :| d in rest;
      if ReferencesDependency(content, d) {
        found := found + {d};
      }
      rest := rest - {d};
    }
  }

  // ---------------------------------------------------------------------------
  // What a match implies, and which texts match

  /** Every match has the dependency name standing between two quote characters, so a
      sub-path (`'lodash/fp'`) or a longer name (`'lodashx'`) never counts for `lodash`. */
  lemma MatchIsQuoted(s: string, dep: string)
    requires ReferencesDependency(s, dep)
    ensures exists d | 0 <= d <= |s| :: QuotedAt(s, d, dep)
  {
    var k :| 0 <= k <= |s| && (ImportFromAt(s, k, dep) || RequireAt(s, k, dep) || SideEffectImportAt(s, k, dep));
    if ImportFromAt(s, k, dep) {
      var a :| k + 6 <= a <= |s| && WsSpan(s, k + 6, a) && ClauseFrom(s, a, dep);
      var b :| a <= b <= |s| && ClauseSpan(s, a, b) && FromTail(s, b, dep);
      var c :| b <= c <= |s| && WsSpan(s, b, c) && StartsAt(s, c, "from") && WsThenQuoted(s, c + 4, dep);
      var d :| c + 4 <= d <= |s| && WsSpan(s, c + 4, d) && QuotedAt(s, d, dep);
    } else if RequireAt(s, k, dep) {
      var p :| k + 7 <= p < |s| && WsSpan(s, k + 7, p) && s[p] == '('
        && exists d | p + 1 <= d <= |s| :: WsSpan(s, p + 1, d) && QuotedThenClose(s, d, dep);
      var d :| p + 1 <= d <= |s| && WsSpan(s, p + 1, d) && QuotedThenClose(s, d, dep);
    } else {
      var d :| k + 6 <= d <= |s| && WsSpan(s, k + 6, d) && QuotedThenSemicolon(s, d, dep);
    }
  }

  /** Text with no quoted occurrence of the name is never a match. */
  lemma UnquotedNeverMatches(s: string, dep: string)
    requires forall d | 0 <= d <= |s| :: !QuotedAt(s, d, dep)
    ensures !ReferencesDependency(s, dep)
  {
    if ReferencesDependency(s, dep) {
      MatchIsQuoted(s, dep);
    }
  }

  /** `require("dep")` anywhere in the text is a match, whatever surrounds it. */
  lemma RequireMatches(pre: string, dep: string, post: string)
    ensures ReferencesDependency(pre + "require(\"" + dep + "\")" + post, dep)
  {
    var s := pre + "require(\"" + dep + "\")" + post;
    var k := |pre|;
    var p := k + 7;
    var d := p + 1;
    assert StartsAt(s, k, "require");
    assert s[p] == '(';
    assert WsSpan(s, k + 7, p) && WsSpan(s, p + 1, d);
    assert StartsAt(s, d + 1, dep) by {
      forall j | 0 <= j < |dep| ensures s[d + 1 + j] == dep[j] {
        assert s[d + 1 + j] == (pre + "require(\"" + dep)[d + 1 + j];
      }
    }
    assert QuotedAt(s, d, dep);
    var e := d + |dep| + 2;
    assert s[e] == ')' && WsSpan(s, e, e);
    assert QuotedThenClose(s, d, dep);
    assert RequireAt(s, k, dep);
  }

  /** `import { names } from "dep"` anywhere in the text is a match when `names` holds no `}`. */
  lemma NamedImportMatches(pre: string, names: string, dep: string, post: string)
    requires '}' !in names
    ensures ReferencesDependency(pre + "import {" + names + "} from \"" + dep + "\"" + post, dep)
  {
    var s := pre + "import {" + names + "} from \"" + dep + "\"" + post;
    var k := |pre|;
    var a := k + 7;
    var b := a + |names| + 2;
    var c := b + 1;
    var d := c + 5;
    assert StartsAt(s, k, "import");
    assert WsSpan(s, k + 6, a);
    assert ClauseSpan(s, a, b) by {
      assert s[a] == '{' && s[b - 1] == '}';
      forall t | a + 1 <= t < b - 1 ensures s[t] != '}' {
        assert s[t] == names[t - a - 1];
      }
    }
    assert WsSpan(s, b, c);
    assert StartsAt(s, c, "from");
    assert WsSpan(s, c + 4, d);
    assert StartsAt(s, d + 1, dep) by {
      forall j | 0 <= j < |dep| ensures s[d + 1 + j] == dep[j] {
        assert s[d + 1 + j] == (pre + "import {" + names + "} from \"" + dep)[d + 1 + j];
      }
    }
    assert QuotedAt(s, d, dep);
    assert WsThenQuoted(s, c + 4, dep);
    assert FromTail(s, b, dep);
    assert ClauseFrom(s, a, dep);
    assert ImportFromAt(s, k, dep);
  }

  /** A name with a character that the text lacks is never referenced by that text. */
  lemma MissingCharNeverMatches(s: string, dep: string, c: char)
    requires c in dep && c !in s
    ensures !ReferencesDependency(s, dep)
  {
    forall d | 0 <= d <= |s| ensures !QuotedAt(s, d, dep) {
      var j :| 0 <= j < |dep| && dep[j] == c;
      if d + 1 + j < |s| {
        assert s[d + 1 + j] != c;
      }
    }
    UnquotedNeverMatches(s, dep);
  }

  const Example: string := "import { foo } from \"lodash\"; require(\"moment\");"

  /** The example written as a named import followed by other text. */
  lemma ExampleAsNamedImport(s: string, t: string)
    requires s == Example
    requires t == "" + "import {" + " foo " + "} from \"" + "lodash" + "\"" + "; require(\"moment\");"
    ensures s == t
  {
  }

  /** The example written as a `require` call between other text. */
  lemma ExampleAsRequire(s: string, t: string)
    requires s == Example
    requires t == "import { foo } from \"lodash\"; " + "require(\"" + "moment" + "\")" + ";"
    ensures s == t
  {
  }

  lemma SameText(s: string, t: string, dep: string)
    requires s == t && ReferencesDependency(t, dep)
    ensures ReferencesDependency(s, dep)
  {
  }

  /** The documented example `import { foo } from "lodash"; require("moment");`
      references both `lodash` and `moment`. */
  lemma ExampleReferences(s: string)
    requires s == Example
    ensures ReferencesDependency(s, "lodash") && ReferencesDependency(s, "moment")
  {
    var t := "" + "import {" + " foo " + "} from \"" + "lodash" + "\"" + "; require(\"moment\");";
    NamedImportMatches("", " foo ", "lodash", "; require(\"moment\");");
    ExampleAsNamedImport(s, t);
    SameText(s, t, "lodash");
    var u := "import { foo } from \"lodash\"; " + "require(\"" + "moment" + "\")" + ";";
    RequireMatches("import { foo } from \"lodash\"; ", "moment", ";");
    ExampleAsRequire(s, u);
    SameText(s, u, "moment");
  }

  /** `find_dependencies_in_content` on the documented example finds both dependencies. */
  method DocumentedExample(content: string) returns (found: set<string>)
    requires content == Example
    ensures found == {"lodash", "moment"}
  {
    ExampleReferences(content);
    found := FindDependenciesInContent(content, {"lodash", "moment"});
  }
}
