/**
 * Finding the specs that mention the constants a changed file defines:
 * the case conversions, the `|`-alternation pattern, the grep fallback's
 * escaping and the splitting of the search tool's output into paths.
 * Reading files, the regular-expression scan for `class`/`module`
 * definitions and the shell-outs are parameters: `files` maps a path to
 * its contents, `scan` gives the constant names a file's text defines.
 */
module Search {
  import opened Wrappers
  import opened Seqs
  import opened Text

  // ---------------------------------------------------------------------------
  // Case conversion
  // ---------------------------------------------------------------------------

  /** `gsub(/([A-Z])/, '_\1')`: an underscore in front of every ASCII capital. */
  function MarkCapitals(s: string): string
    decreases |s|
  {
    if s == [] then [] else (if IsUpper(s[0]) then ['_', s[0]] else [s[0]]) + MarkCapitals(s[1..])
  }

  /** Position of the first `_` that starts a line, which is where `/^_/` matches. */
  function LineStartUnderscore(s: string, from: nat): (r: Option<nat>)
    ensures r.Some? ==> from <= r.value < |s| && s[r.value] == '_' && (r.value == 0 || s[r.value - 1] == '\n')
    ensures r.Some? ==> forall p :: from <= p < r.value && s[p] == '_' ==> p > 0 && s[p - 1] != '\n'
    ensures r.None? ==> forall p :: from <= p < |s| && s[p] == '_' ==> p > 0 && s[p - 1] != '\n'
    decreases |s| - from
  {
    if from >= |s| then None
    else if s[from] == '_' && (from == 0 || s[from - 1] == '\n') then Some(from)
    else LineStartUnderscore(s, from + 1)
  }

  /** `sub(/^_/, '')`: removes the first underscore found at the start of a line. */
  function DropLineStartUnderscore(s: string): string {
    match LineStartUnderscore(s, 0)
    case None => s
    case Some(p) => s[..p] + s[p + 1..]
  }

  /** `constant_to_snake_case`. */
  function SnakeCase(constant: string): string {
    DropLineStartUnderscore(Downcase(MarkCapitals(constant)))
  }

  /** `constant_to_kebab_case`. */
  function KebabCase(constant: string): string {
    ReplaceChar(SnakeCase(constant), '_', "-")
  }

  lemma {:induction false} DowncaseAppend(a: string, b: string)
    ensures Downcase(a + b) == Downcase(a) + Downcase(b)
    decreases |a|
  {
    if a == [] {
      assert a + b == b;
    } else {
      assert (a + b)[0] == a[0] && (a + b)[1..] == a[1..] + b;
      DowncaseAppend(a[1..], b);
    }
  }

  lemma {:induction false} DowncaseNoUpper(s: string)
    ensures forall k :: 0 <= k < |Downcase(s)| ==> !IsUpper(Downcase(s)[k])
    decreases |s|
  {
    if s != [] {
      DowncaseNoUpper(s[1..]);
    }
  }

  /** Downcasing changes no character other than a capital, and a capital becomes a lower-case letter. */
  lemma {:induction false} DowncaseChars(s: string, x: char)
    requires !('a' <= x <= 'z')
    ensures x in Downcase(s) ==> x in s
    ensures x in s && !IsUpper(x) ==> x in Downcase(s)
    decreases |s|
  {
    if s != [] {
      DowncaseChars(s[1..], x);
      assert Downcase(s) == [Lower(s[0])] + Downcase(s[1..]);
      assert s == [s[0]] + s[1..];
    }
  }

  lemma {:induction false} MarkCapitalsChars(s: string, x: char)
    requires x != '_'
    ensures x in MarkCapitals(s) <==> x in s
    decreases |s|
  {
    if s != [] {
      MarkCapitalsChars(s[1..], x);
      assert s == [s[0]] + s[1..];
    }
  }

  lemma {:induction false} MarkCapitalsAppend(a: string, b: string)
    ensures MarkCapitals(a + b) == MarkCapitals(a) + MarkCapitals(b)
    decreases |a|
  {
    if a == [] {
      assert a + b == b;
    } else {
      assert (a + b)[0] == a[0] && (a + b)[1..] == a[1..] + b;
      MarkCapitalsAppend(a[1..], b);
    }
  }

  /** Removing one character keeps every other character. */
  lemma DropOneChars(s: string, p: nat, x: char)
    requires p < |s|
    ensures x in s[..p] + s[p + 1..] ==> x in s
  {
    if x in s[..p] + s[p + 1..] {
      var k :| 0 <= k < |s[..p] + s[p + 1..]| && (s[..p] + s[p + 1..])[k] == x;
      if k < p { assert s[k] == x; } else { assert s[k + 1] == x; }
    }
  }

  /** Every character of the snake case other than `_` and lower-case letters comes from the constant. */
  lemma SnakeCaseChars(constant: string, x: char)
    requires x != '_' && !('a' <= x <= 'z')
    ensures x in SnakeCase(constant) ==> x in constant
  {
    var d := Downcase(MarkCapitals(constant));
    DowncaseChars(MarkCapitals(constant), x);
    MarkCapitalsChars(constant, x);
    match LineStartUnderscore(d, 0)
    case None =>
    case Some(p) => DropOneChars(d, p, x);
  }

  /** The snake case holds no capital letter. */
  lemma SnakeCaseNoUpper(constant: string)
    ensures forall k :: 0 <= k < |SnakeCase(constant)| ==> !IsUpper(SnakeCase(constant)[k])
  {
    var d := Downcase(MarkCapitals(constant));
    DowncaseNoUpper(MarkCapitals(constant));
    match LineStartUnderscore(d, 0)
    case None =>
    case Some(p) =>
      var e := d[..p] + d[p + 1..];
      forall k | 0 <= k < |e|
        ensures !IsUpper(e[k])
      {
        if k < p { assert e[k] == d[k]; } else { assert e[k] == d[k + 1]; }
      }
  }

  /** Downcasing and then removing underscores commute with marking capitals. */
  lemma {:induction false} MarkedLetters(s: string)
    ensures ReplaceChar(Downcase(MarkCapitals(s)), '_', "") == Downcase(ReplaceChar(s, '_', ""))
    decreases |s|
  {
    if s != [] {
      var head := if IsUpper(s[0]) then ['_', s[0]] else [s[0]];
      assert MarkCapitals(s) == head + MarkCapitals(s[1..]);
      DowncaseAppend(head, MarkCapitals(s[1..]));
      ReplaceCharAppend(Downcase(head), Downcase(MarkCapitals(s[1..])), '_', "");
      var rhead := if s[0] == '_' then [] else [s[0]];
      assert ReplaceChar(s, '_', "") == rhead + ReplaceChar(s[1..], '_', "");
      DowncaseAppend(rhead, ReplaceChar(s[1..], '_', ""));
      MarkedLetters(s[1..]);
      if IsUpper(s[0]) {
        assert Downcase(head) == ['_', Lower(s[0])];
        assert ReplaceChar(['_', Lower(s[0])], '_', "") == [Lower(s[0])];
      } else {
        assert Downcase(head) == [Lower(s[0])];
      }
    }
  }

  /** Removing an underscore does not change the string once all underscores are removed. */
  lemma DropUnderscoreLetters(s: string, p: nat)
    requires p < |s| && s[p] == '_'
    ensures ReplaceChar(s[..p] + s[p + 1..], '_', "") == ReplaceChar(s, '_', "")
  {
    var a, b := s[..p], s[p + 1..];
    assert s == a + (['_'] + b);
    ReplaceCharAppend(a, ['_'] + b, '_', "");
    assert ReplaceChar(['_'] + b, '_', "") == ReplaceChar(b, '_', "");
    ReplaceCharAppend(a, b, '_', "");
  }

  /**
   * The snake case spells the constant's letters, downcased, in the same order:
   * only underscores are added or dropped.
   */
  lemma SnakeCaseLetters(constant: string)
    ensures ReplaceChar(SnakeCase(constant), '_', "") == Downcase(ReplaceChar(constant, '_', ""))
  {
    var d := Downcase(MarkCapitals(constant));
    MarkedLetters(constant);
    match LineStartUnderscore(d, 0)
    case None =>
    case Some(p) => DropUnderscoreLetters(d, p);
  }

  /** Without line breaks, the only underscore `/^_/` can find is a leading one. */
  lemma {:induction false} OneLineUnderscore(s: string, from: nat)
    requires '\n' !in s
    ensures LineStartUnderscore(s, from) == if from == 0 && s != [] && s[0] == '_' then Some(0) else None
    decreases |s| - from
  {
    if from < |s| && !(s[from] == '_' && from == 0) {
      assert from > 0 ==> s[from - 1] != '\n';
      OneLineUnderscore(s, from + 1);
    }
  }

  /**
   * For a constant on one line, the snake case is the marked and downcased
   * constant less one leading underscore, present exactly when the constant
   * starts with a capital or an underscore.
   */
  lemma SnakeCaseOneLine(constant: string)
    requires '\n' !in constant
    ensures var d := Downcase(MarkCapitals(constant));
      SnakeCase(constant) == if constant != [] && (IsUpper(constant[0]) || constant[0] == '_') then d[1..] else d
  {
    var d := Downcase(MarkCapitals(constant));
    MarkCapitalsChars(constant, '\n');
    DowncaseChars(MarkCapitals(constant), '\n');
    OneLineUnderscore(d, 0);
  }

  /** A CamelCase word: a capital, then no capital and no line break. */
  predicate CamelWord(w: string) {
    w != [] && IsUpper(w[0]) && forall k :: 1 <= k < |w| ==> !IsUpper(w[k]) && w[k] != '\n'
  }

  /** The word with its capital downcased. */
  function LowerWord(w: string): string
    requires w != []
  {
    [Lower(w[0])] + w[1..]
  }

  lemma {:induction false} MarkCapitalsNoUpper(s: string)
    requires forall k :: 0 <= k < |s| ==> !IsUpper(s[k])
    ensures MarkCapitals(s) == s
    decreases |s|
  {
    if s != [] {
      MarkCapitalsNoUpper(s[1..]);
      assert [s[0]] + s[1..] == s;
    }
  }

  lemma {:induction false} DowncaseNoUpperSame(s: string)
    requires forall k :: 0 <= k < |s| ==> !IsUpper(s[k])
    ensures Downcase(s) == s
    decreases |s|
  {
    if s != [] {
      DowncaseNoUpperSame(s[1..]);
      assert [s[0]] + s[1..] == s;
    }
  }

  /** A word is marked with one underscore in front and downcased at its capital. */
  lemma MarkedWord(w: string)
    requires CamelWord(w)
    ensures Downcase(MarkCapitals(w)) == ['_'] + LowerWord(w)
  {
    var tail := w[1..];
    assert MarkCapitals(w) == ['_', w[0]] + MarkCapitals(tail);
    MarkCapitalsNoUpper(tail);
    DowncaseAppend(['_', w[0]], tail);
    assert Downcase(['_', w[0]]) == ['_', Lower(w[0])] by {
      assert ['_', w[0]][1..] == [w[0]];
      assert Downcase([w[0]]) == [Lower(w[0])] + Downcase([]);
    }
    DowncaseNoUpperSame(tail);
  }

  /** One CamelCase word becomes the word downcased. */
  lemma SnakeCaseWord(w: string)
    requires CamelWord(w)
    ensures SnakeCase(w) == LowerWord(w)
  {
    assert '\n' !in w by {
      assert forall k :: 0 <= k < |w| ==> w[k] != '\n';
    }
    MarkedWord(w);
    SnakeCaseOneLine(w);
  }

  /**
   * Appending a CamelCase word to a one-line constant that starts with a
   * capital appends an underscore and the downcased word: CamelCase words
   * come out joined by underscores.
   */
  lemma SnakeCaseNextWord(c: string, w: string)
    requires c != [] && IsUpper(c[0]) && '\n' !in c && CamelWord(w)
    ensures SnakeCase(c + w) == SnakeCase(c) + ['_'] + LowerWord(w)
  {
    var d := Downcase(MarkCapitals(c));
    MarkCapitalsAppend(c, w);
    DowncaseAppend(MarkCapitals(c), MarkCapitals(w));
    MarkedWord(w);
  }

  // The worked examples take each CamelCase word as a parameter fixed by `requires`, so the
  // proof composes `SnakeCaseWord` and `SnakeCaseNextWord` word by word instead of unfolding
  // the recursive conversions over a whole literal.

  /** `FooBar` becomes `foo_bar`. */
  lemma SnakeCaseOfFooBar(foo: string, bar: string)
    requires foo == "Foo" && bar == "Bar"
    ensures SnakeCase(foo + bar) == "foo_bar"
  {
    assert CamelWord(foo) && CamelWord(bar);
    SnakeCaseWord(foo);
    SnakeCaseNextWord(foo, bar);
  }

  /** An acronym is split letter by letter: `HTTPServer` becomes `h_t_t_p_server`. */
  lemma SnakeCaseOfHttpServer(h: string, t: string, p: string, server: string)
    requires h == "H" && t == "T" && p == "P" && server == "Server"
    ensures SnakeCase(h + t + t + p + server) == "h_t_t_p_server"
  {
    SnakeCaseOfHttp(h, t, p);
    assert CamelWord(server);
    SnakeCaseNextWord(h + t + t + p, server);
    assert LowerWord(server) == "server";
  }

  lemma SnakeCaseOfHttp(h: string, t: string, p: string)
    requires h == "H" && t == "T" && p == "P"
    ensures SnakeCase(h + t + t + p) == "h_t_t_p"
  {
    assert CamelWord(h) && CamelWord(t) && CamelWord(p);
    assert LowerWord(h) == "h" && LowerWord(t) == "t" && LowerWord(p) == "p";
    SnakeCaseWord(h);
    SnakeCaseNextWord(h, t);
    assert SnakeCase(h + t) == "h_t";
    SnakeCaseNextWord(h + t, t);
    assert SnakeCase(h + t + t) == "h_t_t";
    SnakeCaseNextWord(h + t + t, p);
  }

  /** A character other than `rep`'s comes through replacing only from the input. */
  lemma {:induction false} ReplaceCharChars(s: string, c: char, rep: string, x: char)
    requires x !in rep
    ensures x in ReplaceChar(s, c, rep) ==> x in s
    decreases |s|
  {
    if s != [] {
      ReplaceCharChars(s[1..], c, rep, x);
    }
  }

  /**
   * The kebab case holds no underscore, and for a constant without a hyphen
   * turning its hyphens back into underscores gives the snake case.
   */
  lemma KebabCaseOfSnakeCase(constant: string)
    ensures '_' !in KebabCase(constant)
    ensures '-' !in constant ==> ReplaceChar(KebabCase(constant), '-', "_") == SnakeCase(constant)
  {
    ReplaceCharRemoves(SnakeCase(constant), '_', "-");
    if '-' !in constant {
      SnakeCaseChars(constant, '-');
      ReplaceCharSwapBack(SnakeCase(constant), '_', '-');
    }
  }

  // ---------------------------------------------------------------------------
  // Search pattern
  // ---------------------------------------------------------------------------

  /** The three spellings searched for one constant. */
  function Forms(constant: string): seq<string> {
    [constant, SnakeCase(constant), KebabCase(constant)]
  }

  /** The `flat_map` over the constants, before `uniq`. */
  function AllForms(constants: seq<string>): seq<string> {
    Flatten(seq(|constants|, k requires 0 <= k < |constants| => Forms(constants[k])))
  }

  /** The distinct spellings, in the order they are first produced. */
  function PatternItems(constants: seq<string>): seq<string> {
    Uniq(AllForms(constants))
  }

  /** The `|`-separated alternation handed to the search tool. */
  function Pattern(constants: seq<string>): string {
    Join(PatternItems(constants), "|")
  }

  /** No constants make the empty pattern. */
  lemma PatternOfNothing()
    ensures Pattern([]) == ""
  {
    assert AllForms([]) == [];
  }

  /** A spelling is a pattern item exactly when it is one of the forms of one of the constants. */
  lemma PatternItemsMembers(constants: seq<string>, x: string)
    ensures x in PatternItems(constants) <==> exists k :: 0 <= k < |constants| && x in Forms(constants[k])
  {
    UniqMembers(AllForms(constants));
    var parts := seq(|constants|, k requires 0 <= k < |constants| => Forms(constants[k]));
    FlattenMembers(parts, x);
    if exists k :: 0 <= k < |constants| && x in Forms(constants[k]) {
      var k :| 0 <= k < |constants| && x in Forms(constants[k]);
      assert x in parts[k];
    }
  }

  /** A constant without `|` has no `|` in any of its forms. */
  lemma FormsWithoutBar(constant: string)
    requires '|' !in constant
    ensures forall x :: x in Forms(constant) ==> '|' !in x
  {
    SnakeCaseChars(constant, '|');
    ReplaceCharChars(SnakeCase(constant), '_', "-", '|');
  }

  /**
   * Every constant and both of its case forms appear in the pattern, no
   * spelling appears twice, and splitting the pattern on `|` gives back the
   * items (constants never contain `|`).
   */
  lemma PatternAlternatives(constants: seq<string>)
    requires forall k :: 0 <= k < |constants| ==> '|' !in constants[k]
    ensures NoDup(PatternItems(constants))
    ensures forall k :: 0 <= k < |constants| ==> forall x :: x in Forms(constants[k]) ==> x in PatternItems(constants)
    ensures constants != [] ==> SplitAll(Pattern(constants), '|') == PatternItems(constants)
  {
    var items := PatternItems(constants);
    UniqNoDup(AllForms(constants));
    forall k, x | 0 <= k < |constants| && x in Forms(constants[k])
      ensures x in items
    {
      PatternItemsMembers(constants, x);
    }
    forall i | 0 <= i < |items|
      ensures '|' !in items[i]
    {
      PatternItemsMembers(constants, items[i]);
      var k :| 0 <= k < |constants| && items[i] in Forms(constants[k]);
      FormsWithoutBar(constants[k]);
    }
    if constants != [] {
      assert constants[0] in items;
      SplitAllJoin(items, '|');
    }
  }

  // ---------------------------------------------------------------------------
  // Running the search
  // ---------------------------------------------------------------------------

  /** Basic-regex grep spells alternation `\|`. */
  function EscapeForGrep(pattern: string): string {
    ReplaceChar(pattern, '|', "\\|")
  }

  /**
   * The escaping adds a backslash in front of each `|` and nothing else:
   * removing those backslashes restores the pattern, and no `|` is left bare.
   */
  lemma {:induction false} EscapeForGrepRoundTrip(pattern: string)
    ensures Unprefix(EscapeForGrep(pattern), '\\', '|') == pattern
    ensures |EscapeForGrep(pattern)| == |pattern| + Count(pattern, '|')
    ensures forall i :: 0 <= i < |EscapeForGrep(pattern)| && EscapeForGrep(pattern)[i] == '|' ==>
      i > 0 && EscapeForGrep(pattern)[i - 1] == '\\'
  {
    UnprefixReplaceChar(pattern, '\\', '|');
    ReplaceCharLength(pattern, '|', "\\|");
    forall i | 0 <= i < |EscapeForGrep(pattern)| && EscapeForGrep(pattern)[i] == '|'
      ensures i > 0 && EscapeForGrep(pattern)[i - 1] == '\\'
    {
      ReplaceCharPrefixed(pattern, '\\', '|', i);
    }
  }

  /** The search that `search_for_specs` shells out to. */
  datatype Command = Grep(pattern: string) | Ripgrep(pattern: string)

  /** grep when `which rg` printed nothing, ripgrep otherwise. */
  function SearchCommand(pattern: string, whichRg: string): Command {
    if whichRg == [] then Grep(EscapeForGrep(pattern)) else Ripgrep(pattern)
  }

  /** Whichever tool runs, it is given the same alternation. */
  lemma SearchCommandPattern(pattern: string, whichRg: string)
    ensures SearchCommand(pattern, whichRg).Grep? <==> whichRg == []
    ensures var cmd := SearchCommand(pattern, whichRg);
      (if cmd.Grep? then Unprefix(cmd.pattern, '\\', '|') else cmd.pattern) == pattern
  {
    EscapeForGrepRoundTrip(pattern);
  }

  /** `results.split("\n").map(&:strip)`. */
  function ResultLines(output: string): (lines: seq<string>)
    ensures forall k :: 0 <= k < |lines| ==> '\n' !in lines[k]
  {
    var fields := Split(output, '\n');
    SplitAllFields(output, '\n');
    DropTrailingEmptyFields(SplitAll(output, '\n'));
    seq(|fields|, k requires 0 <= k < |fields| => StripInside(fields[k]))
  }

  /** `strip`, with what `ResultLines` needs of it: it only shortens. */
  function StripInside(line: string): (r: string)
    ensures r == Strip(line)
    ensures forall ch :: ch in r ==> ch in line
  {
    StripWithin(line);
    Strip(line)
  }

  /** The fields kept by `split` are some of the fields before dropping. */
  lemma {:induction false} DropTrailingEmptyFields(xs: seq<string>)
    ensures |DropTrailingEmpty(xs)| <= |xs|
    ensures DropTrailingEmpty(xs) == xs[..|DropTrailingEmpty(xs)|]
    decreases |xs|
  {
    if xs != [] && xs[|xs| - 1] == [] {
      DropTrailingEmptyFields(xs[..|xs| - 1]);
    }
  }

  /** A path without surrounding space or line breaks. */
  predicate ListablePath(p: string) {
    p != [] && '\n' !in p && !IsStripSpace(p[0]) && !IsStripSpace(p[|p| - 1])
  }

  /**
   * A listing of paths, one per line with every line ended (as `grep -l`
   * and `rg -l` print them), reads back as exactly those paths.
   */
  lemma ResultLinesOfListing(paths: seq<string>)
    requires forall k :: 0 <= k < |paths| ==> ListablePath(paths[k])
    ensures ResultLines(if paths == [] then "" else Join(paths, "\n") + "\n") == paths
  {
    if paths == [] {
      ResultLinesOfNothing();
    } else {
      SplitListing(paths);
      ResultLinesOfFields(Join(paths, "\n") + "\n", paths);
    }
  }

  /** Empty output has no result lines. */
  lemma ResultLinesOfNothing()
    ensures ResultLines("") == []
  {
    assert SplitAll("", '\n') == [""];
    assert DropTrailingEmpty([""]) == DropTrailingEmpty([]);
  }

  /** Fields that are already stripped are the result lines. */
  lemma ResultLinesOfFields(output: string, paths: seq<string>)
    requires Split(output, '\n') == paths
    requires forall k :: 0 <= k < |paths| ==> ListablePath(paths[k])
    ensures ResultLines(output) == paths
  {
    var lines := ResultLines(output);
    forall k | 0 <= k < |paths|
      ensures lines[k] == paths[k]
    {
      StripStripped(paths[k]);
    }
  }

  /** Splitting a listing with every line ended gives back its lines. */
  lemma SplitListing(paths: seq<string>)
    requires paths != []
    requires forall k :: 0 <= k < |paths| ==> ListablePath(paths[k])
    ensures Split(Join(paths, "\n") + "\n", '\n') == paths
  {
    var ended := paths + [""];
    EndedListing(paths);
    DropEnded(paths);
  }

  /** The listing is the paths and one empty field joined by line feeds, and splits back into them. */
  lemma EndedListing(paths: seq<string>)
    requires paths != []
    requires forall k :: 0 <= k < |paths| ==> '\n' !in paths[k]
    ensures SplitAll(Join(paths, "\n") + "\n", '\n') == paths + [""]
  {
    var ended := paths + [""];
    JoinSnoc(paths, "", "\n");
    assert Join(paths, "\n") + "\n" + "" == Join(paths, "\n") + "\n";
    forall k | 0 <= k < |ended|
      ensures '\n' !in ended[k]
    {
      if k < |paths| { assert ended[k] == paths[k]; }
    }
    SplitAllJoin(ended, '\n');
  }

  /** `split` drops the one trailing empty field and nothing before a non-empty one. */
  lemma DropEnded(xs: seq<string>)
    requires xs != [] && xs[|xs| - 1] != []
    ensures DropTrailingEmpty(xs + [""]) == xs
  {
    assert (xs + [""])[..|xs|] == xs;
  }

  // ---------------------------------------------------------------------------
  // Constant definitions
  // ---------------------------------------------------------------------------

  /**
   * `File.read` each path and scan it for defined constants, in order;
   * `File.read` raises on the first path that does not exist.
   */
  function ScanAll(paths: seq<string>, files: map<string, string>, scan: string -> seq<string>): Result<seq<string>, string>
    decreases |paths|
  {
    if paths == [] then Ok([])
    else if paths[0] !in files then Err(paths[0])
    else match ScanAll(paths[1..], files, scan)
      case Err(p) => Err(p)
      case Ok(rest) => Ok(scan(files[paths[0]]) + rest)
  }

  /** `filter_map { scan }.flatten.uniq` over paths that need no further flattening. */
  function ConstantDefinitions(paths: seq<string>, files: map<string, string>, scan: string -> seq<string>): Result<seq<string>, string> {
    match ScanAll(paths, files, scan)
    case Err(p) => Err(p)
    case Ok(names) => Ok(Uniq(names))
  }

  /** `extract_constant_definitions` of `search.rb`, which flattens nested path lists first. */
  function ExtractConstantDefinitions(paths: seq<seq<string>>, files: map<string, string>, scan: string -> seq<string>): Result<seq<string>, string> {
    ConstantDefinitions(Flatten(paths), files, scan)
  }

  /** Reading fails exactly when a path is missing, and names the first such path. */
  lemma {:induction false} ScanAllFails(paths: seq<string>, files: map<string, string>, scan: string -> seq<string>)
    ensures ScanAll(paths, files, scan).Ok? <==> forall k :: 0 <= k < |paths| ==> paths[k] in files
    ensures ScanAll(paths, files, scan).Err? ==>
      exists k :: 0 <= k < |paths| && paths[k] == ScanAll(paths, files, scan).error && paths[k] !in files &&
        forall j :: 0 <= j < k ==> paths[j] in files
    decreases |paths|
  {
    if paths != [] && paths[0] in files {
      ScanAllFails(paths[1..], files, scan);
      if ScanAll(paths[1..], files, scan).Err? {
        var k :| 0 <= k < |paths[1..]| && paths[1..][k] == ScanAll(paths[1..], files, scan).error &&
          paths[1..][k] !in files && forall j :: 0 <= j < k ==> paths[1..][j] in files;
        assert paths[k + 1] == paths[1..][k];
        forall j | 0 <= j < k + 1 ensures paths[j] in files {
          if j > 0 { assert paths[j] == paths[1..][j - 1]; }
        }
      } else {
        forall k | 0 <= k < |paths| ensures paths[k] in files {
          if k > 0 { assert paths[k] == paths[1..][k - 1]; }
        }
      }
    }
  }

  /** The names read are those the scan finds in the files of the paths. */
  lemma {:induction false} ScanAllMembers(paths: seq<string>, files: map<string, string>, scan: string -> seq<string>, x: string)
    requires ScanAll(paths, files, scan).Ok?
    ensures x in ScanAll(paths, files, scan).value <==>
      exists k :: 0 <= k < |paths| && paths[k] in files && x in scan(files[paths[k]])
    decreases |paths|
  {
    if paths != [] {
      ScanAllMembers(paths[1..], files, scan, x);
      if exists k :: 0 <= k < |paths| && paths[k] in files && x in scan(files[paths[k]]) {
        var k :| 0 <= k < |paths| && paths[k] in files && x in scan(files[paths[k]]);
        if k > 0 { assert paths[1..][k - 1] == paths[k]; }
      }
      if exists k :: 0 <= k < |paths[1..]| && paths[1..][k] in files && x in scan(files[paths[1..][k]]) {
        var k :| 0 <= k < |paths[1..]| && paths[1..][k] in files && x in scan(files[paths[1..][k]]);
        assert paths[k + 1] == paths[1..][k];
      }
    }
  }

  /**
   * The constants found are duplicate-free and are exactly the names the
   * scan finds in the paths' files; it fails only on a missing file.
   */
  lemma ConstantDefinitionsShape(paths: seq<string>, files: map<string, string>, scan: string -> seq<string>, x: string)
    ensures ConstantDefinitions(paths, files, scan).Ok? <==> forall k :: 0 <= k < |paths| ==> paths[k] in files
    ensures ConstantDefinitions(paths, files, scan).Ok? ==> NoDup(ConstantDefinitions(paths, files, scan).value)
    ensures ConstantDefinitions(paths, files, scan).Ok? ==>
      (x in ConstantDefinitions(paths, files, scan).value <==>
        exists k :: 0 <= k < |paths| && paths[k] in files && x in scan(files[paths[k]]))
  {
    ScanAllFails(paths, files, scan);
    if ScanAll(paths, files, scan).Ok? {
      UniqNoDup(ScanAll(paths, files, scan).value);
      UniqMembers(ScanAll(paths, files, scan).value);
      ScanAllMembers(paths, files, scan, x);
    }
  }

  /**
   * `specs_with_matching_constants_in`: the constants of the given files
   * become a pattern, the chosen tool's output (`run`) becomes the list of
   * spec paths.
   */
  function SpecsWithMatchingConstantsIn(paths: seq<seq<string>>, files: map<string, string>, scan: string -> seq<string>,
                                        whichRg: string, run: Command -> string): Result<seq<string>, string>
  {
    match ExtractConstantDefinitions(paths, files, scan)
    case Err(p) => Err(p)
    case Ok(constants) => Ok(ResultLines(run(SearchCommand(Pattern(constants), whichRg))))
  }

  /**
   * When every file exists the search runs one command whose alternation is
   * the pattern of the files' constants, and returns that command's lines.
   */
  lemma SpecsWithMatchingConstantsInRuns(paths: seq<seq<string>>, files: map<string, string>, scan: string -> seq<string>,
                                         whichRg: string, run: Command -> string)
    ensures var r := SpecsWithMatchingConstantsIn(paths, files, scan, whichRg, run);
      r.Ok? <==> forall k :: 0 <= k < |Flatten(paths)| ==> Flatten(paths)[k] in files
    ensures var r := SpecsWithMatchingConstantsIn(paths, files, scan, whichRg, run);
      r.Ok? ==> exists cmd: Command ::
        (if cmd.Grep? then Unprefix(cmd.pattern, '\\', '|') else cmd.pattern) ==
          Pattern(ExtractConstantDefinitions(paths, files, scan).value) &&
        r.value == ResultLines(run(cmd))
  {
    var x: string := [];
    ConstantDefinitionsShape(Flatten(paths), files, scan, x);
    var r := SpecsWithMatchingConstantsIn(paths, files, scan, whichRg, run);
    assert r.Ok? <==> ExtractConstantDefinitions(paths, files, scan).Ok?;
    assert ExtractConstantDefinitions(paths, files, scan) == ConstantDefinitions(Flatten(paths), files, scan);
    assert ConstantDefinitions(Flatten(paths), files, scan).Ok? <==> forall k :: 0 <= k < |Flatten(paths)| ==> Flatten(paths)[k] in files;
    assert r.Ok? <==> forall k :: 0 <= k < |Flatten(paths)| ==> Flatten(paths)[k] in files;
    if r.Ok? {
      var constants := ExtractConstantDefinitions(paths, files, scan);
      assert constants.Ok?;
      var p := Pattern(constants.value);
      SearchCommandPattern(p, whichRg);
      var cmd := SearchCommand(p, whichRg);
      assert r.value == ResultLines(run(cmd));
      assert (if cmd.Grep? then Unprefix(cmd.pattern, '\\', '|') else cmd.pattern) == p;
    }
  }
}
