/** The glob and ignore-rule compilers of packages/astro/src/source.ts. */
module AstroGlob {
  import opened Options
  import opened Text
  import opened Regex
  import opened Fragments
  import opened Glob

  predicate IsSpecial(c: char) {
    || c == '\\' || c == '^' || c == '$' || c == '.' || c == '|' || c == '+'
    || c == '(' || c == ')' || c == '[' || c == ']' || c == '{' || c == '}'
  }

  function EscapeRegex(c: char): (r: string)
    ensures c != '*' && c != '?' ==> r == SourceOf(Literal(c))
  {
    if IsSpecial(c) then ['\\', c] else [c]
  }

  /** The fragments a glob stands for; `**` and a slash are whole segments only at a boundary. */
  function GlobBody(glob: string): seq<Fragment> {
    Body(Tokens(glob, true, true), false)
  }

  method GlobToRegexSource(glob: string) returns (out: string)
    ensures out == Emit(GlobBody(glob))
  {
    out := "";
    var i := 0;
    SourceOfGlob(glob, true, false);
    while i < |glob|
      invariant 0 <= i <= |glob|
      invariant out + SourceFrom(glob, i, true, false) == SourceFrom(glob, 0, true, false)
    {
      var c, text, next := glob[i], "", i + 1;
      if c == '*' && i + 1 < |glob| && glob[i + 1] == '*' {
        var prevBoundary := i == 0 || glob[i - 1] == '/';
        var j := i + 2;
        if prevBoundary && j < |glob| && glob[j] == '/' {
          text, next := "(?:[^/]+/)*", j + 1;
        } else {
          text, next := ".*", j;
        }
      } else if c == '*' {
        text := "[^/]*";
      } else if c == '?' {
        text := "[^/]";
      } else {
        text := EscapeRegex(c);
      }
      assert (text, next) == Step(glob, i, true, false);
      SourceStep(out, glob, i, true, false);
      out, i := out + text, next;
    }
  }

  /**
   The regular expression for a glob without negation or anchoring exists (the constructor never
   throws) and accepts a path exactly when the glob means it.
   */
  lemma GlobCompiles(glob: string, p: string)
    ensures
      var rx := Parse("^" + Emit(GlobBody(glob)) + "$");
      rx.Some? && (Test(rx.value, p) <==> Accepts(Tokens(glob, true, true), p))
  {
    AnchoredSource(GlobBody(glob));
    AnchoredMeaning(Tokens(glob, true, true), false, p);
  }

  function DropDotSlash(glob: string): string {
    if StartsWith(glob, "./") then glob[2..] else glob
  }

  /** The regular expression accepts exactly what the glob means. */
  ghost predicate IsRegexOf(regex: Rx, glob: string) {
    forall p :: Test(regex, p) <==> Accepts(Tokens(DropDotSlash(glob), true, true), p)
  }

  method CompileGlob(glob: string) returns (regex: Option<Rx>)
    ensures regex.Some? && IsRegexOf(regex.value, glob)
  {
    var source := GlobToRegexSource(DropDotSlash(glob));
    GlobCompiles(DropDotSlash(glob), "");
    forall p {
      GlobCompiles(DropDotSlash(glob), p);
    }
    regex := Parse("^" + source + "$");
  }

  method CompileGlobs(globs: seq<string>) returns (regexes: seq<Rx>)
    ensures |regexes| == |globs| && forall i :: 0 <= i < |globs| ==> IsRegexOf(regexes[i], globs[i])
  {
    regexes := [];
    for i := 0 to |globs|
      invariant |regexes| == i
      invariant forall k :: 0 <= k < i ==> IsRegexOf(regexes[k], globs[k])
    {
      var regex := CompileGlob(globs[i]);
      if regex.Some? {
        regexes := regexes + [regex.value];
      }
    }
  }

  datatype IgnoreRule = IgnoreRule(regex: Rx, dirOnly: bool, negated: bool)

  /** What a gitignore line says once its decorations are stripped. */
  datatype Reading = Reading(glob: string, anchored: bool, dirOnly: bool, negated: bool)

  function ReadPattern(pattern: string, negated: bool): Option<Reading> {
    var dirOnly := EndsWith(pattern, "/");
    var line := ToSlashes(if dirOnly then pattern[..|pattern| - 1] else pattern);
    var glob := if StartsWith(line, "/") then line[1..] else line;
    if glob == "" then None else Some(Reading(glob, '/' in line, dirOnly, negated))
  }

  /** Blank lines and comments say nothing; `!` negates; a trailing slash asks for a directory. */
  function ReadRule(raw: string): Option<Reading> {
    var line := Trim(raw);
    if line == "" || line[0] == '#' then None
    else if line[0] == '!' then
      if Trim(line[1..]) == "" then None else ReadPattern(Trim(line[1..]), true)
    else ReadPattern(line, false)
  }

  /** An anchored rule is about the whole path, any other about what follows the start or a slash. */
  predicate RuleAccepts(r: Reading, p: string) {
    var ts := Tokens(r.glob, true, true);
    if r.anchored then Accepts(ts, p)
    else exists i: nat :: i <= |p| && (i == 0 || p[i - 1] == '/') && Accepts(ts, p[i..])
  }

  // ----- how a line is written -----

  /** A pattern between the decorations of a gitignore line. */
  predicate IsPattern(pattern: string) {
    IsTight(pattern) && '\\' !in pattern && pattern[0] != '/' && pattern[|pattern| - 1] != '/'
  }

  function Rooted(rooted: bool, pattern: string): string {
    if rooted then "/" + pattern else pattern
  }

  /** A negated, rooted or directory-only line for a pattern. */
  function LineFor(negated: bool, rooted: bool, pattern: string, dirOnly: bool): string {
    var stem := Rooted(rooted, pattern);
    var line := if dirOnly then stem + "/" else stem;
    if negated then "!" + line else line
  }

  lemma RootedStem(rooted: bool, pattern: string, stem: string)
    requires IsPattern(pattern) && stem == Rooted(rooted, pattern)
    ensures IsTight(stem) && stem[|stem| - 1] != '/' && '\\' !in stem
    ensures (if StartsWith(stem, "/") then stem[1..] else stem) == pattern
    ensures '/' in stem <==> rooted || '/' in pattern
    ensures stem[0] == if rooted then '/' else pattern[0]
  {
    assert stem[|stem| - 1] == pattern[|pattern| - 1];
    if rooted {
      assert stem[1..] == pattern;
      assert stem[0] in stem;
    }
  }

  lemma ReadsPattern(negated: bool, rooted: bool, pattern: string, dirOnly: bool, stem: string, line: string)
    requires IsPattern(pattern) && stem == Rooted(rooted, pattern) && line == if dirOnly then stem + "/" else stem
    ensures IsTight(line) && line[0] == if rooted then '/' else pattern[0]
    ensures ReadPattern(line, negated) == Some(Reading(pattern, rooted || '/' in pattern, dirOnly, negated))
  {
    RootedStem(rooted, pattern, stem);
    DropSlash(stem, line, dirOnly);
    ToSlashesIsIdentity(stem);
  }

  lemma ReadsPlain(raw: string, line: string)
    requires Trim(raw) == line && line != "" && line[0] != '#' && line[0] != '!'
    ensures ReadRule(raw) == ReadPattern(line, false)
  {
  }

  lemma ReadsNegated(raw: string, trimmed: string, line: string)
    requires Trim(raw) == trimmed && trimmed != "" && trimmed[0] == '!' && Trim(trimmed[1..]) == line && line != ""
    ensures ReadRule(raw) == ReadPattern(line, true)
  {
  }

  /**
   Every line that is such a text, white space around it aside, reads as what it was written for: `!`
   negates, a slash in front or inside anchors, a slash behind asks for a directory. Only a `#` or `!`
   that comes first means something else.
   */
  lemma LineReadsBack(raw: string, negated: bool, rooted: bool, pattern: string, dirOnly: bool)
    requires IsPattern(pattern) && Trim(raw) == LineFor(negated, rooted, pattern, dirOnly)
    requires negated || rooted || (pattern[0] != '#' && pattern[0] != '!')
    ensures ReadRule(raw) == Some(Reading(pattern, rooted || '/' in pattern, dirOnly, negated))
  {
    var stem := Rooted(rooted, pattern);
    var line := if dirOnly then stem + "/" else stem;
    ReadsPattern(negated, rooted, pattern, dirOnly, stem, line);
    if negated {
      TrimOfTight(line);
      assert ("!" + line)[1..] == line;
      ReadsNegated(raw, "!" + line, line);
    } else {
      ReadsPlain(raw, line);
    }
  }

  lemma LineIsTight(negated: bool, rooted: bool, pattern: string, dirOnly: bool)
    requires IsPattern(pattern)
    ensures IsTight(LineFor(negated, rooted, pattern, dirOnly))
  {
    var stem := Rooted(rooted, pattern);
    var line := if dirOnly then stem + "/" else stem;
    ReadsPattern(negated, rooted, pattern, dirOnly, stem, line);
    assert ("!" + line)[|line|] == line[|line| - 1];
  }

  /** What a trimmed line says once a `!` is off. */
  function PatternOf(line: string): string {
    if line != "" && line[0] == '!' then Trim(line[1..]) else line
  }

  /** Lines that say nothing: blank ones, comments, a lone `!`, and patterns of nothing but slashes. */
  lemma SaysNothing(raw: string)
    ensures
      var line := Trim(raw);
      ReadRule(raw).None?
      <==> line == "" || line[0] == '#'
           || PatternOf(line) in {"", "/", "//", "\\", "\\/"}
  {
    var line := Trim(raw);
    var pattern := PatternOf(line);
    if line != "" && line[0] != '#' && pattern != "" {
      NothingLeft(pattern);
    }
  }

  lemma NothingLeft(pattern: string)
    requires pattern != ""
    ensures forall negated :: ReadPattern(pattern, negated).None? <==> pattern in {"/", "//", "\\", "\\/"}
  {
    var stem := if EndsWith(pattern, "/") then pattern[..|pattern| - 1] else pattern;
    EndsInSlash(pattern);
    var slashed := ToSlashes(stem);
    if |stem| == 1 {
      assert stem == [stem[0]];
    }
    if |pattern| == 1 {
      assert pattern == [pattern[0]];
    } else if |pattern| == 2 {
      assert pattern == [pattern[0], pattern[1]];
    }
  }

  function Floating(body: seq<Fragment>): seq<Fragment> {
    [Boundary] + (body + [EndAnchor])
  }

  lemma FloatingSource(body: seq<Fragment>)
    ensures Parse("(?:^|/)" + Emit(body) + "$") == Some(Denote(Floating(body)))
  {
    ParseEmitted(Floating(body));
    EmitConcat(body, [EndAnchor]);
    assert Emit([EndAnchor]) == "$";
    assert Floating(body)[1..] == body + [EndAnchor];
    assert "(?:^|/)" + Emit(body) + "$" == "(?:^|/)" + (Emit(body) + "$");
  }

  lemma FloatingAt(body: seq<Fragment>, p: string, i: nat, k: nat)
    requires i <= k <= |p|
    requires Matches(MeaningOf(Boundary), p, i, k) && Matches(Denote(body), p, k, |p|)
    ensures Test(Denote(Floating(body)), p)
  {
    EndAnchored(body, p, k, |p|);
    assert Floating(body)[1..] == body + [EndAnchor];
    JoinSeq(MeaningOf(Boundary), Denote(body + [EndAnchor]), p, i, k, |p|);
  }

  lemma FloatingSplit(body: seq<Fragment>, p: string) returns (i: nat, k: nat)
    requires Test(Denote(Floating(body)), p)
    ensures i <= k <= |p| && Matches(MeaningOf(Boundary), p, i, k) && Matches(Denote(body), p, k, |p|)
  {
    var j: nat;
    i, j :| i <= |p| && i <= j <= |p| && Matches(Denote(Floating(body)), p, i, j);
    assert Floating(body)[1..] == body + [EndAnchor];
    k := SplitSeq(MeaningOf(Boundary), Denote(body + [EndAnchor]), p, i, j);
    EndAnchored(body, p, k, j);
  }

  lemma FloatingMeaning(glob: string, p: string)
    ensures
      var rx := Parse("(?:^|/)" + Emit(GlobBody(glob)) + "$");
      rx.Some? && (Test(rx.value, p) <==> RuleAccepts(Reading(glob, false, false, false), p))
  {
    var body, ts := GlobBody(glob), Tokens(glob, true, true);
    FloatingSource(body);
    if Test(Denote(Floating(body)), p) {
      var i, k := FloatingSplit(body, p);
      BoundaryMatches(p, i, k);
      BodyMatches(ts, false, p, k, |p|);
      assert p[k..|p|] == p[k..];
    }
    if k: nat :| k <= |p| && (k == 0 || p[k - 1] == '/') && Accepts(ts, p[k..]) {
      assert p[k..|p|] == p[k..];
      BodyMatches(ts, false, p, k, |p|);
      var i: nat := if k == 0 then 0 else k - 1;
      BoundaryMatches(p, i, k);
      FloatingAt(body, p, i, k);
    }
  }

  lemma BoundaryMatches(p: string, i: nat, k: nat)
    requires i <= k <= |p|
    ensures Matches(MeaningOf(Boundary), p, i, k) <==> i == k == 0 || (k == i + 1 && p[i] == '/')
  {
    if Matches(Seq(Start, Empty), p, i, k) {
      var m := SplitSeq(Start, Empty, p, i, k);
    }
    if Matches(Seq(Char('/'), Empty), p, i, k) {
      var m := SplitSeq(Char('/'), Empty, p, i, k);
    }
    if i == k == 0 {
      JoinSeq(Start, Empty, p, 0, 0, 0);
    }
    if k == i + 1 && p[i] == '/' {
      JoinSeq(Char('/'), Empty, p, i, k, k);
    }
  }

  function RuleSource(r: Reading): string {
    if r.anchored then "^" + Emit(GlobBody(r.glob)) + "$" else "(?:^|/)" + Emit(GlobBody(r.glob)) + "$"
  }

  ghost predicate Means(rule: IgnoreRule, r: Reading) {
    && rule.dirOnly == r.dirOnly && rule.negated == r.negated
    && forall p :: Test(rule.regex, p) <==> RuleAccepts(r, p)
  }

  /** The expression compiled for a rule exists and accepts what the rule means. */
  lemma RuleCompiles(r: Reading)
    ensures Parse(RuleSource(r)).Some?
    ensures Means(IgnoreRule(Parse(RuleSource(r)).value, r.dirOnly, r.negated), r)
  {
    GlobCompiles(r.glob, "");
    FloatingMeaning(r.glob, "");
    forall p
      ensures Test(Parse(RuleSource(r)).value, p) <==> RuleAccepts(r, p)
    {
      GlobCompiles(r.glob, p);
      FloatingMeaning(r.glob, p);
    }
  }

  /** What is left when comments are out and a `!` is off: the slashes at its ends. */
  method ScanPattern(pattern: string, negated: bool) returns (r: Option<Reading>)
    ensures r == ReadPattern(pattern, negated)
  {
    var line := pattern;
    var dirOnly := false;
    if EndsWith(line, "/") {
      dirOnly := true;
      line := line[..|line| - 1];
    }
    line := ToSlashes(line);
    var anchored := StartsWith(line, "/") || '/' in line;
    if StartsWith(line, "/") {
      line := line[1..];
    }
    if |line| == 0 {
      return None;
    }
    return Some(Reading(line, anchored, dirOnly, negated));
  }

  method CompileReading(r: Reading) returns (rule: Option<IgnoreRule>)
    ensures rule.Some? && Means(rule.value, r)
  {
    var body := GlobToRegexSource(r.glob);
    var source := if r.anchored then "^" + body + "$" else "(?:^|/)" + body + "$";
    RuleCompiles(r);
    var regex := Parse(source);
    if regex.None? {
      return None;
    }
    return Some(IgnoreRule(regex.value, r.dirOnly, r.negated));
  }

  /** One ignore rule: nothing exactly for lines that say nothing, else a regex for its meaning. */
  method CompileIgnoreRule(raw: string) returns (rule: Option<IgnoreRule>)
    ensures rule.Some? <==> ReadRule(raw).Some?
    ensures rule.Some? ==> Means(rule.value, ReadRule(raw).value)
  {
    var line := Trim(raw);
    if |line| == 0 || StartsWith(line, "#") {
      return None;
    }
    var negated := false;
    if StartsWith(line, "!") {
      negated := true;
      line := Trim(line[1..]);
      if |line| == 0 {
        return None;
      }
      ReadsNegated(raw, Trim(raw), line);
    } else {
      ReadsPlain(raw, line);
    }
    var r := ScanPattern(line, negated);
    if r.None? {
      return None;
    }
    rule := CompileReading(r.value);
  }

  predicate Applies(rule: IgnoreRule, path: string, isDirectory: bool) {
    !(rule.dirOnly && !isDirectory) && Test(rule.regex, path)
  }

  /** The last applicable rule decides. */
  predicate Ignored(rules: seq<IgnoreRule>, path: string, isDirectory: bool) {
    exists k :: 0 <= k < |rules| && Applies(rules[k], path, isDirectory) && !rules[k].negated
      && forall m :: k < m < |rules| ==> !Applies(rules[m], path, isDirectory)
  }

  method IsIgnored(rules: seq<IgnoreRule>, path: string, isDirectory: bool) returns (ignored: bool)
    ensures ignored == Ignored(rules, path, isDirectory)
  {
    ignored := false;
    for i := 0 to |rules|
      invariant ignored == Ignored(rules[..i], path, isDirectory)
    {
      ghost var before, after := rules[..i], rules[..i + 1];
      assert forall k :: 0 <= k < i ==> after[k] == before[k];
      assert after[i] == rules[i];
      var rule := rules[i];
      if rule.dirOnly && !isDirectory {
        IgnoredStep(before, rule, path, isDirectory);
        assert after == before + [rule];
        continue;
      }
      IgnoredStep(before, rule, path, isDirectory);
      assert after == before + [rule];
      if Test(rule.regex, path) {
        ignored := !rule.negated;
      }
    }
    assert rules[..|rules|] == rules;
  }

  lemma IgnoredStep(before: seq<IgnoreRule>, rule: IgnoreRule, path: string, isDirectory: bool)
    ensures Ignored(before + [rule], path, isDirectory)
         == if Applies(rule, path, isDirectory) then !rule.negated else Ignored(before, path, isDirectory)
  {
    var after := before + [rule];
    assert after[|before|] == rule;
    if !Applies(rule, path, isDirectory) && Ignored(before, path, isDirectory) {
      var k :| 0 <= k < |before| && Applies(before[k], path, isDirectory) && !before[k].negated
        && forall m :: k < m < |before| ==> !Applies(before[m], path, isDirectory);
      assert Applies(after[k], path, isDirectory);
    }
    if !Applies(rule, path, isDirectory) && Ignored(after, path, isDirectory) {
      var k :| 0 <= k < |after| && Applies(after[k], path, isDirectory) && !after[k].negated
        && forall m :: k < m < |after| ==> !Applies(after[m], path, isDirectory);
      assert after[k] == before[k];
      assert forall m :: k < m < |before| ==> after[m] == before[m];
    }
  }

  /** The line has a rule for such an entry at `path`. */
  predicate LineApplies(line: string, path: string, isDirectory: bool) {
    match ReadRule(line)
    case None => false
    case Some(r) => (r.dirOnly ==> isDirectory) && RuleAccepts(r, path)
  }

  predicate LineNegates(line: string) {
    ReadRule(line).Some? && ReadRule(line).value.negated
  }

  /** The `k`-th line leaves the entry out and no later one applies to it. */
  predicate DecidesToIgnore(lines: seq<string>, k: nat, path: string, isDirectory: bool) {
    && k < |lines| && LineApplies(lines[k], path, isDirectory) && !LineNegates(lines[k])
    && forall m :: k < m < |lines| ==> !LineApplies(lines[m], path, isDirectory)
  }

  /** Of the lines that apply the last one decides. */
  predicate LinesIgnore(lines: seq<string>, path: string, isDirectory: bool) {
    exists k: nat :: k < |lines| && DecidesToIgnore(lines, k, path, isDirectory)
  }

  lemma StillDecides(before: seq<string>, line: string, path: string, isDirectory: bool, k: nat)
    requires k < |before| && !LineApplies(line, path, isDirectory)
    ensures DecidesToIgnore(before + [line], k, path, isDirectory) <==> DecidesToIgnore(before, k, path, isDirectory)
  {
    var after := before + [line];
    assert after[|before|] == line && after[k] == before[k];
    if DecidesToIgnore(before, k, path, isDirectory) {
      forall m | k < m < |after|
        ensures !LineApplies(after[m], path, isDirectory)
      {
        assert m < |before| ==> after[m] == before[m];
      }
    }
    if DecidesToIgnore(after, k, path, isDirectory) {
      forall m | k < m < |before|
        ensures !LineApplies(before[m], path, isDirectory)
      {
        assert after[m] == before[m];
      }
    }
  }

  lemma LinesIgnoreStep(before: seq<string>, line: string, path: string, isDirectory: bool)
    ensures LinesIgnore(before + [line], path, isDirectory)
         == if LineApplies(line, path, isDirectory) then !LineNegates(line) else LinesIgnore(before, path, isDirectory)
  {
    var after := before + [line];
    assert after[|before|] == line;
    if LineApplies(line, path, isDirectory) {
      assert DecidesToIgnore(after, |before|, path, isDirectory) <==> !LineNegates(line);
      assert forall k: nat :: k < |before| ==> !DecidesToIgnore(after, k, path, isDirectory);
    } else {
      forall k: nat | k < |before|
        ensures DecidesToIgnore(after, k, path, isDirectory) <==> DecidesToIgnore(before, k, path, isDirectory)
      {
        StillDecides(before, line, path, isDirectory, k);
      }
    }
  }

  /** The compiled rules ignore what the lines ignore. */
  ghost predicate AreRulesOf(rules: seq<IgnoreRule>, lines: seq<string>) {
    forall path, isDirectory :: Ignored(rules, path, isDirectory) == LinesIgnore(lines, path, isDirectory)
  }

  lemma NextLine(rules: seq<IgnoreRule>, lines: seq<string>, i: nat, rule: Option<IgnoreRule>)
    requires i < |lines| && AreRulesOf(rules, lines[..i])
    requires rule.Some? <==> ReadRule(lines[i]).Some?
    requires rule.Some? ==> Means(rule.value, ReadRule(lines[i]).value)
    ensures AreRulesOf(rules + if rule.Some? then [rule.value] else [], lines[..i + 1])
  {
    var next := rules + if rule.Some? then [rule.value] else [];
    assert lines[..i + 1] == lines[..i] + [lines[i]];
    forall path, isDirectory
      ensures Ignored(next, path, isDirectory) == LinesIgnore(lines[..i + 1], path, isDirectory)
    {
      LinesIgnoreStep(lines[..i], lines[i], path, isDirectory);
      if rule.Some? {
        IgnoredStep(rules, rule.value, path, isDirectory);
      } else {
        assert next == rules;
      }
    }
  }

  method CompileIgnoreRules(lines: seq<string>) returns (rules: seq<IgnoreRule>)
    ensures AreRulesOf(rules, lines)
  {
    rules := [];
    for i := 0 to |lines|
      invariant AreRulesOf(rules, lines[..i])
    {
      var rule := CompileIgnoreRule(lines[i]);
      NextLine(rules, lines, i, rule);
      rules := rules + if rule.Some? then [rule.value] else [];
    }
    assert lines[..|lines|] == lines;
  }

  /** The pattern holds of the path from its start or, where it may float, from behind a slash. */
  predicate PatternFits(pattern: string, floats: bool, path: string) {
    exists i: nat :: i <= |path| && (i == 0 || (floats && path[i - 1] == '/')) && Accepts(Tokens(pattern, true, true), path[i..])
  }

  /**
   What such a line applies to: what its pattern means, at the root if there is a slash in front or
   inside and behind any slash if not; directories only, if a slash stands behind.
   */
  lemma LineMeans(negated: bool, rooted: bool, pattern: string, dirOnly: bool, path: string, isDirectory: bool)
    requires IsPattern(pattern) && (negated || rooted || (pattern[0] != '#' && pattern[0] != '!'))
    ensures
      var line := LineFor(negated, rooted, pattern, dirOnly);
      && LineNegates(line) == negated
      && (LineApplies(line, path, isDirectory)
          <==> (dirOnly ==> isDirectory) && PatternFits(pattern, !rooted && '/' !in pattern, path))
  {
    var line := LineFor(negated, rooted, pattern, dirOnly);
    LineIsTight(negated, rooted, pattern, dirOnly);
    TrimOfTight(line);
    LineReadsBack(line, negated, rooted, pattern, dirOnly);
    ReadingFits(Reading(pattern, rooted || '/' in pattern, dirOnly, negated), path);
  }

  lemma ReadingFits(r: Reading, path: string)
    ensures RuleAccepts(r, path) <==> PatternFits(r.glob, !r.anchored, path)
  {
    assert path[0..] == path;
  }
}
