/**
 What Waku's memo always excludes: the rules that `resolveMemo` in packages/waku/src/source.ts puts in
 front of the configured ones, for dependencies, version control and the build output.
 */
module Artifacts {
  import opened Options
  import opened Text
  import opened Regex
  import opened Glob
  import opened WakuGlob
  import opened WakuWalk
  import opened Paths
  import opened Tree
  import opened Listing

  // ----- rules without wildcards -----

  predicate HasNoWildcard(s: string) {
    '*' !in s && '?' !in s
  }

  predicate IsPlain(s: string) {
    s != "" && HasNoWildcard(s) && !IsSpace(s[|s| - 1])
  }

  function Literals(s: string): seq<Token> {
    if s == "" then [] else [Lit(s[0])] + Literals(s[1..])
  }

  lemma {:induction false} TokensOfPlain(s: string, boundary: bool)
    requires HasNoWildcard(s)
    ensures Tokens(s, boundary, false) == Literals(s)
    decreases |s|
  {
    if s != "" {
      assert s[0] in s;
      TokensOfPlain(s[1..], s[0] == '/');
    }
  }

  lemma {:induction false} LiteralsMeanThemselves(s: string, p: string)
    ensures Accepts(Literals(s), p) <==> p == s
    decreases |s|
  {
    if s != "" {
      if p != "" {
        LiteralsMeanThemselves(s[1..], p[1..]);
      }
    }
  }

  /** A rule for a name without a slash accepts every path with a segment of that name. */
  lemma NameRuleAccepts(name: string, before: seq<string>, after: seq<string>)
    requires HasNoWildcard(name)
    requires OneLine(Join(before, '/')) && OneLine(Join(after, '/'))
    ensures RuleAccepts(Reading(name, false), Join(before + [name] + after, '/'))
  {
    var p := Join(before + [name] + after, '/');
    var tail := if after == [] then "" else "/" + Join(after, '/');
    var head := if before == [] then "" else Join(before, '/') + "/";
    AroundName(name, before, after);
    AtName(name, head, tail, p);
  }

  lemma AroundName(name: string, before: seq<string>, after: seq<string>)
    ensures Join(before + [name] + after, '/')
         == (if before == [] then "" else Join(before, '/') + "/") + name + (if after == [] then "" else "/" + Join(after, '/'))
  {
    var rest := [name] + after;
    assert before + [name] + after == before + rest;
    assert Join([name], '/') == name;
    if after != [] {
      JoinConcat([name], after, '/');
    } else {
      assert rest == [name];
    }
    if before != [] {
      JoinConcat(before, rest, '/');
    } else {
      assert before + rest == rest;
    }
  }

  lemma AtName(name: string, head: string, tail: string, p: string)
    requires HasNoWildcard(name) && p == head + name + tail && IsLineUpToSlash(head)
    requires tail == "" || (tail[0] == '/' && OneLine(tail[1..]))
    ensures RuleAccepts(Reading(name, false), p)
  {
    var i, j := |head|, |head| + |name|;
    assert p[..i] == head && p[i..j] == name && p[j..] == tail;
    if tail != "" {
      assert p[j] == tail[0] && p[j + 1..] == tail[1..];
    }
    assert Covers(false, p, i, j);
    TokensOfPlain(name, true);
    LiteralsMeanThemselves(name, p[i..j]);
  }

  /** A rule for a path below the root accepts that path and what lies below it, nothing else. */
  lemma RootedRuleAccepts(dir: string, p: string)
    requires HasNoWildcard(dir)
    ensures RuleAccepts(Reading(dir, true), p)
       <==> p == dir || exists below :: OneLine(below) && p == dir + "/" + below
  {
    TokensOfPlain(dir, true);
    if RuleAccepts(Reading(dir, true), p) {
      var i: nat, j: nat :| i <= |p| && i <= j <= |p| && Covers(true, p, i, j) && Accepts(Tokens(dir, true, false), p[i..j]);
      LiteralsMeanThemselves(dir, p[i..j]);
      if j < |p| {
        assert p == dir + "/" + p[j + 1..];
      }
    }
    LiteralsMeanThemselves(dir, dir);
    if p == dir {
      assert p[0..|p|] == dir && Covers(true, p, 0, |p|);
    }
    if below :| OneLine(below) && p == dir + "/" + below {
      var j := |dir|;
      assert p[0..j] == dir && p[j] == '/' && p[j + 1..] == below;
      assert Covers(true, p, 0, j);
    }
  }

  /** And nothing else. */
  lemma NameRuleNeedsName(name: string, p: string)
    requires HasNoWildcard(name) && '/' !in name && RuleAccepts(Reading(name, false), p)
    ensures name in Split(p, '/')
  {
    TokensOfPlain(name, true);
    var i: nat, j: nat :| i <= |p| && i <= j <= |p| && Covers(false, p, i, j) && Accepts(Tokens(name, true, false), p[i..j]);
    LiteralsMeanThemselves(name, p[i..j]);
    NameStands(name, p, i, j);
  }

  lemma NameStands(name: string, p: string, i: nat, j: nat)
    requires '/' !in name && i <= j <= |p| && Covers(false, p, i, j) && p[i..j] == name
    ensures name in Split(p, '/')
  {
    CutTwice(p, i, j);
    SplitAround(p[..i], name, p[j..]);
  }

  lemma CutTwice(p: string, i: nat, j: nat)
    requires i <= j <= |p|
    ensures p == p[..i] + (p[i..j] + p[j..])
  {
  }

  lemma SplitAround(head: string, name: string, tail: string)
    requires '/' !in name && (head == "" || head[|head| - 1] == '/') && (tail == "" || tail[0] == '/')
    ensures name in Split(head + (name + tail), '/')
  {
    if tail == "" {
      SplitNoSeparator(name, '/');
      assert name + tail == name;
    } else {
      FirstPart(name, name + tail, tail[1..]);
    }
    if head == "" {
      assert head + (name + tail) == name + tail;
    } else {
      PartsBehind(head[..|head| - 1], head, name + tail, name);
    }
  }

  lemma FirstPart(name: string, text: string, rest: string)
    requires '/' !in name && text == name + ['/'] + rest
    ensures name in Split(text, '/')
  {
    SplitNoSeparator(name, '/');
    SplitConcat(name, '/', rest);
    assert Split(text, '/')[0] == name;
  }

  lemma PartsBehind(before: string, head: string, rest: string, name: string)
    requires head == before + ['/'] && name in Split(rest, '/')
    ensures name in Split(head + rest, '/')
  {
    SplitConcat(before, '/', rest);
    assert head + rest == before + ['/'] + rest;
  }

  lemma SegmentIsExcluded(name: string, p: string)
    requires HasNoWildcard(name) && OneLine(p) && name in Split(p, '/')
    ensures RuleAccepts(Reading(name, false), p)
  {
    var parts := Split(p, '/');
    JoinOfSplit(p, '/');
    var k :| 0 <= k < |parts| && parts[k] == name;
    var before, after := parts[..k], parts[k + 1..];
    assert parts == before + [name] + after;
    assert OneLine(Join(before, '/')) && OneLine(Join(after, '/')) by {
      OneLineOfParts(before, name, after);
    }
    NameRuleAccepts(name, before, after);
  }

  lemma OneLineOfParts(before: seq<string>, name: string, after: seq<string>)
    requires OneLine(Join(before + [name] + after, '/'))
    ensures OneLine(Join(before, '/')) && OneLine(Join(after, '/'))
  {
    var rest := [name] + after;
    assert before + [name] + after == before + rest;
    if before != [] {
      JoinConcat(before, rest, '/');
      OneLineConcat(Join(before, '/') + ['/'], Join(rest, '/'));
      OneLineConcat(Join(before, '/'), ['/']);
    } else {
      assert before + rest == rest;
    }
    if after != [] {
      JoinConcat([name], after, '/');
      OneLineConcat(name + ['/'], Join(after, '/'));
    }
  }

  // ----- the three rules -----

  predicate IsRuleName(name: string) {
    IsPlain(name) && '/' !in name && name[0] != '#' && name[0] != '!' && !IsSpace(name[0])
  }

  lemma AlwaysNames()
    ensures IsRuleName(DEPENDENCIES) && IsRuleName(VERSION_CONTROL)
  {
  }

  lemma RuleNameReading(name: string)
    requires IsRuleName(name)
    ensures ReadRule(name) == Some(Reading(name, false))
  {
    assert name[|name| - 1..] == [name[|name| - 1]];
  }

  /** The output rule reads `distDir` as it is written, but for one slash at its end. */
  function RuleText(distDir: string): string {
    if EndsWith(distDir, "/") then distDir[..|distDir| - 1] else distDir
  }

  lemma AnchoredReading(rule: string, stem: string)
    requires Trim(rule) == rule && stem != "" && stem[0] == '/'
    requires if EndsWith(rule, "/") then stem == rule[..|rule| - 1] else stem == rule
    ensures ReadRule(rule) == Some(Reading(stem[1..], true))
  {
  }

  lemma OutputReading(distDir: string)
    requires IsPlain(distDir)
    ensures ReadRule("/" + distDir) == Some(Reading(RuleText(distDir), true)) && HasNoWildcard(RuleText(distDir))
  {
    var rule, stem := "/" + distDir, "/" + RuleText(distDir);
    var n := |distDir|;
    assert rule[n] == distDir[n - 1];
    TrimOfTight(rule);
    assert rule[n..] == [distDir[n - 1]] == distDir[n - 1..];
    assert stem[1..] == RuleText(distDir);
    AnchoredReading(rule, stem);
  }

  /** A path is the text itself, or below it. */
  predicate IsAtOrBelow(p: string, text: string) {
    p == text || StartsWith(p, text + "/")
  }

  lemma OutputRuleAccepts(text: string, p: string)
    requires HasNoWildcard(text) && OneLine(p)
    ensures RuleAccepts(Reading(text, true), p) <==> IsAtOrBelow(p, text)
  {
    RootedRuleAccepts(text, p);
    if StartsWith(p, text + "/") {
      var below := p[|text| + 1..];
      assert p == text + "/" + below;
    }
  }

  lemma OneRuleIsEnough(rules: seq<string>, k: nat, r: Reading, p: string)
    requires k < |rules| && ReadRule(rules[k]) == Some(r)
    ensures RuleAccepts(r, p) ==> AnyRuleAccepts(rules, p)
  {
  }

  /** With no rules configured, a path is excluded by one of the three or not at all. */
  lemma NoOtherRule(rules: seq<string>, r0: Reading, r1: Reading, r2: Reading, p: string)
    requires |rules| == 3 && ReadRule(rules[0]) == Some(r0) && ReadRule(rules[1]) == Some(r1) && ReadRule(rules[2]) == Some(r2)
    requires AnyRuleAccepts(rules, p)
    ensures RuleAccepts(r0, p) || RuleAccepts(r1, p) || RuleAccepts(r2, p)
  {
    var k :| 0 <= k < |rules| && ReadRule(rules[k]).Some? && RuleAccepts(ReadRule(rules[k]).value, p);
    assert k == 0 || k == 1 || k == 2;
  }

  lemma ThreeRules(rules: seq<string>, r0: Reading, r1: Reading, r2: Reading, p: string)
    requires |rules| >= 3 && ReadRule(rules[0]) == Some(r0) && ReadRule(rules[1]) == Some(r1) && ReadRule(rules[2]) == Some(r2)
    ensures RuleAccepts(r0, p) || RuleAccepts(r1, p) || RuleAccepts(r2, p) ==> AnyRuleAccepts(rules, p)
    ensures |rules| == 3 && AnyRuleAccepts(rules, p) ==> RuleAccepts(r0, p) || RuleAccepts(r1, p) || RuleAccepts(r2, p)
  {
    OneRuleIsEnough(rules, 0, r0, p);
    OneRuleIsEnough(rules, 1, r1, p);
    OneRuleIsEnough(rules, 2, r2, p);
    if |rules| == 3 && AnyRuleAccepts(rules, p) {
      NoOtherRule(rules, r0, r1, r2, p);
    }
  }

  lemma NameRuleMeans(name: string, p: string)
    requires IsRuleName(name) && OneLine(p)
    ensures RuleAccepts(Reading(name, false), p) <==> name in Split(p, '/')
  {
    if name in Split(p, '/') {
      SegmentIsExcluded(name, p);
    }
    if RuleAccepts(Reading(name, false), p) {
      NameRuleNeedsName(name, p);
    }
  }

  predicate IsNamed(p: string) {
    DEPENDENCIES in Split(p, '/') || VERSION_CONTROL in Split(p, '/')
  }

  lemma AlwaysExcludes(distDir: string, rules: seq<string>, p: string)
    requires IsPlain(distDir) && OneLine(p)
    ensures IsNamed(p) || IsAtOrBelow(p, RuleText(distDir)) ==> AnyRuleAccepts(ExcludeRules(distDir, rules), p)
    ensures rules == [] && AnyRuleAccepts(ExcludeRules(distDir, rules), p) ==> IsNamed(p) || IsAtOrBelow(p, RuleText(distDir))
  {
    var a, b, text := Reading(DEPENDENCIES, false), Reading(VERSION_CONTROL, false), RuleText(distDir);
    AlwaysNames();
    RuleNameReading(DEPENDENCIES);
    RuleNameReading(VERSION_CONTROL);
    OutputReading(distDir);
    ThreeRules(ExcludeRules(distDir, rules), a, b, Reading(text, true), p);
    NameRuleMeans(DEPENDENCIES, p);
    NameRuleMeans(VERSION_CONTROL, p);
    OutputRuleAccepts(text, p);
  }

  // ----- the output directory -----

  /** The directory that `distDir` denotes, as `path.resolve` reads it from the root with these segments. */
  function OutputDirectory(root: seq<string>, distDir: string): seq<string> {
    ResolveSegments(root, distDir)
  }

  /** A path that a walk from the root can come to, in the output directory. */
  predicate IsInOutput(root: seq<string>, distDir: string, path: seq<string>) {
    Clean(path) && path != [] && OneLine(Join(path, '/')) && OutputDirectory(root, distDir) <= root + path
  }

  /** Everything in the output directory is excluded, whatever rules are configured. */
  ghost predicate IsOutputExcluded(root: seq<string>, distDir: string) {
    forall rules, path :: IsInOutput(root, distDir, path) ==> AnyRuleAccepts(ExcludeRules(distDir, rules), Join(path, '/'))
  }

  /**
   The output directory is not the root or above it; and where it is below the root, `distDir` spells
   its way from there out (or that way is excluded by a name in it, or has a line terminator).
   */
  predicate NamesOutput(root: seq<string>, distDir: string) {
    var out := OutputDirectory(root, distDir);
    && !(out <= root)
    && (root <= out ==>
          var below := out[|root|..];
          || RuleText(distDir) == Join(below, '/')
          || DEPENDENCIES in below || VERSION_CONTROL in below
          || !OneLine(Join(below, '/')))
  }

  /** Dependency trees, version-control metadata and the directory the build writes. */
  predicate IsArtifact(root: seq<string>, distDir: string, p: string) {
    OneLine(p) && (IsNamed(p) || OutputDirectory(root, distDir) <= root + Split(p, '/'))
  }

  lemma ShortMeansAbove(root: seq<string>, out: seq<string>, path: seq<string>)
    requires out <= root + path
    ensures out <= root || |out| > |root|
  {
    if |out| <= |root| {
      assert out == (root + path)[..|out|] == root[..|out|];
    }
  }

  lemma BelowRoot(root: seq<string>, out: seq<string>, path: seq<string>) returns (below: seq<string>, rest: seq<string>)
    requires out <= root + path && !(out <= root)
    ensures root <= out && below == out[|root|..] && below != [] && path == below + rest
  {
    ShortMeansAbove(root, out, path);
    assert out[..|root|] == (root + path)[..|root|] == root;
    below := out[|root|..];
    rest := path[|below|..];
    assert below == (root + path)[..|out|][|root|..] == path[..|below|];
  }

  lemma JoinedBelow(below: seq<string>, rest: seq<string>)
    requires below != []
    ensures IsAtOrBelow(Join(below + rest, '/'), Join(below, '/'))
    ensures OneLine(Join(below + rest, '/')) ==> OneLine(Join(below, '/'))
  {
    if rest == [] {
      assert below + rest == below;
    } else {
      JoinConcat(below, rest, '/');
      OneLineConcat(Join(below, '/') + ['/'], Join(rest, '/'));
      OneLineConcat(Join(below, '/'), ['/']);
    }
  }

  /** What the memo is to leave out is left out, by whatever rules are configured, where `distDir` names the output. */
  lemma ArtifactsAreExcluded(root: seq<string>, distDir: string, rules: seq<string>, p: string)
    requires IsPlain(distDir) && NamesOutput(root, distDir) && IsArtifact(root, distDir, p)
    ensures AnyRuleAccepts(ExcludeRules(distDir, rules), p)
  {
    AlwaysExcludes(distDir, rules, p);
    if !IsNamed(p) {
      var below, rest := BelowRoot(root, OutputDirectory(root, distDir), Split(p, '/'));
      JoinOfSplit(p, '/');
      JoinedBelow(below, rest);
      assert forall name :: name in below ==> name in below + rest;
    }
  }

  // ----- the length of what a path denotes -----

  function TotalLength(segs: seq<string>): nat {
    if segs == [] then 0 else |segs[0]| + 1 + TotalLength(segs[1..])
  }

  lemma {:induction false} TotalLengthConcat(a: seq<string>, b: seq<string>)
    ensures TotalLength(a + b) == TotalLength(a) + TotalLength(b)
  {
    if a == [] {
      assert a + b == b;
    } else {
      assert (a + b)[1..] == a[1..] + b;
      TotalLengthConcat(a[1..], b);
    }
  }

  lemma {:induction false} JoinLength(segs: seq<string>)
    requires segs != []
    ensures |Join(segs, '/')| + 1 == TotalLength(segs)
  {
    if |segs| > 1 {
      JoinLength(segs[1..]);
    }
  }

  function Beyond(segs: seq<string>, n: nat): seq<string> {
    if n <= |segs| then segs[n..] else []
  }

  lemma PushLength(stack: seq<string>, seg: string, n: nat)
    ensures TotalLength(Beyond(Push(stack, seg, false), n)) <= TotalLength(Beyond(stack, n)) + |seg| + 1
  {
    var next := Push(stack, seg, false);
    if next == stack + [seg] && n <= |stack| {
      assert next[n..] == stack[n..] + [seg];
      TotalLengthConcat(stack[n..], [seg]);
      assert [seg][1..] == [];
    } else if next == stack + [seg] {
      assert n == |next| ==> next[n..] == [];
    } else if |next| < |stack| && n < |stack| {
      assert stack[n..] == next[n..] + stack[|next|..];
      TotalLengthConcat(next[n..], stack[|next|..]);
    }
  }

  /** Walking adds no more text than it reads. */
  lemma {:induction false} WalkedLength(stack: seq<string>, segs: seq<string>, n: nat)
    ensures TotalLength(Beyond(PushAll(stack, segs, false), n)) <= TotalLength(Beyond(stack, n)) + TotalLength(segs)
    decreases |segs|
  {
    if segs != [] {
      PushLength(stack, segs[0], n);
      WalkedLength(Push(stack, segs[0], false), segs[1..], n);
    }
  }

  /** A slash at its end does not change what a path denotes. */
  lemma TextDenotesOutput(root: seq<string>, distDir: string)
    requires distDir != "" && distDir != "/"
    ensures OutputDirectory(root, RuleText(distDir)) == OutputDirectory(root, distDir)
  {
    if EndsWith(distDir, "/") {
      var text := RuleText(distDir);
      SplitConcat(text, '/', "");
      assert distDir == text + ['/'] + "";
      PushAllConcat(root, Split(text, '/'), [""], false);
      PushAllConcat([], Split(text, '/'), [""], false);
      assert forall stack: seq<string> :: PushAll(stack, [""], false) == stack by {
        assert [""][1..] == [];
      }
    }
  }

  /** The way from the root to the output is no longer than the text that names it. */
  lemma OutputIsNoLonger(root: seq<string>, distDir: string)
    requires distDir != "" && root <= OutputDirectory(root, distDir) && OutputDirectory(root, distDir) != root
    ensures |Join(OutputDirectory(root, distDir)[|root|..], '/')| <= |RuleText(distDir)|
  {
    var text, out := RuleText(distDir), OutputDirectory(root, distDir);
    if distDir == "/" {
      SlashIsRoot();
    }
    TextDenotesOutput(root, distDir);
    var stack := if IsAbsolute(text) then [] else root;
    WalkedLength(stack, Split(text, '/'), |root|);
    assert Beyond(stack, |root|) == [];
    JoinOfSplit(text, '/');
    JoinLength(Split(text, '/'));
    JoinLength(out[|root|..]);
  }

  lemma SlashIsRoot()
    ensures SegmentsOf("/") == []
  {
    assert AbsolutePath([]) == "/";
    SegmentsOfAbsolute([]);
  }

  // ----- exactly when the output is excluded -----

  /** A way into the output that the rules leave open. */
  lemma OpenWay(root: seq<string>, distDir: string) returns (path: seq<string>)
    requires Clean(root) && IsPlain(distDir) && !NamesOutput(root, distDir)
    ensures IsInOutput(root, distDir, path) && !AnyRuleAccepts(ExcludeRules(distDir, []), Join(path, '/'))
  {
    var out := OutputDirectory(root, distDir);
    if out <= root {
      path := ["x"];
      RootIsOpen(root, distDir);
    } else {
      path := out[|root|..];
      var p := Join(path, '/');
      ResolvedIsClean(root, distDir);
      assert root + path == out;
      SplitOfJoin(path, '/');
      OutputIsNoLonger(root, distDir);
      AlwaysExcludes(distDir, [], p);
    }
  }

  lemma NothingBelowName(name: string, text: string)
    requires '/' !in name
    ensures !StartsWith(name, text + "/")
  {
    assert (text + "/")[|text|] == '/';
  }

  lemma ResolveOfOne(root: seq<string>, name: string)
    requires IsClean(name)
    ensures ResolveSegments(root, name) == root + [name]
  {
    SplitNoSeparator(name, '/');
    PushClean(root, [name], false);
    assert name[0] in name;
  }

  lemma RootIsOpen(root: seq<string>, distDir: string)
    requires Clean(root) && IsPlain(distDir) && OutputDirectory(root, distDir) <= root
    ensures IsInOutput(root, distDir, ["x"]) && !AnyRuleAccepts(ExcludeRules(distDir, []), Join(["x"], '/'))
  {
    assert OutputDirectory(root, distDir) <= root + ["x"];
    SplitNoSeparator("x", '/');
    AlwaysExcludes(distDir, [], "x");
    NothingBelowName("x", RuleText(distDir));
    ResolveOfOne(root, "x");
    if distDir != "/" {
      TextDenotesOutput(root, distDir);
    }
  }

  /** The output is excluded, whatever rules are configured, if and only if `distDir` names it. */
  lemma OutputIsExcludedExactly(root: seq<string>, distDir: string)
    requires Clean(root) && IsPlain(distDir)
    ensures IsOutputExcluded(root, distDir) <==> NamesOutput(root, distDir)
  {
    if NamesOutput(root, distDir) {
      forall rules, path | IsInOutput(root, distDir, path)
        ensures AnyRuleAccepts(ExcludeRules(distDir, rules), Join(path, '/'))
      {
        SplitOfJoin(path, '/');
        ArtifactsAreExcluded(root, distDir, rules, Join(path, '/'));
      }
    } else {
      var path := OpenWay(root, distDir);
      assert IsInOutput(root, distDir, path) && !AnyRuleAccepts(ExcludeRules(distDir, []), Join(path, '/'));
    }
  }

  /** A `distDir` in normal form below the root, the default among them, names the output. */
  lemma NormalFormNamesOutput(root: seq<string>, distDir: string)
    requires Clean(Split(distDir, '/'))
    ensures NamesOutput(root, distDir)
  {
    var segs := Split(distDir, '/');
    JoinOfSplit(distDir, '/');
    TextOfSegments(segs);
    PushClean(root, segs, false);
    assert (root + segs)[|root|..] == segs;
    NoTrailingSlash(segs);
    assert distDir[|distDir| - 1..] == [distDir[|distDir| - 1]];
  }

  /** Written as `./name` it names nothing that is walked, and what the build writes there stays in. */
  lemma DotSlashIsNotExcluded(root: seq<string>, name: string, file: string)
    requires Clean(root) && IsPlain(name) && IsClean(name) && IsClean(file) && name[0] != '.'
    requires OneLine(Join([name, file], '/')) && !IsNamed(Join([name, file], '/'))
    ensures IsInOutput(root, "./" + name, [name, file])
    ensures !AnyRuleAccepts(ExcludeRules("./" + name, []), Join([name, file], '/'))
  {
    var distDir, path := "./" + name, [name, file];
    DotSlashOutput(root, distDir, name);
    assert root + path == (root + [name]) + [file];
    assert distDir[|distDir| - 1] == name[|name| - 1];
    JoinBeginsWith(name, file);
    AlwaysExcludes(distDir, [], Join(path, '/'));
    NotAtOrBelow(Join(path, '/'), RuleText(distDir));
  }

  lemma JoinBeginsWith(name: string, file: string)
    requires name != ""
    ensures Join([name, file], '/') != "" && Join([name, file], '/')[0] == name[0]
  {
  }

  lemma NotAtOrBelow(p: string, text: string)
    requires p != "" && text != "" && p[0] != text[0]
    ensures !IsAtOrBelow(p, text)
  {
    assert (text + "/")[0] == text[0];
  }

  /** So the usual `./dist` does not do what `dist` does. */
  lemma DotSlashDist(root: seq<string>)
    requires Clean(root)
    ensures NamesOutput(root, "dist") && !NamesOutput(root, "./dist") && !IsOutputExcluded(root, "./dist")
  {
    DistIsClean("dist");
    SplitNoSeparator("dist", '/');
    NormalFormNamesOutput(root, "dist");
    DotSlashIsUnnamed(root, "./dist", "dist");
    OutputIsExcludedExactly(root, "./dist");
  }

  lemma DistIsClean(name: string)
    requires name == "dist"
    ensures IsClean(name) && IsPlain(name) && OneLine(name)
  {
  }

  lemma DotSlashIsUnnamed(root: seq<string>, distDir: string, name: string)
    requires name == "dist" && distDir == "./" + name
    ensures IsPlain(distDir) && !NamesOutput(root, distDir)
  {
    DistIsClean(name);
    DotSlashOutput(root, distDir, name);
    assert (root + [name])[|root|..] == [name];
    assert distDir[|distDir| - 1] == name[|name| - 1];
    assert distDir[|distDir| - 1..] == [distDir[|distDir| - 1]];
    assert |DEPENDENCIES| == 12 && |VERSION_CONTROL| == 4 && VERSION_CONTROL[0] == '.';
  }

  lemma DotSlashOutput(root: seq<string>, distDir: string, name: string)
    requires distDir == "./" + name && IsClean(name)
    ensures OutputDirectory(root, distDir) == root + [name]
  {
    DotSlash(root, name);
    SplitNoSeparator(name, '/');
    PushClean(root, [name], false);
  }

  /**
   For a fixed memo, whatever changes under dependency trees, version-control metadata or the output
   directory that `distDir` names leaves the listing unchanged.
   */
  lemma ListingIgnoresArtifacts(root: seq<string>, distDir: string, rules: seq<string>, included: Option<seq<Rx>>, a: Node, b: Node)
    requires IsPlain(distDir) && NamesOutput(root, distDir)
    requires a.Directory? && Tree.WellFormed(a) && b.Directory? && Tree.WellFormed(b)
    requires SameVisibleFiles(p => IsArtifact(root, distDir, p), a, b)
    ensures
      var memo := Memo(included, CompiledRules(ExcludeRules(distDir, rules)));
      ListFiles(memo.Prunes, memo.Keeps, a) == ListFiles(memo.Prunes, memo.Keeps, b)
  {
    var memo := Memo(included, CompiledRules(ExcludeRules(distDir, rules)));
    forall p | IsArtifact(root, distDir, p)
      ensures memo.Prunes(p) && !memo.Keeps(p)
    {
      ArtifactsAreExcluded(root, distDir, rules, p);
      CompiledRulesMean(ExcludeRules(distDir, rules), p);
    }
    ListingIgnoresHidden(memo.Prunes, memo.Keeps, p => IsArtifact(root, distDir, p), a, b);
  }
}
