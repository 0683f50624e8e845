/** The glob and ignore-rule compilers of packages/waku/src/source.ts. */
module WakuGlob {
  import opened Options
  import opened Text
  import opened Regex
  import opened Fragments
  import opened Glob

  predicate IsSpecial(c: char) {
    || c == '.' || c == '*' || c == '+' || c == '?' || c == '^' || c == '$' || c == '{'
    || c == '}' || c == '(' || c == ')' || c == '|' || c == '[' || c == ']' || c == '\\'
  }

  function EscapeRegExpChar(c: char): (r: string)
    ensures r == SourceOf(Literal(c))
  {
    if IsSpecial(c) then ['\\', c] else [c]
  }

  /** The fragments a glob stands for; `**` and a slash are whole segments wherever they stand. */
  function GlobBody(glob: string): seq<Fragment> {
    Body(Tokens(glob, true, false), false)
  }

  method GlobBodyToRegExpSource(glob: string) returns (source: string)
    ensures source == Emit(GlobBody(glob))
  {
    source := "";
    var i := 0;
    SourceOfGlob(glob, false, false);
    while i < |glob|
      invariant 0 <= i <= |glob|
      invariant source + SourceFrom(glob, i, false, false) == SourceFrom(glob, 0, false, false)
    {
      var c, text, next := glob[i], "", i + 1;
      if c == '*' {
        if i + 1 < |glob| && glob[i + 1] == '*' {
          if i + 2 < |glob| && glob[i + 2] == '/' {
            text, next := "(?:[^/]+/)*", i + 3;
          } else {
            text, next := ".*", i + 2;
          }
        } else {
          text := "[^/]*";
        }
      } else if c == '?' {
        text := "[^/]";
      } else {
        text := EscapeRegExpChar(c);
      }
      assert (text, next) == Step(glob, i, false, false);
      SourceStep(source, glob, i, false, false);
      source, i := source + text, next;
    }
  }

  /** Include globs: `^body$` exists and accepts what the glob means. */
  lemma GlobCompiles(glob: string, p: string)
    ensures
      var rx := Parse("^" + Emit(GlobBody(glob)) + "$");
      rx.Some? && (Test(rx.value, p) <==> Accepts(Tokens(glob, true, false), p))
  {
    AnchoredSource(GlobBody(glob));
    AnchoredMeaning(Tokens(glob, true, false), false, p);
  }

  /** The regular expression accepts exactly what the include glob means. */
  ghost predicate IsIncludeOf(regex: Rx, glob: string) {
    forall p :: Test(regex, p) <==> Accepts(Tokens(glob, true, false), p)
  }

  method CompileIncludeGlobs(globs: seq<string>) returns (regexes: seq<Rx>)
    ensures |regexes| == |globs| && forall i :: 0 <= i < |globs| ==> IsIncludeOf(regexes[i], globs[i])
  {
    regexes := [];
    for i := 0 to |globs|
      invariant |regexes| == i
      invariant forall k :: 0 <= k < i ==> IsIncludeOf(regexes[k], globs[k])
    {
      var source := GlobBodyToRegExpSource(globs[i]);
      GlobCompiles(globs[i], "");
      forall p {
        GlobCompiles(globs[i], p);
      }
      regexes := regexes + [Parse("^" + source + "$").value];
    }
  }

  datatype Reading = Reading(glob: string, anchored: bool)

  /** Blank lines, comments and negated rules say nothing; a trailing slash is dropped. */
  function ReadRule(raw: string): Option<Reading> {
    var rule := Trim(raw);
    if rule == "" || rule[0] == '#' || rule[0] == '!' then None
    else
      var stem := if EndsWith(rule, "/") then rule[..|rule| - 1] else rule;
      if stem == "" then None
      else Some(Reading(if stem[0] == '/' then stem[1..] else stem, '/' in stem))
  }

  /** A pattern between the decorations of an ignore line. */
  predicate IsPattern(pattern: string) {
    IsTight(pattern) && pattern[0] != '/' && pattern[|pattern| - 1] != '/'
  }

  lemma StemOfPattern(rooted: bool, pattern: string, stem: string)
    requires IsPattern(pattern) && stem == if rooted then "/" + pattern else pattern
    ensures IsTight(stem) && stem[|stem| - 1] != '/'
    ensures (if stem[0] == '/' then stem[1..] else stem) == pattern
    ensures '/' in stem <==> rooted || '/' in pattern
  {
    assert stem[|stem| - 1] == pattern[|pattern| - 1];
    if rooted {
      assert stem[1..] == pattern;
      assert stem[0] in stem;
    }
  }

  lemma ReadsStem(raw: string, line: string, stem: string, slash: bool)
    requires Trim(raw) == line && line != "" && stem != ""
    requires EndsWith(line, "/") == slash && (if slash then line[..|line| - 1] else line) == stem
    ensures ReadRule(raw)
         == if line[0] == '#' || line[0] == '!' then None
            else Some(Reading(if stem[0] == '/' then stem[1..] else stem, '/' in stem))
  {
  }

  /**
   Every line for a pattern, white space around it aside: a slash in front or inside anchors, a slash
   behind makes no difference. A `#` or `!` that comes first makes the line say nothing.
   */
  lemma LineReadsBack(raw: string, rooted: bool, pattern: string, slash: bool)
    requires IsPattern(pattern)
    requires
      var stem := if rooted then "/" + pattern else pattern;
      Trim(raw) == if slash then stem + "/" else stem
    ensures ReadRule(raw)
         == if !rooted && (pattern[0] == '#' || pattern[0] == '!') then None
            else Some(Reading(pattern, rooted || '/' in pattern))
  {
    var stem := if rooted then "/" + pattern else pattern;
    var line := if slash then stem + "/" else stem;
    StemOfPattern(rooted, pattern, stem);
    DropSlash(stem, line, slash);
    ReadsStem(raw, line, stem, slash);
  }

  /** Only blank lines, comments, negated lines and a lone slash say nothing. */
  lemma SaysNothing(raw: string)
    ensures
      var line := Trim(raw);
      ReadRule(raw).None? <==> line == "" || line[0] == '#' || line[0] == '!' || line == "/"
  {
    var line := Trim(raw);
    if line != "" {
      assert line[|line| - 1..] == [line[|line| - 1]];
      if |line| == 1 {
        assert line == [line[0]];
      }
    }
  }

  /** Some stretch of the path from a segment's start to a segment's end is what the glob means. */
  predicate RuleAccepts(r: Reading, p: string) {
    exists i: nat, j: nat :: i <= |p| && i <= j <= |p| && Covers(r.anchored, p, i, j)
      && Accepts(Tokens(r.glob, true, false), p[i..j])
  }

  predicate Covers(anchored: bool, p: string, i: nat, j: nat)
    requires i <= j <= |p|
  {
    && (if anchored then i == 0 else IsLineUpToSlash(p[..i]))
    && (j == |p| || (p[j] == '/' && OneLine(p[j + 1..])))
  }

  function Framed(anchored: bool, body: seq<Fragment>): seq<Fragment> {
    if anchored then [StartAnchor] + (body + [OptionalTail, EndAnchor])
    else [StartAnchor] + ([OptionalPath] + (body + [OptionalTail, EndAnchor]))
  }

  function Prefix(anchored: bool): string {
    if anchored then "^" else "^(?:.*/)?"
  }

  lemma TailSource(body: seq<Fragment>)
    ensures Emit(body + [OptionalTail, EndAnchor]) == Emit(body) + "(?:/.*)?$"
  {
    EmitConcat(body, [OptionalTail, EndAnchor]);
    assert [OptionalTail, EndAnchor][1..] == [EndAnchor];
    assert Emit([EndAnchor]) == "$";
    assert Emit([OptionalTail, EndAnchor]) == "(?:/.*)?$";
  }

  lemma PrefixSource(anchored: bool, rest: seq<Fragment>)
    ensures Emit(if anchored then [StartAnchor] + rest else [StartAnchor] + ([OptionalPath] + rest)) == Prefix(anchored) + Emit(rest)
  {
    assert ([OptionalPath] + rest)[1..] == rest;
    if anchored {
      assert ([StartAnchor] + rest)[1..] == rest;
    } else {
      assert ([StartAnchor] + ([OptionalPath] + rest))[1..] == [OptionalPath] + rest;
      assert "^" + ("(?:.*/)?" + Emit(rest)) == "^(?:.*/)?" + Emit(rest);
    }
  }

  lemma FramedSource(anchored: bool, body: seq<Fragment>)
    ensures Parse(Prefix(anchored) + Emit(body) + "(?:/.*)?$") == Some(Denote(Framed(anchored, body)))
  {
    ParseEmitted(Framed(anchored, body));
    PrefixSource(anchored, body + [OptionalTail, EndAnchor]);
    TailSource(body);
    Reassociate(Prefix(anchored), Emit(body), "(?:/.*)?$");
  }

  lemma TailMatches(p: string, j: nat, k: nat)
    requires j <= k <= |p|
    ensures Matches(MeaningOf(OptionalTail), p, j, k) <==> j == k || (p[j] == '/' && OneLine(p[j + 1..k]))
  {
    var after := Seq(Star(AnyChar), Empty);
    if j < k {
      RepeatsAnyChar(p, j + 1, k);
      if Matches(Seq(Char('/'), after), p, j, k) {
        var m := SplitSeq(Char('/'), after, p, j, k);
        var n := SplitSeq(Star(AnyChar), Empty, p, m, k);
      }
      if p[j] == '/' && OneLine(p[j + 1..k]) {
        JoinSeq(Star(AnyChar), Empty, p, j + 1, k, k);
        JoinSeq(Char('/'), after, p, j, j + 1, k);
      }
    }
  }

  lemma TailThenEnd(p: string, j: nat, k: nat)
    requires j <= k <= |p|
    ensures Matches(Denote([OptionalTail, EndAnchor]), p, j, k)
       <==> k == |p| && (j == |p| || (p[j] == '/' && OneLine(p[j + 1..])))
  {
    assert [OptionalTail, EndAnchor] == [OptionalTail] + [EndAnchor];
    EndAnchored([OptionalTail], p, j, k);
    TailMatches(p, j, k);
    assert p[j..k] == p[j..k];
    if k == |p| && j < k {
      assert p[j + 1..k] == p[j + 1..];
    }
    assert [OptionalTail][1..] == [];
    if Matches(Denote([OptionalTail]), p, j, k) {
      var m := SplitSeq(MeaningOf(OptionalTail), Empty, p, j, k);
    }
    if Matches(MeaningOf(OptionalTail), p, j, k) {
      JoinSeq(MeaningOf(OptionalTail), Empty, p, j, k, k);
    }
  }

  lemma FramedSplit(anchored: bool, body: seq<Fragment>, p: string) returns (i: nat, j: nat)
    requires Test(Denote(Framed(anchored, body)), p)
    ensures i <= j <= |p| && Covers(anchored, p, i, j) && Matches(Denote(body), p, i, j)
  {
    var rest := body + [OptionalTail, EndAnchor];
    var m: nat, n: nat :| m <= |p| && m <= n <= |p| && Matches(Denote(Framed(anchored, body)), p, m, n);
    if anchored {
      StartAnchored(rest, p, m, n);
      i := 0;
    } else {
      StartAnchored([OptionalPath] + rest, p, m, n);
      assert ([OptionalPath] + rest)[1..] == rest;
      i := SplitSeq(MeaningOf(OptionalPath), Denote(rest), p, 0, n);
      FragmentMatches(OptionalPath, p, 0, i);
      assert p[0..i] == p[..i];
    }
    j := SplitDenote(body, [OptionalTail, EndAnchor], p, i, n);
    TailThenEnd(p, j, n);
  }

  lemma FramedJoin(anchored: bool, body: seq<Fragment>, p: string, i: nat, j: nat)
    requires i <= j <= |p| && Covers(anchored, p, i, j) && Matches(Denote(body), p, i, j)
    ensures Test(Denote(Framed(anchored, body)), p)
  {
    var rest := body + [OptionalTail, EndAnchor];
    TailThenEnd(p, j, |p|);
    JoinDenote(body, [OptionalTail, EndAnchor], p, i, j, |p|);
    if anchored {
      StartAnchored(rest, p, 0, |p|);
    } else {
      assert p[0..i] == p[..i];
      FragmentMatches(OptionalPath, p, 0, i);
      assert ([OptionalPath] + rest)[1..] == rest;
      JoinSeq(MeaningOf(OptionalPath), Denote(rest), p, 0, i, |p|);
      StartAnchored([OptionalPath] + rest, p, 0, |p|);
    }
  }

  /** The compiled rule accepts exactly what the rule means. */
  lemma RuleCompiles(r: Reading, p: string)
    ensures
      var rx := Parse(Prefix(r.anchored) + Emit(GlobBody(r.glob)) + "(?:/.*)?$");
      rx.Some? && (Test(rx.value, p) <==> RuleAccepts(r, p))
  {
    var body, ts := GlobBody(r.glob), Tokens(r.glob, true, false);
    FramedSource(r.anchored, body);
    if Test(Denote(Framed(r.anchored, body)), p) {
      var i, j := FramedSplit(r.anchored, body, p);
      BodyMatches(ts, false, p, i, j);
    }
    if RuleAccepts(r, p) {
      var i: nat, j: nat :| i <= |p| && i <= j <= |p| && Covers(r.anchored, p, i, j) && Accepts(ts, p[i..j]);
      BodyMatches(ts, false, p, i, j);
      FramedJoin(r.anchored, body, p, i, j);
    }
  }

  function CompiledRule(raw: string): Option<Rx> {
    match ReadRule(raw)
    case None => None
    case Some(r) => Parse(Prefix(r.anchored) + Emit(GlobBody(r.glob)) + "(?:/.*)?$")
  }

  /** The regular expression accepts exactly what the rule means. */
  ghost predicate IsRegexOf(regex: Rx, r: Reading) {
    forall p :: Test(regex, p) <==> RuleAccepts(r, p)
  }

  lemma ReadingCompiles(r: Reading)
    ensures
      var rx := Parse(Prefix(r.anchored) + Emit(GlobBody(r.glob)) + "(?:/.*)?$");
      rx.Some? && IsRegexOf(rx.value, r)
  {
    RuleCompiles(r, "");
    forall p {
      RuleCompiles(r, p);
    }
  }

  method CompileIgnoreRule(raw: string) returns (regex: Option<Rx>)
    ensures regex == CompiledRule(raw)
    ensures regex.Some? <==> ReadRule(raw).Some?
    ensures regex.Some? ==> IsRegexOf(regex.value, ReadRule(raw).value)
  {
    var rule := Trim(raw);
    if |rule| == 0 || StartsWith(rule, "#") || StartsWith(rule, "!") {
      return None;
    }
    if EndsWith(rule, "/") {
      rule := rule[..|rule| - 1];
    }
    if |rule| == 0 {
      return None;
    }
    var anchored := '/' in rule;
    if StartsWith(rule, "/") {
      rule := rule[1..];
    }
    var body := GlobBodyToRegExpSource(rule);
    var prefix := if anchored then "^" else "^(?:.*/)?";
    ghost var r := Reading(rule, anchored);
    assert ReadRule(raw) == Some(r);
    ReadingCompiles(r);
    return Parse(prefix + body + "(?:/.*)?$");
  }

  /** A rule that accepts a directory accepts everything below it. */
  lemma AcceptsDescendants(r: Reading, p: string, below: string)
    requires RuleAccepts(r, p) && OneLine(below)
    ensures RuleAccepts(r, p + "/" + below)
  {
    var ts := Tokens(r.glob, true, false);
    var i: nat, j: nat :| i <= |p| && i <= j <= |p| && Covers(r.anchored, p, i, j) && Accepts(ts, p[i..j]);
    var q := p + "/" + below;
    assert q[i..j] == p[i..j] && q[..i] == p[..i];
    if j < |p| {
      assert q[j + 1..] == p[j + 1..] + ("/" + below);
      OneLineConcat(p[j + 1..], "/" + below);
      OneLineConcat("/", below);
    } else {
      assert q[j + 1..] == below;
    }
    assert Covers(r.anchored, q, i, j);
  }
}
