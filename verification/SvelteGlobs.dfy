/** `gitignoreRulesToGlobs` of packages/sveltekit/src/source.ts, and how it relates to Waku's ignore regexes. */
module SvelteGlobs {
  import opened Text
  import opened Glob
  import opened GlobSegments
  import opened GlobAgreement
  import WakuGlob

  function GlobsOfStem(rest: string, dirOnly: bool, anchored: bool): seq<string> {
    var floating := !anchored && '/' !in rest;
    if dirOnly then [if floating then "**/" + rest + "/**" else rest + "/**"]
    else if floating then ["**/" + rest, "**/" + rest + "/**"]
    else [rest, rest + "/**"]
  }

  /** The globs for one gitignore line. */
  function GlobsOfRule(raw: string): seq<string> {
    var line := Trim(raw);
    if line == "" || line[0] == '#' || line[0] == '!' then []
    else
      var dirOnly := EndsWith(line, "/");
      var stem := ToSlashes(if dirOnly then line[..|line| - 1] else line);
      if stem == "" then []
      else
        var anchored := stem[0] == '/';
        var rest := if anchored then stem[1..] else stem;
        if rest == "" then [] else GlobsOfStem(rest, dirOnly, anchored)
  }

  /** Blank lines, comments, negated lines and patterns of nothing but slashes give nothing. */
  lemma GivesNothing(raw: string)
    ensures
      var line := Trim(raw);
      GlobsOfRule(raw) == [] <==> line == "" || line[0] == '#' || line[0] == '!' || line in {"/", "//", "\\", "\\/"}
  {
    var line := Trim(raw);
    if line != "" {
      EndsInSlash(line);
      if |line| == 1 {
        assert line == [line[0]];
      } else if |line| == 2 {
        assert line == [line[0], line[1]];
      }
    }
  }

  function GlobsOfRules(rules: seq<string>): seq<string> {
    if rules == [] then [] else GlobsOfRules(rules[..|rules| - 1]) + GlobsOfRule(rules[|rules| - 1])
  }

  method GitignoreRulesToGlobs(rules: seq<string>) returns (out: seq<string>)
    ensures out == GlobsOfRules(rules)
  {
    out := [];
    for k := 0 to |rules|
      invariant out == GlobsOfRules(rules[..k])
    {
      assert rules[..k + 1][..k] == rules[..k];
      out := PushGlobs(rules[k], out);
    }
    assert rules[..|rules|] == rules;
  }

  /** One turn of the loop: pushes the globs of one line. */
  method PushGlobs(raw: string, pushed: seq<string>) returns (out: seq<string>)
    ensures out == pushed + GlobsOfRule(raw)
  {
    out := pushed;
    var line := Trim(raw);
    if |line| == 0 || line[0] == '#' || line[0] == '!' {
      return;
    }
    var rest := line;
    var dirOnly := EndsWith(rest, "/");
    if dirOnly {
      rest := rest[..|rest| - 1];
    }
    rest := ToSlashes(rest);
    if |rest| == 0 {
      return;
    }
    var anchored := rest[0] == '/';
    if anchored {
      rest := rest[1..];
    }
    if |rest| == 0 {
      return;
    }
    assert GlobsOfRule(raw) == GlobsOfStem(rest, dirOnly, anchored);
    out := PushStem(rest, dirOnly, anchored, out);
  }

  method PushStem(rest: string, dirOnly: bool, anchored: bool, pushed: seq<string>) returns (out: seq<string>)
    ensures out == pushed + GlobsOfStem(rest, dirOnly, anchored)
  {
    var hasSlash := '/' in rest;
    if dirOnly {
      out := pushed + [if anchored || hasSlash then rest + "/**" else "**/" + rest + "/**"];
    } else if anchored || hasSlash {
      out := pushed + [rest, rest + "/**"];
    } else {
      out := pushed + ["**/" + rest, "**/" + rest + "/**"];
    }
  }

  predicate AcceptedBy(globs: seq<string>, p: string) {
    exists k :: 0 <= k < |globs| && Accepts(Tokens(globs[k], true, true), p)
  }

  // ----- tokens of the derived globs -----

  function TokenOf(c: char): Token {
    if c == '*' then AnyRun else if c == '?' then AnyOne else Lit(c)
  }

  /** One character in front, where no `**` begins. */
  lemma TokensInFront(a: string, b: string, after: seq<Token>, boundary: bool, strict: bool)
    requires a != "" && !DoubleStarAt(a, 0) && !DoubleStarAt(a + b, 0)
    requires Tokens(a[1..] + b, a[0] == '/', strict) == Tokens(a[1..], a[0] == '/', strict) + after
    ensures Tokens(a + b, boundary, strict) == Tokens(a, boundary, strict) + after
  {
    var g := a + b;
    assert g[0] == a[0] && g[1..] == a[1..] + b;
    Reassociate([TokenOf(a[0])], Tokens(a[1..], a[0] == '/', strict), after);
  }

  lemma {:induction false} TokensThenSlash(a: string, b: string, boundary: bool, strict: bool)
    requires !HasDoubleStar(a) && b != "" && b[0] == '/'
    ensures Tokens(a + b, boundary, strict)
         == Tokens(a, boundary, strict) + ([Lit('/')] + Tokens(b[1..], true, strict))
    decreases |a|
  {
    var after := [Lit('/')] + Tokens(b[1..], true, strict);
    if a == "" {
      assert a + b == b;
    } else {
      TokensThenSlash(a[1..], b, a[0] == '/', strict);
      TokensInFront(a, b, after, boundary, strict);
    }
  }

  lemma {:induction false} NoDoubleStarsStartSegments(a: string, boundary: bool)
    requires !HasDoubleStar(a)
    ensures DoubleStarsStartSegments(a, boundary)
    decreases |a|
  {
    if a != "" {
      NoDoubleStarsStartSegments(a[1..], a[0] == '/');
    }
  }

  const BELOW := [Lit('/'), AnyPath]

  lemma TokensOfBelow(rest: string)
    requires !HasDoubleStar(rest)
    ensures Tokens(rest + "/**", true, true) == Tokens(rest, true, true) + BELOW
  {
    TokensThenSlash(rest, "/**", true, true);
    assert "/**"[1..] == "**" && "**"[2..] == "";
    assert Tokens("**", true, true) == [AnyPath];
  }

  // ----- their meaning -----

  lemma {:induction false} SplitConcatenated(a: seq<Token>, b: seq<Token>, p: string) returns (k: nat)
    requires Accepts(a + b, p)
    ensures k <= |p| && Accepts(a, p[..k]) && Accepts(b, p[k..])
    decreases |a|
  {
    if a == [] {
      assert a + b == b && p[0..] == p;
      k := 0;
    } else {
      assert (a + b)[1..] == a[1..] + b;
      if a[0].Lit? || a[0].AnyOne? {
        var m := SplitConcatenated(a[1..], b, p[1..]);
        k := m + 1;
        assert p[..k][1..] == p[1..][..m] && p[1..][m..] == p[k..];
      } else {
        var n := SplitAccepts(a + b, p, false);
        var m := SplitConcatenated(a[1..], b, p[n..]);
        k := n + m;
        assert p[..k][..n] == p[..n] && p[..k][n..] == p[n..][..m] && p[n..][m..] == p[k..];
        JoinAccepts(a, p[..k], n, false);
      }
    }
  }

  lemma CutInTwo(p: string, n: nat, k: nat)
    requires n <= k <= |p|
    ensures p[..k][..n] == p[..n] && p[..k][n..] == p[n..][..k - n] && p[n..][k - n..] == p[k..]
  {
  }

  lemma {:induction false} JoinConcatenated(a: seq<Token>, b: seq<Token>, p: string, k: nat)
    requires k <= |p| && Accepts(a, p[..k]) && Accepts(b, p[k..])
    ensures Accepts(a + b, p)
    decreases |a|
  {
    if a == [] {
      assert a + b == b && p[k..] == p;
    } else {
      assert (a + b)[1..] == a[1..] + b;
      if a[0].Lit? || a[0].AnyOne? {
        CutInTwo(p, 1, k);
        JoinConcatenated(a[1..], b, p[1..], k - 1);
      } else {
        var n := SplitAccepts(a, p[..k], false);
        CutInTwo(p, n, k);
        JoinConcatenated(a[1..], b, p[n..], k - n);
        JoinAccepts(a + b, p, n, false);
      }
    }
  }

  lemma BelowMeans(q: string)
    ensures Accepts(BELOW, q) <==> q != "" && q[0] == '/' && OneLine(q[1..])
  {
    assert BELOW[1..] == [AnyPath];
    if q != "" && OneLine(q[1..]) {
      assert q[1..][..|q| - 1] == q[1..] && q[1..][|q| - 1..] == "";
      JoinAccepts([AnyPath], q[1..], |q| - 1, false);
    }
    if q != "" && Accepts([AnyPath], q[1..]) {
      var n := SplitAccepts([AnyPath], q[1..], false);
      assert q[1..][..n] == q[1..];
    }
  }

  /** Where a rule's pattern can start in a canonical path. */
  predicate StartsAt(floating: bool, p: string, i: nat)
    requires i <= |p|
  {
    if floating then IsSegments(p[..i]) else i == 0
  }

  function Headed(floating: bool, ts: seq<Token>): seq<Token> {
    if floating then [Segments] + ts else ts
  }

  /** The pattern covers `i..j` of the path. */
  predicate CoversAt(floating: bool, ts: seq<Token>, p: string, i: nat, j: nat) {
    i <= j <= |p| && StartsAt(floating, p, i) && Accepts(ts, p[i..j])
  }

  predicate CoversUpToSlash(floating: bool, ts: seq<Token>, p: string, i: nat, j: nat) {
    CoversAt(floating, ts, p, i, j) && j < |p| && p[j] == '/'
  }

  lemma SplitHeadedBelow(floating: bool, ts: seq<Token>, p: string) returns (i: nat, j: nat)
    requires Accepts(Headed(floating, ts + BELOW), p)
    ensures CoversUpToSlash(floating, ts, p, i, j) && OneLine(p[j + 1..])
  {
    i :| i <= |p| && StartsAt(floating, p, i) && Accepts(ts + BELOW, p[i..]);
    var k := SplitBelow(ts, p[i..]);
    j := i + k;
    CutTwice(p, i, k);
  }

  lemma SplitBelow(ts: seq<Token>, q: string) returns (k: nat)
    requires Accepts(ts + BELOW, q)
    ensures k < |q| && Accepts(ts, q[..k]) && q[k] == '/' && OneLine(q[k..][1..])
  {
    k := SplitConcatenated(ts, BELOW, q);
    BelowMeans(q[k..]);
  }

  lemma CutTwice(p: string, i: nat, k: nat)
    requires i + k < |p|
    ensures p[i..][..k] == p[i..i + k] && p[i..][k] == p[i + k] && p[i..][k..][1..] == p[i + k + 1..]
  {
  }

  lemma JoinHeadedBelow(floating: bool, ts: seq<Token>, p: string, i: nat, j: nat)
    requires CoversUpToSlash(floating, ts, p, i, j) && OneLine(p[j + 1..])
    ensures Accepts(Headed(floating, ts + BELOW), p)
  {
    var k := j - i;
    assert p[i..][..k] == p[i..j] && p[i..][k..] == p[j..] && p[j..][1..] == p[j + 1..];
    BelowMeans(p[i..][k..]);
    JoinConcatenated(ts, BELOW, p[i..], k);
  }

  /** A rule free of backslashes and `**`, and Waku's reading of it. */
  predicate PlainRule(raw: string) {
    '\\' !in Trim(raw) && !HasDoubleStar(Trim(raw)) && WakuGlob.ReadRule(raw).Some?
  }

  function StemOf(line: string): string {
    if EndsWith(line, "/") then line[..|line| - 1] else line
  }

  function RestOf(stem: string): string {
    if stem != "" && stem[0] == '/' then stem[1..] else stem
  }

  lemma SvelteStem(raw: string)
    requires WakuGlob.ReadRule(raw).Some? && ToSlashes(StemOf(Trim(raw))) == StemOf(Trim(raw)) != ""
    ensures
      var stem := StemOf(Trim(raw));
      GlobsOfRule(raw)
      == if RestOf(stem) == "" then [] else GlobsOfStem(RestOf(stem), EndsWith(Trim(raw), "/"), stem[0] == '/')
  {
  }

  /** Both translators take a plain rule apart in the same way. */
  lemma SameReading(raw: string)
    requires PlainRule(raw)
    ensures
      var r := WakuGlob.ReadRule(raw).value;
      && !HasDoubleStar(r.glob)
      && ('/' in r.glob ==> r.anchored)
      && (if r.glob == "" then GlobsOfRule(raw) == []
          else GlobsOfRule(raw) == GlobsOfStem(r.glob, EndsWith(Trim(raw), "/"), r.anchored))
  {
    var line := Trim(raw);
    SvelteStem(raw);
  }

  lemma StemGlobsMean(rest: string, dirOnly: bool, anchored: bool, p: string)
    requires !HasDoubleStar(rest)
    ensures
      var floating := !anchored && '/' !in rest;
      var ts := Tokens(rest, true, true);
      AcceptedBy(GlobsOfStem(rest, dirOnly, anchored), p)
      <==> Accepts(Headed(floating, ts + BELOW), p) || (!dirOnly && Accepts(Headed(floating, ts), p))
  {
    var floating := !anchored && '/' !in rest;
    var ts := Tokens(rest, true, true);
    TokensOfBelow(rest);
    assert "**/" + rest + "/**" == "**/" + (rest + "/**");
    var globs := GlobsOfStem(rest, dirOnly, anchored);
    assert Tokens(globs[|globs| - 1], true, true) == Headed(floating, ts + BELOW);
    assert !dirOnly ==> Tokens(globs[0], true, true) == Headed(floating, ts);
    if AcceptedBy(globs, p) {
      var k :| 0 <= k < |globs| && Accepts(Tokens(globs[k], true, true), p);
      assert k == |globs| - 1 || (!dirOnly && k == 0);
    }
  }

  /** On canonical paths Waku's rule covers up to the end of the path or to a slash. */
  predicate WakuCovers(r: WakuGlob.Reading, p: string, i: nat, j: nat) {
    CoversAt(!r.anchored, Tokens(r.glob, true, true), p, i, j) && (j == |p| || p[j] == '/')
  }

  lemma WakuOnCanonical(r: WakuGlob.Reading, p: string)
    requires !HasDoubleStar(r.glob) && CanonicalRest(p, true)
    ensures WakuGlob.RuleAccepts(r, p) <==> exists i: nat, j: nat :: WakuCovers(r, p, i, j)
  {
    NoDoubleStarsStartSegments(r.glob, true);
    SameTokens(r.glob, true);
    forall i: nat, j: nat | i <= |p| && i <= j <= |p|
      ensures WakuGlob.Covers(r.anchored, p, i, j) <==> StartsAt(!r.anchored, p, i) && (j == |p| || p[j] == '/')
    {
      SamePrefixes(p, i);
      if j < |p| {
      }
    }
    if i: nat, j: nat :| WakuCovers(r, p, i, j) {
      assert WakuGlob.Covers(r.anchored, p, i, j) && Accepts(Tokens(r.glob, true, false), p[i..j]);
    }
    if WakuGlob.RuleAccepts(r, p) {
      var i: nat, j: nat :| i <= |p| && i <= j <= |p| && WakuGlob.Covers(r.anchored, p, i, j)
        && Accepts(Tokens(r.glob, true, false), p[i..j]);
      assert WakuCovers(r, p, i, j);
    }
  }

  /** Without a trailing slash the globs accept the canonical paths that Waku's regex accepts. */
  lemma PlainRuleAgrees(raw: string, p: string)
    requires PlainRule(raw) && !EndsWith(Trim(raw), "/") && CanonicalPath(p)
    ensures AcceptedBy(GlobsOfRule(raw), p) <==> WakuGlob.RuleAccepts(WakuGlob.ReadRule(raw).value, p)
  {
    var r := WakuGlob.ReadRule(raw).value;
    SameReading(raw);
    CanonicalPathIsCanonicalRest(p);
    if r.glob == "" {
    } else {
      StemGlobsMean(r.glob, false, r.anchored, p);
      PlainStemAgrees(r, p);
    }
  }

  lemma PlainStemAgrees(r: WakuGlob.Reading, p: string)
    requires !HasDoubleStar(r.glob) && CanonicalRest(p, true)
    ensures
      var ts := Tokens(r.glob, true, true);
      WakuGlob.RuleAccepts(r, p)
      <==> Accepts(Headed(!r.anchored, ts + BELOW), p) || Accepts(Headed(!r.anchored, ts), p)
  {
    var ts := Tokens(r.glob, true, true);
    WakuOnCanonical(r, p);
    if Accepts(Headed(!r.anchored, ts), p) {
      WholeIsCovered(r, p);
    }
    if Accepts(Headed(!r.anchored, ts + BELOW), p) {
      var i, j := SplitHeadedBelow(!r.anchored, ts, p);
      assert WakuCovers(r, p, i, j);
    }
    if i: nat, j: nat :| WakuCovers(r, p, i, j) {
      CoveredIsAccepted(r, p, i, j);
    }
  }

  lemma WholeIsCovered(r: WakuGlob.Reading, p: string)
    requires Accepts(Headed(!r.anchored, Tokens(r.glob, true, true)), p)
    ensures exists i: nat, j: nat :: WakuCovers(r, p, i, j)
  {
    var ts := Tokens(r.glob, true, true);
    var i: nat :| i <= |p| && StartsAt(!r.anchored, p, i) && Accepts(ts, p[i..]);
    assert p[i..|p|] == p[i..];
    assert WakuCovers(r, p, i, |p|);
  }

  lemma CoveredIsAccepted(r: WakuGlob.Reading, p: string, i: nat, j: nat)
    requires CanonicalRest(p, true) && WakuCovers(r, p, i, j)
    ensures
      var ts := Tokens(r.glob, true, true);
      Accepts(Headed(!r.anchored, ts + BELOW), p) || Accepts(Headed(!r.anchored, ts), p)
  {
    var ts := Tokens(r.glob, true, true);
    if j == |p| {
      assert p[i..j] == p[i..];
    } else {
      JoinHeadedBelow(!r.anchored, ts, p, i, j);
    }
  }

  /** With a trailing slash they accept the paths with a proper ancestor that Waku's regex accepts. */
  lemma DirectoryRuleAgrees(raw: string, p: string)
    requires PlainRule(raw) && EndsWith(Trim(raw), "/") && CanonicalPath(p)
    ensures AcceptedBy(GlobsOfRule(raw), p)
       <==> exists m :: 0 < m < |p| && p[m] == '/' && WakuGlob.RuleAccepts(WakuGlob.ReadRule(raw).value, p[..m])
  {
    var r := WakuGlob.ReadRule(raw).value;
    SameReading(raw);
    CanonicalPathIsCanonicalRest(p);
    if r.glob == "" {
      forall m | 0 < m < |p|
        ensures !WakuGlob.RuleAccepts(r, p[..m])
      {
      }
    } else {
      StemGlobsMean(r.glob, true, r.anchored, p);
      DirectoryStemAgrees(r, p);
    }
  }

  lemma DirectoryStemAgrees(r: WakuGlob.Reading, p: string)
    requires !HasDoubleStar(r.glob) && CanonicalRest(p, true)
    ensures
      Accepts(Headed(!r.anchored, Tokens(r.glob, true, true) + BELOW), p)
      <==> exists m :: 0 < m < |p| && p[m] == '/' && WakuGlob.RuleAccepts(r, p[..m])
  {
    var ts := Tokens(r.glob, true, true);
    if Accepts(Headed(!r.anchored, ts + BELOW), p) {
      var i, j := SplitHeadedBelow(!r.anchored, ts, p);
      CutAt(r, p, i, j);
    }
    if m :| 0 < m < |p| && p[m] == '/' && WakuGlob.RuleAccepts(r, p[..m]) {
      var i, j := GrowFrom(r, p, m);
      JoinHeadedBelow(!r.anchored, ts, p, i, j);
    }
  }

  lemma CutAt(r: WakuGlob.Reading, p: string, i: nat, j: nat)
    requires !HasDoubleStar(r.glob) && CanonicalRest(p, true)
    requires CoversUpToSlash(!r.anchored, Tokens(r.glob, true, true), p, i, j)
    ensures WakuGlob.RuleAccepts(r, p[..j])
  {
    WakuOnCanonical(r, p[..j]);
    assert p[..j][i..j] == p[i..j] && p[..j][..i] == p[..i];
    assert WakuCovers(r, p[..j], i, j);
  }

  lemma GrowFrom(r: WakuGlob.Reading, p: string, m: nat) returns (i: nat, j: nat)
    requires !HasDoubleStar(r.glob) && CanonicalRest(p, true)
    requires m < |p| && p[m] == '/' && WakuGlob.RuleAccepts(r, p[..m])
    ensures CoversUpToSlash(!r.anchored, Tokens(r.glob, true, true), p, i, j)
  {
    WakuOnCanonical(r, p[..m]);
    i, j :| WakuCovers(r, p[..m], i, j);
    assert p[..m][i..j] == p[i..j] && p[..m][..i] == p[..i];
  }
}
