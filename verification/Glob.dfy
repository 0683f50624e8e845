/**
 Globs: how the scanning loops read one (`Tokens`), what it means (`Accepts`), and that the
 regular expression emitted for it accepts exactly what it means.
 */
module Glob {
  import opened Options
  import opened Text
  import opened Regex
  import opened Fragments

  datatype Token =
    | Lit(c: char)   // stands for itself
    | AnyOne         // ?    one character of a segment
    | AnyRun         // *    any characters of one segment
    | AnyPath        // **   anything on one line (`*` in a `_headers` pattern)
    | AnyName        // a `:placeholder` of a `_headers` pattern: a nonempty run of one segment
    | Segments       // **/  zero or more whole segments

  /**
   How a glob is read from left to right. `boundary` says that the text before `g` is empty or ends
   in a slash. A `strict` reader takes `**` followed by a slash for `Segments` only at a boundary.
   */
  function Tokens(g: string, boundary: bool, strict: bool): seq<Token> {
    if g == "" then []
    else if |g| >= 2 && g[0] == '*' && g[1] == '*' then
      if (boundary || !strict) && |g| >= 3 && g[2] == '/'
      then [Segments] + Tokens(g[3..], true, strict)
      else [AnyPath] + Tokens(g[2..], false, strict)
    else
      [if g[0] == '*' then AnyRun else if g[0] == '?' then AnyOne else Lit(g[0])]
      + Tokens(g[1..], g[0] == '/', strict)
  }

  /** A concatenation of zero or more nonempty segments, each followed by a slash. */
  predicate IsSegments(q: string) {
    q == "" || (q[0] != '/' && q[|q| - 1] == '/' && NoDoubleSlash(q))
  }

  predicate NoDoubleSlash(q: string) {
    forall k :: 0 <= k < |q| - 1 ==> !(q[k] == '/' && q[k + 1] == '/')
  }

  /** Either nothing, or anything on one line up to a slash. */
  predicate IsLineUpToSlash(q: string) {
    q == "" || (q[|q| - 1] == '/' && OneLine(q[..|q| - 1]))
  }

  /** The stretches of a path that a token other than a single character may stand for. */
  predicate Stretch(t: Token, q: string, loose: bool) {
    match t
    case AnyRun => '/' !in q
    case AnyPath => OneLine(q)
    case AnyName => q != "" && '/' !in q
    case Segments => if loose then IsLineUpToSlash(q) else IsSegments(q)
    case _ => false
  }

  /**
   The meaning of a glob. The Next.js compiler renders `Segments` with a looser fragment; `loose`
   selects that reading.
   */
  predicate Accepts(ts: seq<Token>, p: string, loose: bool := false)
    decreases |ts|
  {
    if ts == [] then p == ""
    else
      match ts[0]
      case Lit(c) => p != "" && p[0] == c && Accepts(ts[1..], p[1..], loose)
      case AnyOne => p != "" && p[0] != '/' && Accepts(ts[1..], p[1..], loose)
      case _ => exists k: nat :: k <= |p| && Stretch(ts[0], p[..k], loose) && Accepts(ts[1..], p[k..], loose)
  }

  function FragmentOf(t: Token, loose: bool): Fragment {
    match t
    case Lit(c) => Literal(c)
    case AnyOne => OneChar
    case AnyRun => RunOfChars
    case AnyPath => Anything
    case AnyName => Placeholder
    case Segments => if loose then OptionalPath else WholeSegments
  }

  function Body(ts: seq<Token>, loose: bool): seq<Fragment> {
    if ts == [] then [] else [FragmentOf(ts[0], loose)] + Body(ts[1..], loose)
  }

  predicate DoubleStarAt(glob: string, i: nat) {
    i + 1 < |glob| && glob[i] == '*' && glob[i + 1] == '*'
  }

  predicate SegmentsAt(glob: string, i: nat, strict: bool)
    requires i <= |glob|
  {
    DoubleStarAt(glob, i) && (i == 0 || glob[i - 1] == '/' || !strict) && i + 2 < |glob| && glob[i + 2] == '/'
  }

  /** What the scanning loop has to append at index `i`, and how far it moves on. */
  function Step(glob: string, i: nat, strict: bool, loose: bool): (string, nat)
    requires i < |glob|
  {
    if SegmentsAt(glob, i, strict) then (SourceOf(FragmentOf(Segments, loose)), i + 3)
    else if DoubleStarAt(glob, i) then (".*", i + 2)
    else if glob[i] == '*' then ("[^/]*", i + 1)
    else if glob[i] == '?' then ("[^/]", i + 1)
    else (SourceOf(Literal(glob[i])), i + 1)
  }

  /** The regular-expression source still to be emitted for `glob` from index `i` on. */
  function SourceFrom(glob: string, i: nat, strict: bool, loose: bool): string
    requires i <= |glob|
    decreases |glob| - i
  {
    if i == |glob| then ""
    else
      Step(glob, i, strict, loose).0 + SourceFrom(glob, Step(glob, i, strict, loose).1, strict, loose)
  }

  lemma SourceStep(out: string, glob: string, i: nat, strict: bool, loose: bool)
    requires i < |glob|
    ensures
      var (text, next) := Step(glob, i, strict, loose);
      i < next <= |glob| && out + SourceFrom(glob, i, strict, loose) == out + text + SourceFrom(glob, next, strict, loose)
  {
  }

  /** The scanning loops emit the fragments of the glob's tokens. */
  lemma {:induction false} SourceOfTokens(glob: string, i: nat, strict: bool, loose: bool)
    requires i <= |glob|
    ensures SourceFrom(glob, i, strict, loose)
         == Emit(Body(Tokens(glob[i..], i == 0 || glob[i - 1] == '/', strict), loose))
    decreases |glob| - i
  {
    if i < |glob| {
      var g := glob[i..];
      var ts := Tokens(g, i == 0 || glob[i - 1] == '/', strict);
      var (text, next) := Step(glob, i, strict, loose);
      assert g[next - i..] == glob[next..];
      assert ts[1..] == Tokens(glob[next..], next == 0 || glob[next - 1] == '/', strict);
      assert Body(ts, loose)[1..] == Body(ts[1..], loose);
      assert text == SourceOf(FragmentOf(ts[0], loose));
      SourceOfTokens(glob, next, strict, loose);
    }
  }

  lemma SourceOfGlob(glob: string, strict: bool, loose: bool)
    ensures SourceFrom(glob, 0, strict, loose) == Emit(Body(Tokens(glob, true, strict), loose))
  {
    SourceOfTokens(glob, 0, strict, loose);
    assert glob[0..] == glob;
  }

  // ----- what each fragment matches -----

  lemma {:induction false} RepeatsNotSlash(s: string, i: nat, j: nat)
    requires i <= j <= |s|
    ensures Repeats(NotSlash, s, i, j) <==> '/' !in s[i..j]
    decreases j - i
  {
    if i < j {
      RepeatsNotSlash(s, i + 1, j);
      assert s[i..j] == [s[i]] + s[i + 1..j];
      if '/' !in s[i..j] {
        assert Matches(NotSlash, s, i, i + 1) && Repeats(NotSlash, s, i + 1, j);
      }
    }
  }

  lemma {:induction false} RepeatsAnyChar(s: string, i: nat, j: nat)
    requires i <= j <= |s|
    ensures Repeats(AnyChar, s, i, j) <==> OneLine(s[i..j])
    decreases j - i
  {
    if i < j {
      RepeatsAnyChar(s, i + 1, j);
      assert s[i..j] == [s[i]] + s[i + 1..j];
      if OneLine(s[i..j]) {
        assert !IsLineTerminator(s[i..j][0]);
        assert s[i + 1..j] == s[i..j][1..];
        assert Matches(AnyChar, s, i, i + 1) && Repeats(AnyChar, s, i + 1, j);
      }
    }
  }

  lemma PlusNotSlashMatches(s: string, i: nat, j: nat)
    requires i <= j <= |s|
    ensures Matches(Plus(NotSlash), s, i, j) <==> i < j && '/' !in s[i..j]
  {
    if i < j {
      RepeatsNotSlash(s, i, j);
      RepeatsNotSlash(s, i + 1, j);
      assert s[i..j] == [s[i]] + s[i + 1..j];
      if '/' !in s[i..j] {
        assert Matches(NotSlash, s, i, i + 1) && Repeats(NotSlash, s, i + 1, j);
      }
    }
  }

  const SEGMENT := Seq(Plus(NotSlash), Seq(Char('/'), Empty))

  lemma ThenSlash(r: Rx, s: string, i: nat, j: nat)
    requires i <= j <= |s|
    ensures Matches(Seq(r, Seq(Char('/'), Empty)), s, i, j) <==> i < j && s[j - 1] == '/' && Matches(r, s, i, j - 1)
  {
    if i < j && s[j - 1] == '/' && Matches(r, s, i, j - 1) {
      assert Matches(Char('/'), s, j - 1, j) && Matches(Empty, s, j, j);
      assert Matches(Seq(Char('/'), Empty), s, j - 1, j);
    }
    if Matches(Seq(r, Seq(Char('/'), Empty)), s, i, j) {
      var k := SplitSeq(r, Seq(Char('/'), Empty), s, i, j);
      var m := SplitSeq(Char('/'), Empty, s, k, j);
    }
  }

  lemma SegmentMatches(s: string, i: nat, j: nat)
    requires i <= j <= |s|
    ensures Matches(SEGMENT, s, i, j) <==> i < j - 1 && s[j - 1] == '/' && '/' !in s[i..j - 1]
  {
    ThenSlash(Plus(NotSlash), s, i, j);
    if i < j {
      PlusNotSlashMatches(s, i, j - 1);
    }
  }

  function FirstSlash(q: string): (k: nat)
    requires '/' in q
    ensures k < |q| && q[k] == '/'
    ensures forall m :: 0 <= m < k ==> q[m] != '/'
  {
    if q[0] == '/' then 0
    else
      assert q == [q[0]] + q[1..];
      FirstSlash(q[1..]) + 1
  }

  lemma CutAtSlash(s: string, i: nat, k: nat, j: nat)
    requires i < k <= j <= |s| && s[k - 1] == '/'
    ensures s[i..j] == s[i..k - 1] + ['/'] + s[k..j]
  {
    assert s[i..j] == s[i..k] + s[k..j];
    assert s[i..k] == s[i..k - 1] + [s[k - 1]];
  }

  lemma {:induction false} RepeatedSegmentsAre(s: string, i: nat, j: nat)
    requires i <= j <= |s| && Repeats(SEGMENT, s, i, j)
    ensures IsSegments(s[i..j])
    decreases j - i
  {
    if i < j {
      var k := SplitRepeats(SEGMENT, s, i, j);
      RepeatedSegmentsAre(s, k, j);
      SegmentMatches(s, i, k);
      CutAtSlash(s, i, k, j);
    }
  }

  lemma {:induction false} SegmentsAreRepeated(s: string, i: nat, j: nat)
    requires i <= j <= |s| && IsSegments(s[i..j])
    ensures Repeats(SEGMENT, s, i, j)
    decreases j - i
  {
    if i < j {
      var q := s[i..j];
      assert q[|q| - 1] in q;
      var n := FirstSlash(q);
      var k := i + n + 1;
      assert s[i..k - 1] == q[..n] && s[k..j] == q[n + 1..];
      SegmentMatches(s, i, k);
      SegmentsAreRepeated(s, k, j);
    }
  }

  lemma FragmentMatches(f: Fragment, s: string, i: nat, j: nat)
    requires i <= j <= |s|
    ensures f.RunOfChars? ==> (Matches(MeaningOf(f), s, i, j) <==> '/' !in s[i..j])
    ensures f.Anything? ==> (Matches(MeaningOf(f), s, i, j) <==> OneLine(s[i..j]))
    ensures f.WholeSegments? ==> (Matches(MeaningOf(f), s, i, j) <==> IsSegments(s[i..j]))
    ensures f.OptionalPath? ==> (Matches(MeaningOf(f), s, i, j) <==> IsLineUpToSlash(s[i..j]))
    ensures f.Placeholder? ==> (Matches(MeaningOf(f), s, i, j) <==> i < j && '/' !in s[i..j])
  {
    match f
    case RunOfChars => RepeatsNotSlash(s, i, j);
    case Anything => RepeatsAnyChar(s, i, j);
    case WholeSegments =>
      if Repeats(SEGMENT, s, i, j) {
        RepeatedSegmentsAre(s, i, j);
      }
      if IsSegments(s[i..j]) {
        SegmentsAreRepeated(s, i, j);
      }
    case OptionalPath =>
      ThenSlash(Star(AnyChar), s, i, j);
      if i < j {
        RepeatsAnyChar(s, i, j - 1);
        assert s[i..j][..j - i - 1] == s[i..j - 1];
      }
    case Placeholder => PlusNotSlashMatches(s, i, j);
    case _ =>
  }

  // ----- the emitted body matches what the glob means -----

  lemma {:induction false} BodyMatches(ts: seq<Token>, loose: bool, s: string, i: nat, j: nat)
    requires i <= j <= |s|
    ensures Matches(Denote(Body(ts, loose)), s, i, j) <==> Accepts(ts, s[i..j], loose)
    decreases |ts|, 1
  {
    if ts != [] {
      assert Body(ts, loose)[1..] == Body(ts[1..], loose);
      if ts[0].Lit? || ts[0].AnyOne? {
        OneCharacterBody(ts, loose, s, i, j);
      } else {
        if Matches(Denote(Body(ts, loose)), s, i, j) {
          StretchMatched(ts, loose, s, i, j);
        }
        if Accepts(ts, s[i..j], loose) {
          StretchAccepted(ts, loose, s, i, j);
        }
      }
    }
  }

  lemma {:induction false} OneCharacterBody(ts: seq<Token>, loose: bool, s: string, i: nat, j: nat)
    requires ts != [] && i <= j <= |s| && (ts[0].Lit? || ts[0].AnyOne?)
    ensures Matches(Seq(MeaningOf(FragmentOf(ts[0], loose)), Denote(Body(ts[1..], loose))), s, i, j)
       <==> Accepts(ts, s[i..j], loose)
    decreases |ts|, 0
  {
    var r, rest := MeaningOf(FragmentOf(ts[0], loose)), Denote(Body(ts[1..], loose));
    if i < j {
      BodyMatches(ts[1..], loose, s, i + 1, j);
      assert s[i..j][0] == s[i] && s[i..j][1..] == s[i + 1..j];
      if Matches(r, s, i, i + 1) && Matches(rest, s, i + 1, j) {
        JoinSeq(r, rest, s, i, i + 1, j);
      }
    }
    if Matches(Seq(r, rest), s, i, j) {
      var k := SplitSeq(r, rest, s, i, j);
    }
  }

  lemma {:induction false} StretchMatched(ts: seq<Token>, loose: bool, s: string, i: nat, j: nat)
    requires ts != [] && i <= j <= |s| && !ts[0].Lit? && !ts[0].AnyOne?
    requires Matches(Seq(MeaningOf(FragmentOf(ts[0], loose)), Denote(Body(ts[1..], loose))), s, i, j)
    ensures Accepts(ts, s[i..j], loose)
    decreases |ts|, 0
  {
    var k := SplitSeq(MeaningOf(FragmentOf(ts[0], loose)), Denote(Body(ts[1..], loose)), s, i, j);
    BodyMatches(ts[1..], loose, s, k, j);
    StretchMatches(ts[0], loose, s, i, k);
    assert s[i..j][..k - i] == s[i..k] && s[i..j][k - i..] == s[k..j];
    JoinAccepts(ts, s[i..j], k - i, loose);
  }

  lemma {:induction false} StretchAccepted(ts: seq<Token>, loose: bool, s: string, i: nat, j: nat)
    requires ts != [] && i <= j <= |s| && !ts[0].Lit? && !ts[0].AnyOne?
    requires Accepts(ts, s[i..j], loose)
    ensures Matches(Seq(MeaningOf(FragmentOf(ts[0], loose)), Denote(Body(ts[1..], loose))), s, i, j)
    decreases |ts|, 0
  {
    var n := SplitAccepts(ts, s[i..j], loose);
    var k := i + n;
    BodyMatches(ts[1..], loose, s, k, j);
    StretchMatches(ts[0], loose, s, i, k);
    assert s[i..j][..n] == s[i..k] && s[i..j][n..] == s[k..j];
    JoinSeq(MeaningOf(FragmentOf(ts[0], loose)), Denote(Body(ts[1..], loose)), s, i, k, j);
  }

  lemma StretchMatches(t: Token, loose: bool, s: string, i: nat, k: nat)
    requires i <= k <= |s| && !t.Lit? && !t.AnyOne?
    ensures Matches(MeaningOf(FragmentOf(t, loose)), s, i, k) <==> Stretch(t, s[i..k], loose)
  {
    FragmentMatches(FragmentOf(t, loose), s, i, k);
  }

  lemma JoinAccepts(ts: seq<Token>, p: string, n: nat, loose: bool)
    requires ts != [] && n <= |p| && Stretch(ts[0], p[..n], loose) && Accepts(ts[1..], p[n..], loose)
    ensures Accepts(ts, p, loose)
  {
  }

  lemma SplitAccepts(ts: seq<Token>, p: string, loose: bool) returns (n: nat)
    requires ts != [] && !ts[0].Lit? && !ts[0].AnyOne? && Accepts(ts, p, loose)
    ensures n <= |p| && Stretch(ts[0], p[..n], loose) && Accepts(ts[1..], p[n..], loose)
  {
    n :| n <= |p| && Stretch(ts[0], p[..n], loose) && Accepts(ts[1..], p[n..], loose);
  }

  lemma {:induction false} SplitDenote(a: seq<Fragment>, b: seq<Fragment>, s: string, i: nat, j: nat) returns (k: nat)
    requires i <= j <= |s| && Matches(Denote(a + b), s, i, j)
    ensures i <= k <= j && Matches(Denote(a), s, i, k) && Matches(Denote(b), s, k, j)
  {
    if a == [] {
      assert a + b == b;
      k := i;
    } else {
      assert (a + b)[1..] == a[1..] + b;
      var m := SplitSeq(MeaningOf(a[0]), Denote(a[1..] + b), s, i, j);
      k := SplitDenote(a[1..], b, s, m, j);
      JoinSeq(MeaningOf(a[0]), Denote(a[1..]), s, i, m, k);
    }
  }

  lemma {:induction false} JoinDenote(a: seq<Fragment>, b: seq<Fragment>, s: string, i: nat, k: nat, j: nat)
    requires i <= k <= j <= |s| && Matches(Denote(a), s, i, k) && Matches(Denote(b), s, k, j)
    ensures Matches(Denote(a + b), s, i, j)
  {
    if a == [] {
      assert a + b == b;
    } else {
      assert (a + b)[1..] == a[1..] + b;
      var m := SplitSeq(MeaningOf(a[0]), Denote(a[1..]), s, i, k);
      JoinDenote(a[1..], b, s, m, k, j);
      JoinSeq(MeaningOf(a[0]), Denote(a[1..] + b), s, i, m, j);
    }
  }

  lemma EndAnchored(fs: seq<Fragment>, p: string, i: nat, j: nat)
    requires i <= j <= |p|
    ensures Matches(Denote(fs + [EndAnchor]), p, i, j) <==> j == |p| && Matches(Denote(fs), p, i, j)
  {
    assert Denote([EndAnchor]) == Seq(End, Empty);
    if Matches(Denote(fs + [EndAnchor]), p, i, j) {
      var k := SplitDenote(fs, [EndAnchor], p, i, j);
      var m := SplitSeq(End, Empty, p, k, j);
    }
    if j == |p| && Matches(Denote(fs), p, i, j) {
      JoinSeq(End, Empty, p, j, j, j);
      JoinDenote(fs, [EndAnchor], p, i, j, j);
    }
  }

  lemma StartAnchored(fs: seq<Fragment>, p: string, i: nat, j: nat)
    requires i <= j <= |p|
    ensures Matches(Denote([StartAnchor] + fs), p, i, j) <==> i == 0 && Matches(Denote(fs), p, i, j)
  {
    assert ([StartAnchor] + fs)[1..] == fs;
    if Matches(Denote([StartAnchor] + fs), p, i, j) {
      var k := SplitSeq(Start, Denote(fs), p, i, j);
    }
    if i == 0 && Matches(Denote(fs), p, i, j) {
      JoinSeq(Start, Denote(fs), p, 0, 0, j);
    }
  }

  function Anchored(body: seq<Fragment>): seq<Fragment> {
    [StartAnchor] + (body + [EndAnchor])
  }

  lemma AnchoredMatches(body: seq<Fragment>, p: string)
    ensures Test(Denote(Anchored(body)), p) <==> Matches(Denote(body), p, 0, |p|)
  {
    forall i: nat, j: nat | i <= j <= |p|
      ensures Matches(Denote(Anchored(body)), p, i, j) <==> i == 0 && j == |p| && Matches(Denote(body), p, 0, |p|)
    {
      StartAnchored(body + [EndAnchor], p, i, j);
      EndAnchored(body, p, i, j);
    }
    if Matches(Denote(body), p, 0, |p|) {
      assert Matches(Denote(Anchored(body)), p, 0, |p|);
    }
  }

  /** `^body$` accepts exactly the paths the glob means. */
  lemma AnchoredMeaning(ts: seq<Token>, loose: bool, p: string)
    ensures Test(Denote(Anchored(Body(ts, loose))), p) <==> Accepts(ts, p, loose)
  {
    AnchoredMatches(Body(ts, loose), p);
    BodyMatches(ts, loose, p, 0, |p|);
    assert p[0..|p|] == p;
  }

  /** `new RegExp("^" + body + "$")` never throws. */
  lemma AnchoredSource(body: seq<Fragment>)
    ensures Parse("^" + Emit(body) + "$") == Some(Denote(Anchored(body)))
  {
    ParseEmitted(Anchored(body));
    EmitConcat(body, [EndAnchor]);
    assert Emit([EndAnchor]) == "$";
    assert Anchored(body)[1..] == body + [EndAnchor];
    assert "^" + Emit(body) + "$" == "^" + (Emit(body) + "$");
  }
}
