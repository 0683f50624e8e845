/**
 The textbook meaning of a glob, segment against segment, for globs in which `**` only occurs as a
 whole segment; and the proof that the character-level meaning agrees with it on canonical paths.
 */
module GlobSegments {
  import opened Text
  import opened Glob

  /** A relative path as the tree walks build it: nonempty segments on one line. */
  predicate IsSegment(s: string) {
    s != "" && '/' !in s && OneLine(s)
  }

  predicate CanonicalPath(p: string) {
    forall i :: 0 <= i < |Split(p, '/')| ==> IsSegment(Split(p, '/')[i])
  }

  predicate HasDoubleStar(s: string) {
    exists k :: 0 <= k < |s| - 1 && s[k] == '*' && s[k + 1] == '*'
  }

  predicate WholeDoubleStars(pats: seq<string>) {
    forall i :: 0 <= i < |pats| ==> HasDoubleStar(pats[i]) ==> pats[i] == "**"
  }

  /** Wildcards within one segment. */
  predicate SegmentAccepts(pat: string, seg: string)
    decreases |pat|
  {
    if pat == "" then seg == ""
    else if pat[0] == '*' then exists k :: 0 <= k <= |seg| && SegmentAccepts(pat[1..], seg[k..])
    else seg != "" && (pat[0] == '?' || pat[0] == seg[0]) && SegmentAccepts(pat[1..], seg[1..])
  }

  /** `**` stands for zero or more segments, and for one or more at the very end. */
  predicate PathAccepts(pats: seq<string>, segs: seq<string>)
    decreases |pats|, |segs|
  {
    if pats == [] then segs == []
    else if pats == ["**"] then segs != []
    else if pats[0] == "**" then
      PathAccepts(pats[1..], segs) || (segs != [] && PathAccepts(pats, segs[1..]))
    else segs != [] && SegmentAccepts(pats[0], segs[0]) && PathAccepts(pats[1..], segs[1..])
  }

  function SegmentTokens(pat: string): seq<Token> {
    if pat == "" then []
    else [if pat[0] == '*' then AnyRun else if pat[0] == '?' then AnyOne else Lit(pat[0])] + SegmentTokens(pat[1..])
  }

  lemma {:induction false} TokensOfSegment(pat: string, after: string, b: bool, strict: bool)
    requires '/' !in pat && !HasDoubleStar(pat)
    requires after == "" || after[0] == '/'
    ensures Tokens(pat + after, b, strict)
         == SegmentTokens(pat) + (if after == "" then [] else [Lit('/')] + Tokens(after[1..], true, strict))
    decreases |pat|
  {
    var g := pat + after;
    if pat == "" {
      assert g == after;
    } else {
      assert g[1..] == pat[1..] + after;
      if |g| >= 2 && |pat| >= 2 {
        assert !(pat[0] == '*' && pat[0 + 1] == '*');
      }
      assert pat[0] in pat;
      assert !HasDoubleStar(pat[1..]) by {
        forall k | 0 <= k < |pat[1..]| - 1
          ensures !(pat[1..][k] == '*' && pat[1..][k + 1] == '*')
        {
          assert pat[1..][k] == pat[k + 1] && pat[1..][k + 1] == pat[k + 1 + 1];
        }
      }
      TokensOfSegment(pat[1..], after, false, strict);
    }
  }

  lemma {:induction false} SegmentMeaning(pat: string, seg: string)
    requires '/' !in seg
    ensures Accepts(SegmentTokens(pat), seg) <==> SegmentAccepts(pat, seg)
    decreases |pat|
  {
    if pat != "" {
      var ts := SegmentTokens(pat);
      assert ts[1..] == SegmentTokens(pat[1..]);
      if pat[0] == '*' {
        forall k | 0 <= k <= |seg|
          ensures Accepts(ts[1..], seg[k..]) <==> SegmentAccepts(pat[1..], seg[k..])
        {
          SegmentMeaning(pat[1..], seg[k..]);
        }
        if k :| 0 <= k <= |seg| && SegmentAccepts(pat[1..], seg[k..]) {
          JoinAccepts(ts, seg, k, false);
        }
        if Accepts(ts, seg) {
          var k := SplitAccepts(ts, seg, false);
        }
      } else if seg != "" {
        SegmentMeaning(pat[1..], seg[1..]);
        assert seg[0] in seg;
      }
    }
  }

  lemma SplitSegment(pat: string, seg: string) returns (k: nat)
    requires pat != "" && pat[0] == '*' && SegmentAccepts(pat, seg)
    ensures k <= |seg| && SegmentAccepts(pat[1..], seg[k..])
  {
    k :| 0 <= k <= |seg| && SegmentAccepts(pat[1..], seg[k..]);
  }

  /** Segment wildcards stop before the first slash. */
  lemma {:induction false} SegmentThenSlash(pat: string, ts: seq<Token>, head: string, tail: string)
    requires '/' !in pat && '/' !in head
    ensures Accepts(SegmentTokens(pat) + [Lit('/')] + ts, head + ['/'] + tail)
       <==> SegmentAccepts(pat, head) && Accepts(ts, tail)
    decreases |pat|
  {
    var us, p := SegmentTokens(pat) + [Lit('/')] + ts, head + ['/'] + tail;
    if pat == "" {
      assert us == [Lit('/')] + ts && us[1..] == ts;
      assert head == "" ==> p[1..] == tail;
    } else {
      assert us[1..] == SegmentTokens(pat[1..]) + [Lit('/')] + ts;
      assert pat[0] in pat;
      if pat[0] == '*' {
        RunThenSlash(pat, us, ts, head, tail);
      } else if head != "" {
        SegmentThenSlash(pat[1..], ts, head[1..], tail);
        assert head[0] in head;
        assert p[1..] == head[1..] + ['/'] + tail;
      }
    }
  }

  lemma {:induction false} RunThenSlash(pat: string, us: seq<Token>, ts: seq<Token>, head: string, tail: string)
    requires '/' !in pat && '/' !in head && pat != "" && pat[0] == '*'
    requires us == SegmentTokens(pat) + [Lit('/')] + ts && us[1..] == SegmentTokens(pat[1..]) + [Lit('/')] + ts
    ensures Accepts(us, head + ['/'] + tail) <==> SegmentAccepts(pat, head) && Accepts(ts, tail)
    decreases |pat|, 0
  {
    var p := head + ['/'] + tail;
    if Accepts(us, p) {
      var k := SplitAccepts(us, p, false);
      assert p[|head|] == '/';
      assert p[k..] == head[k..] + ['/'] + tail;
      SegmentThenSlash(pat[1..], ts, head[k..], tail);
    }
    if SegmentAccepts(pat, head) && Accepts(ts, tail) {
      var k := SplitSegment(pat, head);
      assert p[..k] == head[..k] && p[k..] == head[k..] + ['/'] + tail;
      SegmentThenSlash(pat[1..], ts, head[k..], tail);
      JoinAccepts(us, p, k, false);
    }
  }

  lemma {:induction false} NoSlashToMatch(pat: string, ts: seq<Token>, p: string)
    requires '/' !in p
    ensures !Accepts(SegmentTokens(pat) + [Lit('/')] + ts, p)
    decreases |pat|
  {
    var us := SegmentTokens(pat) + [Lit('/')] + ts;
    if pat == "" {
      assert us == [Lit('/')] + ts;
    } else {
      assert us[1..] == SegmentTokens(pat[1..]) + [Lit('/')] + ts;
      if pat[0] == '*' {
        forall k: nat | k <= |p|
          ensures !Accepts(us[1..], p[k..])
        {
          NoSlashToMatch(pat[1..], ts, p[k..]);
        }
      } else if p != "" {
        NoSlashToMatch(pat[1..], ts, p[1..]);
      }
    }
  }

  lemma CanonicalJoin(segs: seq<string>)
    requires |segs| > 0 && forall i :: 0 <= i < |segs| ==> IsSegment(segs[i])
    ensures Join(segs, '/') != "" && Join(segs, '/')[0] != '/' && OneLine(Join(segs, '/'))
    ensures |segs| == 1 ==> Join(segs, '/') == segs[0]
    ensures |segs| > 1 ==> Join(segs, '/') == segs[0] + ['/'] + Join(segs[1..], '/')
  {
    assert segs[0][0] in segs[0];
    if |segs| > 1 {
      CanonicalJoin(segs[1..]);
      OneLineConcat(segs[0] + ['/'], Join(segs[1..], '/'));
      OneLineConcat(segs[0], ['/']);
    }
  }

  /** `**` followed by a slash either stands for nothing or swallows the first segment. */
  lemma DoubleStarStep(ts: seq<Token>, head: string, tail: string)
    requires IsSegment(head) && tail != "" && tail[0] != '/'
    requires ts != [] && ts[0] == Segments
    ensures Accepts(ts, head + ['/'] + tail) <==> Accepts(ts[1..], head + ['/'] + tail) || Accepts(ts, tail)
  {
    var p := head + ['/'] + tail;
    if Accepts(ts, p) {
      DoubleStarSplit(ts, head, tail);
    }
    if Accepts(ts[1..], p) {
      assert p[..0] == "" && p[0..] == p;
      JoinAccepts(ts, p, 0, false);
    }
    if Accepts(ts, tail) {
      DoubleStarSwallows(ts, head, tail);
    }
  }

  lemma DoubleStarSplit(ts: seq<Token>, head: string, tail: string)
    requires IsSegment(head) && ts != [] && ts[0] == Segments && Accepts(ts, head + ['/'] + tail)
    ensures Accepts(ts[1..], head + ['/'] + tail) || Accepts(ts, tail)
  {
    var p := head + ['/'] + tail;
    var k := SplitAccepts(ts, p, false);
    if k == 0 {
      assert p[0..] == p;
    } else {
      SwallowFirst(head, tail, k);
      assert p[k..] == tail[k - |head| - 1..];
      JoinAccepts(ts, tail, k - |head| - 1, false);
    }
  }

  lemma DoubleStarSwallows(ts: seq<Token>, head: string, tail: string)
    requires IsSegment(head) && ts != [] && ts[0] == Segments && Accepts(ts, tail)
    ensures Accepts(ts, head + ['/'] + tail)
  {
    var p := head + ['/'] + tail;
    var k := SplitAccepts(ts, tail, false);
    var n := |head| + 1 + k;
    assert p[..n] == head + ['/'] + tail[..k] && p[n..] == tail[k..];
    JoinAccepts(ts, p, n, false);
  }

  lemma SwallowFirst(head: string, tail: string, k: nat)
    requires IsSegment(head) && 0 < k <= |head| + 1 + |tail|
    requires IsSegments((head + ['/'] + tail)[..k])
    ensures k > |head| && IsSegments(tail[..k - |head| - 1])
  {
    var p := head + ['/'] + tail;
    assert p[..k][k - 1] == p[k - 1];
    assert forall m :: 0 <= m < |head| ==> p[m] == head[m];
    assert p[..k][|head|] == '/';
    assert p[..k][|head| + 1..] == tail[..k - |head| - 1];
  }

  lemma SingleSegmentStep(ts: seq<Token>, p: string)
    requires IsSegment(p) && ts != [] && ts[0] == Segments
    ensures Accepts(ts, p) <==> Accepts(ts[1..], p)
  {
    if Accepts(ts, p) {
      var k := SplitAccepts(ts, p, false);
      assert forall c :: c in p[..k] ==> c in p;
      assert p[0..] == p;
    }
    if Accepts(ts[1..], p) {
      assert p[..0] == "" && p[0..] == p;
      JoinAccepts(ts, p, 0, false);
    }
  }

  /** On canonical paths the compiled meaning of a glob is the segment-by-segment one. */
  lemma {:induction false} GlobIsSegmentwise(pats: seq<string>, segs: seq<string>, strict: bool)
    requires |pats| > 0 && |segs| > 0 && WholeDoubleStars(pats)
    requires forall i :: 0 <= i < |pats| ==> '/' !in pats[i]
    requires forall i :: 0 <= i < |segs| ==> IsSegment(segs[i])
    ensures Accepts(Tokens(Join(pats, '/'), true, strict), Join(segs, '/')) <==> PathAccepts(pats, segs)
    decreases |pats|, |segs|, 1
  {
    if |pats| == 1 {
      if pats[0] == "**" {
        CanonicalJoin(segs);
        LastDoubleStar(Join(segs, '/'), strict);
      } else {
        LastSegment(pats[0], segs, strict);
        assert PathAccepts(pats[1..], segs[1..]) <==> |segs| == 1;
      }
    } else if pats[0] == "**" {
      LeadingDoubleStar(pats, segs, strict);
    } else {
      LeadingSegment(pats, segs, strict);
    }
  }

  lemma {:induction false} LeadingDoubleStar(pats: seq<string>, segs: seq<string>, strict: bool)
    requires |pats| > 1 && |segs| > 0 && WholeDoubleStars(pats) && pats[0] == "**"
    requires forall i :: 0 <= i < |pats| ==> '/' !in pats[i]
    requires forall i :: 0 <= i < |segs| ==> IsSegment(segs[i])
    ensures Accepts(Tokens(Join(pats, '/'), true, strict), Join(segs, '/')) <==> PathAccepts(pats, segs)
    decreases |pats|, |segs|, 0
  {
    var g := Join(pats, '/');
    assert g[3..] == Join(pats[1..], '/');
    var ts := Tokens(g, true, strict);
    assert ts[1..] == Tokens(Join(pats[1..], '/'), true, strict);
    GlobIsSegmentwise(pats[1..], segs, strict);
    CanonicalJoin(segs);
    if |segs| > 1 {
      CanonicalJoin(segs[1..]);
      DoubleStarStep(ts, segs[0], Join(segs[1..], '/'));
      GlobIsSegmentwise(pats, segs[1..], strict);
    } else {
      SingleSegmentStep(ts, segs[0]);
      NothingLeft(pats);
      assert segs[1..] == [];
    }
  }

  lemma {:induction false} LeadingSegment(pats: seq<string>, segs: seq<string>, strict: bool)
    requires |pats| > 1 && |segs| > 0 && WholeDoubleStars(pats) && pats[0] != "**"
    requires forall i :: 0 <= i < |pats| ==> '/' !in pats[i]
    requires forall i :: 0 <= i < |segs| ==> IsSegment(segs[i])
    ensures Accepts(Tokens(Join(pats, '/'), true, strict), Join(segs, '/')) <==> PathAccepts(pats, segs)
    decreases |pats|, |segs|, 0
  {
    var rest := Join(pats[1..], '/');
    TokensOfSegment(pats[0], ['/'] + rest, true, strict);
    assert Join(pats, '/') == pats[0] + (['/'] + rest) && (['/'] + rest)[1..] == rest;
    var ts := Tokens(rest, true, strict);
    var us := SegmentTokens(pats[0]) + [Lit('/')] + ts;
    assert Tokens(Join(pats, '/'), true, strict) == us;
    CanonicalJoin(segs);
    if |segs| > 1 {
      SegmentThenSlash(pats[0], ts, segs[0], Join(segs[1..], '/'));
      GlobIsSegmentwise(pats[1..], segs[1..], strict);
    } else {
      NoSlashToMatch(pats[0], ts, segs[0]);
      NothingLeft(pats[1..]);
      assert segs[1..] == [];
    }
  }

  lemma LastDoubleStar(p: string, strict: bool)
    requires OneLine(p)
    ensures Accepts(Tokens("**", true, strict), p)
  {
    var ts := Tokens("**", true, strict);
    assert "**"[2..] == "";
    assert ts == [AnyPath];
    assert p[..|p|] == p;
    JoinAccepts(ts, p, |p|, false);
  }

  lemma LastSegment(pat: string, segs: seq<string>, strict: bool)
    requires '/' !in pat && !HasDoubleStar(pat)
    requires |segs| > 0 && forall i :: 0 <= i < |segs| ==> IsSegment(segs[i])
    ensures Accepts(Tokens(pat, true, strict), Join(segs, '/')) <==> |segs| == 1 && SegmentAccepts(pat, segs[0])
  {
    assert pat + "" == pat;
    TokensOfSegment(pat, "", true, strict);
    CanonicalJoin(segs);
    var p := Join(segs, '/');
    assert Tokens(pat, true, strict) == SegmentTokens(pat);
    if |segs| == 1 {
      SegmentMeaning(pat, p);
    } else {
      assert p[|segs[0]|] == '/';
      NoSlashAccepted(pat, p);
    }
  }

  lemma {:induction false} NoSlashAccepted(pat: string, p: string)
    requires '/' !in pat && '/' in p
    ensures !Accepts(SegmentTokens(pat), p)
    decreases |pat|
  {
    if pat != "" {
      var ts := SegmentTokens(pat);
      assert ts[1..] == SegmentTokens(pat[1..]);
      assert pat[0] in pat;
      if Accepts(ts, p) {
        if pat[0] == '*' {
          var k := SplitAccepts(ts, p, false);
          assert p == p[..k] + p[k..];
          NoSlashAccepted(pat[1..], p[k..]);
        } else {
          assert p == [p[0]] + p[1..];
          NoSlashAccepted(pat[1..], p[1..]);
        }
      }
    }
  }

  lemma {:induction false} NothingLeft(pats: seq<string>)
    requires |pats| > 0
    ensures !PathAccepts(pats, [])
  {
    if |pats| > 1 && pats[0] == "**" {
      NothingLeft(pats[1..]);
    }
  }
}
