/** When the Astro, Waku and Next.js readings of one glob accept the same paths. */
module GlobAgreement {
  import opened Text
  import opened Glob
  import opened GlobSegments

  /** Every `**` that is followed by a slash starts a segment (runs of stars read in pairs). */
  predicate DoubleStarsStartSegments(g: string, boundary: bool := true) {
    if g == "" then true
    else if |g| >= 2 && g[0] == '*' && g[1] == '*' then
      if |g| >= 3 && g[2] == '/' then boundary && DoubleStarsStartSegments(g[3..], true)
      else DoubleStarsStartSegments(g[2..], false)
    else DoubleStarsStartSegments(g[1..], g[0] == '/')
  }

  lemma {:induction false} SameTokens(g: string, boundary: bool)
    requires DoubleStarsStartSegments(g, boundary)
    ensures Tokens(g, boundary, true) == Tokens(g, boundary, false)
    decreases |g|
  {
    if g == "" {
    } else if |g| >= 2 && g[0] == '*' && g[1] == '*' {
      if |g| >= 3 && g[2] == '/' {
        SameTokens(g[3..], true);
      } else {
        SameTokens(g[2..], false);
      }
    } else {
      SameTokens(g[1..], g[0] == '/');
    }
  }

  function Slashes(p: string): nat {
    if p == "" then 0 else (if p[0] == '/' then 1 else 0) + Slashes(p[1..])
  }

  function LiteralSlashes(ts: seq<Token>): nat {
    if ts == [] then 0 else (if ts[0] == Lit('/') then 1 else 0) + LiteralSlashes(ts[1..])
  }

  lemma {:induction false} SlashesOfSuffix(p: string, k: nat)
    requires k <= |p|
    ensures Slashes(p[k..]) <= Slashes(p)
  {
    if k > 0 {
      assert p[k..] == p[1..][k - 1..];
      SlashesOfSuffix(p[1..], k - 1);
    } else {
      assert p[0..] == p;
    }
  }

  lemma {:induction false} LiteralSlashesAreNeeded(ts: seq<Token>, p: string)
    requires Accepts(ts, p)
    ensures Slashes(p) >= LiteralSlashes(ts)
    decreases |ts|
  {
    if ts != [] {
      if ts[0].Lit? || ts[0].AnyOne? {
        LiteralSlashesAreNeeded(ts[1..], p[1..]);
      } else {
        var k := SplitAccepts(ts, p, false);
        LiteralSlashesAreNeeded(ts[1..], p[k..]);
        SlashesOfSuffix(p, k);
      }
    }
  }

  /** A path with no more slashes than the tokens spell out. */
  function Sparse(ts: seq<Token>): string {
    if ts == [] then ""
    else (if ts[0].Lit? then [ts[0].c] else if ts[0].AnyOne? || ts[0].AnyName? then "a" else "") + Sparse(ts[1..])
  }

  lemma {:induction false} SparseIsAccepted(ts: seq<Token>)
    ensures Accepts(ts, Sparse(ts)) && Slashes(Sparse(ts)) == LiteralSlashes(ts)
  {
    if ts != [] {
      SparseIsAccepted(ts[1..]);
      var p := Sparse(ts);
      if ts[0].Lit? || ts[0].AnyOne? {
        assert p[1..] == Sparse(ts[1..]);
      } else if ts[0].AnyName? {
        assert p[..1] == "a" && p[1..] == Sparse(ts[1..]);
        JoinAccepts(ts, p, 1, false);
      } else {
        assert p[..0] == "" && p[0..] == p == Sparse(ts[1..]);
        JoinAccepts(ts, p, 0, false);
      }
    }
  }

  lemma {:induction false} StrictSpellsMoreSlashes(g: string, boundary: bool)
    ensures LiteralSlashes(Tokens(g, boundary, true)) >= LiteralSlashes(Tokens(g, boundary, false))
    ensures !DoubleStarsStartSegments(g, boundary) ==>
      LiteralSlashes(Tokens(g, boundary, true)) > LiteralSlashes(Tokens(g, boundary, false))
    decreases |g|
  {
    if g == "" {
    } else if |g| >= 2 && g[0] == '*' && g[1] == '*' {
      if |g| >= 3 && g[2] == '/' {
        StrictSpellsMoreSlashes(g[3..], true);
        if !boundary {
          assert g[2..][1..] == g[3..];
          assert Tokens(g, boundary, true) == [AnyPath] + Tokens(g[2..], false, true);
          assert Tokens(g[2..], false, true) == [Lit('/')] + Tokens(g[3..], true, true);
        }
      } else {
        StrictSpellsMoreSlashes(g[2..], false);
      }
    } else {
      StrictSpellsMoreSlashes(g[1..], g[0] == '/');
    }
  }

  /** Astro and Waku read a glob alike exactly when every `**` followed by a slash starts a segment. */
  lemma AstroAgreesWithWaku(glob: string)
    ensures DoubleStarsStartSegments(glob)
       <==> forall p :: Accepts(Tokens(glob, true, true), p) <==> Accepts(Tokens(glob, true, false), p)
  {
    var astro, waku := Tokens(glob, true, true), Tokens(glob, true, false);
    if DoubleStarsStartSegments(glob) {
      SameTokens(glob, true);
    } else {
      var p := Sparse(waku);
      SparseIsAccepted(waku);
      StrictSpellsMoreSlashes(glob, true);
      if Accepts(astro, p) {
        LiteralSlashesAreNeeded(astro, p);
      }
      assert Accepts(Tokens(glob, true, false), p) && !Accepts(Tokens(glob, true, true), p);
    }
  }

  // ----- Next.js -----

  predicate SegmentsAtBoundaries(ts: seq<Token>, boundary: bool) {
    ts != [] ==>
      && (ts[0] == Segments ==> boundary)
      && SegmentsAtBoundaries(ts[1..], ts[0] == Lit('/') || ts[0] == Segments)
  }

  lemma {:induction false} BoundariesOfTokens(g: string, boundary: bool)
    requires DoubleStarsStartSegments(g, boundary)
    ensures SegmentsAtBoundaries(Tokens(g, boundary, false), boundary)
    decreases |g|
  {
    if g == "" {
    } else if |g| >= 2 && g[0] == '*' && g[1] == '*' {
      if |g| >= 3 && g[2] == '/' {
        BoundariesOfTokens(g[3..], true);
      } else {
        BoundariesOfTokens(g[2..], false);
      }
    } else {
      BoundariesOfTokens(g[1..], g[0] == '/');
      if g[0] != '/' {
        assert Tokens(g, boundary, false)[0] != Lit('/') && Tokens(g, boundary, false)[0] != Segments;
      }
    }
  }

  /** What is left of a canonical path after a prefix that ends at a boundary (or does not). */
  predicate CanonicalRest(p: string, boundary: bool) {
    OneLine(p) && NoDoubleSlash(p) && (boundary ==> p == "" || p[0] != '/')
  }

  /** On canonical text both renderings of a `**` segment stand for the same prefixes. */
  lemma SamePrefixes(p: string, k: nat)
    requires CanonicalRest(p, true) && k <= |p|
    ensures IsSegments(p[..k]) <==> IsLineUpToSlash(p[..k])
  {
    var q := p[..k];
    assert OneLine(q) && (k > 0 ==> OneLine(q[..k - 1]));
    forall m | 0 <= m < |q| - 1
      ensures !(q[m] == '/' && q[m + 1] == '/')
    {
      assert q[m] == p[m] && q[m + 1] == p[m + 1];
    }
  }

  lemma {:induction false} NextReadsAlike(ts: seq<Token>, p: string, boundary: bool)
    requires SegmentsAtBoundaries(ts, boundary) && CanonicalRest(p, boundary)
    ensures Accepts(ts, p, true) <==> Accepts(ts, p, false)
    decreases |ts|
  {
    if ts == [] {
    } else if ts[0].Lit? || ts[0].AnyOne? {
      if p != "" && (ts[0].Lit? ==> p[0] == ts[0].c) {
        NextReadsAlike(ts[1..], p[1..], ts[0] == Lit('/'));
      }
    } else {
      forall k: nat | k <= |p| && (ts[0] == Segments ==> IsSegments(p[..k]))
        ensures Accepts(ts[1..], p[k..], true) <==> Accepts(ts[1..], p[k..], false)
      {
        assert p[0..] == p;
        assert k > 0 && ts[0] == Segments ==> p[..k][k - 1] == p[k - 1];
        NextReadsAlike(ts[1..], p[k..], ts[0] == Segments);
      }
    }
  }

  lemma CanonicalPathIsCanonicalRest(p: string)
    requires CanonicalPath(p)
    ensures CanonicalRest(p, true)
  {
    JoinOfSplit(p, '/');
    SplitPartsHaveNoSeparator(p, '/');
    CanonicalSegments(Split(p, '/'));
  }

  lemma {:induction false} CanonicalSegments(segs: seq<string>)
    requires |segs| > 0 && forall i :: 0 <= i < |segs| ==> IsSegment(segs[i])
    ensures CanonicalRest(Join(segs, '/'), true)
  {
    CanonicalJoin(segs);
    var head := segs[0];
    if |segs| > 1 {
      CanonicalSegments(segs[1..]);
      var tail := Join(segs[1..], '/');
      var p := Join(segs, '/');
      forall k | 0 <= k < |p| - 1
        ensures !(p[k] == '/' && p[k + 1] == '/')
      {
        if k < |head| {
          assert p[k] == head[k] && head[k] in head;
        } else if k > |head| {
          assert p[k] == tail[k - |head| - 1] && p[k + 1] == tail[k - |head|];
        } else {
          assert p[k + 1] == tail[0];
        }
      }
    } else {
      assert forall k :: 0 <= k < |head| ==> head[k] in head;
    }
  }

  /** All three compilers accept the same canonical paths when every such `**` starts a segment. */
  lemma AllThreeAgree(glob: string, p: string)
    requires DoubleStarsStartSegments(glob) && CanonicalPath(p)
    ensures Accepts(Tokens(glob, true, true), p) == Accepts(Tokens(glob, true, false), p)
         == Accepts(Tokens(glob, true, false), p, true)
  {
    SameTokens(glob, true);
    BoundariesOfTokens(glob, true);
    CanonicalPathIsCanonicalRest(p);
    NextReadsAlike(Tokens(glob, true, false), p, true);
  }

  lemma TokensOfExample(strict: bool)
    ensures Tokens("a**/b", true, strict)
         == [Lit('a')] + (if strict then [AnyPath, Lit('/'), Lit('b')] else [Segments, Lit('b')])
  {
    var g := "a**/b";
    assert g[1..] == "**/b" && "**/b"[2..] == "/b" && "**/b"[3..] == "b";
    assert "/b"[1..] == "b" && "b"[1..] == "";
    assert Tokens("b", true, strict) == [Lit('b')];
    assert Tokens("/b", false, strict) == [Lit('/')] + [Lit('b')];
  }

  lemma AstroAcceptsExample(all: seq<Token>, p: string)
    requires all == [Lit('a')] + [AnyPath, Lit('/'), Lit('b')] && p == "a/b"
    ensures Accepts(all, p)
  {
    var ts := [AnyPath, Lit('/'), Lit('b')];
    assert all[1..] == ts && ts[1..] == [Lit('/'), Lit('b')];
    assert [Lit('/'), Lit('b')][1..] == [Lit('b')] && [Lit('b')][1..] == [];
    assert p[1..] == "/b" && "/b"[1..] == "b" && "b"[1..] == "" && "/b"[0..] == "/b";
    JoinAccepts(ts, "/b", 0, false);
  }

  lemma NextAcceptsExample(all: seq<Token>, p: string)
    requires all == [Lit('a')] + [Segments, Lit('b')] && p == "a/b"
    ensures Accepts(all, p, true)
  {
    var ts := [Segments, Lit('b')];
    assert all[1..] == ts && ts[1..] == [Lit('b')] && [Lit('b')][1..] == [];
    assert p[1..] == "/b" && "/b"[1..] == "b" && "b"[1..] == "" && "/b"[..1] == "/";
    assert Accepts([Lit('b')], "b", true);
    JoinAccepts(ts, "/b", 1, true);
  }

  lemma WakuRejectsExample(all: seq<Token>, p: string)
    requires all == [Lit('a')] + [Segments, Lit('b')] && p == "a/b"
    ensures !Accepts(all, p)
  {
    var ts := [Segments, Lit('b')];
    assert all[1..] == ts && ts[1..] == [Lit('b')];
    assert p[1..] == "/b" && "/b"[0..] == "/b";
    assert !Accepts([Lit('b')], "/b");
    if Accepts(ts, "/b") {
      var k := SplitAccepts(ts, "/b", false);
    }
  }

  /** Off a boundary the three differ even on canonical paths. */
  lemma TheyDisagreeElsewhere(glob: string, p: string)
    requires glob == "a**/b" && p == "a/b"
    ensures CanonicalPath(p)
    ensures Accepts(Tokens(glob, true, true), p)
    ensures !Accepts(Tokens(glob, true, false), p)
    ensures Accepts(Tokens(glob, true, false), p, true)
  {
    TokensOfExample(true);
    TokensOfExample(false);
    AstroAcceptsExample(Tokens(glob, true, true), p);
    NextAcceptsExample(Tokens(glob, true, false), p);
    WakuRejectsExample(Tokens(glob, true, false), p);
  }
}
