/** POSIX path functions of `node:path`, on strings; what a path denotes is a list of segments. */
module Paths {
  import opened Text

  /** One step of path normalisation: empty and `.` vanish, `..` goes up. */
  function Push(stack: seq<string>, seg: string, aboveRoot: bool): seq<string> {
    if seg == "" || seg == "." then stack
    else if seg == ".." then
      if stack != [] && stack[|stack| - 1] != ".." then stack[..|stack| - 1]
      else if aboveRoot then stack + [".."] else stack
    else stack + [seg]
  }

  function PushAll(stack: seq<string>, segs: seq<string>, aboveRoot: bool): seq<string>
    decreases |segs|
  {
    if segs == [] then stack else PushAll(Push(stack, segs[0], aboveRoot), segs[1..], aboveRoot)
  }

  predicate IsAbsolute(p: string) {
    p != "" && p[0] == '/'
  }

  /** The segments of an absolute path. */
  function SegmentsOf(p: string): seq<string> {
    PushAll([], Split(p, '/'), false)
  }

  function AbsolutePath(segs: seq<string>): string {
    "/" + Join(segs, '/')
  }

  function ResolveSegments(base: seq<string>, p: string): seq<string> {
    if IsAbsolute(p) then SegmentsOf(p) else PushAll(base, Split(p, '/'), false)
  }

  /** `path.resolve(root, p)` for an absolute `root`. */
  function Resolve(root: string, p: string): string {
    AbsolutePath(ResolveSegments(SegmentsOf(root), p))
  }

  function CommonPrefix(a: seq<string>, b: seq<string>): (k: nat)
    ensures k <= |a| && k <= |b| && a[..k] == b[..k]
  {
    if a == [] || b == [] || a[0] != b[0] then 0
    else
      var k := CommonPrefix(a[1..], b[1..]);
      assert a[..k + 1] == [a[0]] + a[1..][..k] && b[..k + 1] == [b[0]] + b[1..][..k];
      k + 1
  }

  function Ups(n: nat): (r: seq<string>)
    ensures |r| == n && forall i :: 0 <= i < n ==> r[i] == ".."
  {
    if n == 0 then [] else [".."] + Ups(n - 1)
  }

  function RelativeSegments(from: seq<string>, to: seq<string>): seq<string> {
    var k := CommonPrefix(from, to);
    Ups(|from| - k) + to[k..]
  }

  /** `path.relative(from, to)` for absolute paths. */
  function Relative(from: string, to: string): string {
    Join(RelativeSegments(SegmentsOf(from), SegmentsOf(to)), '/')
  }

  /** `path.normalize(p)`. */
  function Normalize(p: string): string {
    if p == "" then "."
    else
      var body := Join(PushAll([], Split(p, '/'), !IsAbsolute(p)), '/');
      var trailing := if p[|p| - 1] == '/' then "/" else "";
      if IsAbsolute(p) then (if body == "" then "/" else "/" + body + trailing)
      else (if body == "" then "." else body) + trailing
  }

  function Dirname(segs: seq<string>): seq<string>
    requires segs != []
  {
    segs[..|segs| - 1]
  }

  // ----- clean segments -----

  predicate IsClean(seg: string) {
    seg != "" && seg != "." && seg != ".." && '/' !in seg
  }

  predicate Clean(segs: seq<string>) {
    forall i :: 0 <= i < |segs| ==> IsClean(segs[i])
  }

  lemma {:induction false} PushAllConcat(stack: seq<string>, a: seq<string>, b: seq<string>, aboveRoot: bool)
    ensures PushAll(stack, a + b, aboveRoot) == PushAll(PushAll(stack, a, aboveRoot), b, aboveRoot)
    decreases |a|
  {
    if a == [] {
      assert a + b == b;
    } else {
      assert (a + b)[1..] == a[1..] + b;
      PushAllConcat(Push(stack, a[0], aboveRoot), a[1..], b, aboveRoot);
    }
  }

  lemma {:induction false} PushClean(stack: seq<string>, segs: seq<string>, aboveRoot: bool)
    requires Clean(segs)
    ensures PushAll(stack, segs, aboveRoot) == stack + segs
    decreases |segs|
  {
    if segs == [] {
      assert stack + segs == stack;
    } else {
      PushClean(stack + [segs[0]], segs[1..], aboveRoot);
      assert stack + [segs[0]] + segs[1..] == stack + segs;
    }
  }

  /** Going up as often as `n` leaves all but the last `n` segments. */
  lemma {:induction false} PushUps(stack: seq<string>, n: nat)
    requires Clean(stack) && n <= |stack|
    ensures PushAll(stack, Ups(n), false) == stack[..|stack| - n]
    decreases n
  {
    if n > 0 {
      var up := stack[..|stack| - 1];
      assert Ups(n)[1..] == Ups(n - 1);
      PushUps(up, n - 1);
      assert up[..|up| - (n - 1)] == stack[..|stack| - n];
    } else {
      assert stack[..|stack|] == stack;
    }
  }

  lemma {:induction false} PushUpsAbove(n: nat, stack: seq<string>)
    requires forall i :: 0 <= i < |stack| ==> stack[i] == ".."
    ensures PushAll(stack, Ups(n), true) == stack + Ups(n)
    decreases n
  {
    if n > 0 {
      assert Ups(n)[1..] == Ups(n - 1);
      PushUpsAbove(n - 1, stack + [".."]);
      assert stack + [".."] + Ups(n - 1) == stack + Ups(n);
    } else {
      assert stack + Ups(0) == stack;
    }
  }

  lemma {:induction false} PushKeepsClean(stack: seq<string>, segs: seq<string>)
    requires Clean(stack) && forall i :: 0 <= i < |segs| ==> '/' !in segs[i]
    ensures Clean(PushAll(stack, segs, false))
    decreases |segs|
  {
    if segs != [] {
      PushKeepsClean(Push(stack, segs[0], false), segs[1..]);
    }
  }

  lemma SegmentsAreClean(p: string)
    ensures Clean(SegmentsOf(p))
  {
    SplitPartsHaveNoSeparator(p, '/');
    PushKeepsClean([], Split(p, '/'));
  }

  lemma ResolvedIsClean(base: seq<string>, p: string)
    requires Clean(base)
    ensures Clean(ResolveSegments(base, p))
  {
    SplitPartsHaveNoSeparator(p, '/');
    PushKeepsClean(base, Split(p, '/'));
    SegmentsAreClean(p);
  }

  lemma SegmentsOfAbsolute(segs: seq<string>)
    requires Clean(segs)
    ensures SegmentsOf(AbsolutePath(segs)) == segs
  {
    var text := Join(segs, '/');
    SplitConcat("", '/', text);
    assert "" + ['/'] + text == AbsolutePath(segs);
    if segs == [] {
      assert Split("", '/') == [""];
      assert Split(AbsolutePath(segs), '/') == ["", ""];
      assert ["", ""][1..] == [""] && [""][1..] == [];
    } else {
      SplitOfJoin(segs, '/');
      assert Split(AbsolutePath(segs), '/') == [""] + segs;
      assert ([""] + segs)[1..] == segs;
      PushClean([], segs, false);
      assert [] + segs == segs;
    }
  }

  /** A leading `./` makes no difference to what a path denotes. */
  lemma DotSlash(base: seq<string>, p: string)
    ensures ResolveSegments(base, "./" + p) == PushAll(base, Split(p, '/'), false)
  {
    SplitNoSeparator(".", '/');
    SplitConcat(".", '/', p);
    assert "." + ['/'] + p == "./" + p;
    var segs := ["."] + Split(p, '/');
    assert Split("./" + p, '/') == segs && segs[1..] == Split(p, '/');
  }

  predicate Relativish(segs: seq<string>) {
    forall i :: 0 <= i < |segs| ==> segs[i] != "" && '/' !in segs[i]
  }

  lemma RelativeSegmentsAreProper(from: seq<string>, to: seq<string>)
    requires Clean(from) && Clean(to)
    ensures Relativish(RelativeSegments(from, to))
    ensures RelativeSegments(from, to) == [] <==> from == to
  {
    var k := CommonPrefix(from, to);
    if RelativeSegments(from, to) == [] {
      assert from[..k] == from && to[..k] == to;
    }
    if from == to {
      CommonPrefixOfSame(from);
    }
  }

  lemma {:induction false} CommonPrefixOfSame(a: seq<string>)
    ensures CommonPrefix(a, a) == |a|
  {
    if a != [] {
      CommonPrefixOfSame(a[1..]);
    }
  }

  lemma TextOfSegments(segs: seq<string>)
    requires Relativish(segs)
    ensures segs == [] ==> Join(segs, '/') == ""
    ensures segs != [] ==> Split(Join(segs, '/'), '/') == segs && Join(segs, '/') != "" && !IsAbsolute(Join(segs, '/'))
  {
    if segs != [] {
      SplitOfJoin(segs, '/');
      assert segs[0][0] in segs[0];
    }
  }

  /** `resolve(root, relative(root, p))` denotes what `p` denotes. */
  lemma ResolveOfRelative(from: seq<string>, to: seq<string>)
    requires Clean(from) && Clean(to)
    ensures ResolveSegments(from, Join(RelativeSegments(from, to), '/')) == to
  {
    var k := CommonPrefix(from, to);
    var segs := RelativeSegments(from, to);
    RelativeSegmentsAreProper(from, to);
    TextOfSegments(segs);
    if segs == [] {
      assert Split("", '/') == [""];
      assert [""][1..] == [];
    } else {
      WalkUpAndDown(from, to, k);
    }
  }

  lemma WalkUpAndDown(from: seq<string>, to: seq<string>, k: nat)
    requires Clean(from) && Clean(to) && k <= |from| && k <= |to| && from[..k] == to[..k]
    ensures PushAll(from, Ups(|from| - k) + to[k..], false) == to
  {
    var n := |from| - k;
    PushAllConcat(from, Ups(n), to[k..], false);
    PushUps(from, n);
    PushClean(from[..k], to[k..], false);
    assert from[..k] + to[k..] == to;
  }

  /** A relative path that came out of `relative` is its own normal form, except the empty one. */
  lemma NormalizeOfRelative(from: seq<string>, to: seq<string>)
    requires Clean(from) && Clean(to)
    ensures
      var text := Join(RelativeSegments(from, to), '/');
      Normalize(text) == if from == to then "." else text
  {
    var k := CommonPrefix(from, to);
    var segs := RelativeSegments(from, to);
    RelativeSegmentsAreProper(from, to);
    TextOfSegments(segs);
    if segs != [] {
      PushAllConcat([], Ups(|from| - k), to[k..], true);
      PushUpsAbove(|from| - k, []);
      assert [] + Ups(|from| - k) == Ups(|from| - k);
      PushClean(Ups(|from| - k), to[k..], true);
      NoTrailingSlash(segs);
    }
  }

  lemma {:induction false} NoTrailingSlash(segs: seq<string>)
    requires segs != [] && Relativish(segs)
    ensures Join(segs, '/') != "" && Join(segs, '/')[|Join(segs, '/')| - 1] != '/'
  {
    if |segs| == 1 {
      assert segs[0][|segs[0]| - 1] in segs[0];
    } else {
      NoTrailingSlash(segs[1..]);
    }
  }

  lemma {:induction false} CommonPrefixShifted(base: seq<string>, a: seq<string>, b: seq<string>)
    ensures CommonPrefix(base + a, base + b) == |base| + CommonPrefix(a, b)
  {
    if base == [] {
      assert base + a == a && base + b == b;
    } else {
      assert (base + a)[1..] == base[1..] + a && (base + b)[1..] == base[1..] + b;
      CommonPrefixShifted(base[1..], a, b);
    }
  }

  lemma RelativeShifted(cwd: seq<string>, a: seq<string>, b: seq<string>)
    ensures RelativeSegments(cwd + a, cwd + b) == RelativeSegments(a, b)
  {
    CommonPrefixShifted(cwd, a, b);
    var k := CommonPrefix(a, b);
    assert (cwd + b)[|cwd| + k..] == b[k..];
  }

  // ----- backslashes, which other platforms write for slashes -----

  predicate NoBackslash(segs: seq<string>) {
    forall i :: 0 <= i < |segs| ==> '\\' !in segs[i]
  }

  lemma {:induction false} SplitNoBackslash(s: string)
    requires '\\' !in s
    ensures NoBackslash(Split(s, '/'))
  {
    if s != "" {
      SplitNoBackslash(s[1..]);
      assert s[0] in s;
    }
  }

  lemma {:induction false} PushNoBackslash(stack: seq<string>, segs: seq<string>, aboveRoot: bool)
    requires NoBackslash(stack) && NoBackslash(segs)
    ensures NoBackslash(PushAll(stack, segs, aboveRoot))
    decreases |segs|
  {
    if segs != [] {
      PushNoBackslash(Push(stack, segs[0], aboveRoot), segs[1..], aboveRoot);
    }
  }

  lemma {:induction false} JoinNoBackslash(segs: seq<string>)
    requires NoBackslash(segs)
    ensures '\\' !in Join(segs, '/')
  {
    if |segs| > 1 {
      JoinNoBackslash(segs[1..]);
    }
  }

  lemma {:induction false} JoinHasBackslash(segs: seq<string>, i: nat)
    requires i < |segs| && '\\' in segs[i]
    ensures '\\' in Join(segs, '/')
  {
    if |segs| > 1 && i > 0 {
      JoinHasBackslash(segs[1..], i - 1);
    }
  }

  lemma {:induction false} CommonPrefixIsLongest(a: seq<string>, b: seq<string>, n: nat)
    requires n <= |a| && n <= |b| && a[..n] == b[..n]
    ensures CommonPrefix(a, b) >= n
    decreases n
  {
    if n > 0 {
      assert a[0] == a[..n][0] && b[0] == b[..n][0];
      assert a[1..][..n - 1] == a[..n][1..] && b[1..][..n - 1] == b[..n][1..];
      CommonPrefixIsLongest(a[1..], b[1..], n - 1);
    }
  }

  /** What walking `segs` from `stack` leaves is a part of `stack` followed by members of `segs`. */
  lemma {:induction false} WalkedFrom(stack: seq<string>, segs: seq<string>, j: nat)
    requires j < |PushAll(stack, segs, false)|
    ensures
      var r := PushAll(stack, segs, false);
      r[j] in segs || (j < |stack| && r[..j + 1] == stack[..j + 1])
    decreases |segs|
  {
    if segs != [] {
      var next := Push(stack, segs[0], false);
      WalkedFrom(next, segs[1..], j);
      var r := PushAll(next, segs[1..], false);
      if r[j] !in segs[1..] && next == stack + [segs[0]] {
        assert r[..j + 1][j] == next[..j + 1][j];
        if j < |stack| {
          assert next[..j + 1] == stack[..j + 1];
        }
      } else if r[j] !in segs[1..] && next != stack {
        assert next[..j + 1] == stack[..j + 1];
      }
    }
  }

  /** A walk cannot arrive at a backslash that neither its start nor its steps have. */
  lemma WalkLosesBackslash(from: seq<string>, segs: seq<string>, to: seq<string>, at: nat)
    requires NoBackslash(segs) && at < |to| && '\\' in to[at]
    requires at < |from| ==> from[..at + 1] != to[..at + 1]
    ensures PushAll(from, segs, false) != to
  {
    var r := PushAll(from, segs, false);
    if at < |r| {
      WalkedFrom(from, segs, at);
    }
  }

  lemma StartsDiffer(cwd: seq<string>, dir: seq<string>, file: seq<string>, j: nat)
    requires CommonPrefix(dir, file) <= j < |file| && j < |dir|
    ensures (cwd + dir)[..|cwd| + j + 1] != (cwd + file)[..|cwd| + j + 1]
  {
    if dir[..j + 1] == file[..j + 1] {
      CommonPrefixIsLongest(dir, file, j + 1);
    }
    assert (cwd + dir)[..|cwd| + j + 1][|cwd|..] == dir[..j + 1];
    assert (cwd + file)[..|cwd| + j + 1][|cwd|..] == file[..j + 1];
  }

  lemma BackslashIsLost(cwd: seq<string>, dir: seq<string>, file: seq<string>, text: string, j: nat)
    requires CommonPrefix(dir, file) <= j < |file| && '\\' in file[j] && '\\' !in text
    ensures PushAll(cwd + dir, Split(text, '/'), false) != cwd + file
  {
    SplitNoBackslash(text);
    if j < |dir| {
      StartsDiffer(cwd, dir, file, j);
    }
    WalkLosesBackslash(cwd + dir, Split(text, '/'), cwd + file, |cwd| + j);
  }

  lemma SpelledBackslash(from: seq<string>, to: seq<string>)
    requires '\\' in Join(RelativeSegments(from, to), '/')
    ensures exists j :: CommonPrefix(from, to) <= j < |to| && '\\' in to[j]
  {
    var segs := RelativeSegments(from, to);
    if NoBackslash(segs) {
      JoinNoBackslash(segs);
    }
    var i :| 0 <= i < |segs| && '\\' in segs[i];
    var ups := |from| - CommonPrefix(from, to);
    assert i >= ups;
    assert segs[i] == to[CommonPrefix(from, to) + (i - ups)];
  }

  lemma SlashedIsAnother(from: seq<string>, to: seq<string>, slashed: string, j: nat)
    requires '\\' !in slashed && CommonPrefix(from, to) <= j < |to| && '\\' in to[j]
    ensures ResolveSegments(from, slashed) != to
  {
    BackslashIsLost([], from, to, slashed, j);
    assert [] + from == from && [] + to == to;
    SplitNoBackslash(slashed);
    PushNoBackslash([], Split(slashed, '/'), false);
  }

  /** Replacing backslashes keeps what a relative path denotes exactly when there are none. */
  lemma SlashedResolvesBack(from: seq<string>, to: seq<string>)
    requires Clean(from) && Clean(to)
    ensures
      var text := Join(RelativeSegments(from, to), '/');
      ResolveSegments(from, ToSlashes(text)) == to <==> '\\' !in text
  {
    var text := Join(RelativeSegments(from, to), '/');
    if '\\' !in text {
      ToSlashesIsIdentity(text);
      ResolveOfRelative(from, to);
    } else {
      SpelledBackslash(from, to);
      var j :| CommonPrefix(from, to) <= j < |to| && '\\' in to[j];
      SlashedIsAnother(from, to, ToSlashes(text), j);
    }
  }

  // ----- normal forms of relative paths -----

  /** `..` only at the front, and otherwise clean segments. */
  predicate NormalStack(segs: seq<string>) {
    forall i :: 0 <= i < |segs| ==>
      && (segs[i] == ".." || IsClean(segs[i]))
      && (i > 0 && segs[i] == ".." ==> segs[i - 1] == "..")
  }

  lemma {:induction false} PushKeepsNormal(stack: seq<string>, segs: seq<string>)
    requires NormalStack(stack) && forall i :: 0 <= i < |segs| ==> '/' !in segs[i]
    ensures NormalStack(PushAll(stack, segs, true))
    decreases |segs|
  {
    if segs != [] {
      PushKeepsNormal(Push(stack, segs[0], true), segs[1..]);
    }
  }

  lemma {:induction false} PushNormal(stack: seq<string>, segs: seq<string>)
    requires NormalStack(stack + segs)
    ensures PushAll(stack, segs, true) == stack + segs
    decreases |segs|
  {
    if segs == [] {
      assert stack + segs == stack;
    } else {
      var next := stack + [segs[0]];
      assert (stack + segs)[|stack|] == segs[0];
      assert stack != [] ==> (stack + segs)[|stack| - 1] == stack[|stack| - 1];
      assert next + segs[1..] == stack + segs;
      PushNormal(next, segs[1..]);
    }
  }

  lemma PushTwice(base: seq<string>, stack: seq<string>, seg: string)
    requires NormalStack(stack)
    ensures PushAll(base, Push(stack, seg, true), false) == Push(PushAll(base, stack, false), seg, false)
  {
    if seg == ".." && stack != [] && stack[|stack| - 1] != ".." {
      var init, last := stack[..|stack| - 1], stack[|stack| - 1];
      assert stack == init + [last] && [last][1..] == [];
      PushAllConcat(base, init, [last], false);
    } else {
      PushAllConcat(base, stack, [seg], false);
      assert [seg][1..] == [];
    }
  }

  /** Walking the normal form leads where walking the path leads. */
  lemma {:induction false} WalkNormal(base: seq<string>, stack: seq<string>, segs: seq<string>)
    requires NormalStack(stack) && forall i :: 0 <= i < |segs| ==> '/' !in segs[i]
    ensures PushAll(base, PushAll(stack, segs, true), false) == PushAll(PushAll(base, stack, false), segs, false)
    decreases |segs|
  {
    if segs != [] {
      PushTwice(base, stack, segs[0]);
      PushKeepsNormal(stack, [segs[0]]);
      WalkNormal(base, Push(stack, segs[0], true), segs[1..]);
    }
  }

  /** The text of a normal form: its segments, `.` for none, possibly with a slash behind. */
  function NormalText(stack: seq<string>, slash: bool): string {
    (if stack == [] then "." else Join(stack, '/')) + if slash then "/" else ""
  }

  lemma SplitOfNormalText(stack: seq<string>, slash: bool)
    requires NormalStack(stack)
    ensures
      var head := if stack == [] then ["."] else stack;
      Split(NormalText(stack, slash), '/') == if slash then head + [""] else head
  {
    var text := if stack == [] then "." else Join(stack, '/');
    if stack == [] {
      SplitNoSeparator(".", '/');
    } else {
      SplitOfJoin(stack, '/');
    }
    SplitConcat(text, '/', "");
    assert text + ['/'] + "" == text + "/" && text + "" == text;
    assert Split("", '/') == [""];
  }

  lemma TrailingEmpty(stack: seq<string>, segs: seq<string>, aboveRoot: bool)
    ensures PushAll(stack, segs + [""], aboveRoot) == PushAll(stack, segs, aboveRoot)
  {
    PushAllConcat(stack, segs, [""], aboveRoot);
    assert [""][1..] == [];
  }

  lemma OnlyDot(stack: seq<string>, aboveRoot: bool)
    ensures PushAll(stack, ["."], aboveRoot) == stack
  {
    assert ["."][1..] == [];
  }

  lemma WalkOfNormalText(stack: seq<string>, slash: bool, base: seq<string>)
    requires NormalStack(stack)
    ensures PushAll([], Split(NormalText(stack, slash), '/'), true) == stack
    ensures PushAll(base, Split(NormalText(stack, slash), '/'), false) == PushAll(base, stack, false)
  {
    var head := if stack == [] then ["."] else stack;
    SplitOfNormalText(stack, slash);
    TrailingEmpty([], head, true);
    TrailingEmpty(base, head, false);
    OnlyDot([], true);
    OnlyDot(base, false);
    PushNormal([], stack);
    assert [] + stack == stack;
  }

  lemma ShapeOfNormalText(stack: seq<string>, slash: bool)
    requires NormalStack(stack)
    ensures
      var text := NormalText(stack, slash);
      text != "" && !IsAbsolute(text) && (text[|text| - 1] == '/' <==> slash)
  {
    if stack != [] {
      NoTrailingSlash(stack);
      TextOfSegments(stack);
    }
  }

  lemma NormalizeText(p: string, body: string, slash: bool)
    requires p != "" && !IsAbsolute(p) && body == Join(PushAll([], Split(p, '/'), true), '/') && slash == (p[|p| - 1] == '/')
    ensures Normalize(p) == (if body == "" then "." else body) + if slash then "/" else ""
  {
  }

  lemma StackIsNormal(p: string, stack: seq<string>)
    requires stack == PushAll([], Split(p, '/'), true)
    ensures NormalStack(stack) && (p == "" ==> stack == [])
  {
    SplitPartsHaveNoSeparator(p, '/');
    PushKeepsNormal([], Split(p, '/'));
    if p == "" {
      assert Split(p, '/') == [""] && [""][1..] == [];
    }
  }

  lemma TextOfStack(stack: seq<string>)
    requires NormalStack(stack)
    ensures stack == [] <==> Join(stack, '/') == ""
  {
    if stack != [] {
      NoTrailingSlash(stack);
    }
  }

  lemma NormalizeIsNormalText(p: string, stack: seq<string>, slash: bool)
    requires !IsAbsolute(p) && stack == PushAll([], Split(p, '/'), true) && slash == (p != "" && p[|p| - 1] == '/')
    ensures NormalStack(stack) && Normalize(p) == NormalText(stack, slash)
  {
    var body := Join(stack, '/');
    StackIsNormal(p, stack);
    TextOfStack(stack);
    if p != "" {
      NormalizeText(p, body, slash);
    }
  }

  /** The normal form of a relative path is relative, is its own normal form, and denotes the same. */
  lemma NormalizeRelative(p: string, base: seq<string>)
    requires !IsAbsolute(p)
    ensures
      var q := Normalize(p);
      q != "" && !IsAbsolute(q) && Normalize(q) == q && ResolveSegments(base, q) == ResolveSegments(base, p)
  {
    var stack, slash := PushAll([], Split(p, '/'), true), p != "" && p[|p| - 1] == '/';
    NormalizeIsNormalText(p, stack, slash);
    ShapeOfNormalText(stack, slash);
    WalkOfNormalText(stack, slash, base);
    NormalizeIsNormalText(NormalText(stack, slash), stack, slash);
    SplitPartsHaveNoSeparator(p, '/');
    WalkNormal(base, [], Split(p, '/'));
  }

  lemma NormalizeNoBackslash(p: string)
    requires '\\' !in p
    ensures '\\' !in Normalize(p)
  {
    var stack := PushAll([], Split(p, '/'), !IsAbsolute(p));
    SplitNoBackslash(p);
    PushNoBackslash([], Split(p, '/'), !IsAbsolute(p));
    JoinNoBackslash(stack);
  }
}
