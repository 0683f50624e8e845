/** `resolveMemo`, `findUp` and the listing of `hashDirectory` in packages/waku/src/source.ts. */
module WakuWalk {
  import opened Options
  import opened Text
  import opened Regex
  import opened Glob
  import opened WakuGlob
  import opened Tree
  import opened Listing
  import opened Lockfiles
  import Sorting

  function CompiledRules(rules: seq<string>): seq<Rx> {
    if rules == [] then [] else AtMostOne(CompiledRule(rules[0])) + CompiledRules(rules[1..])
  }

  lemma NextRule(rules: seq<string>, i: nat, done: seq<Rx>)
    requires i < |rules|
    ensures done + CompiledRules(rules[i..]) == (done + AtMostOne(CompiledRule(rules[i]))) + CompiledRules(rules[i + 1..])
  {
    assert rules[i..][1..] == rules[i + 1..];
    Reassociate(done, AtMostOne(CompiledRule(rules[i])), CompiledRules(rules[i + 1..]));
  }

  method CompileIgnoreRules(rules: seq<string>) returns (regexes: seq<Rx>)
    ensures regexes == CompiledRules(rules)
  {
    regexes := [];
    for i := 0 to |rules|
      invariant regexes + CompiledRules(rules[i..]) == CompiledRules(rules)
    {
      NextRule(rules, i, regexes);
      var regex := CompileIgnoreRule(rules[i]);
      regexes := regexes + AtMostOne(regex);
    }
    assert rules[|rules|..] == [];
  }

  datatype Memo = Memo(included: Option<seq<Rx>>, exclude: seq<Rx>) {
    predicate Prunes(rel: string) {
      MatchesAny(exclude, rel)
    }

    predicate Keeps(rel: string) {
      !MatchesAny(exclude, rel) && (included.Some? ==> MatchesAny(included.value, rel))
    }
  }

  const DEPENDENCIES: string := "node_modules"
  const VERSION_CONTROL: string := ".git"

  /** The rules that are always in force come first. */
  function ExcludeRules(distDir: string, rules: seq<string>): seq<string> {
    [DEPENDENCIES, VERSION_CONTROL, "/" + distDir] + rules
  }

  /** The configured rules: the ones to leave out, or else those of the `.gitignore` files. */
  function Configured(options: MemoOptions, gitignore: seq<string>): seq<string> {
    if options.excluded.Some? then options.excluded.value else gitignore
  }

  /** The compiled includes accept what the globs mean. */
  ghost predicate AreIncludes(included: Option<seq<Rx>>, globs: Option<seq<string>>) {
    && (included.Some? <==> globs.Some?)
    && (included.Some? ==> forall p :: MatchesAny(included.value, p) <==> IncludedBy(globs.value, p))
  }

  predicate IncludedBy(globs: seq<string>, p: string) {
    exists glob :: glob in globs && Accepts(Tokens(glob, true, false), p)
  }

  lemma IncludesMean(regexes: seq<Rx>, globs: seq<string>, p: string)
    requires |regexes| == |globs| && forall i :: 0 <= i < |globs| ==> IsIncludeOf(regexes[i], globs[i])
    ensures MatchesAny(regexes, p) <==> IncludedBy(globs, p)
  {
    if k :| 0 <= k < |regexes| && Test(regexes[k], p) {
      assert globs[k] in globs && IsIncludeOf(regexes[k], globs[k]);
    }
    if glob :| glob in globs && Accepts(Tokens(glob, true, false), p) {
      var k :| 0 <= k < |globs| && globs[k] == glob;
      assert IsIncludeOf(regexes[k], globs[k]);
    }
  }

  method ResolveMemo(distDir: string, options: MemoOptions, gitignore: seq<string>) returns (memo: Memo, lockfile: bool)
    ensures AreIncludes(memo.included, options.included)
    ensures memo.exclude == CompiledRules(ExcludeRules(distDir, Configured(options, gitignore)))
    ensures lockfile == CountsLockfile(options)
  {
    var exclude;
    if options.excluded.Some? {
      exclude := CompileIgnoreRules(options.excluded.value);
    } else {
      exclude := CompileIgnoreRules(gitignore);
    }
    var included := None;
    if options.included.Some? {
      var regexes := CompileIncludeGlobs(options.included.value);
      forall p {
        IncludesMean(regexes, options.included.value, p);
      }
      included := Some(regexes);
    }
    var always := CompileIgnoreRules([DEPENDENCIES, VERSION_CONTROL, "/" + distDir]);
    CompiledConcat([DEPENDENCIES, VERSION_CONTROL, "/" + distDir], Configured(options, gitignore));
    memo := Memo(included, always + exclude);
    lockfile := if options.lockfile.Some? then options.lockfile.value
                else !(options.included.Some? || options.excluded.Some?);
  }

  function AtMostOne(regex: Option<Rx>): seq<Rx> {
    if regex.Some? then [regex.value] else []
  }

  lemma {:induction false} CompiledConcat(a: seq<string>, b: seq<string>)
    ensures CompiledRules(a + b) == CompiledRules(a) + CompiledRules(b)
  {
    if a == [] {
      assert a + b == b;
    } else {
      assert (a + b)[0] == a[0] && (a + b)[1..] == a[1..] + b;
      CompiledConcat(a[1..], b);
      var first := AtMostOne(CompiledRule(a[0]));
      assert first + (CompiledRules(a[1..]) + CompiledRules(b)) == first + CompiledRules(a[1..]) + CompiledRules(b);
    }
  }

  /** The compiled rules accept a path exactly when one of the rules does. */
  predicate AnyRuleAccepts(rules: seq<string>, p: string) {
    exists k :: 0 <= k < |rules| && ReadRule(rules[k]).Some? && RuleAccepts(ReadRule(rules[k]).value, p)
  }

  lemma {:induction false} CompiledRulesMean(rules: seq<string>, p: string)
    ensures MatchesAny(CompiledRules(rules), p) <==> AnyRuleAccepts(rules, p)
  {
    if rules != [] {
      CompiledRulesMean(rules[1..], p);
      var regexes, rest := CompiledRules(rules), CompiledRules(rules[1..]);
      var first := ReadRule(rules[0]);
      if first.Some? {
        RuleCompiles(first.value, p);
        assert regexes == [CompiledRule(rules[0]).value] + rest;
        assert forall k :: 0 <= k < |rest| ==> regexes[k + 1] == rest[k];
        assert MatchesAny(regexes, p) <==> Test(regexes[0], p) || MatchesAny(rest, p) by {
          if k :| 0 <= k < |regexes| && Test(regexes[k], p) {
            assert k > 0 ==> regexes[k] == rest[k - 1];
          }
          if k :| 0 <= k < |rest| && Test(rest[k], p) {
            assert Test(regexes[k + 1], p);
          }
        }
      } else {
        assert regexes == rest;
      }
      assert forall k :: 0 <= k < |rules| - 1 ==> rules[k + 1] == rules[1..][k];
      assert AnyRuleAccepts(rules, p) <==> (first.Some? && RuleAccepts(first.value, p)) || AnyRuleAccepts(rules[1..], p) by {
        if k :| 0 <= k < |rules| && ReadRule(rules[k]).Some? && RuleAccepts(ReadRule(rules[k]).value, p) {
          assert k > 0 ==> rules[k] == rules[1..][k - 1];
        }
        if k :| 0 <= k < |rules[1..]| && ReadRule(rules[1..][k]).Some? && RuleAccepts(ReadRule(rules[1..][k]).value, p) {
          assert rules[k + 1] == rules[1..][k];
        }
      }
    }
  }

  lemma RulesAcceptBelow(rules: seq<string>, p: string, below: string)
    requires AnyRuleAccepts(rules, p) && OneLine(below)
    ensures AnyRuleAccepts(rules, p + "/" + below)
  {
    var k :| 0 <= k < |rules| && ReadRule(rules[k]).Some? && RuleAccepts(ReadRule(rules[k]).value, p);
    AcceptsDescendants(ReadRule(rules[k]).value, p, below);
  }

  /** Ignore rules are closed under descendants, so the walk may prune. */
  lemma PruningWithRulesIsSound(rules: seq<string>, included: Option<seq<Rx>>)
    ensures
      var memo := Memo(included, CompiledRules(rules));
      PruningIsSound(memo.Prunes, memo.Keeps)
  {
    var memo := Memo(included, CompiledRules(rules));
    forall p, below | memo.Prunes(p) && OneLine(below)
      ensures !memo.Keeps(p + "/" + below)
    {
      CompiledRulesMean(rules, p);
      RulesAcceptBelow(rules, p, below);
      CompiledRulesMean(rules, p + "/" + below);
    }
  }

  /** Whether the walk meets an entry whose `stat` fails. */
  predicate MeetsBroken(prune: string -> bool, rel: string, es: seq<Entry>, ghost bound: Node)
    requires forall e :: e in es ==> e.node < bound
    decreases bound, |es|
  {
    es != []
    && (BrokenAt(prune, ChildPath(rel, es[0].name), es[0].node) || MeetsBroken(prune, rel, es[1..], bound))
  }

  predicate BrokenAt(prune: string -> bool, path: string, node: Node)
    decreases node
  {
    && !prune(path)
    && (node.Broken? || (node.Directory? && MeetsBroken(prune, path, Children(node), node)))
  }

  // ----- reference: entries that cannot be inspected -----

  predicate IsBroken(node: Node, path: seq<string>)
    decreases |path|
  {
    if path == [] then node.Broken?
    else node.Directory? && exists e :: e in node.entries && e.name == path[0] && IsBroken(e.node, path[1..])
  }

  /** `path` leads through the entry `e` to a broken one, past nothing that is pruned. */
  predicate BrokenBelow(prune: string -> bool, prefix: seq<string>, e: Entry, path: seq<string>) {
    && path != [] && path[0] == e.name && IsBroken(e.node, path[1..])
    && forall k :: 0 < k <= |path| ==> !prune(PathString(prefix + path[..k]))
  }

  lemma {:induction false} MeetsBrokenMeans(prune: string -> bool, prefix: seq<string>, es: seq<Entry>, bound: Node)
    requires Names(prefix)
    requires forall e :: e in es ==> e.node < bound && IsName(e.name) && WellFormed(e.node)
    ensures MeetsBroken(prune, PathString(prefix), es, bound)
       <==> exists e, path :: e in es && BrokenBelow(prune, prefix, e, path)
    decreases bound, 0, |es|
  {
    if es != [] {
      MeetsBrokenMeans(prune, prefix, es[1..], bound);
      BrokenAtMeans(prune, prefix, es[0]);
      PathStringOfChild(prefix, es[0].name);
      assert forall e :: e in es <==> e == es[0] || e in es[1..];
    }
  }

  lemma {:induction false} BrokenAtMeans(prune: string -> bool, prefix: seq<string>, e: Entry)
    requires Names(prefix) && IsName(e.name) && WellFormed(e.node)
    ensures BrokenAt(prune, ChildPath(PathString(prefix), e.name), e.node) <==> exists path :: BrokenBelow(prune, prefix, e, path)
    decreases e.node, 2
  {
    var here := prefix + [e.name];
    PathStringOfChild(prefix, e.name);
    if e.node.Directory? {
      MeetsBrokenMeans(prune, here, Children(e.node), e.node);
    }
    if BrokenAt(prune, PathString(here), e.node) {
      if e.node.Broken? {
        BrokenHere(prune, prefix, e);
      } else {
        var f, path :| f in Children(e.node) && BrokenBelow(prune, here, f, path);
        BrokenInside(prune, prefix, e, f, path);
      }
    }
    if path :| BrokenBelow(prune, prefix, e, path) {
      BrokenOutside(prune, prefix, e, path);
    }
  }

  lemma BrokenHere(prune: string -> bool, prefix: seq<string>, e: Entry)
    requires e.node.Broken? && !prune(PathString(prefix + [e.name]))
    ensures BrokenBelow(prune, prefix, e, [e.name])
  {
    assert [e.name][..1] == [e.name] && [e.name][1..] == [];
  }

  lemma BrokenInside(prune: string -> bool, prefix: seq<string>, e: Entry, f: Entry, path: seq<string>)
    requires e.node.Directory? && f in e.node.entries && BrokenBelow(prune, prefix + [e.name], f, path)
    requires !prune(PathString(prefix + [e.name]))
    ensures BrokenBelow(prune, prefix, e, [e.name] + path)
  {
    var whole := [e.name] + path;
    assert whole[1..] == path;
    forall k | 0 < k <= |whole|
      ensures !prune(PathString(prefix + whole[..k]))
    {
      assert prefix + whole[..k] == prefix + [e.name] + path[..k - 1];
      if k == 1 {
        assert prefix + whole[..k] == prefix + [e.name];
      }
    }
  }

  lemma BrokenOutside(prune: string -> bool, prefix: seq<string>, e: Entry, path: seq<string>)
    requires BrokenBelow(prune, prefix, e, path)
    ensures !prune(PathString(prefix + [e.name]))
    ensures e.node.Broken? || (e.node.Directory? && exists f :: f in Children(e.node) && BrokenBelow(prune, prefix + [e.name], f, path[1..]))
  {
    assert prefix + path[..1] == prefix + [e.name];
    if path[1..] != [] {
      var f :| f in e.node.entries && f.name == path[1..][0] && IsBroken(f.node, path[1..][1..]);
      forall k | 0 < k <= |path[1..]|
        ensures !prune(PathString(prefix + [e.name] + path[1..][..k]))
      {
        assert prefix + path[..k + 1] == prefix + [e.name] + path[1..][..k];
      }
      assert f in Children(e.node) && BrokenBelow(prune, prefix + [e.name], f, path[1..]);
    }
  }

  class Walker {
    const memo: Memo
    var files: seq<string>

    constructor (memo: Memo)
      ensures this.memo == memo && files == []
    {
      this.memo := memo;
      files := [];
    }

    /** Fails exactly when an entry that is not excluded cannot be inspected. */
    method Walk(dir: Node, rel: string) returns (ok: bool)
      requires dir.Directory?
      modifies this`files
      ensures ok <==> !MeetsBroken(memo.Prunes, rel, Children(dir), dir)
      ensures ok ==> files == old(files) + Tree.Walk(memo.Prunes, memo.Keeps, rel, dir)
      decreases dir, 0
    {
      ghost var before := files;
      var entries := Children(dir);
      for i := 0 to |entries|
        invariant files + WalkEntries(memo.Prunes, memo.Keeps, rel, entries[i..], dir)
               == before + Tree.Walk(memo.Prunes, memo.Keeps, rel, dir)
        invariant MeetsBroken(memo.Prunes, rel, entries[i..], dir) <==> MeetsBroken(memo.Prunes, rel, entries, dir)
      {
        var relPath := if rel == "" then entries[i].name else rel + "/" + entries[i].name;
        NextEntry(memo.Prunes, memo.Keeps, rel, entries, dir, i, files);
        ok := Inspect(entries[i].node, relPath);
        if !ok {
          return;
        }
      }
      assert entries[|entries|..] == [];
      return true;
    }

    /** The body of the walk's loop, for one entry. */
    method Inspect(node: Node, relPath: string) returns (ok: bool)
      modifies this`files
      ensures ok <==> !BrokenAt(memo.Prunes, relPath, node)
      ensures ok ==> files == old(files) + Visit(memo.Prunes, memo.Keeps, relPath, node)
      decreases node, 1
    {
      if MatchesAny(memo.exclude, relPath) {
        return true;
      }
      if node.Broken? {
        return false;
      }
      if node.Directory? {
        ok := Walk(node, relPath);
        return;
      } else if node.File? {
        if memo.included.Some? && !MatchesAny(memo.included.value, relPath) {
          return true;
        }
        files := files + [relPath];
      }
      return true;
    }
  }

  /** What a flat filter over all files of the tree would list. */
  function FlatListing(memo: Memo, root: Node): seq<string>
    requires root.Directory?
  {
    Sorting.Sort(LessOrEqual, Sorting.Filter(memo.Keeps, Tree.Walk(p => false, p => true, "", root)))
  }

  lemma WakuWalkIsFlatFilter(rules: seq<string>, included: Option<seq<Rx>>, root: Node)
    requires root.Directory? && WellFormed(root) && NamesOnOneLine(root)
    ensures
      var memo := Memo(included, CompiledRules(rules));
      ListFiles(memo.Prunes, memo.Keeps, root) == FlatListing(memo, root)
  {
    var memo := Memo(included, CompiledRules(rules));
    PruningWithRulesIsSound(rules, included);
    PrunedWalkIsFlatFilter(memo.Prunes, memo.Keeps, "", root);
  }

  // ----- the files that are hashed -----

  /**
   The path leads to a file that neither the built-in nor the configured rules are about and that a
   glob is about, where there are any.
   */
  predicate IsHashed(root: Node, distDir: string, options: MemoOptions, gitignore: seq<string>, path: seq<string>) {
    var p := PathString(path);
    && path != [] && FileAt(root, path)
    && !AnyRuleAccepts(["node_modules", ".git", "/" + distDir], p)
    && !AnyRuleAccepts(if options.excluded.Some? then options.excluded.value else gitignore, p)
    && (options.included.Some? ==> exists glob :: glob in options.included.value && Accepts(Tokens(glob, true, false), p))
  }

  /** The path leads to an entry that cannot be inspected and that no rule is about. */
  predicate Blocks(root: Node, distDir: string, options: MemoOptions, gitignore: seq<string>, path: seq<string>) {
    && path != [] && IsBroken(root, path)
    && !AnyRuleAccepts(["node_modules", ".git", "/" + distDir], PathString(path))
    && !AnyRuleAccepts(if options.excluded.Some? then options.excluded.value else gitignore, PathString(path))
  }

  /** The hashed files and, where there is one, the lockfile; each once, in order. */
  ghost predicate AreFilesOf(files: seq<string>, root: Node, distDir: string, options: MemoOptions, gitignore: seq<string>,
          lockfile: Option<string>) {
    && StrictlySorted(files)
    && forall p :: p in files
         <==> Some(p) == lockfile || exists path :: IsHashed(root, distDir, options, gitignore, path) && p == PathString(path)
  }

  lemma EitherAccepts(a: seq<string>, b: seq<string>, p: string)
    ensures AnyRuleAccepts(a + b, p) <==> AnyRuleAccepts(a, p) || AnyRuleAccepts(b, p)
  {
    assert forall k :: 0 <= k < |a| ==> (a + b)[k] == a[k];
    assert forall k :: 0 <= k < |b| ==> (a + b)[|a| + k] == b[k];
    if AnyRuleAccepts(a + b, p) {
      var k :| 0 <= k < |a + b| && ReadRule((a + b)[k]).Some? && RuleAccepts(ReadRule((a + b)[k]).value, p);
      if k >= |a| {
        assert b[k - |a|] == (a + b)[k];
      }
    }
  }

  lemma FlatListingMeans(root: Node, memo: Memo, p: string)
    requires root.Directory? && WellFormed(root)
    ensures p in FlatListing(memo, root) <==> exists path :: path != [] && FileAt(root, path) && p == PathString(path) && memo.Keeps(p)
  {
    var all := Tree.Walk(p => false, p => true, "", root);
    Sorting.SortKeepsMembers(LessOrEqual, Sorting.Filter(memo.Keeps, all));
    Sorting.FilterMembers(memo.Keeps, all);
    WalkListsFiles(p => false, p => true, [], root, p);
    assert forall path: seq<string> :: [] + path == path;
    if path :| path != [] && FileAt(root, path) && p == PathString(path) {
      assert IsListed(p => false, p => true, [], root, path);
    }
  }

  lemma KeepsMeans(root: Node, memo: Memo, distDir: string, options: MemoOptions, gitignore: seq<string>, path: seq<string>)
    requires AreIncludes(memo.included, options.included)
    requires memo.exclude == CompiledRules(ExcludeRules(distDir, Configured(options, gitignore)))
    ensures path != [] && FileAt(root, path) && memo.Keeps(PathString(path)) <==> IsHashed(root, distDir, options, gitignore, path)
  {
    var p := PathString(path);
    CompiledRulesMean(ExcludeRules(distDir, Configured(options, gitignore)), p);
    EitherAccepts([DEPENDENCIES, VERSION_CONTROL, "/" + distDir], Configured(options, gitignore), p);
  }

  lemma {:induction false} BrokenIsReached(node: Node, path: seq<string>)
    requires IsBroken(node, path)
    ensures Reaches(node, path)
    decreases |path|
  {
    if path != [] {
      var e :| e in node.entries && e.name == path[0] && IsBroken(e.node, path[1..]);
      BrokenIsReached(e.node, path[1..]);
    }
  }

  lemma PathBelow(path: seq<string>, k: nat)
    requires 0 < k < |path|
    ensures PathString(path) == PathString(path[..k]) + "/" + PathString(path[k..])
  {
    JoinConcat(path[..k], path[k..], '/');
    assert path == path[..k] + path[k..];
  }

  /** What rules are about they are about below too. */
  lemma AcceptsBelow(rules: seq<string>, path: seq<string>, k: nat)
    requires OneLineNames(path) && 0 < k <= |path| && AnyRuleAccepts(rules, PathString(path[..k]))
    ensures AnyRuleAccepts(rules, PathString(path))
  {
    if k == |path| {
      assert path[..k] == path;
    } else {
      OneLinePath(path[k..]);
      RulesAcceptBelow(rules, PathString(path[..k]), PathString(path[k..]));
      PathBelow(path, k);
    }
  }

  lemma BrokenIsMet(root: Node, memo: Memo, rules: seq<string>, path: seq<string>)
    requires root.Directory? && NamesOnOneLine(root) && memo.exclude == CompiledRules(rules)
    requires path != [] && IsBroken(root, path) && !AnyRuleAccepts(rules, PathString(path))
    ensures exists e :: e in Children(root) && BrokenBelow(memo.Prunes, [], e, path)
  {
    var e :| e in root.entries && e.name == path[0] && IsBroken(e.node, path[1..]);
    BrokenIsReached(root, path);
    ReachedOnOneLine(root, path);
    forall k | 0 < k <= |path|
      ensures !memo.Prunes(PathString([] + path[..k]))
    {
      assert [] + path[..k] == path[..k];
      CompiledRulesMean(rules, PathString(path[..k]));
      if AnyRuleAccepts(rules, PathString(path[..k])) {
        AcceptsBelow(rules, path, k);
      }
    }
    assert e in Children(root) && BrokenBelow(memo.Prunes, [], e, path);
  }

  lemma MetIsBroken(root: Node, memo: Memo, rules: seq<string>, e: Entry, path: seq<string>)
    requires root.Directory? && memo.exclude == CompiledRules(rules)
    requires e in Children(root) && BrokenBelow(memo.Prunes, [], e, path)
    ensures path != [] && IsBroken(root, path) && !AnyRuleAccepts(rules, PathString(path))
  {
    assert [] + path[..|path|] == path;
    CompiledRulesMean(rules, PathString(path));
  }

  lemma BlockedMeans(root: Node, memo: Memo, distDir: string, options: MemoOptions, gitignore: seq<string>)
    requires root.Directory? && WellFormed(root) && NamesOnOneLine(root)
    requires memo.exclude == CompiledRules(ExcludeRules(distDir, Configured(options, gitignore)))
    ensures MeetsBroken(memo.Prunes, "", Children(root), root) <==> exists path :: Blocks(root, distDir, options, gitignore, path)
  {
    var rules := ExcludeRules(distDir, Configured(options, gitignore));
    MeetsBrokenMeans(memo.Prunes, [], Children(root), root);
    if e, path :| e in Children(root) && BrokenBelow(memo.Prunes, [], e, path) {
      MetIsBroken(root, memo, rules, e, path);
      EitherAccepts([DEPENDENCIES, VERSION_CONTROL, "/" + distDir], Configured(options, gitignore), PathString(path));
      assert Blocks(root, distDir, options, gitignore, path);
    }
    if path :| Blocks(root, distDir, options, gitignore, path) {
      EitherAccepts([DEPENDENCIES, VERSION_CONTROL, "/" + distDir], Configured(options, gitignore), PathString(path));
      BrokenIsMet(root, memo, rules, path);
    }
  }

  /** `files` is the flat listing and, where there is one, the lockfile; each file once, in order. */
  ghost predicate IsListingWith(files: seq<string>, listing: seq<string>, start: seq<string>, lockfile: Option<seq<string>>) {
    && StrictlySorted(files)
    && forall p :: p in files <==> p in listing || (lockfile.Some? && p == LockfileLabel(start, lockfile.value))
  }

  method AddLockfile(walked: seq<string>, start: seq<string>, lockfile: Option<seq<string>>) returns (files: seq<string>)
    requires NoDuplicates(walked)
    ensures IsListingWith(files, Sorting.Sort(LessOrEqual, walked), start, lockfile)
  {
    files := walked;
    if lockfile.Some? {
      var relative := LockfileLabel(start, lockfile.value);
      if relative !in files {
        files := files + [relative];
      }
    }
    SortIsStrict(files);
    Sorting.SortKeepsMembers(LessOrEqual, files);
    Sorting.SortKeepsMembers(LessOrEqual, walked);
    files := Sorting.Sort(LessOrEqual, files);
  }

  lemma ListingMeans(root: Node, memo: Memo, distDir: string, options: MemoOptions, gitignore: seq<string>)
    requires root.Directory? && WellFormed(root)
    requires AreIncludes(memo.included, options.included)
    requires memo.exclude == CompiledRules(ExcludeRules(distDir, Configured(options, gitignore)))
    ensures forall p :: p in FlatListing(memo, root)
                   <==> exists path :: IsHashed(root, distDir, options, gitignore, path) && p == PathString(path)
  {
    forall p
      ensures p in FlatListing(memo, root)
         <==> exists path :: IsHashed(root, distDir, options, gitignore, path) && p == PathString(path)
    {
      FlatListingMeans(root, memo, p);
      forall path {
        KeepsMeans(root, memo, distDir, options, gitignore, path);
      }
    }
  }

  lemma WalkedAreFiles(files: seq<string>, root: Node, memo: Memo, start: seq<string>, lockfile: Option<seq<string>>,
          distDir: string, options: MemoOptions, gitignore: seq<string>)
    requires root.Directory? && WellFormed(root) && NamesOnOneLine(root)
    requires AreIncludes(memo.included, options.included)
    requires memo.exclude == CompiledRules(ExcludeRules(distDir, Configured(options, gitignore)))
    requires IsListingWith(files, ListFiles(memo.Prunes, memo.Keeps, root), start, lockfile)
    ensures AreFilesOf(files, root, distDir, options, gitignore, LabelOf(start, lockfile))
  {
    WakuWalkIsFlatFilter(ExcludeRules(distDir, Configured(options, gitignore)), memo.included, root);
    ListingMeans(root, memo, distDir, options, gitignore);
  }

  /**
   The files whose contents are hashed; `present` is the file system above and at `start`, which `root`
   is. It fails exactly when an entry that no rule is about cannot be inspected.
   */
  method ListMemoFiles(present: seq<string> -> bool, start: seq<string>, root: Node, distDir: string,
          options: MemoOptions, gitignore: seq<string>)
    returns (ok: bool, files: seq<string>, lockfile: Option<seq<string>>)
    requires root.Directory? && WellFormed(root) && NamesOnOneLine(root)
    ensures ok <==> forall path :: !Blocks(root, distDir, options, gitignore, path)
    ensures ok ==> AreFilesOf(files, root, distDir, options, gitignore, LabelOf(start, lockfile))
    ensures ok && CountsLockfile(options) ==> IsNearest(present, start, LOCKFILE_NAMES, lockfile)
    ensures ok && !CountsLockfile(options) ==> lockfile.None?
  {
    files, lockfile := [], None;
    var memo, useLockfile := ResolveMemo(distDir, options, gitignore);
    var walker := new Walker(memo);
    ok := walker.Walk(root, "");
    BlockedMeans(root, memo, distDir, options, gitignore);
    if !ok {
      return;
    }
    if useLockfile {
      lockfile := FindUp(present, start, LOCKFILE_NAMES);
    }
    WalkHasNoDuplicates(memo.Prunes, memo.Keeps, root);
    assert walker.files == Tree.Walk(memo.Prunes, memo.Keeps, "", root);
    files := AddLockfile(walker.files, start, lockfile);
    WalkedAreFiles(files, root, memo, start, lockfile, distDir, options, gitignore);
  }
}
