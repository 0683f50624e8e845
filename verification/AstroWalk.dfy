/** `listFiles` of packages/astro/src/source.ts, and the files that its `hashDirectory` hashes. */
module AstroWalk {
  import opened Options
  import opened Text
  import opened Regex
  import opened Glob
  import opened AstroGlob
  import opened Tree
  import opened Listing
  import opened Lockfiles
  import Sorting

  datatype Filters = Filters(included: Option<seq<Rx>>, ignoreRules: seq<IgnoreRule>, exclude: seq<Rx>) {
    /** A directory that the walk does not enter. */
    predicate Prunes(rel: string) {
      Ignored(ignoreRules, rel, true) || MatchesAny(exclude, rel) || MatchesAny(exclude, rel + "/")
    }

    predicate Keeps(rel: string) {
      && !Ignored(ignoreRules, rel, false)
      && !MatchesAny(exclude, rel)
      && (included.Some? ==> MatchesAny(included.value, rel))
    }
  }

  /** Some of the expressions matches. */
  ghost predicate Hits(regexes: seq<Rx>, p: string) {
    exists regex :: regex in regexes && Test(regex, p)
  }

  lemma SomeMatches(regexes: seq<Rx>, p: string)
    ensures MatchesAny(regexes, p) <==> Hits(regexes, p)
  {
    if regex :| regex in regexes && Test(regex, p) {
      var k :| 0 <= k < |regexes| && regexes[k] == regex;
    }
  }

  /** A file that a rule ignores, an expression excludes, or no include expression is about. */
  ghost predicate IsLeftOut(filters: Filters, file: string) {
    || Ignored(filters.ignoreRules, file, false) || Hits(filters.exclude, file)
    || (filters.included.Some? && !Hits(filters.included.value, file))
  }

  /** A directory that a rule ignores or that an expression excludes, with or without a slash behind it. */
  ghost predicate IsShut(filters: Filters, dir: string) {
    Ignored(filters.ignoreRules, dir, true) || Hits(filters.exclude, dir) || Hits(filters.exclude, dir + "/")
  }

  class Lister {
    const filters: Filters
    var files: seq<string>

    constructor (filters: Filters)
      ensures this.filters == filters && files == []
    {
      this.filters := filters;
      files := [];
    }

    method Walk(relative: string, dir: Node)
      requires dir.Directory?
      modifies this`files
      ensures files == old(files) + Tree.Walk(filters.Prunes, filters.Keeps, relative, dir)
      decreases dir, 0
    {
      ghost var before := files;
      var entries := Children(dir);
      for i := 0 to |entries|
        invariant files + WalkEntries(filters.Prunes, filters.Keeps, relative, entries[i..], dir)
               == before + Tree.Walk(filters.Prunes, filters.Keeps, relative, dir)
      {
        var rel := if relative == "" then entries[i].name else relative + "/" + entries[i].name;
        NextEntry(filters.Prunes, filters.Keeps, relative, entries, dir, i, files);
        Inspect(rel, entries[i].node);
      }
      assert entries[|entries|..] == [];
    }

    /** The body of the walk's loop, for one entry. */
    method Inspect(rel: string, node: Node)
      modifies this`files
      ensures files == old(files) + Visit(filters.Prunes, filters.Keeps, rel, node)
      ensures node.File? ==> files == old(files) + if IsLeftOut(filters, rel) then [] else [rel]
      ensures node.Directory? && IsShut(filters, rel) ==> files == old(files)
      decreases node, 1
    {
      SomeMatches(filters.exclude, rel);
      SomeMatches(filters.exclude, rel + "/");
      if filters.included.Some? {
        SomeMatches(filters.included.value, rel);
      }
      if node.Broken? {
        return;
      }
      if node.Directory? {
        var ignored := IsIgnored(filters.ignoreRules, rel, true);
        if ignored || MatchesAny(filters.exclude, rel) || MatchesAny(filters.exclude, rel + "/") {
          return;
        }
        Walk(rel, node);
        return;
      }
      if !node.File? {
        return;
      }
      var ignored := IsIgnored(filters.ignoreRules, rel, false);
      if ignored {
        return;
      }
      if MatchesAny(filters.exclude, rel) {
        return;
      }
      if filters.included.Some? && !MatchesAny(filters.included.value, rel) {
        return;
      }
      files := files + [rel];
    }
  }

  /**
   The path leads to a file that no ignore rule and no exclude expression is about and that an include
   expression is about, where there are any; and no directory on the way is ignored or excluded.
   */
  ghost predicate IsWanted(root: Node, filters: Filters, path: seq<string>) {
    && path != [] && FileAt(root, path) && !IsLeftOut(filters, PathString(path))
    && forall k :: 0 < k < |path| ==> !IsShut(filters, PathString(path[..k]))
  }

  lemma ListedIsWanted(root: Node, filters: Filters, path: seq<string>)
    ensures IsListed(filters.Prunes, filters.Keeps, [], root, path) <==> IsWanted(root, filters, path)
  {
    assert [] + path == path;
    SomeMatches(filters.exclude, PathString(path));
    if filters.included.Some? {
      SomeMatches(filters.included.value, PathString(path));
    }
    forall k | 0 < k < |path|
      ensures filters.Prunes(PathString([] + path[..k])) <==> IsShut(filters, PathString(path[..k]))
    {
      assert [] + path[..k] == path[..k];
      SomeMatches(filters.exclude, PathString(path[..k]));
      SomeMatches(filters.exclude, PathString(path[..k]) + "/");
    }
  }

  /** The listing: sorted, each file once, and exactly the wanted files. */
  method ListAllFiles(root: Node, filters: Filters) returns (files: seq<string>)
    requires root.Directory? && WellFormed(root)
    ensures files == ListFiles(filters.Prunes, filters.Keeps, root)
    ensures StrictlySorted(files)
    ensures forall p :: p in files <==> exists path :: IsWanted(root, filters, path) && p == PathString(path)
  {
    var lister := new Lister(filters);
    lister.Walk("", root);
    assert [] + Tree.Walk(filters.Prunes, filters.Keeps, "", root) == Tree.Walk(filters.Prunes, filters.Keeps, "", root);
    files := Sorting.Sort(LessOrEqual, lister.files);
    ListingIsExact(filters.Prunes, filters.Keeps, root);
    forall path {
      ListedIsWanted(root, filters, path);
    }
    assert forall path :: IsListed(filters.Prunes, filters.Keeps, [], root, path) <==> IsWanted(root, filters, path);
  }

  /**
   A later negated rule does not bring back a file whose directory is ignored: only a rule about the
   directory itself can.
   */
  lemma NegationDoesNotRevive(filters: Filters, rule: IgnoreRule, root: Node, dir: string, below: string)
    requires root.Directory? && WellFormed(root)
    requires Ignored(filters.ignoreRules, dir, true) && !Applies(rule, dir, true)
    ensures
      var more := filters.(ignoreRules := filters.ignoreRules + [rule]);
      dir + "/" + below !in ListFiles(more.Prunes, more.Keeps, root)
  {
    var more := filters.(ignoreRules := filters.ignoreRules + [rule]);
    IgnoredStep(filters.ignoreRules, rule, dir, true);
    NothingBelowPruned(more.Prunes, more.Keeps, root, dir, below);
  }

  // ----- the files that are hashed -----

  /** Some glob is about the path; `./` in front of a glob is no part of it. */
  predicate AnyGlobAccepts(globs: seq<string>, p: string) {
    exists glob :: glob in globs && Accepts(Tokens(if StartsWith(glob, "./") then glob[2..] else glob, true, true), p)
  }

  /**
   The path leads to a file that a glob is about, where there are any; and neither the file nor a
   directory on the way is left out, by globs if there are any and by ignore lines if not.
   */
  ghost predicate IsHashed(root: Node, options: MemoOptions, gitignore: seq<string>, path: seq<string>) {
    var p := PathString(path);
    && path != [] && FileAt(root, path)
    && (options.included.Some? ==> AnyGlobAccepts(options.included.value, p))
    && match options.excluded {
         case Some(globs) =>
           && !AnyGlobAccepts(globs, p)
           && forall k :: 0 < k < |path| ==>
                !AnyGlobAccepts(globs, PathString(path[..k])) && !AnyGlobAccepts(globs, PathString(path[..k]) + "/")
         case None =>
           && !LinesIgnore([".git/"] + gitignore, p, false)
           && forall k :: 0 < k < |path| ==> !LinesIgnore([".git/"] + gitignore, PathString(path[..k]), true)
       }
  }

  ghost predicate AreGlobs(regexes: seq<Rx>, globs: seq<string>) {
    forall p :: (exists regex :: regex in regexes && Test(regex, p)) <==> AnyGlobAccepts(globs, p)
  }

  lemma GlobsMean(regexes: seq<Rx>, globs: seq<string>)
    requires |regexes| == |globs| && forall i :: 0 <= i < |globs| ==> IsRegexOf(regexes[i], globs[i])
    ensures AreGlobs(regexes, globs)
  {
    forall p
      ensures (exists regex :: regex in regexes && Test(regex, p)) <==> AnyGlobAccepts(globs, p)
    {
      if regex :| regex in regexes && Test(regex, p) {
        var k :| 0 <= k < |regexes| && regexes[k] == regex;
        assert globs[k] in globs && IsRegexOf(regexes[k], globs[k]);
      }
      if glob :| glob in globs && Accepts(Tokens(if StartsWith(glob, "./") then glob[2..] else glob, true, true), p) {
        var k :| 0 <= k < |globs| && globs[k] == glob;
        assert IsRegexOf(regexes[k], globs[k]) && regexes[k] in regexes;
      }
    }
  }

  /** The filters say what the options and the ignore lines say. */
  ghost predicate AreFilters(filters: Filters, options: MemoOptions, gitignore: seq<string>) {
    && (filters.included.Some? <==> options.included.Some?)
    && (filters.included.Some? ==> AreGlobs(filters.included.value, options.included.value))
    && match options.excluded {
         case Some(globs) => AreGlobs(filters.exclude, globs) && filters.ignoreRules == []
         case None => filters.exclude == [] && AreRulesOf(filters.ignoreRules, [".git/"] + gitignore)
       }
  }

  method CompileFilters(options: MemoOptions, gitignore: seq<string>) returns (filters: Filters)
    ensures AreFilters(filters, options, gitignore)
  {
    var included, exclude, ignoreRules := None, [], [];
    if options.included.Some? {
      var regexes := CompileGlobs(options.included.value);
      GlobsMean(regexes, options.included.value);
      included := Some(regexes);
    }
    if options.excluded.Some? {
      exclude := CompileGlobs(options.excluded.value);
      GlobsMean(exclude, options.excluded.value);
    } else {
      ignoreRules := CompileIgnoreRules([".git/"] + gitignore);
    }
    filters := Filters(included, ignoreRules, exclude);
  }

  lemma WantedIsHashed(root: Node, filters: Filters, options: MemoOptions, gitignore: seq<string>, path: seq<string>)
    requires AreFilters(filters, options, gitignore)
    ensures IsWanted(root, filters, path) <==> IsHashed(root, options, gitignore, path)
  {
    var p := PathString(path);
    if options.excluded.Some? {
      assert forall d, isDirectory :: !Ignored(filters.ignoreRules, d, isDirectory);
    }
  }

  /** The hashed files, each once, in order; and behind them the lockfile where there is one that is not among them. */
  ghost predicate AreFilesOf(files: seq<string>, root: Node, options: MemoOptions, gitignore: seq<string>,
          lockfile: Option<string>) {
    exists listing :: IsListing(listing, root, options, gitignore) && files == WithLockfile(listing, lockfile)
  }

  ghost predicate IsListing(listing: seq<string>, root: Node, options: MemoOptions, gitignore: seq<string>) {
    && StrictlySorted(listing)
    && forall p :: p in listing <==> exists path :: IsHashed(root, options, gitignore, path) && p == PathString(path)
  }

  function WithLockfile(listing: seq<string>, lockfile: Option<string>): seq<string> {
    listing + if lockfile.Some? && lockfile.value !in listing then [lockfile.value] else []
  }

  /** `hashDirectory` up to the reading of the files; `present` is the file system above and at `start`, which `root` is. */
  method HashedFiles(present: seq<string> -> bool, start: seq<string>, root: Node, options: MemoOptions, gitignore: seq<string>)
    returns (files: seq<string>, lockfile: Option<seq<string>>)
    requires root.Directory? && WellFormed(root)
    ensures AreFilesOf(files, root, options, gitignore, LabelOf(start, lockfile))
    ensures if CountsLockfile(options) then IsNearest(present, start, LOCKFILE_NAMES, lockfile) else lockfile.None?
  {
    lockfile := None;
    var filters := CompileFilters(options, gitignore);
    var useLockfile := if options.lockfile.Some? then options.lockfile.value
                       else !(options.included.Some? || options.excluded.Some?);
    files := ListAllFiles(root, filters);
    ghost var listing := files;
    forall path {
      WantedIsHashed(root, filters, options, gitignore, path);
    }
    assert IsListing(listing, root, options, gitignore);
    if useLockfile {
      lockfile := FindUp(present, start, LOCKFILE_NAMES);
      if lockfile.Some? {
        var rel := LockfileLabel(start, lockfile.value);
        if rel !in files {
          files := files + [rel];
        }
      }
    }
    assert files == WithLockfile(listing, LabelOf(start, lockfile));
  }
}
