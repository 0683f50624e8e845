/**
 Directory trees, and the pruning walk that packages/astro/src/source.ts and
 packages/waku/src/source.ts share: what it lists is stated against the files of the tree.
 */
module Tree {
  import opened Text
  import opened Sorting

  /** `Broken` is an entry whose `stat` fails, `Other` one that is neither file nor directory. */
  datatype Node = File | Other | Broken | Directory(entries: seq<Entry>)

  datatype Entry = Entry(name: string, node: Node)

  predicate ByName(a: Entry, b: Entry) {
    LessOrEqual(a.name, b.name)
  }

  /** The entries of a directory, in the order the walk visits them. */
  function Children(dir: Node): (es: seq<Entry>)
    requires dir.Directory?
    ensures forall e :: e in es <==> e in dir.entries
    ensures forall e :: e in es ==> e.node < dir
  {
    SortKeepsMembers(ByName, dir.entries);
    Sort(ByName, dir.entries)
  }

  predicate IsName(s: string) {
    s != "" && '/' !in s
  }

  /** Names are nonempty, free of slashes, and distinct within a directory. */
  predicate WellFormed(n: Node) {
    n.Directory? ==>
      && (forall i, j :: 0 <= i < j < |n.entries| ==> n.entries[i].name != n.entries[j].name)
      && (forall e :: e in n.entries ==> IsName(e.name) && WellFormed(e.node))
  }

  function ChildPath(rel: string, name: string): string {
    if rel == "" then name else rel + "/" + name
  }

  /** The files that the walk of `dir` lists: it enters no pruned directory and keeps some files. */
  function Walk(prune: string -> bool, keep: string -> bool, rel: string, dir: Node): seq<string>
    requires dir.Directory?
    decreases dir
  {
    WalkEntries(prune, keep, rel, Children(dir), dir)
  }

  function WalkEntries(prune: string -> bool, keep: string -> bool, rel: string,
          es: seq<Entry>, ghost bound: Node): seq<string>
    requires forall e :: e in es ==> e.node < bound
    decreases bound, |es|
  {
    if es == [] then []
    else Visit(prune, keep, ChildPath(rel, es[0].name), es[0].node) + WalkEntries(prune, keep, rel, es[1..], bound)
  }

  function Visit(prune: string -> bool, keep: string -> bool, path: string, node: Node): seq<string>
    decreases node
  {
    match node
    case File => if keep(path) then [path] else []
    case Directory(_) => if prune(path) then [] else WalkEntries(prune, keep, path, Children(node), node)
    case _ => []
  }

  /** What is listed when the entries before the `i`-th are done and when the `i`-th is done too. */
  lemma NextEntry(prune: string -> bool, keep: string -> bool, rel: string, es: seq<Entry>, bound: Node,
          i: nat, done: seq<string>)
    requires i < |es| && forall e :: e in es ==> e.node < bound
    ensures done + WalkEntries(prune, keep, rel, es[i..], bound)
         == (done + Visit(prune, keep, ChildPath(rel, es[i].name), es[i].node)) + WalkEntries(prune, keep, rel, es[i + 1..], bound)
  {
    assert es[i..][1..] == es[i + 1..];
    Reassociate(done, Visit(prune, keep, ChildPath(rel, es[i].name), es[i].node), WalkEntries(prune, keep, rel, es[i + 1..], bound));
  }

  // ----- reference: the files of a tree -----

  predicate FileAt(node: Node, path: seq<string>)
    decreases |path|
  {
    if path == [] then node.File?
    else node.Directory? && exists e :: e in node.entries && e.name == path[0] && FileAt(e.node, path[1..])
  }

  /** The path leads somewhere. */
  predicate Reaches(node: Node, path: seq<string>)
    decreases |path|
  {
    path == [] || (node.Directory? && exists e :: e in node.entries && e.name == path[0] && Reaches(e.node, path[1..]))
  }

  lemma {:induction false} FileIsReached(node: Node, path: seq<string>)
    requires FileAt(node, path)
    ensures Reaches(node, path)
    decreases |path|
  {
    if path != [] {
      var e :| e in node.entries && e.name == path[0] && FileAt(e.node, path[1..]);
      FileIsReached(e.node, path[1..]);
    }
  }

  function PathString(path: seq<string>): string {
    Join(path, '/')
  }

  /** No directory on the way from `prefix` to the file is pruned. */
  predicate Unpruned(prune: string -> bool, prefix: seq<string>, path: seq<string>) {
    forall k :: 0 < k < |path| ==> !prune(PathString(prefix + path[..k]))
  }

  /** The file at `path` below `prefix` is to be listed. */
  predicate IsListed(prune: string -> bool, keep: string -> bool, prefix: seq<string>, node: Node, path: seq<string>) {
    path != [] && FileAt(node, path) && Unpruned(prune, prefix, path) && keep(PathString(prefix + path))
  }

  predicate Names(path: seq<string>) {
    forall i :: 0 <= i < |path| ==> IsName(path[i])
  }

  lemma {:induction false} PathOfFileHasNames(node: Node, path: seq<string>)
    requires WellFormed(node) && FileAt(node, path)
    ensures Names(path)
    decreases |path|
  {
    if path != [] {
      var e :| e in node.entries && e.name == path[0] && FileAt(e.node, path[1..]);
      PathOfFileHasNames(e.node, path[1..]);
    }
  }

  lemma PathStringIsInjective(a: seq<string>, b: seq<string>)
    requires Names(a) && Names(b) && a != [] && b != [] && PathString(a) == PathString(b)
    ensures a == b
  {
    SplitOfJoin(a, '/');
    SplitOfJoin(b, '/');
  }

  lemma PathStringOfChild(prefix: seq<string>, name: string)
    requires Names(prefix) && IsName(name)
    ensures PathString(prefix + [name]) == ChildPath(PathString(prefix), name)
    ensures Names(prefix + [name])
  {
    if prefix == [] {
      assert prefix + [name] == [name];
    } else {
      JoinConcat(prefix, [name], '/');
    }
  }

  // ----- the walk lists exactly those files -----

  lemma {:induction false} WalkListsFiles(prune: string -> bool, keep: string -> bool, prefix: seq<string>,
          dir: Node, p: string)
    requires dir.Directory? && WellFormed(dir) && Names(prefix)
    ensures p in Walk(prune, keep, PathString(prefix), dir)
       <==> exists path :: IsListed(prune, keep, prefix, dir, path) && p == PathString(prefix + path)
    decreases dir, 1
  {
    var es := Children(dir);
    EntriesListFiles(prune, keep, prefix, es, dir, p);
    if path :| IsListed(prune, keep, prefix, dir, path) && p == PathString(prefix + path) {
      var e :| e in dir.entries && e.name == path[0] && FileAt(e.node, path[1..]);
      assert e in es && ListedBelow(prune, keep, prefix, e, path, p);
    }
    if e, path :| e in es && ListedBelow(prune, keep, prefix, e, path, p) {
      assert IsListed(prune, keep, prefix, dir, path);
    }
  }

  /** `path` leads through the entry `e` to a file that is to be listed as `p`. */
  predicate ListedBelow(prune: string -> bool, keep: string -> bool, prefix: seq<string>, e: Entry,
          path: seq<string>, p: string) {
    && path != [] && path[0] == e.name && FileAt(e.node, path[1..])
    && Unpruned(prune, prefix, path) && p == PathString(prefix + path) && keep(p)
  }

  lemma {:induction false} EntriesListFiles(prune: string -> bool, keep: string -> bool,
          prefix: seq<string>, es: seq<Entry>, bound: Node, p: string)
    requires Names(prefix)
    requires forall e :: e in es ==> e.node < bound && IsName(e.name) && WellFormed(e.node)
    ensures p in WalkEntries(prune, keep, PathString(prefix), es, bound)
       <==> exists e, path :: e in es && ListedBelow(prune, keep, prefix, e, path, p)
    decreases bound, 0, |es|
  {
    if es != [] {
      EntriesListFiles(prune, keep, prefix, es[1..], bound, p);
      VisitListsFiles(prune, keep, prefix, es[0], p);
      var rel := PathString(prefix);
      PathStringOfChild(prefix, es[0].name);
      assert p in WalkEntries(prune, keep, rel, es, bound)
        <==> p in Visit(prune, keep, ChildPath(rel, es[0].name), es[0].node) || p in WalkEntries(prune, keep, rel, es[1..], bound);
      assert forall e :: e in es <==> e == es[0] || e in es[1..];
    }
  }

  lemma {:induction false} VisitListsFiles(prune: string -> bool, keep: string -> bool, prefix: seq<string>,
          e: Entry, p: string)
    requires Names(prefix) && IsName(e.name) && WellFormed(e.node)
    ensures p in Visit(prune, keep, ChildPath(PathString(prefix), e.name), e.node)
       <==> exists path :: ListedBelow(prune, keep, prefix, e, path, p)
    decreases e.node, 2
  {
    var here := prefix + [e.name];
    PathStringOfChild(prefix, e.name);
    match e.node
    case File =>
      FileIsListed(prune, keep, prefix, e, p);
    case Directory(_) =>
      WalkListsFiles(prune, keep, here, e.node, p);
      if p in Visit(prune, keep, PathString(here), e.node) {
        var path :| IsListed(prune, keep, here, e.node, path) && p == PathString(here + path);
        StepInto(prune, keep, prefix, e, path, p);
      }
      if path :| ListedBelow(prune, keep, prefix, e, path, p) {
        StepOut(prune, keep, prefix, e, path, p);
      }
    case _ =>
      if path :| ListedBelow(prune, keep, prefix, e, path, p) {
        assert false;
      }
  }

  lemma FileIsListed(prune: string -> bool, keep: string -> bool, prefix: seq<string>, e: Entry, p: string)
    requires e.node.File?
    ensures keep(p) && p == PathString(prefix + [e.name]) <==> exists path :: ListedBelow(prune, keep, prefix, e, path, p)
  {
    if keep(p) && p == PathString(prefix + [e.name]) {
      assert [e.name][1..] == [];
      assert ListedBelow(prune, keep, prefix, e, [e.name], p);
    }
    if path :| ListedBelow(prune, keep, prefix, e, path, p) {
      assert path[1..] == [];
      assert path == [e.name];
    }
  }

  lemma StepInto(prune: string -> bool, keep: string -> bool, prefix: seq<string>, e: Entry,
          path: seq<string>, p: string)
    requires IsListed(prune, keep, prefix + [e.name], e.node, path) && p == PathString(prefix + [e.name] + path)
    requires !prune(PathString(prefix + [e.name]))
    ensures ListedBelow(prune, keep, prefix, e, [e.name] + path, p)
  {
    var whole := [e.name] + path;
    assert whole[1..] == path && prefix + whole == prefix + [e.name] + path;
    forall k | 0 < k < |whole|
      ensures !prune(PathString(prefix + whole[..k]))
    {
      assert prefix + whole[..k] == prefix + [e.name] + path[..k - 1];
      if k == 1 {
        assert prefix + whole[..k] == prefix + [e.name];
      }
    }
  }

  lemma StepOut(prune: string -> bool, keep: string -> bool, prefix: seq<string>, e: Entry,
          path: seq<string>, p: string)
    requires ListedBelow(prune, keep, prefix, e, path, p) && e.node.Directory?
    ensures !prune(PathString(prefix + [e.name]))
    ensures IsListed(prune, keep, prefix + [e.name], e.node, path[1..]) && p == PathString(prefix + [e.name] + path[1..])
  {
    assert path == [e.name] + path[1..];
    assert prefix + path[..1] == prefix + [e.name];
    assert prefix + path == prefix + [e.name] + path[1..];
    forall k | 0 < k < |path[1..]|
      ensures !prune(PathString(prefix + [e.name] + path[1..][..k]))
    {
      assert prefix + path[..k + 1] == prefix + [e.name] + path[1..][..k];
    }
  }
}
