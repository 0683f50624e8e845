/**
 The rebuild-deciding input hash: `hashAstroInput` (packages/astro/src/source.ts), `hashWakuInput`
 (packages/waku/src/source.ts) and the workspaces a build reports (packages/framework-core/src/Collector.ts).
 Hash functions and directory contents are parameters.
 */
module Memo {
  import opened Options
  import opened Text
  import opened Sorting
  import opened Paths
  import opened Listing

  function Map<A, B>(f: A -> B, xs: seq<A>): seq<B> {
    if xs == [] then [] else [f(xs[0])] + Map(f, xs[1..])
  }

  /** `[...new Set(xs)]`: the first occurrence of each element. */
  function Distinct(xs: seq<string>): seq<string> {
    if xs == [] then []
    else
      var before := Distinct(xs[..|xs| - 1]);
      if xs[|xs| - 1] in before then before else before + [xs[|xs| - 1]]
  }

  /** A workspace configured by hand: its directory, and that directory's hash under its own options. */
  datatype Explicit = Explicit(cwd: string, hashOf: string -> string)

  /** A workspace as it enters the hash. */
  datatype Labelled = Labelled(name: string, hash: string) {
    function Text(): string {
      name + ":" + hash
    }
  }

  function SortedTexts(es: seq<Labelled>): seq<string> {
    Sort(LessOrEqual, Map((e: Labelled) => e.Text(), es))
  }

  /** What a project fixes: its root, this integration's own package, and the hashes of directories. */
  datatype Project = Project(
    root: string,
    ownPackage: Option<string>,
    salt: string,
    rootHash: string,
    directoryHash: string -> string,
    sha: seq<string> -> string,
    explicitWorkspaces: Option<seq<Explicit>>)
  {
    function ToRelative(cwd: string): string {
      ToSlashes(if IsAbsolute(cwd) then Relative(root, cwd) else Normalize(cwd))
    }

    predicate IsOwnPackage(cwd: string) {
      ownPackage.Some? &&
      var resolved := Resolve(root, cwd);
      resolved == ownPackage.value || StartsWith(resolved, ownPackage.value + "/")
    }

    function RelativeWorkspaces(workspaces: seq<string>): seq<string> {
      Sort(LessOrEqual, Distinct(Map(w => ToRelative(w), Filter(w => !IsOwnPackage(w), workspaces))))
    }

    /** What is hashed beside the root: the configured workspaces, or else the given ones. */
    function Entries(workspaces: seq<string>): seq<Labelled> {
      match explicitWorkspaces
      case Some(es) => Map((e: Explicit) => Labelled(ToRelative(e.cwd), e.hashOf(Resolve(root, ToRelative(e.cwd)))), es)
      case None => Map(r => Labelled(r, directoryHash(Resolve(root, r))), RelativeWorkspaces(workspaces))
    }

    function Material(workspaces: seq<string>): seq<string> {
      [salt, ":" + rootHash] + SortedTexts(Entries(workspaces))
    }

    /** The input hash and the workspaces to be remembered with it. */
    function HashInput(workspaces: seq<string>): (string, Option<seq<string>>) {
      (sha(Material(workspaces)), if explicitWorkspaces.Some? then None else Some(RelativeWorkspaces(workspaces)))
    }

    /** `hash`: the same recipe on what an earlier result remembered. */
    function Rehash(previous: (string, Option<seq<string>>)): (string, Option<seq<string>>) {
      HashInput(if previous.1.Some? then previous.1.value else [])
    }

    /** A label that hashing again takes over as it is. */
    predicate Stays(r: string) {
      !IsAbsolute(r) && Normalize(r) == r && !IsOwnPackage(r)
    }

    /** A label that starts with a slash and leads to the root. */
    predicate NamesRoot(r: string) {
      IsAbsolute(r) && SegmentsOf(r) == SegmentsOf(root)
    }
  }

  // ----- sequences -----

  lemma {:induction false} MapMembers<A, B>(f: A -> B, xs: seq<A>)
    ensures |Map(f, xs)| == |xs| && forall i :: 0 <= i < |xs| ==> Map(f, xs)[i] == f(xs[i])
  {
    if xs != [] {
      MapMembers(f, xs[1..]);
    }
  }

  lemma {:induction false} DistinctMembers(xs: seq<string>)
    ensures NoDuplicates(Distinct(xs)) && forall x :: x in Distinct(xs) <==> x in xs
    ensures NoDuplicates(xs) ==> Distinct(xs) == xs
  {
    if xs != [] {
      var last := |xs| - 1;
      DistinctMembers(xs[..last]);
      assert xs == xs[..last] + [xs[last]];
      assert forall x :: x in xs <==> x == xs[last] || x in xs[..last];
    }
  }

  lemma WorkspaceMembers(project: Project, ws: seq<string>)
    ensures StrictlySorted(project.RelativeWorkspaces(ws))
    ensures forall r :: r in project.RelativeWorkspaces(ws)
              <==> exists w :: w in ws && !project.IsOwnPackage(w) && r == project.ToRelative(w)
  {
    var f, p := w => project.ToRelative(w), w => !project.IsOwnPackage(w);
    var mapped := Map(f, Filter(p, ws));
    DistinctMembers(mapped);
    SortIsStrict(Distinct(mapped));
    SortKeepsMembers(LessOrEqual, Distinct(mapped));
    MapFilterMembers(f, p, ws);
  }

  lemma MapFilterMembers(f: string -> string, p: string -> bool, xs: seq<string>)
    ensures forall r :: r in Map(f, Filter(p, xs)) <==> exists x :: x in xs && p(x) && r == f(x)
  {
    var kept := Filter(p, xs);
    var mapped := Map(f, kept);
    FilterMembers(p, xs);
    MapMembers(f, kept);
    forall r | r in mapped
      ensures exists x :: x in xs && p(x) && r == f(x)
    {
      var i :| 0 <= i < |mapped| && mapped[i] == r;
      assert kept[i] in kept;
    }
    forall x | x in xs && p(x)
      ensures f(x) in mapped
    {
      var i :| 0 <= i < |kept| && kept[i] == x;
      assert mapped[i] == f(x);
    }
  }

  /** A strictly sorted list of labels that stay is a fixed point. */
  lemma StayingIsFixed(project: Project, labels: seq<string>)
    requires StrictlySorted(labels) && Portable(labels) && forall r :: r in labels ==> project.Stays(r)
    ensures project.RelativeWorkspaces(labels) == labels
  {
    WorkspaceMembers(project, labels);
    forall r | r in labels
      ensures project.ToRelative(r) == r
    {
      ToSlashesIsIdentity(r);
    }
    SortedByMembers(project.RelativeWorkspaces(labels), labels);
  }

  // ----- Astro -----

  /** A directory's path from the root, as text. */
  lemma RelativeText(root: string, w: string)
    ensures
      var r := Relative(root, w);
      && !IsAbsolute(r) && (r == "" <==> SegmentsOf(w) == SegmentsOf(root))
      && Normalize(r) == if r == "" then "." else r
  {
    var from, to := SegmentsOf(root), SegmentsOf(w);
    SegmentsAreClean(root);
    SegmentsAreClean(w);
    NormalizeOfRelative(from, to);
    RelativeSegmentsAreProper(from, to);
    TextOfSegments(RelativeSegments(from, to));
  }

  lemma RelativeNoBackslash(root: string, w: string)
    requires '\\' !in w
    ensures '\\' !in Relative(root, w)
  {
    SplitNoBackslash(w);
    PushNoBackslash([], Split(w, '/'), false);
    JoinNoBackslash(RelativeSegments(SegmentsOf(root), SegmentsOf(w)));
  }

  /** Replacing backslashes in the path from the root keeps the directory exactly when there are none. */
  lemma LabelLeadsBack(root: string, w: string)
    requires IsAbsolute(w)
    ensures Resolve(root, ToSlashes(Relative(root, w))) == Resolve(root, w) <==> '\\' !in Relative(root, w)
  {
    var from, to, text := SegmentsOf(root), SegmentsOf(w), ToSlashes(Relative(root, w));
    SegmentsAreClean(root);
    SegmentsAreClean(w);
    SlashedResolvesBack(from, to);
    ResolvedIsClean(from, text);
    SegmentsOfAbsolute(ResolveSegments(from, text));
    SegmentsOfAbsolute(to);
  }

  /** The relative form of a workspace: whether it leads back, and whether it is empty. */
  lemma RelativeForm(project: Project, w: string)
    requires IsAbsolute(w)
    ensures
      var r := project.ToRelative(w);
      && (Resolve(project.root, r) == Resolve(project.root, w) <==> '\\' !in Relative(project.root, w))
      && (r == "" <==> SegmentsOf(w) == SegmentsOf(project.root))
      && ('\\' !in Relative(project.root, w) ==> r == Relative(project.root, w))
  {
    RelativeText(project.root, w);
    LabelLeadsBack(project.root, w);
    if '\\' !in Relative(project.root, w) {
      ToSlashesIsIdentity(Relative(project.root, w));
    }
  }

  predicate Portable(labels: seq<string>) {
    forall r :: r in labels ==> '\\' !in r
  }

  lemma TranslateAgain(project: Project, r: string)
    requires '\\' !in r
    ensures
      var s := project.ToRelative(r);
      && !IsAbsolute(s) && '\\' !in s
      && (s == "" <==> project.NamesRoot(r))
      && (!project.IsOwnPackage(r) ==> (project.Stays(s) <==> s != ""))
  {
    if IsAbsolute(r) {
      RelativeNoBackslash(project.root, r);
      RelativeForm(project, r);
      RelativeText(project.root, r);
    } else {
      NormalizeRelative(r, SegmentsOf(project.root));
      NormalizeNoBackslash(r);
      ToSlashesIsIdentity(Normalize(r));
    }
  }

  lemma Round(project: Project, labels: seq<string>, s: string)
    requires Portable(labels) && s in project.RelativeWorkspaces(labels)
    ensures !IsAbsolute(s) && '\\' !in s && (project.Stays(s) <==> s != "")
    ensures s == "" ==> exists r :: r in labels && !project.IsOwnPackage(r) && project.NamesRoot(r)
  {
    WorkspaceMembers(project, labels);
    var r :| r in labels && !project.IsOwnPackage(r) && s == project.ToRelative(r);
    TranslateAgain(project, r);
  }

  /** Translated again, labels make a list whose members stay, unless one of them led to the root. */
  lemma RoundIsFixed(project: Project, labels: seq<string>)
    requires Portable(labels)
    ensures
      var again := project.RelativeWorkspaces(labels);
      && Portable(again) && (forall s :: s in again ==> !IsAbsolute(s) && (project.Stays(s) <==> s != ""))
      && ("" in again <==> exists r :: r in labels && !project.IsOwnPackage(r) && project.NamesRoot(r))
      && (project.RelativeWorkspaces(again) == again <==> "" !in again)
  {
    var again := project.RelativeWorkspaces(labels);
    WorkspaceMembers(project, labels);
    forall s | s in again
      ensures !IsAbsolute(s) && '\\' !in s && (project.Stays(s) <==> s != "")
    {
      Round(project, labels, s);
    }
    if "" in again {
      Round(project, labels, "");
      if "" in project.RelativeWorkspaces(again) {
        Round(project, again, "");
      }
    } else {
      StayingIsFixed(project, again);
    }
    forall r | r in labels && !project.IsOwnPackage(r) && project.NamesRoot(r)
      ensures "" in again
    {
      TranslateAgain(project, r);
    }
  }

  lemma FirstRound(project: Project, ws: seq<string>)
    ensures Portable(project.RelativeWorkspaces(ws)) && StrictlySorted(project.RelativeWorkspaces(ws))
  {
    WorkspaceMembers(project, ws);
  }

  /** The label of every workspace, own package aside, is relative, normal and not the own package's. */
  predicate AllStay(project: Project, ws: seq<string>) {
    forall w :: w in ws && !project.IsOwnPackage(w) ==> project.Stays(project.ToRelative(w))
  }

  /**
   On an unchanged project, hashing again with the workspaces that a build returned gives the same
   hash and the same workspaces exactly when every label stays.
   */
  lemma MemoIsFixedPoint(project: Project, ws: seq<string>)
    ensures project.Rehash(project.HashInput(ws)) == project.HashInput(ws) <==> project.explicitWorkspaces.Some? || AllStay(project, ws)
  {
    var first := project.RelativeWorkspaces(ws);
    FirstRound(project, ws);
    WorkspaceMembers(project, ws);
    if AllStay(project, ws) {
      StayingIsFixed(project, first);
    } else if project.RelativeWorkspaces(first) == first {
      RoundIsFixed(project, first);
    }
  }

  /** Some reported workspace is the project root itself. */
  predicate ReportsRoot(project: Project, ws: seq<string>) {
    exists w :: w in ws && !project.IsOwnPackage(w) && SegmentsOf(w) == SegmentsOf(project.root)
  }

  /** Absolute directories whose paths from the root have no backslash. */
  predicate PortableFrom(root: string, ws: seq<string>) {
    forall w :: w in ws ==> IsAbsolute(w) && '\\' !in Relative(root, w)
  }

  /** For such workspaces that is the case exactly when none is the root itself. */
  lemma PortableMemoIsFixedPoint(project: Project, ws: seq<string>)
    requires PortableFrom(project.root, ws)
    ensures project.Rehash(project.HashInput(ws)) == project.HashInput(ws)
       <==> project.explicitWorkspaces.Some? || !ReportsRoot(project, ws)
  {
    MemoIsFixedPoint(project, ws);
    forall w | w in ws && !project.IsOwnPackage(w)
      ensures project.Stays(project.ToRelative(w)) <==> SegmentsOf(w) != SegmentsOf(project.root)
    {
      RelativeForm(project, w);
      RelativeText(project.root, w);
    }
  }

  lemma NotStaying(project: Project, w: string)
    requires project.explicitWorkspaces.None? && !project.IsOwnPackage(w) && !project.Stays(project.ToRelative(w))
    ensures project.Rehash(project.HashInput([w])) != project.HashInput([w])
  {
    assert w in [w];
    MemoIsFixedPoint(project, [w]);
  }

  /** A reported root: first remembered as the empty text, then as a dot. */
  lemma ReportedRootIsNotFixed(project: Project, w: string)
    requires project.root == "/p" && w == "/p" && project.ownPackage.None? && project.explicitWorkspaces.None?
    ensures project.Rehash(project.HashInput([w])) != project.HashInput([w])
  {
    RelativeText(project.root, w);
    NotStaying(project, w);
  }

  lemma OneBelow(root: string, dir: string, name: string)
    requires IsClean(dir) && IsClean(name) && root == "/" + dir
    ensures Relative(root, root + "/" + name) == name && Resolve(root, root + "/" + name) == root + "/" + name
  {
    assert Join([dir], '/') == dir && [dir, name][1..] == [name] && Join([name], '/') == name;
    assert AbsolutePath([dir]) == root;
    assert AbsolutePath([dir, name]) == root + "/" + name;
    SegmentsOfAbsolute([dir]);
    SegmentsOfAbsolute([dir, name]);
    CommonPrefixIsLongest([dir], [dir, name], 1);
    assert RelativeSegments([dir], [dir, name]) == [name];
  }

  lemma JoinUp(a: string, b: string)
    ensures Join([a, "..", b], '/') == a + "/../" + b
  {
    JoinConcat([a], ["..", b], '/');
    JoinConcat([".."], [b], '/');
    assert [a] + ["..", b] == [a, "..", b] && [".."] + [b] == ["..", b];
    assert a + ['/'] + (".." + ['/'] + b) == a + "/../" + b;
  }

  lemma PushUp(a: string, b: string)
    requires IsClean(a) && IsClean(b)
    ensures PushAll([], [a, "..", b], true) == [b]
  {
    var segs := [a, "..", b];
    assert segs[1..] == ["..", b] && ["..", b][1..] == [b] && [b][1..] == [] && [a][..0] == [];
    assert PushAll([], segs, true) == PushAll([a], ["..", b], true) == PushAll([], [b], true) == [b];
  }

  lemma UpAgain(a: string, b: string)
    requires IsClean(a) && IsClean(b)
    ensures Normalize(a + "/../" + b) == b
  {
    JoinUp(a, b);
    PushUp(a, b);
    SplitOfJoin([a, "..", b], '/');
    NoTrailingSlash([a, "..", b]);
  }

  lemma SlashedName(name: string, slashed: string, a: string, b: string)
    requires name == "a\\..\\b" && slashed == "a/../b" && a == "a" && b == "b"
    ensures ToSlashes(name) == slashed == a + "/../" + b && IsClean(name) && IsClean(a) && IsClean(b) && b != slashed
    ensures '\\' !in b && !IsAbsolute(slashed)
  {
  }

  lemma NotFixed(project: Project, w: string, slashed: string, a: string, b: string)
    requires project.ownPackage.None? && project.explicitWorkspaces.None?
    requires IsAbsolute(w) && ToSlashes(Relative(project.root, w)) == slashed == a + "/../" + b
    requires IsClean(a) && IsClean(b) && b != slashed && '\\' !in b && !IsAbsolute(slashed)
    ensures project.ToRelative(w) == slashed && project.ToRelative(slashed) == b
    ensures project.Rehash(project.HashInput([w])) != project.HashInput([w])
  {
    UpAgain(a, b);
    ToSlashesIsIdentity(b);
    NotStaying(project, w);
  }

  /** A directory called `a\..\b`: first remembered as `a/../b`, then as `b`. */
  lemma BackslashNameIsNotFixed(project: Project, name: string, slashed: string, a: string, b: string)
    requires project.root == "/p" && project.ownPackage.None? && project.explicitWorkspaces.None?
    requires name == "a\\..\\b" && slashed == "a/../b" && a == "a" && b == "b"
    ensures project.ToRelative(project.root + "/" + name) == slashed && project.ToRelative(slashed) == b
    ensures project.Rehash(project.HashInput([project.root + "/" + name])) != project.HashInput([project.root + "/" + name])
  {
    SlashedName(name, slashed, a, b);
    OneBelow(project.root, "p", name);
    NotFixed(project, project.root + "/" + name, slashed, a, b);
  }

  /** Some label of a workspace starts with a slash and leads to the root. */
  predicate LabelsRoot(project: Project, ws: seq<string>) {
    exists w :: w in ws && !project.IsOwnPackage(w)
      && !project.IsOwnPackage(project.ToRelative(w)) && project.NamesRoot(project.ToRelative(w))
  }

  /** The second result is a fixed point unless a label names the root; the third one always is. */
  lemma SettlesAfterOneMoreRound(project: Project, ws: seq<string>)
    ensures
      var second := project.Rehash(project.HashInput(ws));
      var third := project.Rehash(second);
      && (third == second <==> project.explicitWorkspaces.Some? || !LabelsRoot(project, ws))
      && project.Rehash(third) == third
    ensures PortableFrom(project.root, ws) ==> !LabelsRoot(project, ws)
  {
    var first := project.RelativeWorkspaces(ws);
    var second := project.RelativeWorkspaces(first);
    FirstRound(project, ws);
    WorkspaceMembers(project, ws);
    RoundIsFixed(project, first);
    RoundIsFixed(project, second);
    if PortableFrom(project.root, ws) {
      forall w | w in ws
        ensures !IsAbsolute(project.ToRelative(w))
      {
        RelativeForm(project, w);
        RelativeText(project.root, w);
      }
    }
  }

  // ----- the workspaces a build reports -----

  /** The nearest directory, going up, that has a `package.json`. */
  function NearestPackage(hasPackage: seq<string> -> bool, dir: seq<string>): (r: Option<seq<string>>)
    ensures r.Some? ==> r.value <= dir && hasPackage(r.value)
    ensures forall k :: (if r.Some? then |r.value| + 1 else 0) <= k <= |dir| ==> !hasPackage(dir[..k])
  {
    assert dir[..|dir|] == dir;
    assert dir != [] ==> forall k :: 0 <= k <= |dir| - 1 ==> Dirname(dir)[..k] == dir[..k];
    if hasPackage(dir) then Some(dir)
    else if dir == [] then None else NearestPackage(hasPackage, Dirname(dir))
  }

  /** A module id that `writeBundle` records the directory of. */
  predicate IsExternal(root: string, module_: seq<string>) {
    module_ != [] && !StartsWith(ToSlashes(AbsolutePath(module_)), ToSlashes(root))
  }

  /** `w` is the workspace of some external module. */
  ghost predicate IsReported(root: string, hasPackage: seq<string> -> bool, w: string) {
    exists id: seq<string> :: Clean(id) && IsExternal(root, id)
      && NearestPackage(hasPackage, Dirname(id)).Some? && w == AbsolutePath(NearestPackage(hasPackage, Dirname(id)).value)
  }

  lemma AboveExternalIsNotRoot(project: Project, id: seq<string>, dir: seq<string>)
    requires IsResolved(project.root) && Clean(id) && IsExternal(project.root, id) && dir <= Dirname(id)
    ensures SegmentsOf(AbsolutePath(dir)) != SegmentsOf(project.root)
  {
    assert Clean(dir) by {
      assert forall i :: 0 <= i < |dir| ==> dir[i] == id[i];
    }
    SegmentsOfAbsolute(dir);
    PrefixOfAbsolute(dir, id);
    SlashedPrefix(AbsolutePath(dir), AbsolutePath(id));
  }

  /** What `path.resolve` returns. */
  predicate IsResolved(root: string) {
    root == AbsolutePath(SegmentsOf(root))
  }

  lemma SlashedPrefix(a: string, b: string)
    requires a <= b
    ensures ToSlashes(a) <= ToSlashes(b)
  {
  }

  lemma PrefixOfAbsolute(dir: seq<string>, id: seq<string>)
    requires dir <= id
    ensures AbsolutePath(dir) <= AbsolutePath(id)
  {
    var below := id[|dir|..];
    assert id == dir + below;
    if below == [] {
      assert id == dir;
    } else if dir == [] {
      assert AbsolutePath(dir) == "/";
    } else {
      JoinConcat(dir, below, '/');
      assert AbsolutePath(id) == AbsolutePath(dir) + (['/'] + Join(below, '/'));
    }
  }

  /** A build never reports the root, so for portable workspaces its input hash is a fixed point. */
  lemma BuiltMemoIsFixedPoint(project: Project, hasPackage: seq<string> -> bool, ws: seq<string>)
    requires IsResolved(project.root) && PortableFrom(project.root, ws)
    requires forall w :: w in ws ==> IsReported(project.root, hasPackage, w)
    ensures project.Rehash(project.HashInput(ws)) == project.HashInput(ws)
  {
    forall w | w in ws
      ensures SegmentsOf(w) != SegmentsOf(project.root)
    {
      var id: seq<string> :| Clean(id) && IsExternal(project.root, id)
        && NearestPackage(hasPackage, Dirname(id)).Some? && w == AbsolutePath(NearestPackage(hasPackage, Dirname(id)).value);
      AboveExternalIsNotRoot(project, id, NearestPackage(hasPackage, Dirname(id)).value);
    }
    PortableMemoIsFixedPoint(project, ws);
  }

  // ----- Waku -----

  /** The options that change what is built. */
  datatype WakuOptions = WakuOptions(main: Option<string>, srcDir: Option<string>, distDir: Option<string>, basePath: Option<string>)

  /** The object that is hashed. */
  datatype Hashed = Hashed(version: string, root: string, workspaces: seq<string>, options: WakuOptions)

  /** `directoryHash` as above; `sha` hashes an object. */
  datatype WakuProject = WakuProject(
    root: string,
    version: string,
    options: WakuOptions,
    rootHash: string,
    directoryHash: string -> string,
    sha: Hashed -> string)
  {
    function RelativeForm(w: string): string {
      ToSlashes(Relative(root, Resolve(root, w)))
    }

    function Entries(workspaces: seq<string>): seq<Labelled> {
      Map(w => Labelled(RelativeForm(w), directoryHash(Resolve(root, w))), workspaces)
    }

    function Remembered(workspaces: seq<string>): seq<string> {
      Map(w => RelativeForm(w), workspaces)
    }

    function Material(workspaces: seq<string>): Hashed {
      Hashed(version, rootHash, SortedTexts(Entries(workspaces)), options)
    }

    function HashInput(workspaces: seq<string>): (string, seq<string>) {
      (sha(Material(workspaces)), Remembered(workspaces))
    }

    function Rehash(previous: seq<string>): (string, seq<string>) {
      HashInput(Map(w => Resolve(root, w), previous))
    }

    /** Hashing again with the remembered workspaces changes nothing. */
    predicate IsFixed(ws: seq<string>) {
      Rehash(HashInput(ws).1) == HashInput(ws)
    }
  }

  lemma ResolveIsProper(root: string, w: string)
    ensures SegmentsOf(Resolve(root, w)) == ResolveSegments(SegmentsOf(root), w)
    ensures IsAbsolute(Resolve(root, w)) && Resolve(root, Resolve(root, w)) == Resolve(root, w)
  {
    SegmentsAreClean(root);
    ResolvedIsClean(SegmentsOf(root), w);
    SegmentsOfAbsolute(ResolveSegments(SegmentsOf(root), w));
  }

  /** A remembered workspace resolves to its directory exactly when its path from the root has no backslash. */
  lemma RememberedLeadsBack(project: WakuProject, w: string)
    ensures Resolve(project.root, project.RelativeForm(w)) == Resolve(project.root, w)
       <==> '\\' !in Relative(project.root, Resolve(project.root, w))
  {
    ResolveIsProper(project.root, w);
    LabelLeadsBack(project.root, Resolve(project.root, w));
  }

  lemma EntriesAt(project: WakuProject, ws: seq<string>)
    ensures |project.Entries(ws)| == |ws|
    ensures forall i :: 0 <= i < |ws| ==>
      project.Entries(ws)[i] == Labelled(project.RelativeForm(ws[i]), project.directoryHash(Resolve(project.root, ws[i])))
  {
    MapMembers(w => Labelled(project.RelativeForm(w), project.directoryHash(Resolve(project.root, w))), ws);
  }

  lemma RememberedAt(project: WakuProject, ws: seq<string>)
    ensures |project.Remembered(ws)| == |ws|
    ensures forall i :: 0 <= i < |ws| ==> project.Remembered(ws)[i] == project.RelativeForm(ws[i])
  {
    MapMembers(w => project.RelativeForm(w), ws);
  }

  /** A directory called `a\b` is remembered as `a/b`, which is another one. */
  lemma BackslashNameIsForgotten(project: WakuProject, name: string)
    requires project.root == "/p" && name == "a\\b"
    ensures
      var w := project.root + "/" + name;
      project.RelativeForm(w) == "a/b" && Resolve(project.root, project.RelativeForm(w)) != Resolve(project.root, w)
  {
    OneBelow(project.root, "p", name);
    assert ToSlashes(name) == "a/b";
    RememberedLeadsBack(project, project.root + "/" + name);
  }

  /** What hashing again starts from. */
  lemma RoundOf(project: WakuProject, ws: seq<string>) returns (back: seq<string>)
    ensures |back| == |ws| && project.Rehash(project.HashInput(ws).1) == project.HashInput(back)
    ensures forall i :: 0 <= i < |ws| ==> back[i] == Resolve(project.root, project.RelativeForm(ws[i]))
  {
    var resolve := w => Resolve(project.root, w);
    RememberedAt(project, ws);
    MapMembers(resolve, project.Remembered(ws));
    back := Map(resolve, project.Remembered(ws));
  }

  /** No workspace has a backslash in its path from the root. */
  predicate PortableUnder(root: string, ws: seq<string>) {
    forall w :: w in ws ==> '\\' !in Relative(root, Resolve(root, w))
  }

  /** Waku's input hash is a fixed point for every list of such workspaces. */
  lemma WakuMemoIsFixedPoint(project: WakuProject, ws: seq<string>)
    requires PortableUnder(project.root, ws)
    ensures project.IsFixed(ws)
  {
    var back := RoundOf(project, ws);
    EntriesAt(project, ws);
    EntriesAt(project, back);
    RememberedAt(project, ws);
    RememberedAt(project, back);
    forall i | 0 <= i < |ws|
      ensures project.Remembered(back)[i] == project.Remembered(ws)[i] && project.Entries(back)[i] == project.Entries(ws)[i]
    {
      assert ws[i] in ws;
      RememberedLeadsBack(project, ws[i]);
      ResolveIsProper(project.root, ws[i]);
    }
    assert project.Entries(back) == project.Entries(ws);
    assert project.Remembered(back) == project.Remembered(ws);
  }

  ghost predicate NoCollisions<T(!new)>(sha: T -> string) {
    forall a, b :: sha(a) == sha(b) ==> a == b
  }

  /** What stands before the last colon, and what behind it. */
  lemma LastColon(a: Labelled, b: Labelled)
    requires a.Text() == b.Text() && ':' !in a.hash && ':' !in b.hash
    ensures a == b
  {
    var s := a.Text();
    assert s[|a.name|] == ':' && s[|b.name|] == ':';
    assert forall i :: |a.name| < i < |s| ==> s[i] == a.hash[i - |a.name| - 1];
    assert forall i :: |b.name| < i < |s| ==> s[i] == b.hash[i - |b.name| - 1];
    assert |a.name| == |b.name|;
    assert s[..|a.name|] == a.name && s[..|b.name|] == b.name;
    assert s[|a.name| + 1..] == a.hash && s[|b.name| + 1..] == b.hash;
  }

  /** No directory's hash has a colon, as hexadecimal digits have none. */
  ghost predicate AreHashes(hash: string -> string) {
    forall d :: ':' !in hash(d)
  }

  /** Two sorted lists of such entries are equal exactly when the entries are the same, as often. */
  lemma SortedTextsTell(a: seq<Labelled>, b: seq<Labelled>)
    requires forall e :: e in a || e in b ==> ':' !in e.hash
    ensures SortedTexts(a) == SortedTexts(b) <==> multiset(a) == multiset(b)
  {
    var text := (e: Labelled) => e.Text();
    SortForgetsOrder(Map(text, a), Map(text, b));
    forall x, y | (x in a || x in b) && (y in a || y in b) && text(x) == text(y)
      ensures x == y
    {
      LastColon(x, y);
    }
    assert Injective(text, a, b);
    InjectiveMap(text, a, b);
  }

  lemma {:induction false} MapCounts<A, B>(f: A -> B, xs: seq<A>, x: A)
    requires forall y :: y in xs && f(y) == f(x) ==> y == x
    ensures multiset(Map(f, xs))[f(x)] == multiset(xs)[x]
  {
    if xs != [] {
      assert xs == [xs[0]] + xs[1..];
      MapCounts(f, xs[1..], x);
      assert multiset(Map(f, xs)) == multiset{f(xs[0])} + multiset(Map(f, xs[1..]));
    }
  }

  ghost predicate Injective<A(!new), B>(f: A -> B, a: seq<A>, b: seq<A>) {
    forall x, y :: (x in a || x in b) && (y in a || y in b) && f(x) == f(y) ==> x == y
  }

  lemma SameOrigins<A(!new), B>(f: A -> B, a: seq<A>, b: seq<A>, x: A)
    requires Injective(f, a, b) && multiset(Map(f, a)) == multiset(Map(f, b))
    ensures multiset(a)[x] == multiset(b)[x]
  {
    if x in a || x in b {
      MapCounts(f, a, x);
      MapCounts(f, b, x);
    } else {
      assert x !in multiset(a) && x !in multiset(b);
    }
  }

  lemma SameImages<A(!new), B>(f: A -> B, a: seq<A>, b: seq<A>, y: B)
    requires Injective(f, a, b) && multiset(a) == multiset(b)
    ensures multiset(Map(f, a))[y] == multiset(Map(f, b))[y]
  {
    var from := if y in Map(f, a) then a else b;
    if y in Map(f, from) {
      MapMembers(f, from);
      var i :| 0 <= i < |Map(f, from)| && Map(f, from)[i] == y;
      assert from[i] in from;
      MapCounts(f, a, from[i]);
      MapCounts(f, b, from[i]);
    } else {
      assert y !in multiset(Map(f, a)) && y !in multiset(Map(f, b));
    }
  }

  lemma InjectiveMap<A(!new), B(!new)>(f: A -> B, a: seq<A>, b: seq<A>)
    requires Injective(f, a, b)
    ensures multiset(Map(f, a)) == multiset(Map(f, b)) <==> multiset(a) == multiset(b)
  {
    if multiset(Map(f, a)) == multiset(Map(f, b)) {
      OriginsAlike(f, a, b);
    }
    if multiset(a) == multiset(b) {
      ImagesAlike(f, a, b);
    }
  }

  lemma OriginsAlike<A(!new), B>(f: A -> B, a: seq<A>, b: seq<A>)
    requires Injective(f, a, b) && multiset(Map(f, a)) == multiset(Map(f, b))
    ensures multiset(a) == multiset(b)
  {
    var ma, mb := multiset(a), multiset(b);
    forall x
      ensures ma[x] == mb[x]
    {
      SameOrigins(f, a, b, x);
    }
    assert ma == mb;
  }

  lemma ImagesAlike<A(!new), B(!new)>(f: A -> B, a: seq<A>, b: seq<A>)
    requires Injective(f, a, b) && multiset(a) == multiset(b)
    ensures multiset(Map(f, a)) == multiset(Map(f, b))
  {
    var ma, mb := multiset(Map(f, a)), multiset(Map(f, b));
    forall y
      ensures ma[y] == mb[y]
    {
      SameImages(f, a, b, y);
    }
    assert ma == mb;
  }

  // ----- what a hash tells -----

  /**
   Astro's hashes without collisions: two projects hash alike exactly when version, root content and
   the labelled workspaces with their content are the same, wherever the projects are.
   */
  lemma HashTellsInputs(p: Project, q: Project, v: seq<string>, w: seq<string>)
    requires p.sha == q.sha && NoCollisions(p.sha)
    requires forall e :: e in p.Entries(v) || e in q.Entries(w) ==> ':' !in e.hash
    ensures p.HashInput(v).0 == q.HashInput(w).0
       <==> p.salt == q.salt && p.rootHash == q.rootHash && multiset(p.Entries(v)) == multiset(q.Entries(w))
  {
    SortedTextsTell(p.Entries(v), q.Entries(w));
    SameMaterial(p.salt, q.salt, p.rootHash, q.rootHash, SortedTexts(p.Entries(v)), SortedTexts(q.Entries(w)));
    ShaTells(p.sha, p.Material(v), q.Material(w));
  }

  lemma ShaTells<T(!new)>(sha: T -> string, a: T, b: T)
    requires NoCollisions(sha)
    ensures sha(a) == sha(b) <==> a == b
  {
  }

  lemma SameMaterial(salt: string, other: string, root: string, another: string, a: seq<string>, b: seq<string>)
    ensures [salt, ":" + root] + a == [other, ":" + another] + b <==> salt == other && root == another && a == b
  {
    var x, y := [salt, ":" + root] + a, [other, ":" + another] + b;
    if x == y {
      assert salt == x[0] == y[0] == other && ":" + root == x[1] == y[1] == ":" + another;
      assert root == (":" + root)[1..] == (":" + another)[1..] == another;
      assert a == x[2..] == y[2..] == b;
    }
  }

  /** Waku's likewise; the options that change what is built are part of it. */
  lemma WakuHashTellsInputs(p: WakuProject, q: WakuProject, v: seq<string>, w: seq<string>)
    requires p.sha == q.sha && NoCollisions(p.sha) && AreHashes(p.directoryHash) && AreHashes(q.directoryHash)
    ensures p.HashInput(v).0 == q.HashInput(w).0
       <==> p.version == q.version && p.options == q.options && p.rootHash == q.rootHash
            && multiset(p.Entries(v)) == multiset(q.Entries(w))
  {
    EntriesAt(p, v);
    EntriesAt(q, w);
    SortedTextsTell(p.Entries(v), q.Entries(w));
    ShaTells(p.sha, p.Material(v), q.Material(w));
  }

  lemma ComesBack(project: WakuProject, ws: seq<string>, back: seq<string>, w: string) returns (j: nat)
    requires w in ws && multiset(project.Entries(ws)) == multiset(project.Entries(back))
    ensures j < |back| && project.RelativeForm(back[j]) == project.RelativeForm(w)
    ensures project.directoryHash(Resolve(project.root, back[j])) == project.directoryHash(Resolve(project.root, w))
  {
    EntriesAt(project, ws);
    EntriesAt(project, back);
    var i :| 0 <= i < |ws| && ws[i] == w;
    assert project.Entries(ws)[i] in multiset(project.Entries(back));
    j :| 0 <= j < |back| && project.Entries(back)[j] == project.Entries(ws)[i];
  }

  /** In a fixed point, what a workspace is remembered as has the workspace's content. */
  lemma FixedMeansSameContent(project: WakuProject, ws: seq<string>, w: string)
    requires w in ws && project.IsFixed(ws) && NoCollisions(project.sha) && AreHashes(project.directoryHash)
    ensures project.directoryHash(Resolve(project.root, project.RelativeForm(w))) == project.directoryHash(Resolve(project.root, w))
  {
    var back := RoundOf(project, ws);
    WakuHashTellsInputs(project, project, ws, back);
    var j := ComesBack(project, ws, back, w);
    RememberedAt(project, ws);
    RememberedAt(project, back);
    assert project.Remembered(ws)[j] == project.Remembered(back)[j];
    ResolveIsProper(project.root, project.RelativeForm(ws[j]));
  }

  /** With a backslash it is not: a hash that tells that directory from all others tells the two rounds apart. */
  lemma BackslashIsNoticed(project: WakuProject, ws: seq<string>, w: string)
    requires w in ws && '\\' in Relative(project.root, Resolve(project.root, w))
    requires NoCollisions(project.sha)
    requires forall d :: project.directoryHash(d) == if d == Resolve(project.root, w) then "1" else "0"
    ensures !project.IsFixed(ws)
  {
    if project.IsFixed(ws) {
      FixedMeansSameContent(project, ws, w);
      RememberedLeadsBack(project, w);
    }
  }

  /**
   So if the hash has no collisions, the input hash is a fixed point whatever the directories hold
   exactly when no workspace has a backslash in its path from the root.
   */
  lemma FixedForAllContents(project: WakuProject, ws: seq<string>)
    requires NoCollisions(project.sha)
    ensures PortableUnder(project.root, ws) <==> forall contents :: project.(directoryHash := contents).IsFixed(ws)
  {
    if PortableUnder(project.root, ws) {
      forall contents: string -> string
        ensures project.(directoryHash := contents).IsFixed(ws)
      {
        WakuMemoIsFixedPoint(project.(directoryHash := contents), ws);
      }
    } else {
      var w :| w in ws && '\\' in Relative(project.root, Resolve(project.root, w));
      var contents: string -> string := d => if d == Resolve(project.root, w) then "1" else "0";
      BackslashIsNoticed(project.(directoryHash := contents), ws, w);
    }
  }
}
