/**
 What an input hash tells: the changes that make a rebuild, and those that do not
 (packages/astro/src/source.ts and packages/waku/src/source.ts).
 */
module Sensitivity {
  import opened Options
  import opened Text
  import opened Sorting
  import opened Paths
  import opened Listing
  import opened Memo

  /** Two states of one project: whatever may have changed, it is not where it is and what it is made with. */
  ghost predicate SamePlace(p: Project, q: Project) {
    p.root == q.root && p.ownPackage == q.ownPackage && p.sha == q.sha
  }

  /** The directory behind a workspace's label. */
  function LabelledDirectory(p: Project, w: string): string {
    Resolve(p.root, p.ToRelative(w))
  }

  /** Every workspace, own package aside, has the same content in both. */
  predicate SameWorkspaces(p: Project, q: Project, ws: seq<string>) {
    forall w :: w in ws && !p.IsOwnPackage(w) ==>
      p.directoryHash(LabelledDirectory(p, w)) == q.directoryHash(LabelledDirectory(p, w))
  }

  lemma SameLists(p: Project, q: Project, ws: seq<string>)
    requires SamePlace(p, q)
    ensures p.RelativeWorkspaces(ws) == q.RelativeWorkspaces(ws)
  {
    WorkspaceMembers(p, ws);
    WorkspaceMembers(q, ws);
    forall w
      ensures p.ToRelative(w) == q.ToRelative(w) && p.IsOwnPackage(w) == q.IsOwnPackage(w)
    {
    }
    SortedByMembers(p.RelativeWorkspaces(ws), q.RelativeWorkspaces(ws));
  }

  /** Each name has one hash. */
  predicate IsFunctional(es: seq<Labelled>) {
    forall i, j :: 0 <= i < |es| && 0 <= j < |es| && es[i].name == es[j].name ==> es[i] == es[j]
  }

  predicate SameNames(a: seq<Labelled>, b: seq<Labelled>) {
    |a| == |b| && forall i :: 0 <= i < |a| ==> a[i].name == b[i].name
  }

  lemma SameEntries(a: seq<Labelled>, b: seq<Labelled>)
    requires SameNames(a, b) && IsFunctional(a) && IsFunctional(b)
    ensures multiset(a) == multiset(b) <==> a == b
  {
    if multiset(a) == multiset(b) {
      forall i | 0 <= i < |a|
        ensures a[i] == b[i]
      {
        assert a[i] in multiset(b);
        var j :| 0 <= j < |b| && b[j] == a[i];
      }
    }
  }

  lemma DetectedEntries(p: Project, ws: seq<string>)
    requires p.explicitWorkspaces.None?
    ensures
      var names := p.RelativeWorkspaces(ws);
      |p.Entries(ws)| == |names|
      && forall i :: 0 <= i < |names| ==> p.Entries(ws)[i] == Labelled(names[i], p.directoryHash(Resolve(p.root, names[i])))
  {
    MapMembers(r => Labelled(r, p.directoryHash(Resolve(p.root, r))), p.RelativeWorkspaces(ws));
  }

  lemma SameDetected(p: Project, q: Project, ws: seq<string>)
    requires SamePlace(p, q) && p.explicitWorkspaces.None? && q.explicitWorkspaces.None?
    ensures multiset(p.Entries(ws)) == multiset(q.Entries(ws)) <==> SameWorkspaces(p, q, ws)
  {
    var names := p.RelativeWorkspaces(ws);
    SameLists(p, q, ws);
    DetectedEntries(p, ws);
    DetectedEntries(q, ws);
    SameEntries(p.Entries(ws), q.Entries(ws));
    WorkspaceMembers(p, ws);
    if p.Entries(ws) == q.Entries(ws) {
      forall w | w in ws && !p.IsOwnPackage(w)
        ensures p.directoryHash(LabelledDirectory(p, w)) == q.directoryHash(LabelledDirectory(p, w))
      {
        assert p.ToRelative(w) in names;
        var i :| 0 <= i < |names| && names[i] == p.ToRelative(w);
        assert p.Entries(ws)[i] == q.Entries(ws)[i];
      }
    }
    if SameWorkspaces(p, q, ws) {
      forall i | 0 <= i < |names|
        ensures p.Entries(ws)[i] == q.Entries(ws)[i]
      {
        assert names[i] in names;
      }
    }
  }

  /**
   With detected workspaces: two states of a project hash alike exactly when the integration's version,
   the content of the root and the content behind each label are the same.
   */
  lemma ChangeIsNoticed(p: Project, q: Project, ws: seq<string>)
    requires SamePlace(p, q) && NoCollisions(p.sha) && AreHashes(p.directoryHash) && AreHashes(q.directoryHash)
    requires p.explicitWorkspaces.None? && q.explicitWorkspaces.None?
    ensures p.HashInput(ws).0 == q.HashInput(ws).0
       <==> p.salt == q.salt && p.rootHash == q.rootHash && SameWorkspaces(p, q, ws)
  {
    DetectedEntries(p, ws);
    DetectedEntries(q, ws);
    SameDetected(p, q, ws);
    HashTellsInputs(p, q, ws, ws);
  }

  /** Without backslashes those are the workspaces' own directories. */
  lemma WorkspaceChangeIsNoticed(p: Project, q: Project, ws: seq<string>)
    requires SamePlace(p, q) && NoCollisions(p.sha) && AreHashes(p.directoryHash) && AreHashes(q.directoryHash)
    requires p.explicitWorkspaces.None? && q.explicitWorkspaces.None? && PortableFrom(p.root, ws)
    ensures p.HashInput(ws).0 == q.HashInput(ws).0
       <==> p.salt == q.salt && p.rootHash == q.rootHash
            && forall w :: w in ws && !p.IsOwnPackage(w) ==> p.directoryHash(Resolve(p.root, w)) == q.directoryHash(Resolve(p.root, w))
  {
    ChangeIsNoticed(p, q, ws);
    forall w | w in ws
      ensures LabelledDirectory(p, w) == Resolve(p.root, w)
    {
      RelativeForm(p, w);
    }
  }

  /** The own package is the tree of directories at and below its root. */
  lemma OwnPackageIsATree(p: Project, own: seq<string>, w: string)
    requires Clean(own) && own != [] && p.ownPackage == Some(AbsolutePath(own))
    ensures p.IsOwnPackage(w) <==> own <= ResolveSegments(SegmentsOf(p.root), w)
  {
    SegmentsAreClean(p.root);
    ResolvedIsClean(SegmentsOf(p.root), w);
    AtOrBelow(own, ResolveSegments(SegmentsOf(p.root), w));
  }

  lemma AtOrBelow(top: seq<string>, dir: seq<string>)
    requires Clean(top) && top != [] && Clean(dir)
    ensures AbsolutePath(dir) == AbsolutePath(top) || StartsWith(AbsolutePath(dir), AbsolutePath(top) + "/") <==> top <= dir
  {
    SegmentsOfAbsolute(top);
    SegmentsOfAbsolute(dir);
    if top <= dir && top != dir {
      var below := dir[|top|..];
      assert dir == top + below;
      JoinConcat(top, below, '/');
      assert AbsolutePath(dir) == (AbsolutePath(top) + "/") + Join(below, '/');
    }
    if StartsWith(AbsolutePath(dir), AbsolutePath(top) + "/") {
      var rest := AbsolutePath(dir)[|AbsolutePath(top)| + 1..];
      assert AbsolutePath(dir) == (AbsolutePath(top) + "/") + rest;
      assert AbsolutePath(dir)[1..] == Join(dir, '/');
      assert Join(dir, '/') == Join(top, '/') + ['/'] + rest;
      SplitConcat(Join(top, '/'), '/', rest);
      SplitOfJoin(top, '/');
      assert dir != [];
      SplitOfJoin(dir, '/');
    }
  }

  // ----- configured workspaces -----

  /** The directories are configured alike; their contents, or what is hashed of them, may differ. */
  predicate SameDirectories(es: seq<Explicit>, fs: seq<Explicit>) {
    |es| == |fs| && forall i :: 0 <= i < |es| ==> es[i].cwd == fs[i].cwd
  }

  predicate SameConfigured(p: Project, es: seq<Explicit>, fs: seq<Explicit>)
    requires SameDirectories(es, fs)
  {
    forall i :: 0 <= i < |es| ==>
      es[i].hashOf(LabelledDirectory(p, es[i].cwd)) == fs[i].hashOf(LabelledDirectory(p, es[i].cwd))
  }

  predicate DistinctLabels(p: Project, es: seq<Explicit>) {
    forall i, j :: 0 <= i < j < |es| ==> p.ToRelative(es[i].cwd) != p.ToRelative(es[j].cwd)
  }

  lemma ConfiguredEntries(p: Project, es: seq<Explicit>, ws: seq<string>)
    requires p.explicitWorkspaces == Some(es)
    ensures |p.Entries(ws)| == |es|
    ensures forall i :: 0 <= i < |es| ==>
      p.Entries(ws)[i] == Labelled(p.ToRelative(es[i].cwd), es[i].hashOf(LabelledDirectory(p, es[i].cwd)))
  {
    MapMembers((e: Explicit) => Labelled(p.ToRelative(e.cwd), e.hashOf(Resolve(p.root, p.ToRelative(e.cwd)))), es);
  }

  lemma HashOfConfigured(p: Project, es: seq<Explicit>, ws: seq<string>, e: Labelled)
    requires p.explicitWorkspaces == Some(es)
    requires forall x :: x in es ==> AreHashes(x.hashOf)
    ensures e in p.Entries(ws) ==> ':' !in e.hash
  {
    ConfiguredEntries(p, es, ws);
    if e in p.Entries(ws) {
      var i :| 0 <= i < |es| && p.Entries(ws)[i] == e;
      assert es[i] in es;
    }
  }

  lemma SameConfiguredEntries(p: Project, q: Project, es: seq<Explicit>, fs: seq<Explicit>, v: seq<string>, w: seq<string>)
    requires p.root == q.root && SameDirectories(es, fs)
    requires p.explicitWorkspaces == Some(es) && q.explicitWorkspaces == Some(fs)
    ensures p.Entries(v) == q.Entries(w) <==> SameConfigured(p, es, fs)
    ensures DistinctLabels(p, es) ==> (multiset(p.Entries(v)) == multiset(q.Entries(w)) <==> p.Entries(v) == q.Entries(w))
  {
    ConfiguredEntries(p, es, v);
    ConfiguredEntries(q, fs, w);
    if p.Entries(v) == q.Entries(w) {
      forall i | 0 <= i < |es|
        ensures es[i].hashOf(LabelledDirectory(p, es[i].cwd)) == fs[i].hashOf(LabelledDirectory(p, es[i].cwd))
      {
        assert p.Entries(v)[i] == q.Entries(w)[i];
      }
    }
    if DistinctLabels(p, es) {
      SameEntries(p.Entries(v), q.Entries(w));
    }
  }

  /**
   With configured workspaces the detected ones do not matter: two states hash alike exactly when
   version, root and each configured directory, hashed as configured, are the same.
   */
  lemma ConfiguredChangeIsNoticed(p: Project, q: Project, es: seq<Explicit>, fs: seq<Explicit>, v: seq<string>, w: seq<string>)
    requires p.root == q.root && p.sha == q.sha && NoCollisions(p.sha) && SameDirectories(es, fs)
    requires p.explicitWorkspaces == Some(es) && q.explicitWorkspaces == Some(fs)
    requires forall e :: e in es || e in fs ==> AreHashes(e.hashOf)
    ensures p.salt == q.salt && p.rootHash == q.rootHash && SameConfigured(p, es, fs) ==> p.HashInput(v).0 == q.HashInput(w).0
    ensures DistinctLabels(p, es) && p.HashInput(v).0 == q.HashInput(w).0 ==>
              p.salt == q.salt && p.rootHash == q.rootHash && SameConfigured(p, es, fs)
  {
    forall e | e in p.Entries(v) || e in q.Entries(w)
      ensures ':' !in e.hash
    {
      HashOfConfigured(p, es, v, e);
      HashOfConfigured(q, fs, w, e);
    }
    HashTellsInputs(p, q, v, w);
    SameConfiguredEntries(p, q, es, fs, v, w);
  }

  // ----- moving the project -----

  /** Directories below `from`, in that order. */
  function Below(from: seq<string>, spots: seq<seq<string>>): seq<string> {
    seq(|spots|, i requires 0 <= i < |spots| => AbsolutePath(from + spots[i]))
  }

  /** `q` is `p` with everything it consists of moved from below `from` to below `to`. */
  ghost predicate IsMoved(p: Project, q: Project, from: seq<string>, to: seq<string>, root: seq<string>, own: Option<seq<string>>) {
    && Clean(from) && Clean(to) && Clean(root)
    && p.root == AbsolutePath(from + root) && q.root == AbsolutePath(to + root)
    && p.salt == q.salt && p.rootHash == q.rootHash && p.sha == q.sha
    && (forall s :: Clean(s) ==> p.directoryHash(AbsolutePath(from + s)) == q.directoryHash(AbsolutePath(to + s)))
    && p.explicitWorkspaces.None? && q.explicitWorkspaces.None?
    && match own {
         case None => p.ownPackage.None? && q.ownPackage.None?
         case Some(o) =>
           Clean(o) && o != [] && p.ownPackage == Some(AbsolutePath(from + o)) && q.ownPackage == Some(AbsolutePath(to + o))
       }
  }

  lemma CleanBoth(a: seq<string>, b: seq<string>)
    requires Clean(a) && Clean(b)
    ensures Clean(a + b) && SegmentsOf(AbsolutePath(a + b)) == a + b
  {
    SegmentsOfAbsolute(a + b);
  }

  lemma MovedLabel(base: seq<string>, root: seq<string>, spot: seq<string>)
    requires Clean(base) && Clean(root) && Clean(spot)
    ensures Relative(AbsolutePath(base + root), AbsolutePath(base + spot)) == Join(RelativeSegments(root, spot), '/')
    ensures Resolve(AbsolutePath(base + root), AbsolutePath(base + spot)) == AbsolutePath(base + spot)
  {
    CleanBoth(base, root);
    CleanBoth(base, spot);
    RelativeShifted(base, root, spot);
  }

  lemma MovedOwn(base: seq<string>, own: seq<string>, spot: seq<string>)
    ensures base + own <= base + spot <==> own <= spot
  {
    if own <= spot {
      assert base + spot == (base + own) + spot[|own|..];
    }
    if base + own <= base + spot {
      assert own == (base + spot)[..|base + own|][|base|..] == spot[..|own|];
    }
  }

  lemma MovedWorkspace(p: Project, q: Project, from: seq<string>, to: seq<string>, root: seq<string>,
          own: Option<seq<string>>, spot: seq<string>)
    requires IsMoved(p, q, from, to, root, own) && Clean(spot) && NoBackslash(spot)
    ensures
      var v, w := AbsolutePath(from + spot), AbsolutePath(to + spot);
      && p.ToRelative(v) == q.ToRelative(w)
      && p.IsOwnPackage(v) == q.IsOwnPackage(w)
      && p.directoryHash(LabelledDirectory(p, v)) == q.directoryHash(LabelledDirectory(q, w))
  {
    var v, w := AbsolutePath(from + spot), AbsolutePath(to + spot);
    MovedLabel(from, root, spot);
    MovedLabel(to, root, spot);
    JoinNoBackslash(RelativeSegments(root, spot));
    RelativeForm(p, v);
    RelativeForm(q, w);
    MovedIsOwn(p, q, from, to, root, own, spot);
  }

  lemma MovedIsOwn(p: Project, q: Project, from: seq<string>, to: seq<string>, root: seq<string>,
          own: Option<seq<string>>, spot: seq<string>)
    requires IsMoved(p, q, from, to, root, own) && Clean(spot)
    ensures p.IsOwnPackage(AbsolutePath(from + spot)) == q.IsOwnPackage(AbsolutePath(to + spot))
  {
    if own.Some? {
      CleanBoth(from, spot);
      CleanBoth(to, spot);
      CleanBoth(from, own.value);
      CleanBoth(to, own.value);
      OwnPackageIsATree(p, from + own.value, AbsolutePath(from + spot));
      OwnPackageIsATree(q, to + own.value, AbsolutePath(to + spot));
      MovedOwn(from, own.value, spot);
      MovedOwn(to, own.value, spot);
    }
  }

  /** Pairwise the same label, as much or as little the own package's, with the same content. */
  predicate CorrespondsTo(p: Project, q: Project, v: seq<string>, w: seq<string>) {
    |v| == |w| && forall i :: 0 <= i < |v| ==>
      && p.ToRelative(v[i]) == q.ToRelative(w[i]) && p.IsOwnPackage(v[i]) == q.IsOwnPackage(w[i])
      && p.directoryHash(LabelledDirectory(p, v[i])) == q.directoryHash(LabelledDirectory(q, w[i]))
  }

  lemma CorrespondingNames(p: Project, q: Project, v: seq<string>, w: seq<string>)
    requires CorrespondsTo(p, q, v, w)
    ensures p.RelativeWorkspaces(v) == q.RelativeWorkspaces(w)
  {
    WorkspaceMembers(p, v);
    WorkspaceMembers(q, w);
    forall r
      ensures r in p.RelativeWorkspaces(v) <==> r in q.RelativeWorkspaces(w)
    {
      if x :| x in v && !p.IsOwnPackage(x) && r == p.ToRelative(x) {
        var i :| 0 <= i < |v| && v[i] == x;
        assert w[i] in w;
      }
      if x :| x in w && !q.IsOwnPackage(x) && r == q.ToRelative(x) {
        var i :| 0 <= i < |w| && w[i] == x;
        assert v[i] in v;
      }
    }
    SortedByMembers(p.RelativeWorkspaces(v), q.RelativeWorkspaces(w));
  }

  lemma CorrespondingHash(p: Project, q: Project, v: seq<string>, w: seq<string>, r: string)
    requires CorrespondsTo(p, q, v, w) && r in p.RelativeWorkspaces(v)
    ensures p.directoryHash(Resolve(p.root, r)) == q.directoryHash(Resolve(q.root, r))
  {
    WorkspaceMembers(p, v);
    var x :| x in v && !p.IsOwnPackage(x) && r == p.ToRelative(x);
    var i :| 0 <= i < |v| && v[i] == x;
    assert p.directoryHash(LabelledDirectory(p, v[i])) == q.directoryHash(LabelledDirectory(q, w[i]));
  }

  lemma CorrespondingEntries(p: Project, q: Project, v: seq<string>, w: seq<string>)
    requires CorrespondsTo(p, q, v, w) && p.explicitWorkspaces.None? && q.explicitWorkspaces.None?
    ensures p.Entries(v) == q.Entries(w)
  {
    var names := p.RelativeWorkspaces(v);
    CorrespondingNames(p, q, v, w);
    DetectedEntries(p, v);
    DetectedEntries(q, w);
    forall k | 0 <= k < |names|
      ensures p.Entries(v)[k] == q.Entries(w)[k]
    {
      CorrespondingHash(p, q, v, w, names[k]);
    }
  }

  /** A project that is moved with its workspaces hashes, and remembers, what it did before. */
  lemma MovedProjectHashesAlike(p: Project, q: Project, from: seq<string>, to: seq<string>, root: seq<string>,
          own: Option<seq<string>>, spots: seq<seq<string>>)
    requires IsMoved(p, q, from, to, root, own)
    requires forall i :: 0 <= i < |spots| ==> Clean(spots[i]) && NoBackslash(spots[i])
    ensures p.HashInput(Below(from, spots)) == q.HashInput(Below(to, spots))
  {
    var v, w := Below(from, spots), Below(to, spots);
    forall i | 0 <= i < |spots|
      ensures p.ToRelative(v[i]) == q.ToRelative(w[i]) && p.IsOwnPackage(v[i]) == q.IsOwnPackage(w[i])
      ensures p.directoryHash(LabelledDirectory(p, v[i])) == q.directoryHash(LabelledDirectory(q, w[i]))
    {
      MovedWorkspace(p, q, from, to, root, own, spots[i]);
    }
    CorrespondingNames(p, q, v, w);
    CorrespondingEntries(p, q, v, w);
  }

  // ----- Waku -----

  predicate SameContents(p: WakuProject, q: WakuProject, ws: seq<string>) {
    forall w :: w in ws ==> p.directoryHash(Resolve(p.root, w)) == q.directoryHash(Resolve(p.root, w))
  }

  /**
   Waku: without backslashes, two states hash alike exactly when version, options, root content and the
   content of each workspace are the same.
   */
  lemma WakuChangeIsNoticed(p: WakuProject, q: WakuProject, ws: seq<string>)
    requires p.root == q.root && p.sha == q.sha && NoCollisions(p.sha)
    requires AreHashes(p.directoryHash) && AreHashes(q.directoryHash) && PortableUnder(p.root, ws)
    ensures p.HashInput(ws).0 == q.HashInput(ws).0
       <==> p.version == q.version && p.options == q.options && p.rootHash == q.rootHash && SameContents(p, q, ws)
  {
    EntriesAt(p, ws);
    EntriesAt(q, ws);
    WakuHashTellsInputs(p, q, ws, ws);
    forall i, j | 0 <= i < |ws| && 0 <= j < |ws| && p.RelativeForm(ws[i]) == p.RelativeForm(ws[j])
      ensures Resolve(p.root, ws[i]) == Resolve(p.root, ws[j])
    {
      assert ws[i] in ws && ws[j] in ws;
      RememberedLeadsBack(p, ws[i]);
      RememberedLeadsBack(p, ws[j]);
    }
    SameEntries(p.Entries(ws), q.Entries(ws));
    if p.Entries(ws) == q.Entries(ws) {
      forall w | w in ws
        ensures p.directoryHash(Resolve(p.root, w)) == q.directoryHash(Resolve(p.root, w))
      {
        var i :| 0 <= i < |ws| && ws[i] == w;
        assert p.Entries(ws)[i] == q.Entries(ws)[i];
      }
    }
    if SameContents(p, q, ws) {
      assert forall i :: 0 <= i < |ws| ==> ws[i] in ws;
      assert p.Entries(ws) == q.Entries(ws);
    }
  }
}
