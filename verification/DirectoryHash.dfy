/**
 The content hash of a directory (`hashDirectory` of packages/astro/src/source.ts and
 packages/waku/src/source.ts): which changes below the directory it tells, and which it does not.
 */
module DirectoryHashes {
  import opened Options
  import opened Text
  import opened Tree
  import opened Listing
  import opened Lockfiles
  import opened Memo
  import opened Sensitivity
  import AstroWalk
  import WakuWalk

  /** A directory's files as they are listed, and the hashes of what they hold. */
  datatype Snapshot = Snapshot(files: seq<string>, content: string -> string)

  function Entries(s: Snapshot): seq<Labelled> {
    Map(f => Labelled(f, s.content(f)), s.files)
  }

  function Texts(es: seq<Labelled>): seq<string> {
    if es == [] then [] else [es[0].Text()] + Texts(es[1..])
  }

  /** What is hashed: each file's path and the hash of what it holds. */
  function DirectoryHash(sha: seq<string> -> string, s: Snapshot): string {
    sha(Texts(Entries(s)))
  }

  /** The same files, listed alike, hold the same. */
  predicate SameSnapshot(a: Snapshot, b: Snapshot) {
    a.files == b.files && forall f :: f in a.files ==> a.content(f) == b.content(f)
  }

  predicate AreProper(es: seq<Labelled>) {
    forall i :: 0 <= i < |es| ==> ':' !in es[i].hash
  }

  lemma SplitTexts(x: Labelled, xs: seq<string>, y: Labelled, ys: seq<string>)
    requires ':' !in x.hash && ':' !in y.hash && [x.Text()] + xs == [y.Text()] + ys
    ensures x == y && xs == ys
  {
    assert ([x.Text()] + xs)[0] == ([y.Text()] + ys)[0];
    assert ([x.Text()] + xs)[1..] == xs && ([y.Text()] + ys)[1..] == ys;
    LastColon(x, y);
  }

  lemma {:induction false} TextsTell(a: seq<Labelled>, b: seq<Labelled>)
    requires AreProper(a) && AreProper(b) && Texts(a) == Texts(b)
    ensures a == b
  {
    if a != [] && b != [] {
      SplitTexts(a[0], Texts(a[1..]), b[0], Texts(b[1..]));
      TextsTell(a[1..], b[1..]);
      assert a == [a[0]] + a[1..] && b == [b[0]] + b[1..];
    }
  }

  lemma EntriesAt(s: Snapshot)
    ensures |Entries(s)| == |s.files|
    ensures forall i :: 0 <= i < |s.files| ==> Entries(s)[i] == Labelled(s.files[i], s.content(s.files[i]))
  {
    MapMembers(f => Labelled(f, s.content(f)), s.files);
  }

  lemma EntriesTell(a: Snapshot, b: Snapshot)
    ensures Entries(a) == Entries(b) <==> SameSnapshot(a, b)
  {
    EntriesAt(a);
    EntriesAt(b);
    if Entries(a) == Entries(b) {
      forall i | 0 <= i < |a.files|
        ensures a.files[i] == b.files[i] && a.content(a.files[i]) == b.content(b.files[i])
      {
        assert Entries(a)[i] == Entries(b)[i];
      }
    }
    if SameSnapshot(a, b) {
      assert forall i :: 0 <= i < |a.files| ==> a.files[i] in a.files;
    }
  }

  /** Without collisions a directory's hash tells the files and what each of them holds. */
  lemma HashTellsSnapshot(sha: seq<string> -> string, a: Snapshot, b: Snapshot)
    requires NoCollisions(sha) && AreHashes(a.content) && AreHashes(b.content)
    ensures DirectoryHash(sha, a) == DirectoryHash(sha, b) <==> SameSnapshot(a, b)
  {
    EntriesAt(a);
    EntriesAt(b);
    ShaTells(sha, Texts(Entries(a)), Texts(Entries(b)));
    if Texts(Entries(a)) == Texts(Entries(b)) {
      TextsTell(Entries(a), Entries(b));
    }
    EntriesTell(a, b);
  }

  // ----- Waku -----

  /** What a Waku directory is hashed with. */
  datatype WakuSetting = WakuSetting(distDir: string, options: MemoOptions, gitignore: seq<string>, lockfile: Option<string>)

  /** The path names a file that counts, or the lockfile. */
  ghost predicate Counts(setting: WakuSetting, root: Node, p: string) {
    || Some(p) == setting.lockfile
    || exists path :: WakuWalk.IsHashed(root, setting.distDir, setting.options, setting.gitignore, path) && p == PathString(path)
  }

  ghost predicate IsSnapshotOf(s: Snapshot, setting: WakuSetting, root: Node) {
    WakuWalk.AreFilesOf(s.files, root, setting.distDir, setting.options, setting.gitignore, setting.lockfile)
  }

  /**
   Two states of a Waku directory hash alike exactly when the same files count in both and hold the
   same; what happens to any other file makes no difference.
   */
  lemma WakuEditIsNoticed(sha: seq<string> -> string, setting: WakuSetting, before: Node, after: Node, a: Snapshot, b: Snapshot)
    requires NoCollisions(sha) && AreHashes(a.content) && AreHashes(b.content)
    requires IsSnapshotOf(a, setting, before) && IsSnapshotOf(b, setting, after)
    ensures DirectoryHash(sha, a) == DirectoryHash(sha, b)
       <==> forall p :: (Counts(setting, before, p) <==> Counts(setting, after, p))
                        && (Counts(setting, before, p) ==> a.content(p) == b.content(p))
  {
    HashTellsSnapshot(sha, a, b);
    assert forall p :: p in a.files <==> Counts(setting, before, p);
    assert forall p :: p in b.files <==> Counts(setting, after, p);
    if forall p :: Counts(setting, before, p) <==> Counts(setting, after, p) {
      SortedByMembers(a.files, b.files);
    }
  }

  // ----- Astro -----

  datatype AstroSetting = AstroSetting(options: MemoOptions, gitignore: seq<string>, lockfile: Option<string>)

  ghost predicate AstroListed(setting: AstroSetting, root: Node, p: string) {
    exists path :: AstroWalk.IsHashed(root, setting.options, setting.gitignore, path) && p == PathString(path)
  }

  ghost predicate AstroCounts(setting: AstroSetting, root: Node, p: string) {
    Some(p) == setting.lockfile || AstroListed(setting, root, p)
  }

  ghost predicate IsAstroSnapshotOf(s: Snapshot, setting: AstroSetting, root: Node) {
    AstroWalk.AreFilesOf(s.files, root, setting.options, setting.gitignore, setting.lockfile)
  }

  lemma AstroFiles(s: Snapshot, setting: AstroSetting, root: Node)
    requires IsAstroSnapshotOf(s, setting, root)
    ensures forall p :: p in s.files <==> AstroCounts(setting, root, p)
  {
    var listing :| AstroWalk.IsListing(listing, root, setting.options, setting.gitignore)
      && s.files == AstroWalk.WithLockfile(listing, setting.lockfile);
    forall p
      ensures p in s.files <==> AstroCounts(setting, root, p)
    {
      assert p in listing <==> AstroListed(setting, root, p);
    }
  }

  lemma SameAstroFiles(a: Snapshot, b: Snapshot, setting: AstroSetting, before: Node, after: Node)
    requires IsAstroSnapshotOf(a, setting, before) && IsAstroSnapshotOf(b, setting, after)
    requires forall p :: AstroListed(setting, before, p) <==> AstroListed(setting, after, p)
    ensures a.files == b.files
  {
    var x :| AstroWalk.IsListing(x, before, setting.options, setting.gitignore) && a.files == AstroWalk.WithLockfile(x, setting.lockfile);
    var y :| AstroWalk.IsListing(y, after, setting.options, setting.gitignore) && b.files == AstroWalk.WithLockfile(y, setting.lockfile);
    forall p
      ensures p in x <==> p in y
    {
      assert p in x <==> AstroListed(setting, before, p);
      assert p in y <==> AstroListed(setting, after, p);
    }
    SortedByMembers(x, y);
  }

  /**
   Two states of an Astro directory that list the same files hash alike exactly when what counts holds
   the same; and if they hash alike the same files count, whether listed or as the lockfile.
   */
  lemma AstroEditIsNoticed(sha: seq<string> -> string, setting: AstroSetting, before: Node, after: Node, a: Snapshot, b: Snapshot)
    requires NoCollisions(sha) && AreHashes(a.content) && AreHashes(b.content)
    requires IsAstroSnapshotOf(a, setting, before) && IsAstroSnapshotOf(b, setting, after)
    ensures (forall p :: AstroListed(setting, before, p) <==> AstroListed(setting, after, p)) ==>
              (DirectoryHash(sha, a) == DirectoryHash(sha, b)
               <==> forall p :: AstroCounts(setting, before, p) ==> a.content(p) == b.content(p))
    ensures DirectoryHash(sha, a) == DirectoryHash(sha, b) ==>
              forall p :: (AstroCounts(setting, before, p) <==> AstroCounts(setting, after, p))
                          && (AstroCounts(setting, before, p) ==> a.content(p) == b.content(p))
  {
    HashTellsSnapshot(sha, a, b);
    AstroFiles(a, setting, before);
    AstroFiles(b, setting, after);
    if forall p :: AstroListed(setting, before, p) <==> AstroListed(setting, after, p) {
      SameAstroFiles(a, b, setting, before, after);
    }
  }

  // ----- what decides about a rebuild -----

  /** No file that counts appears, disappears or changes. */
  ghost predicate SameCounted(setting: WakuSetting, before: Node, after: Node, a: Snapshot, b: Snapshot) {
    forall p :: (Counts(setting, before, p) <==> Counts(setting, after, p)) && (Counts(setting, before, p) ==> a.content(p) == b.content(p))
  }

  /**
   With version, options and workspaces as they were, a Waku project's input hash changes exactly when
   a file that counts in its root appears, disappears or changes.
   */
  lemma WakuRebuildIsDecided(p: WakuProject, q: WakuProject, ws: seq<string>, sha: seq<string> -> string,
          setting: WakuSetting, before: Node, after: Node, a: Snapshot, b: Snapshot)
    requires p.root == q.root && p.sha == q.sha && NoCollisions(p.sha) && NoCollisions(sha) && PortableUnder(p.root, ws)
    requires AreHashes(p.directoryHash) && AreHashes(q.directoryHash) && AreHashes(a.content) && AreHashes(b.content)
    requires p.version == q.version && p.options == q.options && SameContents(p, q, ws)
    requires IsSnapshotOf(a, setting, before) && IsSnapshotOf(b, setting, after)
    requires p.rootHash == DirectoryHash(sha, a) && q.rootHash == DirectoryHash(sha, b)
    ensures p.HashInput(ws).0 == q.HashInput(ws).0 <==> SameCounted(setting, before, after, a, b)
  {
    WakuChangeIsNoticed(p, q, ws);
    WakuEditIsNoticed(sha, setting, before, after, a, b);
  }

  /** The same for an Astro project whose list of files stays; and no other list of files hashes alike. */
  lemma AstroRebuildIsDecided(p: Project, q: Project, ws: seq<string>, sha: seq<string> -> string,
          setting: AstroSetting, before: Node, after: Node, a: Snapshot, b: Snapshot)
    requires SamePlace(p, q) && NoCollisions(p.sha) && NoCollisions(sha) && p.explicitWorkspaces.None? && q.explicitWorkspaces.None?
    requires AreHashes(p.directoryHash) && AreHashes(q.directoryHash) && AreHashes(a.content) && AreHashes(b.content)
    requires p.salt == q.salt && SameWorkspaces(p, q, ws)
    requires IsAstroSnapshotOf(a, setting, before) && IsAstroSnapshotOf(b, setting, after)
    requires p.rootHash == DirectoryHash(sha, a) && q.rootHash == DirectoryHash(sha, b)
    ensures (forall f :: AstroListed(setting, before, f) <==> AstroListed(setting, after, f)) ==>
              (p.HashInput(ws).0 == q.HashInput(ws).0 <==> forall f :: AstroCounts(setting, before, f) ==> a.content(f) == b.content(f))
    ensures p.HashInput(ws).0 == q.HashInput(ws).0 ==>
              forall f :: (AstroCounts(setting, before, f) <==> AstroCounts(setting, after, f))
                          && (AstroCounts(setting, before, f) ==> a.content(f) == b.content(f))
  {
    ChangeIsNoticed(p, q, ws);
    AstroEditIsNoticed(sha, setting, before, after, a, b);
  }
}
