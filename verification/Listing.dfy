/** The sorted listing a walk returns, and what it does and does not depend on. */
module Listing {
  import opened Text
  import opened Sorting
  import opened Tree

  predicate NoDuplicates(xs: seq<string>) {
    forall i, j :: 0 <= i < j < |xs| ==> xs[i] != xs[j]
  }

  predicate StrictlySorted(xs: seq<string>) {
    forall i, j :: 0 <= i < j < |xs| ==> Less(xs[i], xs[j])
  }

  /** The walk from the root, sorted. */
  function ListFiles(prune: string -> bool, keep: string -> bool, root: Node): seq<string>
    requires root.Directory?
  {
    Sort(LessOrEqual, Walk(prune, keep, "", root))
  }

  lemma ConcatNoDuplicates(a: seq<string>, b: seq<string>)
    requires NoDuplicates(a) && NoDuplicates(b) && forall x :: x in a ==> x !in b
    ensures NoDuplicates(a + b)
  {
    forall i, j | 0 <= i < j < |a + b|
      ensures (a + b)[i] != (a + b)[j]
    {
      assert i < |a| ==> (a + b)[i] in a;
      assert j >= |a| ==> (a + b)[j] in b;
    }
  }

  lemma {:induction false} EntriesHaveNoDuplicates(prune: string -> bool, keep: string -> bool,
          prefix: seq<string>, es: seq<Entry>, bound: Node)
    requires Names(prefix)
    requires forall e :: e in es ==> e.node < bound && IsName(e.name) && WellFormed(e.node)
    requires forall i, j :: 0 <= i < j < |es| ==> es[i].name != es[j].name
    ensures NoDuplicates(WalkEntries(prune, keep, PathString(prefix), es, bound))
    decreases bound, |es|
  {
    if es != [] {
      var e, rel := es[0], PathString(prefix);
      EntriesHaveNoDuplicates(prune, keep, prefix, es[1..], bound);
      PathStringOfChild(prefix, e.name);
      var first := Visit(prune, keep, ChildPath(rel, e.name), e.node);
      if e.node.Directory? {
        ChildrenAreDistinct(e.node);
        EntriesHaveNoDuplicates(prune, keep, prefix + [e.name], Children(e.node), e.node);
      }
      forall x | x in first
        ensures x !in WalkEntries(prune, keep, rel, es[1..], bound)
      {
        VisitListsFiles(prune, keep, prefix, e, x);
        EntriesListFiles(prune, keep, prefix, es[1..], bound, x);
        forall f, other | f in es[1..]
          ensures !ListedBelow(prune, keep, prefix, f, other, x)
        {
          var path :| ListedBelow(prune, keep, prefix, e, path, x);
          if ListedBelow(prune, keep, prefix, f, other, x) {
            SameFile(prefix, e, path, f, other);
          }
        }
      }
      ConcatNoDuplicates(first, WalkEntries(prune, keep, rel, es[1..], bound));
    }
  }

  lemma SameFile(prefix: seq<string>, e: Entry, path: seq<string>, f: Entry, other: seq<string>)
    requires Names(prefix) && IsName(e.name) && IsName(f.name) && WellFormed(e.node) && WellFormed(f.node)
    requires path != [] && path[0] == e.name && FileAt(e.node, path[1..])
    requires other != [] && other[0] == f.name && FileAt(f.node, other[1..])
    requires PathString(prefix + path) == PathString(prefix + other)
    ensures path == other
  {
    PathOfFileHasNames(e.node, path[1..]);
    PathOfFileHasNames(f.node, other[1..]);
    assert path == [path[0]] + path[1..] && other == [other[0]] + other[1..];
    PathStringIsInjective(prefix + path, prefix + other);
    assert path == (prefix + path)[|prefix|..] && other == (prefix + other)[|prefix|..];
  }

  lemma ChildrenAreDistinct(dir: Node)
    requires dir.Directory? && WellFormed(dir)
    ensures forall i, j :: 0 <= i < j < |Children(dir)| ==> Children(dir)[i].name != Children(dir)[j].name
  {
    var es, cs := dir.entries, Children(dir);
    SortPermutes(ByName, es);
    forall i, j | 0 <= i < j < |cs|
      ensures cs[i].name != cs[j].name
    {
      if cs[i].name == cs[j].name {
        assert cs[i] in es && cs[j] in es;
        TwiceInSeq(cs, i, j);
        OnceInSeq(es, cs[i]);
      }
    }
  }

  lemma {:induction false} OnceInSeq(es: seq<Entry>, a: Entry)
    requires forall i, j :: 0 <= i < j < |es| ==> es[i].name != es[j].name
    ensures multiset(es)[a] <= 1
  {
    if es != [] {
      OnceInSeq(es[1..], a);
      assert es == [es[0]] + es[1..];
      assert a in es[1..] ==> a.name != es[0].name;
    }
  }

  /** `p` names a file that passes and that no pruned directory leads to. */
  ghost predicate Lists(prune: string -> bool, keep: string -> bool, root: Node, p: string) {
    exists path :: IsListed(prune, keep, [], root, path) && p == PathString(path)
  }

  lemma WalkHasNoDuplicates(prune: string -> bool, keep: string -> bool, root: Node)
    requires root.Directory? && WellFormed(root)
    ensures NoDuplicates(Walk(prune, keep, "", root))
  {
    ChildrenAreDistinct(root);
    EntriesHaveNoDuplicates(prune, keep, [], Children(root), root);
  }

  /** Each listed file is listed once, in sorted order, and the listed files are the right ones. */
  lemma ListingIsExact(prune: string -> bool, keep: string -> bool, root: Node)
    requires root.Directory? && WellFormed(root)
    ensures StrictlySorted(ListFiles(prune, keep, root))
    ensures forall p :: p in ListFiles(prune, keep, root) <==> Lists(prune, keep, root, p)
  {
    var walked, listed := Walk(prune, keep, "", root), ListFiles(prune, keep, root);
    WalkHasNoDuplicates(prune, keep, root);
    SortIsStrict(walked);
    SortKeepsMembers(LessOrEqual, walked);
    forall p
      ensures p in listed <==> Lists(prune, keep, root, p)
    {
      WalkListsFiles(prune, keep, [], root, p);
      assert forall path: seq<string> :: [] + path == path;
    }
  }

  lemma SortIsStrict(xs: seq<string>)
    requires NoDuplicates(xs)
    ensures StrictlySorted(Sort(LessOrEqual, xs))
  {
    var ys := Sort(LessOrEqual, xs);
    StringOrderIsTotal();
    SortSorts(LessOrEqual, xs);
    SortPermutes(LessOrEqual, xs);
    forall i, j | 0 <= i < j < |ys|
      ensures Less(ys[i], ys[j])
    {
      assert LessOrEqual(ys[i], ys[j]);
      if ys[i] == ys[j] {
        TwiceInSeq(ys, i, j);
        OnceWhenDistinct(xs, ys[i]);
      }
    }
  }

  lemma {:induction false} OnceWhenDistinct(xs: seq<string>, x: string)
    requires NoDuplicates(xs)
    ensures multiset(xs)[x] <= 1
  {
    if xs != [] {
      OnceWhenDistinct(xs[1..], x);
      assert xs == [xs[0]] + xs[1..];
    }
  }

  /** Sorting forgets the order and nothing else. */
  lemma SortForgetsOrder(a: seq<string>, b: seq<string>)
    ensures Sort(LessOrEqual, a) == Sort(LessOrEqual, b) <==> multiset(a) == multiset(b)
  {
    SortPermutes(LessOrEqual, a);
    SortPermutes(LessOrEqual, b);
    if multiset(a) == multiset(b) {
      StringOrderIsTotal();
      SortSorts(LessOrEqual, a);
      SortSorts(LessOrEqual, b);
      SortedByContents(Sort(LessOrEqual, a), Sort(LessOrEqual, b));
    }
  }

  lemma LeastFirst(a: seq<string>, x: string)
    requires SortedBy(LessOrEqual, a) && x in a
    ensures LessOrEqual(a[0], x)
  {
    StringOrderIsTotal();
    var i :| 0 <= i < |a| && a[i] == x;
    assert i > 0 ==> LessOrEqual(a[0], a[i]);
  }

  lemma Antisymmetric(x: string, y: string)
    requires LessOrEqual(x, y) && LessOrEqual(y, x)
    ensures x == y
  {
    StringOrderIsTotal();
  }

  lemma TailOfSorted(a: seq<string>)
    requires a != [] && SortedBy(LessOrEqual, a)
    ensures SortedBy(LessOrEqual, a[1..])
  {
  }

  lemma TailsAlike(a: seq<string>, b: seq<string>)
    requires a != [] && b != [] && a[0] == b[0] && multiset(a) == multiset(b)
    ensures multiset(a[1..]) == multiset(b[1..])
  {
    assert a == [a[0]] + a[1..] && b == [b[0]] + b[1..];
    assert multiset(a[1..]) == multiset(a) - multiset{a[0]};
    assert multiset(b[1..]) == multiset(b) - multiset{b[0]};
  }

  lemma HeadsAlike(a: seq<string>, b: seq<string>)
    requires a != [] && SortedBy(LessOrEqual, a) && SortedBy(LessOrEqual, b) && multiset(a) == multiset(b)
    ensures b != [] && a[0] == b[0]
  {
    assert a[0] in multiset(b);
    assert b[0] in multiset(a);
    LeastFirst(a, b[0]);
    LeastFirst(b, a[0]);
    Antisymmetric(a[0], b[0]);
  }

  lemma {:induction false} SortedByContents(a: seq<string>, b: seq<string>)
    requires SortedBy(LessOrEqual, a) && SortedBy(LessOrEqual, b) && multiset(a) == multiset(b)
    ensures a == b
  {
    if a == [] {
      assert multiset(b) == multiset{};
      assert |multiset(b)| == |b|;
    } else {
      HeadsAlike(a, b);
      TailOfSorted(a);
      TailOfSorted(b);
      TailsAlike(a, b);
      SortedByContents(a[1..], b[1..]);
      assert a == [a[0]] + a[1..] && b == [b[0]] + b[1..];
    }
  }

  /** A strictly sorted sequence is determined by its members. */
  lemma {:induction false} SortedByMembers(a: seq<string>, b: seq<string>)
    requires StrictlySorted(a) && StrictlySorted(b) && forall x :: x in a <==> x in b
    ensures a == b
  {
    assert forall i :: 0 <= i < |a| ==> a[i] in b;
    assert forall i :: 0 <= i < |b| ==> b[i] in a;
    if a != [] && b != [] {
      LessIsStrictAndTotal(a[0], b[0]);
      assert a[0] == b[0];
      forall x
        ensures x in a[1..] <==> x in b[1..]
      {
        LessIsStrictAndTotal(x, x);
        assert x in a <==> x == a[0] || x in a[1..];
        assert x in b <==> x == b[0] || x in b[1..];
      }
      SortedByMembers(a[1..], b[1..]);
      assert a == [a[0]] + a[1..] && b == [b[0]] + b[1..];
    }
  }

  /** Nothing below a pruned directory is listed, whatever would be kept there. */
  lemma NothingBelowPruned(prune: string -> bool, keep: string -> bool, root: Node, dir: string, below: string)
    requires root.Directory? && WellFormed(root) && prune(dir)
    ensures dir + "/" + below !in ListFiles(prune, keep, root)
  {
    ListingIsExact(prune, keep, root);
    var p := dir + "/" + below;
    forall path | Names(path) && path != [] && p == PathString(path)
      ensures !Unpruned(prune, [], path)
    {
      SplitOfJoin(path, '/');
      SplitConcat(dir, '/', below);
      JoinOfSplit(dir, '/');
      var k := |Split(dir, '/')|;
      assert path[..k] == Split(dir, '/');
      assert [] + path[..k] == path[..k];
    }
    forall path | FileAt(root, path)
      ensures Names(path)
    {
      PathOfFileHasNames(root, path);
    }
  }

  // ----- pruning as an optimisation -----

  /** Whatever lies below a pruned directory is not kept either. */
  ghost predicate PruningIsSound(prune: string -> bool, keep: string -> bool) {
    forall p, below :: prune(p) && OneLine(below) ==> !keep(p + "/" + below)
  }

  predicate NamesOnOneLine(n: Node) {
    n.Directory? ==> forall e :: e in n.entries ==> OneLine(e.name) && NamesOnOneLine(e.node)
  }

  predicate OneLineNames(path: seq<string>) {
    forall i :: 0 <= i < |path| ==> OneLine(path[i])
  }

  lemma {:induction false} ReachedOnOneLine(node: Node, path: seq<string>)
    requires NamesOnOneLine(node) && Reaches(node, path)
    ensures OneLineNames(path)
    decreases |path|
  {
    if path != [] {
      var e :| e in node.entries && e.name == path[0] && Reaches(e.node, path[1..]);
      ReachedOnOneLine(e.node, path[1..]);
    }
  }

  lemma {:induction false} OneLinePath(path: seq<string>)
    requires OneLineNames(path)
    ensures OneLine(PathString(path))
  {
    if |path| > 1 {
      OneLinePath(path[1..]);
      OneLineConcat(path[0], ['/']);
      OneLineConcat(path[0] + ['/'], PathString(path[1..]));
    }
  }

  /**
   The pruning walk lists what a flat filter of the whole tree keeps, in the same order.
   */
  lemma {:induction false} PrunedWalkIsFlatFilter(prune: string -> bool, keep: string -> bool, rel: string, dir: Node)
    requires dir.Directory? && WellFormed(dir) && NamesOnOneLine(dir) && PruningIsSound(prune, keep)
    ensures Walk(prune, keep, rel, dir) == Filter(keep, Walk(p => false, p => true, rel, dir))
    decreases dir, 1
  {
    EntriesAreFlatFilter(prune, keep, rel, Children(dir), dir);
  }

  lemma {:induction false} EntriesAreFlatFilter(prune: string -> bool, keep: string -> bool, rel: string,
          es: seq<Entry>, bound: Node)
    requires forall e :: e in es ==> e.node < bound && IsName(e.name) && OneLine(e.name) && WellFormed(e.node) && NamesOnOneLine(e.node)
    requires PruningIsSound(prune, keep)
    ensures WalkEntries(prune, keep, rel, es, bound)
         == Filter(keep, WalkEntries(p => false, p => true, rel, es, bound))
    decreases bound, 0, |es|
  {
    if es != [] {
      var path := ChildPath(rel, es[0].name);
      EntriesAreFlatFilter(prune, keep, rel, es[1..], bound);
      VisitIsFlatFilter(prune, keep, path, es[0].node);
      FilterConcat(keep, Visit(p => false, p => true, path, es[0].node), WalkEntries(p => false, p => true, rel, es[1..], bound));
    }
  }

  lemma {:induction false} VisitIsFlatFilter(prune: string -> bool, keep: string -> bool, path: string, node: Node)
    requires WellFormed(node) && NamesOnOneLine(node) && PruningIsSound(prune, keep) && path != ""
    ensures Visit(prune, keep, path, node) == Filter(keep, Visit(p => false, p => true, path, node))
    decreases node, 2
  {
    match node
    case File =>
    case Directory(_) =>
      if prune(path) {
        var below := Walk(p => false, p => true, path, node);
        forall x | x in below
          ensures !keep(x)
        {
          EverythingIsBelow(path, Children(node), node, x);
        }
        FilterNothing(keep, below);
      } else {
        PrunedWalkIsFlatFilter(prune, keep, path, node);
      }
    case _ =>
  }

  lemma {:induction false} FilterConcat(p: string -> bool, a: seq<string>, b: seq<string>)
    ensures Filter(p, a + b) == Filter(p, a) + Filter(p, b)
  {
    if a == [] {
      assert a + b == b;
    } else {
      assert (a + b)[1..] == a[1..] + b;
      FilterConcat(p, a[1..], b);
    }
  }

  lemma {:induction false} FilterNothing(p: string -> bool, a: seq<string>)
    requires forall x :: x in a ==> !p(x)
    ensures Filter(p, a) == []
  {
    if a != [] {
      FilterNothing(p, a[1..]);
    }
  }

  lemma {:induction false} EverythingIsBelow(path: string, es: seq<Entry>, bound: Node, x: string)
    requires path != ""
    requires forall e :: e in es ==> e.node < bound && IsName(e.name) && OneLine(e.name) && WellFormed(e.node) && NamesOnOneLine(e.node)
    requires x in WalkEntries(p => false, p => true, path, es, bound)
    ensures exists below :: OneLine(below) && x == path + "/" + below
    decreases bound, |es|
  {
    var here := path + "/" + es[0].name;
    assert ChildPath(path, es[0].name) == here;
    if x in Visit(p => false, p => true, here, es[0].node) {
      if es[0].node.Directory? {
        EverythingIsBelow(here, Children(es[0].node), es[0].node, x);
        BelowAgain(path, es[0].name, x);
      } else {
        assert x == path + "/" + es[0].name;
      }
    } else {
      EverythingIsBelow(path, es[1..], bound, x);
    }
  }

  lemma BelowAgain(path: string, name: string, x: string)
    requires OneLine(name) && exists below :: OneLine(below) && x == path + "/" + name + "/" + below
    ensures exists below :: OneLine(below) && x == path + "/" + below
  {
    var below :| OneLine(below) && x == path + "/" + name + "/" + below;
    var more := name + "/" + below;
    OneLineConcat(name + "/", below);
    OneLineConcat(name, "/");
    assert x == path + "/" + more;
  }

  // ----- what the listing does not depend on -----

  /** No directory on the way, nor the file itself, is hidden. */
  predicate Visible(hidden: string -> bool, path: seq<string>) {
    forall k :: 0 < k <= |path| ==> !hidden(PathString(path[..k]))
  }

  /** Two trees have the same files wherever nothing on the way is hidden. */
  ghost predicate SameVisibleFiles(hidden: string -> bool, a: Node, b: Node) {
    forall path :: Visible(hidden, path) ==> (FileAt(a, path) <==> FileAt(b, path))
  }

  /** If hidden paths are pruned and not kept, changing what is hidden leaves the listing as it was. */
  lemma ListingIgnoresHidden(prune: string -> bool, keep: string -> bool, hidden: string -> bool, a: Node, b: Node)
    requires a.Directory? && WellFormed(a) && b.Directory? && WellFormed(b)
    requires forall p :: hidden(p) ==> prune(p) && !keep(p)
    requires SameVisibleFiles(hidden, a, b)
    ensures ListFiles(prune, keep, a) == ListFiles(prune, keep, b)
  {
    ListingIsExact(prune, keep, a);
    ListingIsExact(prune, keep, b);
    forall path
      ensures IsListed(prune, keep, [], a, path) <==> IsListed(prune, keep, [], b, path)
    {
      if IsListed(prune, keep, [], a, path) {
        ListedIsVisible(prune, keep, hidden, a, path);
      }
      if IsListed(prune, keep, [], b, path) {
        ListedIsVisible(prune, keep, hidden, b, path);
      }
    }
    SortedByMembers(ListFiles(prune, keep, a), ListFiles(prune, keep, b));
  }

  lemma ListedIsVisible(prune: string -> bool, keep: string -> bool, hidden: string -> bool, node: Node,
          path: seq<string>)
    requires forall p :: hidden(p) ==> prune(p) && !keep(p)
    requires IsListed(prune, keep, [], node, path)
    ensures Visible(hidden, path)
  {
    assert [] + path == path && path[..|path|] == path;
    assert forall k :: 0 < k < |path| ==> [] + path[..k] == path[..k];
  }
}
