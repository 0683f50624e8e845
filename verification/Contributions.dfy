/**
 What the collector of packages/framework-core/src/Collector.ts makes of the bundles themselves: which
 chunk becomes the server entry, what is recorded of each file, and what the names lead to.
 */
module Contributions {
  import opened Options
  import opened Text
  import opened Paths
  import opened Sorting
  import opened Collector

  /** A file of a bundle, with the bundle's environment, its directory and the prefix of its module names. */
  datatype Contribution = Contribution(environment: string, outDir: string, prefix: string, item: Item) {
    function Name(): string {
      ToModuleName(prefix, item.fileName)
    }

    function Content(): string {
      if item.Chunk? then item.code else item.source
    }
  }

  function ItemsOf(environment: string, outDir: string, prefix: string, items: seq<Item>): seq<Contribution> {
    seq(|items|, i requires 0 <= i < |items| => Contribution(environment, outDir, prefix, items[i]))
  }

  /** The files of the bundles that are neither skipped nor the client's, in the order they are written. */
  function Contributed(settings: Settings, dist: Option<string>, bundles: seq<Bundle>): seq<Contribution> {
    if bundles == [] then []
    else
      var b := bundles[0];
      var outDir := Resolve(b.root, b.outDir);
      (if b.environment in settings.skipEnvironments || b.environment == settings.clientEnvironment then []
       else ItemsOf(b.environment, outDir, Relative(if dist.Some? then dist.value else b.root, outDir), b.items))
      + Contributed(settings, dist, bundles[1..])
  }

  function EventsOfOne(settings: Settings, c: Contribution): seq<Event> {
    EventsOfItem(settings, c.environment, c.outDir, c.prefix, c.item)
  }

  function EventsOfAll(settings: Settings, cs: seq<Contribution>): seq<Event> {
    if cs == [] then [] else EventsOfAll(settings, cs[..|cs| - 1]) + EventsOfOne(settings, cs[|cs| - 1])
  }

  lemma EventsSnoc(settings: Settings, cs: seq<Contribution>, c: Contribution)
    ensures EventsOfAll(settings, cs + [c]) == EventsOfAll(settings, cs) + EventsOfOne(settings, c)
  {
    var all := cs + [c];
    assert all[..|all| - 1] == cs && all[|all| - 1] == c;
  }

  lemma {:induction false} EventsConcat(settings: Settings, a: seq<Contribution>, b: seq<Contribution>)
    ensures EventsOfAll(settings, a + b) == EventsOfAll(settings, a) + EventsOfAll(settings, b)
    decreases |b|
  {
    if b == [] {
      assert a + b == a;
    } else {
      var init, last := b[..|b| - 1], b[|b| - 1];
      assert b == init + [last];
      assert a + b == (a + init) + [last];
      EventsConcat(settings, a, init);
      EventsSnoc(settings, a + init, last);
      EventsSnoc(settings, init, last);
      Reassociate(EventsOfAll(settings, a), EventsOfAll(settings, init), EventsOfOne(settings, last));
    }
  }

  lemma ItemsSnoc(settings: Settings, environment: string, outDir: string, prefix: string, items: seq<Item>, item: Item)
    ensures EventsOfItems(settings, environment, outDir, prefix, items + [item])
         == EventsOfItems(settings, environment, outDir, prefix, items) + EventsOfItem(settings, environment, outDir, prefix, item)
  {
    var all := items + [item];
    assert all[..|all| - 1] == items && all[|all| - 1] == item;
  }

  lemma ContributionsSnoc(environment: string, outDir: string, prefix: string, items: seq<Item>, item: Item)
    ensures ItemsOf(environment, outDir, prefix, items + [item])
         == ItemsOf(environment, outDir, prefix, items) + [Contribution(environment, outDir, prefix, item)]
  {
  }

  /** The same events so far, and the same of one more file. */
  lemma SameEventsSnoc(settings: Settings, cs: seq<Contribution>, c: Contribution, items: seq<Item>)
    requires EventsOfAll(settings, cs) == EventsOfItems(settings, c.environment, c.outDir, c.prefix, items)
    ensures EventsOfAll(settings, cs + [c]) == EventsOfItems(settings, c.environment, c.outDir, c.prefix, items + [c.item])
  {
    EventsSnoc(settings, cs, c);
    ItemsSnoc(settings, c.environment, c.outDir, c.prefix, items, c.item);
  }

  predicate SameEvents(settings: Settings, environment: string, outDir: string, prefix: string, items: seq<Item>) {
    EventsOfAll(settings, ItemsOf(environment, outDir, prefix, items)) == EventsOfItems(settings, environment, outDir, prefix, items)
  }

  lemma NextSameEvents(settings: Settings, environment: string, outDir: string, prefix: string, items: seq<Item>, item: Item)
    requires SameEvents(settings, environment, outDir, prefix, items)
    ensures SameEvents(settings, environment, outDir, prefix, items + [item])
  {
    ContributionsSnoc(environment, outDir, prefix, items, item);
    SameEventsSnoc(settings, ItemsOf(environment, outDir, prefix, items), Contribution(environment, outDir, prefix, item), items);
  }

  lemma {:induction false} EventsOfBundle(settings: Settings, environment: string, outDir: string, prefix: string, items: seq<Item>)
    ensures SameEvents(settings, environment, outDir, prefix, items)
    decreases |items|
  {
    if items == [] {
      assert ItemsOf(environment, outDir, prefix, items) == [];
    } else {
      var init, last := items[..|items| - 1], items[|items| - 1];
      assert items == init + [last];
      EventsOfBundle(settings, environment, outDir, prefix, init);
      NextSameEvents(settings, environment, outDir, prefix, init, last);
    }
  }

  lemma {:induction false} HistoryIsContributed(settings: Settings, dist: Option<string>, bundles: seq<Bundle>)
    ensures History(settings, dist, bundles) == EventsOfAll(settings, Contributed(settings, dist, bundles))
  {
    if bundles != [] {
      var b, rest := bundles[0], Contributed(settings, dist, bundles[1..]);
      HistoryIsContributed(settings, dist, bundles[1..]);
      if Contributes(settings, b) {
        var outDir := OutDirOf(b);
        var prefix := PrefixOf(dist, b.root, outDir);
        EventsOfBundle(settings, b.environment, outDir, prefix, b.items);
        EventsConcat(settings, ItemsOf(b.environment, outDir, prefix, b.items), rest);
      } else {
        assert [] + rest == rest;
      }
    }
  }

  // ----- the entry -----

  predicate IsEntryChunk(settings: Settings, c: Contribution) {
    c.item.Chunk? && c.item.isEntry && c.environment == settings.entryEnvironment
  }

  /** An entry chunk that `selectEntry` selects. */
  predicate IsSelected(settings: Settings, c: Contribution) {
    IsEntryChunk(settings, c) && settings.selectEntry(EntryChunk(c.item.fileName, c.Name(), c.item.facade))
  }

  /** An entry chunk whose facade is a wrapped worker entry. */
  predicate IsWrapped(settings: Settings, c: Contribution) {
    IsEntryChunk(settings, c) && c.item.facade.Some? && StartsWith(c.item.facade.value, "\0distilled:worker-entry:")
  }

  /** The `i`-th is of a kind and none behind it is. */
  predicate IsLastOf(cs: seq<Contribution>, kind: Contribution -> bool, i: nat) {
    i < |cs| && kind(cs[i]) && forall j :: i < j < |cs| ==> !kind(cs[j])
  }

  predicate HasKind(cs: seq<Contribution>, kind: Contribution -> bool) {
    exists i :: 0 <= i < |cs| && kind(cs[i])
  }

  /** The last selected chunk, or else the last wrapped one, or else the last entry chunk. */
  predicate IsChosen(settings: Settings, cs: seq<Contribution>, i: nat) {
    if HasKind(cs, c => IsSelected(settings, c)) then IsLastOf(cs, c => IsSelected(settings, c), i)
    else if HasKind(cs, c => IsWrapped(settings, c)) then IsLastOf(cs, c => IsWrapped(settings, c), i)
    else IsLastOf(cs, c => IsEntryChunk(settings, c), i)
  }

  function Rank(settings: Settings, c: Contribution): nat {
    PriorityOf(settings, c.environment, c.prefix, c.item)
  }

  lemma RankOf(settings: Settings, c: Contribution)
    ensures Rank(settings, c)
         == if IsSelected(settings, c) then 3 else if IsWrapped(settings, c) then 2 else if IsEntryChunk(settings, c) then 1 else 0
  {
  }

  // ----- the latest of the highest, whatever ranks -----

  /** What is taken over, and how high it ranks: each element that ranks at least as high as what there is. */
  function Best<T>(rank: T -> nat, xs: seq<T>): (Option<T>, nat) {
    if xs == [] then (None, 0)
    else
      var (best, highest) := Best(rank, xs[..|xs| - 1]);
      var last := xs[|xs| - 1];
      if rank(last) > 0 && rank(last) >= highest then (Some(last), rank(last)) else (best, highest)
  }

  predicate IsHighest<T>(rank: T -> nat, xs: seq<T>, i: nat) {
    && i < |xs| && rank(xs[i]) > 0
    && forall j :: 0 <= j < |xs| ==> rank(xs[j]) <= rank(xs[i]) && (j > i ==> rank(xs[j]) < rank(xs[i]))
  }

  lemma {:induction false} BestIsHighest<T>(rank: T -> nat, xs: seq<T>)
    ensures
      var (best, highest) := Best(rank, xs);
      match best
      case None => highest == 0 && forall j :: 0 <= j < |xs| ==> rank(xs[j]) == 0
      case Some(x) => exists i: nat :: i < |xs| && IsHighest(rank, xs, i) && xs[i] == x && rank(x) == highest
    decreases |xs|
  {
    if xs != [] {
      var n := |xs| - 1;
      var (best, highest) := Best(rank, xs[..n]);
      BestIsHighest(rank, xs[..n]);
      assert forall j :: 0 <= j < n ==> xs[..n][j] == xs[j];
      if rank(xs[n]) > 0 && rank(xs[n]) >= highest {
        assert IsHighest(rank, xs, n);
      } else if best.Some? {
        var i: nat :| i < n && IsHighest(rank, xs[..n], i) && xs[..n][i] == best.value;
        assert IsHighest(rank, xs, i);
      }
    }
  }

  lemma HighestIsChosen(settings: Settings, rank: Contribution -> nat, cs: seq<Contribution>, i: nat)
    requires IsHighest(rank, cs, i)
    requires forall c :: rank(c) == if IsSelected(settings, c) then 3 else if IsWrapped(settings, c) then 2
                                    else if IsEntryChunk(settings, c) then 1 else 0
    ensures IsChosen(settings, cs, i)
  {
  }

  lemma {:induction false} ManifestsKeepEntry(r: Record, outDir: string, prefix: string, imports: seq<string>)
    ensures
      var t := ApplyAll(r, ManifestEvents(outDir, prefix, imports));
      t.entry == r.entry && t.priority == r.priority
  {
    if imports != [] {
      var n := |imports| - 1;
      var event := ManifestEvent(outDir, prefix, imports[n]);
      ManifestsKeepEntry(r, outDir, prefix, imports[..n]);
      ApplyAllConcat(r, ManifestEvents(outDir, prefix, imports[..n]), event);
      if event != [] {
        assert event == [event[0]] && event[..0] == [];
      }
    }
  }

  lemma OneEntryStep(settings: Settings, r: Record, c: Contribution)
    ensures
      var t, rank := ApplyAll(r, EventsOfOne(settings, c)), Rank(settings, c);
      if rank > 0 && rank >= r.priority then t.entry == Some(c.Name()) && t.priority == rank
      else t.entry == r.entry && t.priority == r.priority
  {
    var emit := EmitEvent(settings, c.environment, c.prefix, c.item);
    var manifests := if c.item.Chunk? then ManifestEvents(c.outDir, c.prefix, c.item.imports) else [];
    ApplyAllConcat(r, [emit], manifests);
    assert [emit][..0] == [];
    if c.item.Chunk? {
      ManifestsKeepEntry(ApplyAll(r, [emit]), c.outDir, c.prefix, c.item.imports);
    }
  }

  lemma RecordSnoc(settings: Settings, cs: seq<Contribution>, c: Contribution)
    ensures ApplyAll(NOTHING, EventsOfAll(settings, cs + [c])) == ApplyAll(ApplyAll(NOTHING, EventsOfAll(settings, cs)), EventsOfOne(settings, c))
  {
    EventsSnoc(settings, cs, c);
    ApplyAllConcat(NOTHING, EventsOfAll(settings, cs), EventsOfOne(settings, c));
  }

  /** The record names the best chunk. */
  predicate RecordsBest(r: Record, best: Option<Contribution>, highest: nat) {
    r.priority == highest && r.entry == match best { case None => None case Some(c) => Some(c.Name()) }
  }

  lemma StepRecordsBest(settings: Settings, r: Record, best: Option<Contribution>, highest: nat, c: Contribution)
    requires RecordsBest(r, best, highest)
    ensures
      var rank, t := Rank(settings, c), ApplyAll(r, EventsOfOne(settings, c));
      if rank > 0 && rank >= highest then RecordsBest(t, Some(c), rank) else RecordsBest(t, best, highest)
  {
    OneEntryStep(settings, r, c);
  }

  predicate RecordsBestOf(settings: Settings, rank: Contribution -> nat, cs: seq<Contribution>) {
    RecordsBest(ApplyAll(NOTHING, EventsOfAll(settings, cs)), Best(rank, cs).0, Best(rank, cs).1)
  }

  lemma BestSnoc(rank: Contribution -> nat, cs: seq<Contribution>, c: Contribution)
    ensures Best(rank, cs + [c]) == if rank(c) > 0 && rank(c) >= Best(rank, cs).1 then (Some(c), rank(c)) else Best(rank, cs)
  {
    var all := cs + [c];
    assert all[..|all| - 1] == cs && all[|all| - 1] == c;
  }

  lemma NextRecordsBest(settings: Settings, rank: Contribution -> nat, cs: seq<Contribution>, c: Contribution)
    requires rank(c) == Rank(settings, c) && RecordsBestOf(settings, rank, cs)
    ensures RecordsBestOf(settings, rank, cs + [c])
  {
    StepRecordsBest(settings, ApplyAll(NOTHING, EventsOfAll(settings, cs)), Best(rank, cs).0, Best(rank, cs).1, c);
    RecordSnoc(settings, cs, c);
    BestSnoc(rank, cs, c);
  }

  lemma {:induction false} EntryIsBest(settings: Settings, rank: Contribution -> nat, cs: seq<Contribution>)
    requires forall c :: rank(c) == Rank(settings, c)
    ensures RecordsBestOf(settings, rank, cs)
    decreases |cs|
  {
    if cs != [] {
      var init, last := cs[..|cs| - 1], cs[|cs| - 1];
      assert cs == init + [last];
      EntryIsBest(settings, rank, init);
      NextRecordsBest(settings, rank, init, last);
    }
  }

  /**
   After any sequence of `writeBundle` calls: there is no entry exactly when no entry chunk of the entry
   environment was written, and otherwise it is the module of the chunk that is to be chosen.
   */
  lemma EntryIsChosen(settings: Settings, dist: Option<string>, bundles: seq<Bundle>)
    ensures
      var entry, cs := Run(settings, Fresh(dist), bundles).record.entry, Contributed(settings, dist, bundles);
      && (entry.None? <==> forall j :: 0 <= j < |cs| ==> !IsEntryChunk(settings, cs[j]))
      && (entry.Some? ==> exists i: nat :: i < |cs| && IsChosen(settings, cs, i) && entry.value == cs[i].Name())
  {
    var r, cs := Run(settings, Fresh(dist), bundles).record, Contributed(settings, dist, bundles);
    RunIsHistory(settings, Fresh(dist), bundles);
    HistoryIsContributed(settings, dist, bundles);
    var rank: Contribution -> nat := c => Rank(settings, c);
    EntryIsBest(settings, rank, cs);
    BestIsHighest(rank, cs);
    ChosenByRank(settings, rank, cs);
  }

  lemma ChosenByRank(settings: Settings, rank: Contribution -> nat, cs: seq<Contribution>)
    requires forall c :: rank(c) == Rank(settings, c)
    ensures forall i: nat :: i < |cs| && IsHighest(rank, cs, i) ==> IsChosen(settings, cs, i) && IsEntryChunk(settings, cs[i])
    ensures (forall j :: 0 <= j < |cs| ==> rank(cs[j]) == 0) <==> forall j :: 0 <= j < |cs| ==> !IsEntryChunk(settings, cs[j])
  {
    forall c
      ensures rank(c) == if IsSelected(settings, c) then 3 else if IsWrapped(settings, c) then 2
                         else if IsEntryChunk(settings, c) then 1 else 0
    {
      RankOf(settings, c);
    }
    forall i: nat | i < |cs| && IsHighest(rank, cs, i)
      ensures IsChosen(settings, cs, i)
    {
      HighestIsChosen(settings, rank, cs, i);
    }
  }

  // ----- the modules -----

  /** The files that the RSC plugin writes after the build, by the modules that stand for them. */
  predicate IsManifest(id: string, fileName: string) {
    || (id == "virtual:vite-rsc/assets-manifest" && fileName == "__vite_rsc_assets_manifest.js")
    || (id == "virtual:vite-rsc/environment-imports" && fileName == "__vite_rsc_env_imports_manifest.js")
  }

  /** The chunk imports the manifest `fileName`, whose module is called `name` and is read from `path`. */
  predicate ImportsAs(c: Contribution, fileName: string, name: string, path: string) {
    c.item.Chunk? && (exists id :: id in c.item.imports && IsManifest(id, fileName))
    && name == ToModuleName(c.prefix, fileName) && path == Resolve(c.outDir, fileName)
  }

  ghost predicate IsPlace(c: Contribution, name: string, path: string) {
    exists fileName :: ImportsAs(c, fileName, name, path)
  }

  /** What a file has to do with a name: whether it has it, what it holds, and the places of manifests it imports by it. */
  datatype Mention = Mention(emits: bool, content: string, places: iset<string>)

  ghost function MentionOf(c: Contribution, name: string): Mention {
    Mention(c.Name() == name, c.Content(), iset path | IsPlace(c, name, path))
  }

  ghost function MentionsOf(cs: seq<Contribution>, name: string): seq<Mention> {
    seq(|cs|, i requires 0 <= i < |cs| => MentionOf(cs[i], name))
  }

  function Recorded(r: Record, name: string): Option<Source> {
    if name in r.modules.values then Some(r.modules.values[name]) else None
  }

  /**
   Nothing is recorded exactly when nothing mentions the name. The last file of that name is what is
   recorded, or else, when there is none, a place that the first mention gives.
   */
  ghost predicate RecordsLast(source: Option<Source>, ms: seq<Mention>) {
    match source
    case None => forall j :: 0 <= j < |ms| ==> !ms[j].emits && ms[j].places == iset{}
    case Some(Emitted(content)) =>
      exists i :: 0 <= i < |ms| && ms[i].emits && ms[i].content == content && forall j :: i < j < |ms| ==> !ms[j].emits
    case Some(OnDisk(path)) =>
      && (forall j :: 0 <= j < |ms| ==> !ms[j].emits)
      && exists i :: 0 <= i < |ms| && path in ms[i].places && forall j :: 0 <= j < i ==> ms[j].places == iset{}
  }

  /** What one file makes of what is recorded. */
  ghost predicate IsUpdate(before: Option<Source>, m: Mention, after: Option<Source>) {
    if m.emits then after == Some(Emitted(m.content))
    else if before.Some? then after == before
    else if m.places == iset{} then after.None?
    else after.Some? && after.value.OnDisk? && after.value.path in m.places
  }

  lemma NextMention(before: Option<Source>, ms: seq<Mention>, m: Mention, after: Option<Source>)
    requires RecordsLast(before, ms) && IsUpdate(before, m, after)
    ensures RecordsLast(after, ms + [m])
  {
    var all := ms + [m];
    assert all[|ms|] == m;
    assert forall j :: 0 <= j < |ms| ==> all[j] == ms[j];
    if !m.emits && before.Some? {
      match before.value
      case Emitted(content) =>
        var i :| 0 <= i < |ms| && ms[i].emits && ms[i].content == content && forall j :: i < j < |ms| ==> !ms[j].emits;
        assert all[i].emits;
      case OnDisk(path) =>
        var i :| 0 <= i < |ms| && path in ms[i].places && forall j :: 0 <= j < i ==> ms[j].places == iset{};
        assert path in all[i].places;
    }
  }

  predicate AreManifests(es: seq<Event>) {
    forall i :: 0 <= i < |es| ==> es[i].Manifest?
  }

  /** Manifests are only recorded under names that are not taken yet. */
  lemma {:induction false} ManifestsAt(r: Record, es: seq<Event>, name: string)
    requires AreManifests(es)
    ensures Recorded(r, name).Some? ==> Recorded(ApplyAll(r, es), name) == Recorded(r, name)
    ensures Recorded(r, name).None? ==>
              (Recorded(ApplyAll(r, es), name).None? <==> forall e :: e in es ==> e.name != name)
    ensures Recorded(r, name).None? && Recorded(ApplyAll(r, es), name).Some? ==>
              Recorded(ApplyAll(r, es), name).value.OnDisk? && Manifest(name, Recorded(ApplyAll(r, es), name).value.path) in es
    decreases |es|
  {
    if es != [] {
      var init, last := es[..|es| - 1], es[|es| - 1];
      ManifestsAt(r, init, name);
      assert es == init + [last];
      assert forall e :: e in es <==> e in init || e == last;
    }
  }

  lemma {:induction false} EventsOfManifests(outDir: string, prefix: string, imports: seq<string>)
    ensures AreManifests(ManifestEvents(outDir, prefix, imports))
    ensures forall e :: e in ManifestEvents(outDir, prefix, imports) <==> exists id :: id in imports && ManifestEvent(outDir, prefix, id) == [e]
  {
    if imports != [] {
      var init, last := imports[..|imports| - 1], imports[|imports| - 1];
      EventsOfManifests(outDir, prefix, init);
      assert imports == init + [last];
      assert forall id :: id in imports <==> id in init || id == last;
    }
  }

  lemma ManifestMeans(outDir: string, prefix: string, id: string, name: string, path: string)
    ensures ManifestEvent(outDir, prefix, id) == [Manifest(name, path)]
       <==> exists fileName :: IsManifest(id, fileName) && name == ToModuleName(prefix, fileName) && path == Resolve(outDir, fileName)
  {
    if ManifestEvent(outDir, prefix, id) == [Manifest(name, path)] {
      assert IsManifest(id, ManifestOf(id).value);
    }
  }

  lemma PlaceIsManifest(c: Contribution, fileName: string, name: string, path: string)
    requires ImportsAs(c, fileName, name, path)
    ensures exists id :: id in c.item.imports && ManifestEvent(c.outDir, c.prefix, id) == [Manifest(name, path)]
  {
    var id :| id in c.item.imports && IsManifest(id, fileName);
    ManifestMeans(c.outDir, c.prefix, id, name, path);
  }

  lemma ManifestIsPlace(c: Contribution, id: string, name: string, path: string)
    requires c.item.Chunk? && id in c.item.imports && ManifestEvent(c.outDir, c.prefix, id) == [Manifest(name, path)]
    ensures IsPlace(c, name, path)
  {
    ManifestMeans(c.outDir, c.prefix, id, name, path);
    var fileName :| IsManifest(id, fileName) && name == ToModuleName(c.prefix, fileName) && path == Resolve(c.outDir, fileName);
    assert ImportsAs(c, fileName, name, path);
  }

  lemma PlacesAre(c: Contribution, name: string, path: string)
    requires c.item.Chunk?
    ensures path in MentionOf(c, name).places <==> Manifest(name, path) in ManifestEvents(c.outDir, c.prefix, c.item.imports)
  {
    EventsOfManifests(c.outDir, c.prefix, c.item.imports);
    if IsPlace(c, name, path) {
      var fileName :| ImportsAs(c, fileName, name, path);
      PlaceIsManifest(c, fileName, name, path);
    }
    if Manifest(name, path) in ManifestEvents(c.outDir, c.prefix, c.item.imports) {
      var id :| id in c.item.imports && ManifestEvent(c.outDir, c.prefix, id) == [Manifest(name, path)];
      ManifestIsPlace(c, id, name, path);
    }
  }

  lemma ManifestsUpdate(r: Record, c: Contribution, name: string)
    requires c.item.Chunk?
    ensures
      var m := MentionOf(c, name);
      IsUpdate(Recorded(r, name), m.(emits := false), Recorded(ApplyAll(r, ManifestEvents(c.outDir, c.prefix, c.item.imports)), name))
  {
    var es, places := ManifestEvents(c.outDir, c.prefix, c.item.imports), MentionOf(c, name).places;
    EventsOfManifests(c.outDir, c.prefix, c.item.imports);
    ManifestsAt(r, es, name);
    forall path
      ensures path in places <==> Manifest(name, path) in es
    {
      PlacesAre(c, name, path);
    }
    assert places == iset{} <==> forall e :: e in es ==> e.name != name by {
      if e :| e in es && e.name == name {
        assert e == Manifest(name, e.path);
      }
      if path :| path in places {
        assert Manifest(name, path) in es;
      }
    }
  }

  lemma EmitUpdates(settings: Settings, r: Record, c: Contribution, name: string)
    ensures
      var t := ApplyAll(r, [EmitEvent(settings, c.environment, c.prefix, c.item)]);
      Recorded(t, name) == if c.Name() == name then Some(Emitted(c.Content())) else Recorded(r, name)
  {
    var emit := EmitEvent(settings, c.environment, c.prefix, c.item);
    assert [emit][..0] == [];
  }

  lemma OneModuleStep(settings: Settings, r: Record, c: Contribution, name: string)
    ensures IsUpdate(Recorded(r, name), MentionOf(c, name), Recorded(ApplyAll(r, EventsOfOne(settings, c)), name))
  {
    var emit := EmitEvent(settings, c.environment, c.prefix, c.item);
    var emitted := ApplyAll(r, [emit]);
    EmitUpdates(settings, r, c, name);
    if c.item.Chunk? {
      ApplyAllConcat(r, [emit], ManifestEvents(c.outDir, c.prefix, c.item.imports));
      ManifestsUpdate(emitted, c, name);
    } else {
      assert EventsOfOne(settings, c) == [emit];
      assert MentionOf(c, name).places == iset{};
    }
  }

  ghost predicate RecordsName(settings: Settings, cs: seq<Contribution>, name: string) {
    RecordsLast(Recorded(ApplyAll(NOTHING, EventsOfAll(settings, cs)), name), MentionsOf(cs, name))
  }

  lemma MentionsSnoc(cs: seq<Contribution>, c: Contribution, name: string)
    ensures MentionsOf(cs + [c], name) == MentionsOf(cs, name) + [MentionOf(c, name)]
  {
  }

  lemma NextName(settings: Settings, cs: seq<Contribution>, c: Contribution, name: string)
    requires RecordsName(settings, cs, name)
    ensures RecordsName(settings, cs + [c], name)
  {
    var before := ApplyAll(NOTHING, EventsOfAll(settings, cs));
    var after := ApplyAll(before, EventsOfOne(settings, c));
    RecordSnoc(settings, cs, c);
    MentionsSnoc(cs, c, name);
    OneModuleStep(settings, before, c, name);
    NextMention(Recorded(before, name), MentionsOf(cs, name), MentionOf(c, name), Recorded(after, name));
  }

  lemma {:induction false} NamesOfContributions(settings: Settings, cs: seq<Contribution>, name: string)
    ensures RecordsName(settings, cs, name)
    decreases |cs|
  {
    if cs != [] {
      var init, last := cs[..|cs| - 1], cs[|cs| - 1];
      assert cs == init + [last];
      NamesOfContributions(settings, init, name);
      NextName(settings, init, last, name);
    }
  }

  /**
   After any sequence of `writeBundle` calls a name is recorded exactly when a file has it or a chunk
   imports a manifest by it; it stands for what the last file of that name holds, or else for the
   manifest where the first chunk that imports it expects it.
   */
  lemma ModulesAreRecorded(settings: Settings, dist: Option<string>, bundles: seq<Bundle>, name: string)
    ensures RecordsLast(Recorded(Run(settings, Fresh(dist), bundles).record, name),
                        MentionsOf(Contributed(settings, dist, bundles), name))
  {
    RunIsHistory(settings, Fresh(dist), bundles);
    HistoryIsContributed(settings, dist, bundles);
    NamesOfContributions(settings, Contributed(settings, dist, bundles), name);
  }

  // ----- where it was written -----

  lemma {:induction false} RunSnoc(settings: Settings, st: State, bundles: seq<Bundle>, b: Bundle)
    ensures Run(settings, st, bundles + [b]) == Write(settings, Run(settings, st, bundles), b)
    decreases |bundles|
  {
    if bundles == [] {
      assert bundles + [b] == [b] && [b][1..] == [];
    } else {
      assert (bundles + [b])[0] == bundles[0] && (bundles + [b])[1..] == bundles[1..] + [b];
      RunSnoc(settings, Write(settings, st, bundles[0]), bundles[1..], b);
    }
  }

  /** The bundle is the server's, of that environment. */
  predicate WritesServer(settings: Settings, environment: string, b: Bundle) {
    b.environment == environment && b.environment !in settings.skipEnvironments && b.environment != settings.clientEnvironment
  }

  predicate WritesClient(settings: Settings, b: Bundle) {
    b.environment == settings.clientEnvironment && b.environment !in settings.skipEnvironments
  }

  predicate IsLastBundle(bundles: seq<Bundle>, kind: Bundle -> bool, k: nat) {
    k < |bundles| && kind(bundles[k]) && forall j :: k < j < |bundles| ==> !kind(bundles[j])
  }

  /** The record of an environment is the root and the directory of its last bundle, or nothing if it has none. */
  predicate IsWhereItWas(output: Option<Output>, bundles: seq<Bundle>, kind: Bundle -> bool) {
    match output
    case None => forall j :: 0 <= j < |bundles| ==> !kind(bundles[j])
    case Some(o) =>
      exists k: nat :: k < |bundles| && IsLastBundle(bundles, kind, k)
        && o == Output(bundles[k].root, Resolve(bundles[k].root, bundles[k].outDir))
  }

  lemma NextWhere(before: Option<Output>, bundles: seq<Bundle>, kind: Bundle -> bool, b: Bundle)
    requires IsWhereItWas(before, bundles, kind)
    ensures IsWhereItWas(if kind(b) then Some(Output(b.root, Resolve(b.root, b.outDir))) else before, bundles + [b], kind)
  {
    var all := bundles + [b];
    assert all[|bundles|] == b;
    assert forall j :: 0 <= j < |bundles| ==> all[j] == bundles[j];
    if kind(b) {
      assert IsLastBundle(all, kind, |bundles|);
    } else if before.Some? {
      var k: nat :| k < |bundles| && IsLastBundle(bundles, kind, k)
        && before.value == Output(bundles[k].root, Resolve(bundles[k].root, bundles[k].outDir));
      assert IsLastBundle(all, kind, k) && all[k] == bundles[k];
    }
  }

  function OutputOf(st: State, environment: string): Option<Output> {
    if environment in st.outputs.values then Some(st.outputs.values[environment]) else None
  }

  /** What is read from disk later: for each environment, where its last bundle was written. */
  lemma {:induction false} OutputsAreLatest(settings: Settings, dist: Option<string>, bundles: seq<Bundle>, environment: string)
    ensures IsWhereItWas(OutputOf(Run(settings, Fresh(dist), bundles), environment), bundles, b => WritesServer(settings, environment, b))
    decreases |bundles|
  {
    if bundles != [] {
      var init, last := bundles[..|bundles| - 1], bundles[|bundles| - 1];
      assert bundles == init + [last];
      OutputsAreLatest(settings, dist, init, environment);
      RunSnoc(settings, Fresh(dist), init, last);
      NextWhere(OutputOf(Run(settings, Fresh(dist), init), environment), init, b => WritesServer(settings, environment, b), last);
    }
  }

  /** The client's directory is that of its last bundle. */
  lemma {:induction false} ClientIsLatest(settings: Settings, dist: Option<string>, bundles: seq<Bundle>)
    ensures
      var client := Run(settings, Fresh(dist), bundles).client;
      match client
      case None => forall j :: 0 <= j < |bundles| ==> !WritesClient(settings, bundles[j])
      case Some(directory) =>
        exists k: nat :: k < |bundles| && IsLastBundle(bundles, b => WritesClient(settings, b), k)
          && directory == Resolve(bundles[k].root, bundles[k].outDir)
    decreases |bundles|
  {
    if bundles != [] {
      var n := |bundles| - 1;
      var init, last := bundles[..n], bundles[n];
      assert bundles == init + [last];
      ClientIsLatest(settings, dist, init);
      RunSnoc(settings, Fresh(dist), init, last);
      assert forall j :: 0 <= j < n ==> init[j] == bundles[j];
      if WritesClient(settings, last) {
        assert IsLastBundle(bundles, b => WritesClient(settings, b), n);
      } else if Run(settings, Fresh(dist), init).client.Some? {
        var k: nat :| k < n && IsLastBundle(init, b => WritesClient(settings, b), k)
          && Run(settings, Fresh(dist), init).client.value == Resolve(init[k].root, init[k].outDir);
        assert IsLastBundle(bundles, b => WritesClient(settings, b), k);
      }
    }
  }

  // ----- what is read -----

  lemma {:induction false} FilesAre(prefix: string, entries: seq<DiskEntry>)
    ensures FilesOf(prefix, entries).None? <==> exists e :: e in entries && e.isFile && e.content.None?
    ensures FilesOf(prefix, entries).Some? ==>
              forall f :: f in FilesOf(prefix, entries).value
                     <==> exists e :: e in entries && e.isFile && e.content.Some? && f == OutputFile(ToModuleName(prefix, e.path), e.content.value)
  {
    if entries != [] {
      FilesAre(prefix, entries[1..]);
      assert forall e :: e in entries <==> e == entries[0] || e in entries[1..];
    }
  }

  /** Reading a directory fails when it or a file in it cannot be read, and otherwise gives its files by their names. */
  lemma DirectoryIsRead(dist: Option<string>, output: Output, list: string -> Option<seq<DiskEntry>>)
    ensures
      var entries, files := list(output.outDir), ReadServerModules(dist, output, list);
      var prefix := Relative(if dist.Some? then dist.value else output.root, output.outDir);
      && (files.None? <==> entries.None? || exists e :: e in entries.value && e.isFile && e.content.None?)
      && (files.Some? ==>
            forall f :: f in files.value
                   <==> exists e :: e in entries.value && e.isFile && e.content.Some?
                          && f == OutputFile(ToModuleName(prefix, e.path), e.content.value))
  {
    if list(output.outDir).Some? {
      var prefix := Relative(if dist.Some? then dist.value else output.root, output.outDir);
      var sorted := Sort((a: DiskEntry, b: DiskEntry) => LessOrEqual(a.path, b.path), list(output.outDir).value);
      SortKeepsMembers((a: DiskEntry, b: DiskEntry) => LessOrEqual(a.path, b.path), list(output.outDir).value);
      FilesAre(prefix, sorted);
    }
  }

  /** The file holds what is recorded for its name: what was emitted, or what the recorded place has. */
  ghost predicate HoldsRecorded(f: OutputFile, ms: seq<Mention>, disk: string -> Option<string>) {
    || RecordsLast(Some(Emitted(f.content)), ms)
    || exists path :: RecordsLast(Some(OnDisk(path)), ms) && disk(path) == Some(f.content)
  }

  /** Nothing to read at some place that is recorded. */
  ghost predicate IsUnreadable(cs: seq<Contribution>, disk: string -> Option<string>, name: string, path: string) {
    RecordsLast(Some(OnDisk(path)), MentionsOf(cs, name)) && disk(path).None?
  }

  ghost predicate IsRecordOf(r: Record, cs: seq<Contribution>) {
    forall name :: RecordsLast(Recorded(r, name), MentionsOf(cs, name))
  }

  lemma RunIsRecord(settings: Settings, dist: Option<string>, bundles: seq<Bundle>)
    ensures IsRecordOf(Run(settings, Fresh(dist), bundles).record, Contributed(settings, dist, bundles))
  {
    forall name {
      ModulesAreRecorded(settings, dist, bundles, name);
    }
  }

  lemma NameIsRecorded(r: Record, cs: seq<Contribution>, i: nat)
    requires IsRecordOf(r, cs) && i < |cs|
    ensures cs[i].Name() in r.modules.values
  {
    var name := cs[i].Name();
    assert RecordsLast(Recorded(r, name), MentionsOf(cs, name));
    assert MentionsOf(cs, name)[i].emits;
  }

  lemma RecordedIsHeld(r: Record, cs: seq<Contribution>, f: OutputFile, disk: string -> Option<string>)
    requires IsRecordOf(r, cs) && f.name in r.modules.values && ReadSource(r.modules.values[f.name], disk) == Some(f.content)
    ensures HoldsRecorded(f, MentionsOf(cs, f.name), disk)
  {
    assert RecordsLast(Recorded(r, f.name), MentionsOf(cs, f.name));
  }

  lemma UnreadableIsFound(r: Record, cs: seq<Contribution>, name: string, disk: string -> Option<string>)
    requires IsRecordOf(r, cs) && name in r.modules.values && ReadSource(r.modules.values[name], disk).None?
    ensures exists path :: IsUnreadable(cs, disk, name, path)
  {
    assert RecordsLast(Recorded(r, name), MentionsOf(cs, name));
    assert IsUnreadable(cs, disk, name, r.modules.values[name].path);
  }

  /** The written files, each name once, with what its last writing holds or its manifest has; entry first, the rest in order. */
  ghost predicate AreWritten(files: seq<OutputFile>, cs: seq<Contribution>, entry: Option<string>,
          disk: string -> Option<string>, locale: (string, string) -> bool) {
    && HasUniqueNames(files) && IsEntryFirst(files, entry, locale)
    && (forall f :: f in files ==> HoldsRecorded(f, MentionsOf(cs, f.name), disk))
    && (forall i :: 0 <= i < |cs| ==> HasName(files, cs[i].Name()))
  }

  lemma ModulesAreWritten(r: Record, cs: seq<Contribution>, files: seq<OutputFile>,
          disk: string -> Option<string>, locale: (string, string) -> bool)
    requires IsRecordOf(r, cs) && AreModulesOf(files, r.modules, disk) && IsEntryFirst(files, r.entry, locale)
    ensures AreWritten(files, cs, r.entry, disk, locale)
  {
    forall f | f in files
      ensures HoldsRecorded(f, MentionsOf(cs, f.name), disk)
    {
      RecordedIsHeld(r, cs, f, disk);
    }
    forall i | 0 <= i < |cs|
      ensures HasName(files, cs[i].Name())
    {
      NameIsRecorded(r, cs, i);
    }
  }

  /**
   What the in-memory collection gives for any sequence of bundles: nothing when no file was written;
   failure when a manifest is not where it is expected; otherwise the written files.
   */
  lemma CollectedInMemory(settings: Settings, dist: Option<string>, bundles: seq<Bundle>,
          disk: string -> Option<string>, locale: (string, string) -> bool)
    requires TotalPreorder(locale)
    ensures
      var st, cs := Run(settings, Fresh(dist), bundles), Contributed(settings, dist, bundles);
      && IsState(st)
      && match InMemory(st.record, disk, locale) {
           case Absent => cs == []
           case Failed => exists name, path :: IsUnreadable(cs, disk, name, path)
           case Modules(files) => AreWritten(files, cs, st.record.entry, disk, locale)
         }
  {
    var r, cs := Run(settings, Fresh(dist), bundles).record, Contributed(settings, dist, bundles);
    CollectAfterRun(settings, dist, bundles, disk, locale);
    RunIsRecord(settings, dist, bundles);
    match InMemory(r, disk, locale)
    case Absent =>
      if cs != [] {
        NameIsRecorded(r, cs, 0);
      }
    case Failed =>
      var name :| name in r.modules.values && ReadSource(r.modules.values[name], disk).None?;
      UnreadableIsFound(r, cs, name, disk);
    case Modules(files) =>
      ModulesAreWritten(r, cs, files, disk, locale);
  }

  // ----- what a module name leads to -----

  function Joined(prefix: string, fileName: string): string {
    if prefix == "" then fileName else if fileName == "" then prefix else prefix + "/" + fileName
  }

  lemma JoinedLeads(from: seq<string>, prefix: string, fileName: string)
    requires !IsAbsolute(prefix) && !IsAbsolute(fileName)
    ensures !IsAbsolute(Joined(prefix, fileName))
    ensures ResolveSegments(from, Joined(prefix, fileName)) == ResolveSegments(ResolveSegments(from, prefix), fileName)
  {
    assert Split("", '/') == [""] && [""][1..] == [];
    if prefix != "" && fileName != "" {
      SplitConcat(prefix, '/', fileName);
      assert prefix + ['/'] + fileName == prefix + "/" + fileName;
      PushAllConcat(from, Split(prefix, '/'), Split(fileName, '/'), false);
    }
  }

  /**
   From the directory that names are relative to, a module's name leads to the file that was written,
   and it is in normal form, when no backslash is in the way.
   */
  lemma NameLeadsToFile(base: string, outDir: string, fileName: string)
    requires IsAbsolute(base) && IsAbsolute(outDir) && !IsAbsolute(fileName)
    requires '\\' !in Normalize(Joined(Relative(base, outDir), fileName))
    ensures
      var name := ToModuleName(Relative(base, outDir), fileName);
      Resolve(base, name) == Resolve(outDir, fileName) && !IsAbsolute(name) && Normalize(name) == name
  {
    var from, to, prefix := SegmentsOf(base), SegmentsOf(outDir), Relative(base, outDir);
    SegmentsAreClean(base);
    SegmentsAreClean(outDir);
    ResolveOfRelative(from, to);
    RelativeSegmentsAreProper(from, to);
    TextOfSegments(RelativeSegments(from, to));
    JoinedLeads(from, prefix, fileName);
    NormalizeRelative(Joined(prefix, fileName), from);
    ToSlashesIsIdentity(Normalize(Joined(prefix, fileName)));
  }
}
