/**
 The build-output collector of packages/framework-core/src/Collector.ts and `sortServerModules` of
 packages/framework-core/src/BuildOutput.ts.
 */
module Collector {
  import opened Options
  import opened Text
  import opened Paths
  import opened Sorting

  // ----- JavaScript's Map: keys keep the order of their first insertion -----

  datatype JsMap<V> = JsMap(keys: seq<string>, values: map<string, V>)

  ghost predicate IsMap<V>(m: JsMap<V>) {
    && (forall i, j :: 0 <= i < j < |m.keys| ==> m.keys[i] != m.keys[j])
    && (forall k :: k in m.keys <==> k in m.values)
  }

  function Put<V>(m: JsMap<V>, key: string, value: V): (r: JsMap<V>)
    ensures IsMap(m) ==> IsMap(r)
    ensures r.values == m.values[key := value]
  {
    JsMap(if key in m.values then m.keys else m.keys + [key], m.values[key := value])
  }

  // ----- bundles -----

  datatype Item =
    | Chunk(fileName: string, code: string, isEntry: bool, facade: Option<string>, imports: seq<string>)
    | Asset(fileName: string, source: string)

  /** One `writeBundle` call: the environment, its root and configured `outDir`, and what it emitted. */
  datatype Bundle = Bundle(environment: string, root: string, outDir: string, items: seq<Item>)

  datatype EntryChunk = EntryChunk(fileName: string, name: string, facade: Option<string>)

  datatype Settings = Settings(
    entryEnvironment: string,
    clientEnvironment: string,
    skipEnvironments: set<string>,
    selectEntry: EntryChunk -> bool)

  const WORKER_ENTRY_PREFIX := "\0distilled:worker-entry:"

  /** The file that the RSC plugin writes for a virtual module after the build. */
  function ManifestOf(id: string): Option<string> {
    if id == "virtual:vite-rsc/assets-manifest" then Some("__vite_rsc_assets_manifest.js")
    else if id == "virtual:vite-rsc/environment-imports" then Some("__vite_rsc_env_imports_manifest.js")
    else None
  }

  function ToModuleName(prefix: string, fileName: string): string {
    ToSlashes(Normalize(
      if prefix == "" then fileName else if fileName == "" then prefix else prefix + "/" + fileName))
  }

  function Priority(settings: Settings, chunk: EntryChunk): (p: nat)
    ensures 1 <= p <= 3
  {
    if settings.selectEntry(chunk) then 3
    else if chunk.facade.Some? && StartsWith(chunk.facade.value, WORKER_ENTRY_PREFIX) then 2
    else 1
  }

  // ----- what a bundle contributes -----

  /** An emitted module, with its priority as server entry (0 if it is no candidate); or a module to be read later. */
  datatype Event =
    | Emit(name: string, content: string, priority: nat)
    | Manifest(name: string, path: string)

  function PriorityOf(settings: Settings, environment: string, prefix: string, item: Item): nat {
    if item.Chunk? && environment == settings.entryEnvironment && item.isEntry then
      Priority(settings, EntryChunk(item.fileName, ToModuleName(prefix, item.fileName), item.facade))
    else 0
  }

  function ManifestEvent(outDir: string, prefix: string, id: string): seq<Event> {
    match ManifestOf(id)
    case None => []
    case Some(fileName) => [Manifest(ToModuleName(prefix, fileName), Resolve(outDir, fileName))]
  }

  function ManifestEvents(outDir: string, prefix: string, imports: seq<string>): seq<Event> {
    if imports == [] then []
    else ManifestEvents(outDir, prefix, imports[..|imports| - 1]) + ManifestEvent(outDir, prefix, imports[|imports| - 1])
  }

  function EmitEvent(settings: Settings, environment: string, prefix: string, item: Item): Event {
    Emit(ToModuleName(prefix, item.fileName), if item.Chunk? then item.code else item.source,
         PriorityOf(settings, environment, prefix, item))
  }

  function EventsOfItem(settings: Settings, environment: string, outDir: string, prefix: string,
          item: Item): seq<Event> {
    [EmitEvent(settings, environment, prefix, item)]
    + if item.Chunk? then ManifestEvents(outDir, prefix, item.imports) else []
  }

  function EventsOfItems(settings: Settings, environment: string, outDir: string, prefix: string,
          items: seq<Item>): seq<Event> {
    if items == [] then []
    else
      EventsOfItems(settings, environment, outDir, prefix, items[..|items| - 1])
      + EventsOfItem(settings, environment, outDir, prefix, items[|items| - 1])
  }

  predicate Contributes(settings: Settings, b: Bundle) {
    b.environment !in settings.skipEnvironments && b.environment != settings.clientEnvironment
  }

  function OutDirOf(b: Bundle): string {
    Resolve(b.root, b.outDir)
  }

  function PrefixOf(dist: Option<string>, root: string, outDir: string): string {
    Relative(if dist.Some? then dist.value else root, outDir)
  }

  function EventsOf(settings: Settings, dist: Option<string>, b: Bundle): seq<Event> {
    if Contributes(settings, b) then
      EventsOfItems(settings, b.environment, OutDirOf(b), PrefixOf(dist, b.root, OutDirOf(b)), b.items)
    else []
  }

  function History(settings: Settings, dist: Option<string>, bundles: seq<Bundle>): seq<Event> {
    if bundles == [] then [] else EventsOf(settings, dist, bundles[0]) + History(settings, dist, bundles[1..])
  }

  // ----- what is recorded -----

  datatype Source = Emitted(content: string) | OnDisk(path: string)

  datatype Record = Record(entry: Option<string>, priority: nat, modules: JsMap<Source>)

  datatype Output = Output(root: string, outDir: string)

  datatype State = State(dist: Option<string>, client: Option<string>, outputs: JsMap<Output>, record: Record)

  const NOTHING := Record(None, 0, JsMap([], map[]))

  function Apply(r: Record, e: Event): Record {
    match e
    case Emit(name, content, priority) =>
      var modules := Put(r.modules, name, Emitted(content));
      if priority > 0 && priority >= r.priority then Record(Some(name), priority, modules)
      else r.(modules := modules)
    case Manifest(name, path) =>
      if name in r.modules.values then r else r.(modules := Put(r.modules, name, OnDisk(path)))
  }

  function ApplyAll(r: Record, events: seq<Event>): Record
    decreases |events|
  {
    if events == [] then r else Apply(ApplyAll(r, events[..|events| - 1]), events[|events| - 1])
  }

  function Write(settings: Settings, st: State, b: Bundle): State {
    if b.environment in settings.skipEnvironments then st
    else if b.environment == settings.clientEnvironment then st.(client := Some(OutDirOf(b)))
    else
      st.(outputs := Put(st.outputs, b.environment, Output(b.root, OutDirOf(b))),
          record := ApplyAll(st.record, EventsOf(settings, st.dist, b)))
  }

  function Run(settings: Settings, st: State, bundles: seq<Bundle>): State
    decreases |bundles|
  {
    if bundles == [] then st else Run(settings, Write(settings, st, bundles[0]), bundles[1..])
  }

  function Fresh(dist: Option<string>): State {
    State(dist, None, JsMap([], map[]), NOTHING)
  }

  lemma {:induction false} ApplyAllConcat(r: Record, a: seq<Event>, b: seq<Event>)
    ensures ApplyAll(r, a + b) == ApplyAll(ApplyAll(r, a), b)
    decreases |b|
  {
    if b == [] {
      assert a + b == a;
    } else {
      assert (a + b)[..|a + b| - 1] == a + b[..|b| - 1];
      ApplyAllConcat(r, a, b[..|b| - 1]);
    }
  }

  lemma {:induction false} RunIsHistory(settings: Settings, st: State, bundles: seq<Bundle>)
    ensures Run(settings, st, bundles).dist == st.dist
    ensures Run(settings, st, bundles).record == ApplyAll(st.record, History(settings, st.dist, bundles))
    decreases |bundles|
  {
    if bundles != [] {
      RunIsHistory(settings, Write(settings, st, bundles[0]), bundles[1..]);
      ApplyAllConcat(st.record, EventsOf(settings, st.dist, bundles[0]), History(settings, st.dist, bundles[1..]));
    }
  }

  // ----- the entry -----

  predicate IsCandidate(e: Event) {
    e.Emit? && e.priority > 0
  }

  /** The latest of the candidates with the highest priority. */
  predicate IsLatestHighest(events: seq<Event>, i: nat) {
    && i < |events| && IsCandidate(events[i])
    && (forall j :: 0 <= j < |events| && IsCandidate(events[j]) ==>
          events[j].priority <= events[i].priority && (j > i ==> events[j].priority < events[i].priority))
  }

  predicate IsEntryOf(r: Record, events: seq<Event>) {
    match r.entry
    case None => r.priority == 0 && forall j :: 0 <= j < |events| ==> !IsCandidate(events[j])
    case Some(name) =>
      exists i: nat :: i < |events| && IsLatestHighest(events, i) && events[i].name == name && events[i].priority == r.priority
  }

  lemma {:induction false} EntryOfEvents(events: seq<Event>)
    ensures IsEntryOf(ApplyAll(NOTHING, events), events)
    decreases |events|
  {
    if events != [] {
      var n := |events| - 1;
      var before := ApplyAll(NOTHING, events[..n]);
      EntryOfEvents(events[..n]);
      assert forall j :: 0 <= j < n ==> events[..n][j] == events[j];
      if IsCandidate(events[n]) && events[n].priority >= before.priority {
        assert IsLatestHighest(events, n);
      } else if before.entry.Some? {
        var i: nat :| i < n && IsLatestHighest(events[..n], i) && events[..n][i].name == before.entry.value
          && events[..n][i].priority == before.priority;
        assert IsLatestHighest(events, i);
      }
    }
  }

  // ----- the modules -----

  predicate IsLastEmit(events: seq<Event>, name: string, i: nat) {
    && i < |events| && events[i].Emit? && events[i].name == name
    && (forall j :: i < j < |events| && events[j].name == name ==> events[j].Manifest?)
  }

  predicate IsFirstManifest(events: seq<Event>, name: string, i: nat) {
    && i < |events| && events[i].Manifest? && events[i].name == name
    && (forall j :: 0 <= j < i ==> events[j].name != name)
    && (forall j :: i < j < |events| && events[j].name == name ==> events[j].Manifest?)
  }

  /** The last emitted content of a name, or else the place its first manifest is read from. */
  predicate IsSourceOf(source: Source, events: seq<Event>, name: string) {
    match source
    case Emitted(content) => exists i: nat :: i < |events| && IsLastEmit(events, name, i) && events[i].content == content
    case OnDisk(path) => exists i: nat :: i < |events| && IsFirstManifest(events, name, i) && events[i].path == path
  }

  predicate IsNamed(events: seq<Event>, name: string) {
    exists i :: 0 <= i < |events| && events[i].name == name
  }

  lemma {:induction false} ModulesOfEvents(events: seq<Event>, name: string)
    ensures IsMap(ApplyAll(NOTHING, events).modules)
    ensures name in ApplyAll(NOTHING, events).modules.values <==> IsNamed(events, name)
    ensures name in ApplyAll(NOTHING, events).modules.values ==>
              IsSourceOf(ApplyAll(NOTHING, events).modules.values[name], events, name)
    decreases |events|
  {
    if events != [] {
      var n := |events| - 1;
      var before := ApplyAll(NOTHING, events[..n]).modules;
      ModulesOfEvents(events[..n], name);
      assert forall j :: 0 <= j < n ==> events[..n][j] == events[j];
      if events[n].name == name && (events[n].Emit? || name !in before.values) {
        assert events[n].Emit? ==> IsLastEmit(events, name, n);
        assert events[n].Manifest? ==> IsFirstManifest(events, name, n);
      } else if name in before.values {
        SourceStays(events, name, before.values[name]);
      }
    }
  }

  lemma SourceStays(events: seq<Event>, name: string, source: Source)
    requires events != [] && IsSourceOf(source, events[..|events| - 1], name)
    requires events[|events| - 1].name == name ==> events[|events| - 1].Manifest?
    ensures IsSourceOf(source, events, name)
  {
    var before := events[..|events| - 1];
    assert forall j :: 0 <= j < |before| ==> before[j] == events[j];
    match source
    case Emitted(content) =>
      var i: nat :| i < |before| && IsLastEmit(before, name, i) && before[i].content == content;
      assert IsLastEmit(events, name, i);
    case OnDisk(path) =>
      var i: nat :| i < |before| && IsFirstManifest(before, name, i) && before[i].path == path;
      assert IsFirstManifest(events, name, i);
  }

  /** Skipped and client environments contribute nothing to the entry, the modules or the output directories. */
  lemma {:induction false} OthersContributeNothing(settings: Settings, st: State, bundles: seq<Bundle>)
    ensures Run(settings, st, bundles).(client := None)
         == Run(settings, st.(client := None), Filter(b => Contributes(settings, b), bundles)).(client := None)
    decreases |bundles|
  {
    if bundles != [] {
      var next := Write(settings, st, bundles[0]);
      OthersContributeNothing(settings, next, bundles[1..]);
      var kept := Filter(b => Contributes(settings, b), bundles[1..]);
      if Contributes(settings, bundles[0]) {
        assert ([bundles[0]] + kept)[1..] == kept;
        assert Write(settings, st.(client := None), bundles[0]) == next.(client := None);
      } else {
        assert next.(client := None) == st.(client := None);
      }
    }
  }

  lemma {:induction false} OutputsAreContributors(settings: Settings, st: State, bundles: seq<Bundle>)
    requires IsMap(st.outputs)
    ensures IsMap(Run(settings, st, bundles).outputs)
    ensures forall e :: e in Run(settings, st, bundles).outputs.values <==>
              e in st.outputs.values || exists b :: b in bundles && Contributes(settings, b) && b.environment == e
    decreases |bundles|
  {
    if bundles != [] {
      OutputsAreContributors(settings, Write(settings, st, bundles[0]), bundles[1..]);
      assert forall b :: b in bundles <==> b == bundles[0] || b in bundles[1..];
    }
  }

  /** The recorded entry is always one of the recorded modules. */
  lemma EntryIsRecorded(events: seq<Event>)
    ensures
      var r := ApplyAll(NOTHING, events);
      IsMap(r.modules) && (r.entry.Some? ==> r.entry.value in r.modules.values)
  {
    var r := ApplyAll(NOTHING, events);
    EntryOfEvents(events);
    ModulesOfEvents(events, "");
    if r.entry.Some? {
      ModulesOfEvents(events, r.entry.value);
    }
  }

  // ----- collecting -----

  datatype OutputFile = OutputFile(name: string, content: string)

  datatype Collected = Absent | Modules(files: seq<OutputFile>) | Failed

  /** The comparator of `sortServerModules`; `locale` is `localeCompare(a, b) <= 0`. */
  predicate ModuleOrder(entry: Option<string>, locale: (string, string) -> bool, a: OutputFile, b: OutputFile) {
    if entry == Some(a.name) then true
    else if entry == Some(b.name) then false
    else locale(a.name, b.name)
  }

  function SortServerModules(files: seq<OutputFile>, entry: Option<string>,
          locale: (string, string) -> bool): seq<OutputFile> {
    Sort((a, b) => ModuleOrder(entry, locale, a, b), files)
  }

  predicate HasUniqueNames(files: seq<OutputFile>) {
    forall i, j :: 0 <= i < j < |files| ==> files[i].name != files[j].name
  }

  predicate HasName(files: seq<OutputFile>, name: string) {
    exists f :: f in files && f.name == name
  }

  /** Entry first, the rest in order. */
  predicate IsEntryFirst(files: seq<OutputFile>, entry: Option<string>, locale: (string, string) -> bool) {
    && (entry.Some? ==> files != [] && files[0].name == entry.value)
    && (forall i, j :: (if entry.Some? then 1 else 0) <= i < j < |files| ==> locale(files[i].name, files[j].name))
  }

  lemma SortPutsEntryFirst(files: seq<OutputFile>, entry: Option<string>, locale: (string, string) -> bool)
    requires TotalPreorder(locale) && HasUniqueNames(files)
    requires entry.Some? ==> HasName(files, entry.value)
    ensures multiset(SortServerModules(files, entry, locale)) == multiset(files)
    ensures IsEntryFirst(SortServerModules(files, entry, locale), entry, locale)
  {
    var le := (a: OutputFile, b: OutputFile) => ModuleOrder(entry, locale, a, b);
    var sorted := Sort(le, files);
    assert TotalPreorder(le);
    SortSorts(le, files);
    SortPermutes(le, files);
    SortKeepsMembers(le, files);
    if entry.Some? {
      var f :| f in files && f.name == entry.value;
      var i :| 0 <= i < |sorted| && sorted[i] == f;
      assert sorted[0].name == entry.value by {
        if i > 0 {
          assert le(sorted[0], sorted[i]);
        }
      }
      UniqueStaysUnique(files, sorted);
      assert forall k :: 1 <= k < |sorted| ==> sorted[k].name != sorted[0].name;
    }
    assert forall i, j :: 0 <= i < j < |sorted| ==> le(sorted[i], sorted[j]);
  }

  lemma UniqueStaysUnique(files: seq<OutputFile>, sorted: seq<OutputFile>)
    requires HasUniqueNames(files) && multiset(files) == multiset(sorted)
    ensures HasUniqueNames(sorted)
  {
    forall i, j | 0 <= i < j < |sorted|
      ensures sorted[i].name != sorted[j].name
    {
      assert sorted[i] in multiset(files) && sorted[j] in multiset(files);
      if sorted[i].name == sorted[j].name {
        TwiceInSeq(sorted, i, j);
        assert multiset(files)[sorted[i]] >= 2;
        NoneTwice(files, sorted[i]);
      }
    }
  }

  lemma {:induction false} NoneTwice(files: seq<OutputFile>, f: OutputFile)
    requires HasUniqueNames(files)
    ensures multiset(files)[f] <= 1
  {
    if files != [] {
      NoneTwice(files[1..], f);
      assert files == [files[0]] + files[1..];
    }
  }

  /** What reading a module gives; `disk` is `None` where reading a path fails. */
  function ReadSource(source: Source, disk: string -> Option<string>): Option<string> {
    match source
    case Emitted(content) => Some(content)
    case OnDisk(path) => disk(path)
  }

  function ReadModules(keys: seq<string>, values: map<string, Source>,
          disk: string -> Option<string>): Option<seq<OutputFile>>
    requires forall k :: k in keys ==> k in values
  {
    if keys == [] then Some([])
    else
      match (ReadSource(values[keys[0]], disk), ReadModules(keys[1..], values, disk))
      case (Some(content), Some(files)) => Some([OutputFile(keys[0], content)] + files)
      case _ => None
  }

  /** `collectInMemory`. */
  function InMemory(r: Record, disk: string -> Option<string>, locale: (string, string) -> bool): Collected
    requires forall k :: k in r.modules.keys ==> k in r.modules.values
  {
    if r.entry.None? && r.modules.keys == [] then Absent
    else
      match ReadModules(r.modules.keys, r.modules.values, disk)
      case None => Failed
      case Some(files) => Modules(SortServerModules(files, r.entry, locale))
  }

  lemma {:induction false} ReadModulesReads(keys: seq<string>, values: map<string, Source>,
          disk: string -> Option<string>)
    requires forall k :: k in keys ==> k in values
    ensures ReadModules(keys, values, disk).None? <==> exists k :: k in keys && ReadSource(values[k], disk).None?
    ensures ReadModules(keys, values, disk).Some? ==>
              var files := ReadModules(keys, values, disk).value;
              |files| == |keys| && forall i :: 0 <= i < |keys| ==>
                files[i].name == keys[i] && ReadSource(values[keys[i]], disk) == Some(files[i].content)
  {
    if keys != [] {
      ReadModulesReads(keys[1..], values, disk);
      assert forall k :: k in keys <==> k == keys[0] || k in keys[1..];
    }
  }

  /** The files are the recorded modules, each once, with what reading it gives. */
  ghost predicate AreModulesOf(files: seq<OutputFile>, modules: JsMap<Source>, disk: string -> Option<string>) {
    && HasUniqueNames(files)
    && (forall f :: f in files ==> f.name in modules.values && ReadSource(modules.values[f.name], disk) == Some(f.content))
    && (forall name :: name in modules.values ==> HasName(files, name))
  }

  /**
   Collecting in memory, after any run: nothing when nothing was contributed, failure when a manifest
   cannot be read, and otherwise a permutation of the contributed modules, entry first.
   */
  lemma InMemoryIsComplete(events: seq<Event>, disk: string -> Option<string>, locale: (string, string) -> bool)
    requires TotalPreorder(locale)
    ensures
      var r := ApplyAll(NOTHING, events);
      && IsMap(r.modules)
      && match InMemory(r, disk, locale) {
           case Absent => events == []
           case Failed => exists k :: k in r.modules.values && ReadSource(r.modules.values[k], disk).None?
           case Modules(files) => events != [] && AreModulesOf(files, r.modules, disk) && IsEntryFirst(files, r.entry, locale)
         }
  {
    var r := ApplyAll(NOTHING, events);
    EntryIsRecorded(events);
    if events != [] {
      ModulesOfEvents(events, events[0].name);
      assert IsNamed(events, events[0].name);
    }
    RecordIsCollected(r, disk, locale);
  }

  /** The same for any record whose entry is among its modules. */
  lemma RecordIsCollected(r: Record, disk: string -> Option<string>, locale: (string, string) -> bool)
    requires TotalPreorder(locale) && IsMap(r.modules)
    requires r.entry.Some? ==> r.entry.value in r.modules.values
    ensures match InMemory(r, disk, locale)
            case Absent => r.modules.keys == []
            case Failed => exists k :: k in r.modules.values && ReadSource(r.modules.values[k], disk).None?
            case Modules(files) => r.modules.keys != [] && AreModulesOf(files, r.modules, disk) && IsEntryFirst(files, r.entry, locale)
  {
    ReadModulesReads(r.modules.keys, r.modules.values, disk);
    if ReadModules(r.modules.keys, r.modules.values, disk).Some? {
      SortedModules(r, ReadModules(r.modules.keys, r.modules.values, disk).value, disk, locale);
    }
  }

  lemma SortedModules(r: Record, files: seq<OutputFile>, disk: string -> Option<string>, locale: (string, string) -> bool)
    requires TotalPreorder(locale) && AreModulesOf(files, r.modules, disk)
    requires r.entry.Some? ==> r.entry.value in r.modules.values
    ensures AreModulesOf(SortServerModules(files, r.entry, locale), r.modules, disk)
    ensures IsEntryFirst(SortServerModules(files, r.entry, locale), r.entry, locale)
  {
    SortPutsEntryFirst(files, r.entry, locale);
    SortedAreModules(files, SortServerModules(files, r.entry, locale), r.modules, disk);
  }

  lemma SortedAreModules(files: seq<OutputFile>, sorted: seq<OutputFile>, modules: JsMap<Source>,
          disk: string -> Option<string>)
    requires AreModulesOf(files, modules, disk) && multiset(files) == multiset(sorted)
    ensures AreModulesOf(sorted, modules, disk)
  {
    UniqueStaysUnique(files, sorted);
    SameMembers(files, sorted);
  }

  lemma SameMembers(files: seq<OutputFile>, sorted: seq<OutputFile>)
    requires multiset(files) == multiset(sorted)
    ensures forall f :: f in files <==> f in sorted
  {
    assert forall f :: f in files <==> f in multiset(files);
    assert forall f :: f in sorted <==> f in multiset(sorted);
  }

  // ----- collecting from disk -----

  datatype DiskEntry = DiskEntry(path: string, isFile: bool, content: Option<string>)

  function FilesOf(prefix: string, entries: seq<DiskEntry>): Option<seq<OutputFile>> {
    if entries == [] then Some([])
    else
      match FilesOf(prefix, entries[1..])
      case None => None
      case Some(files) =>
        if !entries[0].isFile then Some(files)
        else
          match entries[0].content
          case None => None
          case Some(content) => Some([OutputFile(ToModuleName(prefix, entries[0].path), content)] + files)
  }

  /** `readServerModulesFromDisk`; `list` is `None` where the directory cannot be read. */
  function ReadServerModules(dist: Option<string>, output: Output,
          list: string -> Option<seq<DiskEntry>>): Option<seq<OutputFile>> {
    match list(output.outDir)
    case None => None
    case Some(entries) =>
      FilesOf(PrefixOf(dist, output.root, output.outDir), Sort((a: DiskEntry, b: DiskEntry) => LessOrEqual(a.path, b.path), entries))
  }

  function PutAll(m: JsMap<OutputFile>, files: seq<OutputFile>): (r: JsMap<OutputFile>)
    ensures IsMap(m) ==> IsMap(r)
  {
    if files == [] then m
    else Put(PutAll(m, files[..|files| - 1]), files[|files| - 1].name, files[|files| - 1])
  }

  /** The map `collectFromDisk` fills from what reading each output directory gave. */
  function DiskModules(found: seq<Option<seq<OutputFile>>>): (r: Option<JsMap<OutputFile>>)
    ensures r.Some? ==> IsMap(r.value)
  {
    if found == [] then Some(JsMap([], map[]))
    else
      match (DiskModules(found[..|found| - 1]), found[|found| - 1])
      case (Some(m), Some(files)) => Some(PutAll(m, files))
      case _ => None
  }

  function Reads(dist: Option<string>, outputs: seq<Output>,
          list: string -> Option<seq<DiskEntry>>): (found: seq<Option<seq<OutputFile>>>)
    ensures |found| == |outputs| && forall k :: 0 <= k < |outputs| ==> found[k] == ReadServerModules(dist, outputs[k], list)
  {
    if outputs == [] then [] else [ReadServerModules(dist, outputs[0], list)] + Reads(dist, outputs[1..], list)
  }

  function ValuesOf<V>(keys: seq<string>, values: map<string, V>): (vs: seq<V>)
    requires forall k :: k in keys ==> k in values
    ensures |vs| == |keys| && forall i :: 0 <= i < |keys| ==> vs[i] == values[keys[i]]
  {
    if keys == [] then [] else [values[keys[0]]] + ValuesOf(keys[1..], values)
  }

  ghost predicate IsState(st: State) {
    IsMap(st.outputs) && IsMap(st.record.modules)
  }

  /** `f` stands in the `k`-th output directory, and no later one has a file of that name. */
  predicate IsFromLast(found: seq<Option<seq<OutputFile>>>, f: OutputFile, k: nat) {
    && k < |found| && found[k].Some? && f in found[k].value
    && (forall j :: k < j < |found| ==> HasNoFile(found[j], f.name))
  }

  predicate HasNoFile(files: Option<seq<OutputFile>>, name: string) {
    files.Some? ==> forall g :: g in files.value ==> g.name != name
  }

  lemma {:induction false} PutAllFiles(m: JsMap<OutputFile>, files: seq<OutputFile>)
    requires IsMap(m)
    ensures
      var r := PutAll(m, files);
      && IsMap(r)
      && (forall name :: name in r.values <==> name in m.values || !HasNoFile(Some(files), name))
      && (forall name :: name in r.values && HasNoFile(Some(files), name) ==> r.values[name] == m.values[name])
      && (forall name :: !HasNoFile(Some(files), name) ==> r.values[name] in files && r.values[name].name == name)
    decreases |files|
  {
    if files != [] {
      var n := |files| - 1;
      PutAllFiles(m, files[..n]);
      assert forall f :: f in files <==> f in files[..n] || f == files[n];
      assert forall name :: HasNoFile(Some(files), name) <==> HasNoFile(Some(files[..n]), name) && files[n].name != name;
    }
  }

  ghost predicate IsDiskMap(found: seq<Option<seq<OutputFile>>>, m: JsMap<OutputFile>) {
    && IsMap(m)
    && (forall name :: name in m.values ==> m.values[name].name == name)
    && (forall name :: name in m.values ==> exists k :: IsFromLast(found, m.values[name], k))
    && (forall k :: 0 <= k < |found| ==> IsCovered(found[k], m))
  }

  predicate IsCovered(files: Option<seq<OutputFile>>, m: JsMap<OutputFile>) {
    files.Some? && forall f :: f in files.value ==> f.name in m.values
  }

  lemma {:induction false} DiskModulesAreListed(found: seq<Option<seq<OutputFile>>>)
    ensures match DiskModules(found)
            case None => exists k :: 0 <= k < |found| && found[k].None?
            case Some(m) => IsDiskMap(found, m)
    decreases |found|
  {
    if found != [] {
      var n := |found| - 1;
      DiskModulesAreListed(found[..n]);
      assert forall k :: 0 <= k < n ==> found[..n][k] == found[k];
      var before := DiskModules(found[..n]);
      if before.Some? && found[n].Some? {
        AddDirectory(found, before.value, found[n].value);
      }
    }
  }

  lemma StillLast(found: seq<Option<seq<OutputFile>>>, f: OutputFile, k: nat)
    requires found != [] && IsFromLast(found[..|found| - 1], f, k) && HasNoFile(found[|found| - 1], f.name)
    ensures IsFromLast(found, f, k)
  {
    var init := found[..|found| - 1];
    assert forall j :: 0 <= j < |init| ==> init[j] == found[j];
  }

  lemma AddDirectory(found: seq<Option<seq<OutputFile>>>, m: JsMap<OutputFile>, files: seq<OutputFile>)
    requires found != [] && IsDiskMap(found[..|found| - 1], m) && found[|found| - 1] == Some(files)
    ensures IsDiskMap(found, PutAll(m, files))
  {
    var n, r := |found| - 1, PutAll(m, files);
    var init := found[..n];
    assert forall k :: 0 <= k < n ==> init[k] == found[k];
    PutAllFiles(m, files);
    forall name | name in r.values
      ensures exists k :: IsFromLast(found, r.values[name], k)
      ensures r.values[name].name == name
    {
      if HasNoFile(Some(files), name) {
        var k: nat :| IsFromLast(init, m.values[name], k);
        StillLast(found, m.values[name], k);
        assert IsFromLast(found, r.values[name], k);
      } else {
        assert IsFromLast(found, r.values[name], n);
      }
    }
    forall k | 0 <= k < |found|
      ensures IsCovered(found[k], r)
    {
      if k < n {
        assert IsCovered(init[k], m);
      }
    }
  }

  /** The files are those of the listed directories, later directories replacing what earlier ones name alike. */
  ghost predicate AreListed(files: seq<OutputFile>, found: seq<Option<seq<OutputFile>>>) {
    && HasUniqueNames(files)
    && (forall f :: f in files ==> exists k :: IsFromLast(found, f, k))
    && (forall k, f :: 0 <= k < |found| && found[k].Some? && f in found[k].value ==> HasName(files, f.name))
  }

  lemma DiskValuesAreListed(found: seq<Option<seq<OutputFile>>>, m: JsMap<OutputFile>)
    requires IsDiskMap(found, m)
    ensures AreListed(ValuesOf(m.keys, m.values), found)
    ensures forall name :: name in m.values ==> HasName(ValuesOf(m.keys, m.values), name)
  {
    var files := ValuesOf(m.keys, m.values);
    ValuesAreNamed(m, files);
    forall f | f in files
      ensures exists k :: IsFromLast(found, f, k)
    {
      assert f.name in m.values && m.values[f.name] == f;
    }
    forall k, f | 0 <= k < |found| && found[k].Some? && f in found[k].value
      ensures HasName(files, f.name)
    {
      assert IsCovered(found[k], m);
      assert f.name in m.values;
    }
  }

  lemma ValuesAreNamed(m: JsMap<OutputFile>, files: seq<OutputFile>)
    requires IsMap(m) && forall name :: name in m.values ==> m.values[name].name == name
    requires |files| == |m.keys| && forall i :: 0 <= i < |files| ==> files[i] == m.values[m.keys[i]]
    ensures HasUniqueNames(files)
    ensures forall name :: name in m.values ==> HasName(files, name)
    ensures forall f :: f in files ==> f.name in m.values && m.values[f.name] == f
  {
    forall name | name in m.values
      ensures HasName(files, name)
    {
      var i :| 0 <= i < |m.keys| && m.keys[i] == name;
      assert files[i] in files && files[i].name == name;
    }
  }

  lemma ListedSorted(files: seq<OutputFile>, sorted: seq<OutputFile>, found: seq<Option<seq<OutputFile>>>)
    requires AreListed(files, found) && multiset(files) == multiset(sorted)
    ensures AreListed(sorted, found)
  {
    UniqueStaysUnique(files, sorted);
    SameMembers(files, sorted);
  }

  /** `sortServerModules` of the map's files: what `collectFromDisk` ends with. */
  function Finished(m: Option<JsMap<OutputFile>>, entry: Option<string>, locale: (string, string) -> bool): Collected
    requires m.Some? ==> IsMap(m.value)
  {
    match m
    case None => Failed
    case Some(m) =>
      if entry.Some? && entry.value !in m.values then Failed
      else Modules(SortServerModules(ValuesOf(m.keys, m.values), entry, locale))
  }

  ghost predicate IsCollectedFrom(c: Collected, found: seq<Option<seq<OutputFile>>>, entry: Option<string>,
          locale: (string, string) -> bool) {
    match c
    case Absent => false
    case Failed =>
      || (exists k :: 0 <= k < |found| && found[k].None?)
      || (entry.Some? && forall k :: 0 <= k < |found| ==> HasNoFile(found[k], entry.value))
    case Modules(files) =>
      (forall k :: 0 <= k < |found| ==> found[k].Some?) && AreListed(files, found) && IsEntryFirst(files, entry, locale)
  }

  lemma FinishedIsComplete(found: seq<Option<seq<OutputFile>>>, entry: Option<string>, locale: (string, string) -> bool)
    requires TotalPreorder(locale)
    ensures IsCollectedFrom(Finished(DiskModules(found), entry, locale), found, entry, locale)
  {
    DiskModulesAreListed(found);
    var m := DiskModules(found);
    if m.Some? {
      assert forall k :: 0 <= k < |found| ==> IsCovered(found[k], m.value);
      if entry.None? || entry.value in m.value.values {
        var files := ValuesOf(m.value.keys, m.value.values);
        DiskValuesAreListed(found, m.value);
        SortPutsEntryFirst(files, entry, locale);
        ListedSorted(files, SortServerModules(files, entry, locale), found);
      }
    }
  }

  /** `collectFromDisk`. */
  function FromDisk(st: State, disk: string -> Option<string>, list: string -> Option<seq<DiskEntry>>,
                    locale: (string, string) -> bool): Collected
    requires IsState(st)
  {
    if st.outputs.keys == [] then InMemory(st.record, disk, locale)
    else Finished(DiskModules(Reads(st.dist, ValuesOf(st.outputs.keys, st.outputs.values), list)), st.record.entry, locale)
  }

  /**
   Collecting from disk, when some output directory was written: it fails if one of them cannot be
   read or none has the entry; otherwise their files, each name once, entry first.
   */
  lemma FromDiskIsComplete(st: State, disk: string -> Option<string>,
          list: string -> Option<seq<DiskEntry>>, locale: (string, string) -> bool)
    requires TotalPreorder(locale) && IsState(st) && st.outputs.keys != []
    ensures
      var found := Reads(st.dist, ValuesOf(st.outputs.keys, st.outputs.values), list);
      IsCollectedFrom(FromDisk(st, disk, list, locale), found, st.record.entry, locale)
  {
    FinishedIsComplete(Reads(st.dist, ValuesOf(st.outputs.keys, st.outputs.values), list), st.record.entry, locale);
  }

  // ----- the collector -----

  lemma NextItem(settings: Settings, environment: string, outDir: string, prefix: string, items: seq<Item>,
          i: nat, r: Record)
    requires i < |items|
    ensures ApplyAll(r, EventsOfItems(settings, environment, outDir, prefix, items[..i + 1]))
         == ApplyAll(ApplyAll(r, EventsOfItems(settings, environment, outDir, prefix, items[..i])),
                     EventsOfItem(settings, environment, outDir, prefix, items[i]))
  {
    assert items[..i + 1][..i] == items[..i];
    ApplyAllConcat(r, EventsOfItems(settings, environment, outDir, prefix, items[..i]),
                   EventsOfItem(settings, environment, outDir, prefix, items[i]));
  }

  lemma NextImport(outDir: string, prefix: string, imports: seq<string>, i: nat, r: Record)
    requires i < |imports|
    ensures ApplyAll(r, ManifestEvents(outDir, prefix, imports[..i + 1]))
         == ApplyAll(ApplyAll(r, ManifestEvents(outDir, prefix, imports[..i])), ManifestEvent(outDir, prefix, imports[i]))
  {
    assert imports[..i + 1][..i] == imports[..i];
    ApplyAllConcat(r, ManifestEvents(outDir, prefix, imports[..i]), ManifestEvent(outDir, prefix, imports[i]));
  }

  class BuildOutputCollector {
    const settings: Settings
    var distDirectory: Option<string>
    var clientDirectory: Option<string>
    var serverEntry: Option<string>
    var serverEntryPriority: nat
    var serverModules: JsMap<Source>
    var serverOutputs: JsMap<Output>

    constructor (settings: Settings)
      ensures this.settings == settings && View() == Fresh(None)
    {
      this.settings := settings;
      distDirectory, clientDirectory, serverEntry, serverEntryPriority := None, None, None, 0;
      serverModules, serverOutputs := JsMap([], map[]), JsMap([], map[]);
    }

    function Recorded(): Record
      reads this`serverEntry, this`serverEntryPriority, this`serverModules
    {
      Record(serverEntry, serverEntryPriority, serverModules)
    }

    ghost function View(): State
      reads this
    {
      State(distDirectory, clientDirectory, serverOutputs, Recorded())
    }

    method ConfigResolved(root: string, outDir: string)
      modifies this`distDirectory
      ensures View() == old(View()).(dist := if old(distDirectory).Some? then old(distDirectory) else Some(Resolve(root, outDir)))
    {
      if distDirectory.None? {
        distDirectory := Some(Resolve(root, outDir));
      }
    }

    /** One `writeBundle` call; it throws when the entry environment has given no entry. */
    method WriteBundle(b: Bundle) returns (thrown: bool)
      modifies this
      ensures View() == Write(settings, old(View()), b)
      ensures thrown <==> Contributes(settings, b) && b.environment == settings.entryEnvironment && serverEntry.None?
    {
      thrown := false;
      if b.environment in settings.skipEnvironments {
        return;
      }
      var outDir := OutDirOf(b);
      if b.environment == settings.clientEnvironment {
        clientDirectory := Some(outDir);
        return;
      }
      serverOutputs := Put(serverOutputs, b.environment, Output(b.root, outDir));
      RecordItems(b.environment, outDir, PrefixOf(distDirectory, b.root, outDir), b.items);
      thrown := b.environment == settings.entryEnvironment && serverEntry.None?;
    }

    /** The loop over the bundle's files. */
    method RecordItems(environment: string, outDir: string, prefix: string, items: seq<Item>)
      modifies this`serverEntry, this`serverEntryPriority, this`serverModules
      ensures Recorded() == ApplyAll(old(Recorded()), EventsOfItems(settings, environment, outDir, prefix, items))
    {
      ghost var start := Recorded();
      for i := 0 to |items|
        invariant Recorded() == ApplyAll(start, EventsOfItems(settings, environment, outDir, prefix, items[..i]))
      {
        NextItem(settings, environment, outDir, prefix, items, i, start);
        RecordItem(environment, outDir, prefix, items[i]);
      }
      assert items[..|items|] == items;
    }

    method RecordItem(environment: string, outDir: string, prefix: string, file: Item)
      modifies this`serverEntry, this`serverEntryPriority, this`serverModules
      ensures Recorded() == ApplyAll(old(Recorded()), EventsOfItem(settings, environment, outDir, prefix, file))
    {
      var name := ToModuleName(prefix, file.fileName);
      ghost var manifests := if file.Chunk? then ManifestEvents(outDir, prefix, file.imports) else [];
      ApplyFirst(Recorded(), EmitEvent(settings, environment, prefix, file), manifests);
      serverModules := Put(serverModules, name, Emitted(if file.Chunk? then file.code else file.source));
      if file.Chunk? {
        if environment == settings.entryEnvironment && file.isEntry {
          var priority := Priority(settings, EntryChunk(file.fileName, name, file.facade));
          if priority >= serverEntryPriority {
            serverEntry := Some(name);
            serverEntryPriority := priority;
          }
        }
        RecordManifests(outDir, prefix, file.imports);
      }
    }

    /** The loop over a chunk's imports. */
    method RecordManifests(outDir: string, prefix: string, imports: seq<string>)
      modifies this`serverModules
      ensures Recorded() == ApplyAll(old(Recorded()), ManifestEvents(outDir, prefix, imports))
    {
      ghost var start := Recorded();
      for i := 0 to |imports|
        invariant Recorded() == ApplyAll(start, ManifestEvents(outDir, prefix, imports[..i]))
      {
        NextImport(outDir, prefix, imports, i, start);
        RecordManifest(outDir, prefix, imports[i]);
      }
      assert imports[..|imports|] == imports;
    }

    method RecordManifest(outDir: string, prefix: string, id: string)
      modifies this`serverModules
      ensures Recorded() == ApplyAll(old(Recorded()), ManifestEvent(outDir, prefix, id))
    {
      var fileName := ManifestOf(id);
      if fileName.Some? {
        var manifestName := ToModuleName(prefix, fileName.value);
        ApplyFirst(Recorded(), Manifest(manifestName, Resolve(outDir, fileName.value)), []);
        if manifestName !in serverModules.values {
          serverModules := Put(serverModules, manifestName, OnDisk(Resolve(outDir, fileName.value)));
        }
      }
    }

    method CollectFromDisk(disk: string -> Option<string>, list: string -> Option<seq<DiskEntry>>,
            locale: (string, string) -> bool)
      returns (c: Collected)
      requires IsState(View())
      ensures c == FromDisk(View(), disk, list, locale)
    {
      if serverOutputs.keys == [] {
        return InMemory(Recorded(), disk, locale);
      }
      var modules := ReadOutputs(distDirectory, ValuesOf(serverOutputs.keys, serverOutputs.values), list);
      c := Finished(modules, serverEntry, locale);
    }
  }

  /** The loops of `collectFromDisk`. */
  method ReadOutputs(dist: Option<string>, outputs: seq<Output>, list: string -> Option<seq<DiskEntry>>)
    returns (r: Option<JsMap<OutputFile>>)
    ensures r == DiskModules(Reads(dist, outputs, list))
  {
    ghost var found := Reads(dist, outputs, list);
    var modules := JsMap([], map[]);
    for k := 0 to |outputs|
      invariant DiskModules(found[..k]) == Some(modules)
    {
      var files := ReadServerModules(dist, outputs[k], list);
      NextRead(found, k);
      if files.None? {
        return None;
      }
      modules := SetAll(modules, files.value);
    }
    assert found[..|outputs|] == found;
    r := Some(modules);
  }

  method SetAll(before: JsMap<OutputFile>, files: seq<OutputFile>) returns (modules: JsMap<OutputFile>)
    ensures modules == PutAll(before, files)
  {
    modules := before;
    for i := 0 to |files|
      invariant modules == PutAll(before, files[..i])
    {
      assert files[..i + 1][..i] == files[..i];
      modules := Put(modules, files[i].name, files[i]);
    }
    assert files[..|files|] == files;
  }

  lemma NextRead(found: seq<Option<seq<OutputFile>>>, k: nat)
    requires k < |found|
    ensures found[k].None? ==> DiskModules(found).None?
    ensures found[k].Some? && DiskModules(found[..k]).Some? ==>
              DiskModules(found[..k + 1]) == Some(PutAll(DiskModules(found[..k]).value, found[k].value))
  {
    assert found[..k + 1][..k] == found[..k];
    if found[k].None? {
    }
  }

  /** Whatever was bundled, the collector holds maps, and what it collects in memory is complete. */
  lemma CollectAfterRun(settings: Settings, dist: Option<string>, bundles: seq<Bundle>,
          disk: string -> Option<string>, locale: (string, string) -> bool)
    requires TotalPreorder(locale)
    ensures
      var st := Run(settings, Fresh(dist), bundles);
      && IsState(st)
      && match InMemory(st.record, disk, locale) {
           case Absent => History(settings, dist, bundles) == []
           case Failed => exists k :: k in st.record.modules.values && ReadSource(st.record.modules.values[k], disk).None?
           case Modules(files) => AreModulesOf(files, st.record.modules, disk) && IsEntryFirst(files, st.record.entry, locale)
         }
  {
    RunIsHistory(settings, Fresh(dist), bundles);
    OutputsAreContributors(settings, Fresh(dist), bundles);
    EntryIsRecorded(History(settings, dist, bundles));
    InMemoryIsComplete(History(settings, dist, bundles), disk, locale);
  }

  lemma ApplyFirst(r: Record, e: Event, events: seq<Event>)
    ensures ApplyAll(r, [e] + events) == ApplyAll(Apply(r, e), events)
  {
    assert [e][..0] == [];
    assert ApplyAll(r, [e]) == Apply(r, e);
    ApplyAllConcat(r, [e], events);
  }
}
