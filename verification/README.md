# Framework sources, dev runtime and build assembly: a Dafny model

The repository turns framework projects (Astro, Waku, Next.js, SvelteKit) into Cloudflare Workers. This
project models the parts of it whose behaviour is easiest to get subtly wrong, and proves what they keep.

- **Deciding whether to rebuild.** Each framework source compiles globs and gitignore rules to regular
  expressions, walks the project tree while pruning, and hashes what it lists. `Regex` is the syntax and the
  meaning of the expressions together with a parser for their source text; `Fragments` and `Glob` show that
  what a scanning loop emits parses and means what the glob means; `AstroGlob`, `WakuGlob`, `NextGlob` and
  `SvelteGlobs` are the four compilers, `GlobSegments` gives globs a segment-by-segment reading, and
  `GlobAgreement` says exactly where the compilers agree. `Tree`, `Listing`, `AstroWalk` and `WakuWalk` are
  the walks, up to which files of a tree are hashed for given globs and ignore lines; `Lockfiles` is the
  search for the lockfile and `Artifacts` what Waku's walk always leaves out. `Paths`, `Memo` and
  `Canonical` make the input hash a fixed point and its JSON a canonical form; `Sensitivity` and
  `DirectoryHashes` say which changes a hash tells, so that they decide about a rebuild.
- **The dev-server runtime.** `ExportTypes` and `Restart` are the export types that Workers report at any
  moment and the promise chain of restarts, as steps that interleave; `HotChannels` and `ExportRequests` are
  the message channel and the requests that run over it.
- **Text rewriters.** `Headers` scans and extends a `_headers` file; `AdditionalModules` and `ImportPaths`
  replace module references in rendered chunks; `WorkerShims` is the emitted SvelteKit request handler with
  its cache.
- **Assembly.** `Collector` records modules over many bundles and collects them, and `Contributions` says of the
  bundles themselves which chunk becomes the server entry and what each name stands for;
  `Middlewares` is the chain from the entry socket to the user worker; `CwdLock` is the lock around the
  process's working directory.

Code that only computes is modelled by functions, its loops by methods proved against them, and objects with
state by classes whose methods are proved to take one step of a state machine (`Next`); what every run of
that machine keeps is then proved of `Run`. File contents, directory trees, hash functions, the bundler, the
assets binding, the server and the cache's willingness to store are parameters or outcomes of steps.

Some results say that the code does not always do what one would expect, and when it does:

- For hashes without collisions, two states of a project have the same input hash exactly when the version, the
  root's content and the content behind each counted workspace are the same; Waku's also needs the same options.
  A project that is moved as a whole keeps its hash (`Sensitivity.ChangeIsNoticed`,
  `Sensitivity.WakuChangeIsNoticed`, `Sensitivity.MovedProjectHashesAlike`). With everything else as it was,
  Waku's changes exactly when a file that counts appears, disappears or changes
  (`DirectoryHashes.WakuRebuildIsDecided`).
- Astro's memo is a fixed point exactly when every remembered label is relative, in normal form and not the
  integration's own package (`Memo.MemoIsFixedPoint`). Without backslashes that means that no workspace is the
  project root, whose label changes from the empty text to `.`; the collector never reports the root, so what a
  build stores is a fixed point (`Memo.PortableMemoIsFixedPoint`, `Memo.ReportedRootIsNotFixed`,
  `Memo.BuiltMemoIsFixedPoint`). A directory called `a\..\b`, which POSIX allows, is remembered as `a/../b`
  first and as `b` next (`Memo.BackslashNameIsNotFixed`).
- Waku's memo leads back to a workspace exactly when its path from the root has no backslash, and is a fixed
  point whatever the directories hold exactly when that holds of all workspaces (`Memo.RememberedLeadsBack`,
  `Memo.FixedForAllContents`, `Memo.BackslashNameIsForgotten`).
- The Astro and Waku compilers read a glob alike exactly when every `**` before a slash starts a segment;
  `a**/b` and the path `a/b` tell them apart (`GlobAgreement.AstroAgreesWithWaku`,
  `GlobAgreement.TheyDisagreeElsewhere`).
- Waku excludes its output directory exactly when `distDir` spells the way there as the walk does. `dist` does;
  `./dist` builds into the same directory but makes a rule for paths that begin with `./`, which no walked path
  does, so unless other rules exclude it, what a build writes counts towards its own input
  (`Artifacts.OutputIsExcludedExactly`, `Artifacts.NormalFormNamesOutput`, `Artifacts.DotSlashDist`,
  `Artifacts.DotSlashIsNotExcluded`).
- A module reference is read back exactly when its path is on one line and no marker occurs in it or runs into
  the closing one; `__CLOUDFLARE_MODULE` is a path that does (`AdditionalModules.ReferenceIsReadBack`,
  `AdditionalModules.MarkerIsCompletedEarly`). The import path leads back to the emitted file exactly when the
  part of its name that is spelled out has no backslash, so `a\b.bin` is taken for `a/b.bin`, and a loader takes
  it for a relative one exactly when that part does not start with a dot in the chunk's own directory, so
  `.x.wasm` is looked up as a package (`ImportPaths.ImportResolvesBack`, `ImportPaths.ImportIsRelative`,
  `ImportPaths.BackslashNameIsAnother`, `ImportPaths.DotNameIsAPackage`).
- A restart whose runtime cannot be started leaves no runtime up, and it stays so, whatever is reported, until a
  report changes the export types (`Restart.FailedStartLeavesNothing`, `Restart.FailureIsNotRetried`). When the
  chain has drained, nothing is up exactly when the last restart that closed a runtime could not start the next
  (`Restart.DrainedDownExactly`).
- A Waku source resolves its root before it waits for the lock, so a build that starts while another one runs
  resolves a missing or relative `rootDir` in that one's directory. It gets the root it would get in the
  original directory exactly when the same holds of the directory of every body that runs or is still to be
  undone (`CwdLock.CallerGetsIntendedRoot`, `CwdLock.DefaultRootIsOriginal`,
  `CwdLock.DefaultRootCanBeAnothers`).

## Model

| member | source | states |
|---|---|---|
| `Fragments.TermOfFragment` | packages/astro/src/source.ts:296-320 | each piece of regex source that a compiler can emit is one complete term of the regular-expression grammar, whatever follows it short of a quantifier |
| `Fragments.ParseEmitted` | packages/astro/src/source.ts:291-323 | every concatenation of such pieces is well formed and parses back to the expression it was meant to be |
| `Glob.SourceOfTokens` | packages/astro/src/source.ts:291-323 | from every position, the text the scanning loop still has to emit is the source of the remaining glob's tokens |
| `Glob.AnchoredSource` | packages/astro/src/source.ts:389-396 | the anchored source never makes the `RegExp` constructor throw |
| `Glob.AnchoredMeaning` | packages/astro/src/source.ts:389-396 | the anchored expression accepts a path exactly when the glob's direct meaning does: literals, `?` and `*` inside a segment, whole segments, anything |
| `GlobSegments.GlobIsSegmentwise` | packages/astro/src/source.ts:287-323 | on canonical paths, a glob whose double stars are whole segments means the segment-by-segment match: `**` swallows zero or more segments, every other segment is matched on its own |
| `AstroGlob.GlobToRegexSource` | packages/astro/src/source.ts:291-323 | the loop emits the source of the glob's tokens |
| `AstroGlob.GlobCompiles` | packages/astro/src/source.ts:388-396 | every Astro glob compiles, to an expression that accepts exactly what the glob means |
| `AstroGlob.CompileGlob` | packages/astro/src/source.ts:389-396 | one include or exclude glob, a leading `./` dropped, always gives an expression, and one that means the glob |
| `AstroGlob.CompileGlobs` | packages/astro/src/source.ts:389-396 | no glob is lost and the results stand in the order of the globs, each meaning its own |
| `AstroGlob.RuleCompiles` | packages/astro/src/source.ts:356-362 | the expression of every ignore rule exists and accepts what the rule means, anchored or at any depth |
| `AstroGlob.CompileIgnoreRule` | packages/astro/src/source.ts:332-363 | a line gives no rule exactly when it says nothing, and otherwise one with the meaning, direction and kind the line has |
| `AstroGlob.LineReadsBack` | packages/astro/src/source.ts:332-355 | every line written for a pattern, white space aside, reads back as written: `!` negates, a slash in front or inside anchors, one behind asks for a directory |
| `AstroGlob.LineMeans` | packages/astro/src/source.ts:332-363 | such a line applies to what its pattern means from the start of the path, or from behind any slash if it has none in front or inside, and to directories only if one stands behind |
| `AstroGlob.SaysNothing` | packages/astro/src/source.ts:332-355 | a line gives no rule exactly when it is blank, a comment, a lone `!` or nothing but slashes |
| `AstroGlob.CompileIgnoreRules` | packages/astro/src/source.ts:365-366 | the rules compiled for lines ignore exactly what the lines do, of which the last that applies decides |
| `AstroGlob.IsIgnored` | packages/astro/src/source.ts:373-386 | the loop decides by the last applicable rule, directory rules applying to directories only |
| `AstroGlob.IgnoredStep` | packages/astro/src/source.ts:368-386 | one more rule decides alone where it applies and changes nothing where it does not |
| `WakuGlob.GlobBodyToRegExpSource` | packages/waku/src/source.ts:229-256 | the loop emits the source of the glob's tokens as Waku reads them |
| `WakuGlob.GlobCompiles` | packages/waku/src/source.ts:289-290 | every Waku include glob compiles, to an expression that accepts exactly what the glob means |
| `WakuGlob.RuleCompiles` | packages/waku/src/source.ts:281-284 | the expression of an ignore rule exists and accepts a path exactly when the rule covers it or a directory above it |
| `WakuGlob.ReadingCompiles` | packages/waku/src/source.ts:281-284 | the same for all paths at once |
| `WakuGlob.CompileIgnoreRule` | packages/waku/src/source.ts:264-284 | blank lines, comments and negated rules give nothing; every other line gives the expression for its meaning |
| `WakuGlob.LineReadsBack` | packages/waku/src/source.ts:264-280 | every line for a pattern, white space aside: a slash in front or inside anchors, one behind makes no difference, a `#` or `!` that comes first silences it |
| `WakuGlob.SaysNothing` | packages/waku/src/source.ts:264-273 | only blank lines, comments, negated lines and a lone slash give no rule |
| `WakuGlob.CompileIncludeGlobs` | packages/waku/src/source.ts:289-290 | one expression for each include glob, in order, each meaning its own |
| `WakuGlob.AcceptsDescendants` | packages/waku/src/source.ts:258-263 | a rule that accepts a directory accepts everything below it |
| `NextGlob.GlobToSource` | packages/nextjs/src/source.ts:233-257 | the index loop emits the source of the glob's tokens as Next.js renders them |
| `NextGlob.GlobCompiles` | packages/nextjs/src/source.ts:233-259 | every Next.js glob compiles, to an expression that accepts exactly what the glob means there |
| `NextGlob.GlobToRegExp` | packages/nextjs/src/source.ts:233-259 | the compiled expression always exists and accepts exactly what the glob means, for all paths |
| `GlobAgreement.AstroAgreesWithWaku` | packages/waku/src/source.ts:229-256 | Astro and Waku accept the same paths for a glob if and only if each of its double stars before a slash starts a segment |
| `GlobAgreement.SamePrefixes` | packages/nextjs/src/source.ts:239-245 | on canonical paths `(?:.*/)?` and `(?:[^/]+/)*` stand for the same prefixes |
| `GlobAgreement.AllThreeAgree` | packages/nextjs/src/source.ts:233-259 | under that condition all three compilers accept the same canonical paths |
| `GlobAgreement.TheyDisagreeElsewhere` | packages/astro/src/source.ts:296-307 | `a**/b` and `a/b`: accepted by Astro and Next.js, not by Waku |
| `SvelteGlobs.GitignoreRulesToGlobs` | packages/sveltekit/src/source.ts:233-262 | the loop appends, rule by rule and in order, the globs of each line |
| `SvelteGlobs.PushGlobs` | packages/sveltekit/src/source.ts:236-259 | one turn of the loop keeps what was pushed and adds the globs of the line, none for a line that says nothing |
| `SvelteGlobs.GivesNothing` | packages/sveltekit/src/source.ts:236-251 | a line gives no glob exactly when it is blank, a comment, negated or nothing but slashes |
| `SvelteGlobs.PlainRuleAgrees` | packages/sveltekit/src/source.ts:252-259 | for a rule without backslashes, double stars and trailing slash, the globs accept the canonical paths that Waku's expression accepts, and no others |
| `SvelteGlobs.DirectoryRuleAgrees` | packages/sveltekit/src/source.ts:253-254 | with a trailing slash they accept exactly the canonical paths that have a proper ancestor Waku's expression accepts |
| `Tree.WalkListsFiles` | packages/astro/src/source.ts:463-492 | a walk lists a path exactly when it leads to a file that is kept, through no directory that is pruned |
| `Listing.ListingIsExact` | packages/astro/src/source.ts:451-495 | the listing is strictly sorted, so each file is there once, and has exactly the files that pass and that no pruned directory leads to |
| `Listing.NothingBelowPruned` | packages/astro/src/source.ts:473-480 | nothing below a pruned directory is listed, whatever would be kept there |
| `Listing.PrunedWalkIsFlatFilter` | packages/waku/src/source.ts:388-409 | when exclusion is closed under descendants, the pruning walk lists what a flat filter of the whole tree keeps, in the same order |
| `Listing.ListingIgnoresHidden` | packages/waku/src/source.ts:388-409 | two trees that differ only in files that are pruned and not kept have the same listing |
| `AstroWalk.Lister.Walk` | packages/astro/src/source.ts:463-492 | the recursive walk appends the files of the specification's walk, in its order |
| `AstroWalk.Lister.Inspect` | packages/astro/src/source.ts:468-490 | a file is added exactly when no rule ignores it, no exclude expression matches it and an include expression does where there are any; a directory that is ignored or excluded, with or without a slash behind it, adds nothing, any other its walk |
| `AstroWalk.ListAllFiles` | packages/astro/src/source.ts:451-495 | the result is sorted, each file once, and has a path exactly when it leads to a file that no rule ignores, no exclude expression matches and an include expression matches where there are any, past no directory that is ignored or excluded |
| `AstroWalk.CompileFilters` | packages/astro/src/source.ts:505-512 | exclude globs replace the ignore lines; without them `.git/` and the lines are in force |
| `AstroWalk.HashedFiles` | packages/astro/src/source.ts:501-526 | for given globs, ignore lines and tree: exactly the files that the globs include and that neither globs nor lines leave out, nor a directory on the way, and behind them the nearest lockfile when it counts and is not among them |
| `AstroWalk.NegationDoesNotRevive` | packages/astro/src/source.ts:473-480 | adding a rule that does not apply to an ignored directory itself brings back no file below it, as gitignore(5) has it |
| `WakuWalk.CompileIgnoreRules` | packages/waku/src/source.ts:286-287 | the compiled rules, those that say nothing left out, in the order of the lines |
| `WakuWalk.CompiledRulesMean` | packages/waku/src/source.ts:286-293 | some compiled rule matches a path exactly when some line's meaning accepts it |
| `WakuWalk.ResolveMemo` | packages/waku/src/source.ts:354-379 | the always-on rules precede the configured ones, or else those of the `.gitignore` files; the includes mean their globs; the lockfile counts if that is said, or if nothing is |
| `WakuWalk.PruningWithRulesIsSound` | packages/waku/src/source.ts:258-263 | what ignore rules exclude stays excluded below, so pruning loses no file |
| `WakuWalk.Walker.Walk` | packages/waku/src/source.ts:387-409 | the walk appends what the specification lists, and fails exactly when it meets an entry, not excluded, that cannot be inspected |
| `WakuWalk.Walker.Inspect` | packages/waku/src/source.ts:391-406 | the same for one entry |
| `WakuWalk.MeetsBrokenMeans` | packages/waku/src/source.ts:391-397 | a walk fails exactly when a path leads, past nothing that is pruned, to an entry that cannot be inspected |
| `Lockfiles.FindUp` | packages/waku/src/source.ts:308-324 | the nearest directory going up that has one of the names, the first name in the given order there, or nothing when there is none up to the file system's root |
| `Lockfiles.LabelLeadsToLockfile` | packages/waku/src/source.ts:416 | the lockfile's label leads to it exactly when no backslash is in the way |
| `WakuWalk.AddLockfile` | packages/waku/src/source.ts:413-424 | the sorted list has each walked file once and the lockfile once, also when the walk has already listed it |
| `WakuWalk.ListMemoFiles` | packages/waku/src/source.ts:354-425 | fails exactly when some entry that no rule is about cannot be inspected; otherwise lists, each once and sorted, exactly the files that neither the built-in nor the configured rules are about and that a glob is about where there are any, and the nearest lockfile when it counts |
| `WakuWalk.WakuWalkIsFlatFilter` | packages/waku/src/source.ts:387-409 | the pruned and the flat listing are equal for every list of rules and every include |
| `Artifacts.NameRuleAccepts` | packages/waku/src/source.ts:275-284 | a rule for a plain name accepts every path with a segment of that name |
| `Artifacts.NameRuleMeans` | packages/waku/src/source.ts:275-284 | and, on one-line paths, no other path |
| `Artifacts.RootedRuleAccepts` | packages/waku/src/source.ts:275-284 | a rule for a plain path below the root accepts that path and what is below it, and nothing else |
| `Artifacts.AlwaysExcludes` | packages/waku/src/source.ts:370-376 | whatever rules are configured, paths through a dependency tree or version-control metadata and paths at or below the text of `distDir` are excluded; with none configured, no others are |
| `Artifacts.OutputIsExcludedExactly` | packages/waku/src/source.ts:370-376 | everything in the directory that `distDir` denotes is excluded, whatever rules are configured, if and only if that directory is not the root or above it and, where it is below the root, `distDir` spells the way there (or a name on the way is excluded anyway, or has a line terminator) |
| `Artifacts.NormalFormNamesOutput` | packages/waku/src/source.ts:605 | a `distDir` of proper segments, the default among them, meets that condition in every project |
| `Artifacts.DotSlashDist` | packages/waku/src/source.ts:370-376 | `dist` meets it and `./dist`, the same directory, does not |
| `Artifacts.DotSlashIsNotExcluded` | packages/waku/src/source.ts:370-376 | for every name, a file that the build writes below `./name` is listed when no rules are configured |
| `Artifacts.ArtifactsAreExcluded` | packages/waku/src/source.ts:370-376 | where `distDir` names the output, everything in dependency trees, version-control metadata and the output directory is excluded, whatever rules are configured |
| `Artifacts.ListingIgnoresArtifacts` | packages/waku/src/source.ts:359-379 | then, for a fixed memo, changing anything there leaves the listing unchanged |
| `Paths.ResolveOfRelative` | packages/waku/src/source.ts:477-479 | resolving a relative path from where it was taken leads back to its target |
| `Paths.NormalizeOfRelative` | packages/astro/src/source.ts:560-564 | a path that came out of `relative` is its own normal form, except the empty one, which becomes `.` |
| `Paths.NormalizeRelative` | packages/astro/src/source.ts:560-564 | normalising a relative path twice is normalising it once, and it stays relative and denotes the same |
| `Paths.SlashedResolvesBack` | packages/waku/src/source.ts:477-479 | a relative path with its backslashes replaced leads back to its target if and only if there were none |
| `Memo.RelativeForm` | packages/astro/src/source.ts:560-567 | the label of an absolute workspace resolves to its directory if and only if its path from the root has no backslash, and is empty exactly for the root |
| `Memo.RoundIsFixed` | packages/astro/src/source.ts:593-601 | labels translated once more are relative, and a fixed point of further translation if and only if none of them was absolute and led to the root |
| `Memo.MemoIsFixedPoint` | packages/astro/src/source.ts:544-609 | for every list of workspaces, hashing again with the remembered ones gives the same hash and list if and only if workspaces are configured explicitly or every label, own package aside, is relative, in normal form and not the own package's |
| `Memo.PortableMemoIsFixedPoint` | packages/astro/src/source.ts:544-609 | for absolute workspaces without a backslash on the way from the root, that is the case if and only if none of them is the root |
| `Memo.ReportedRootIsNotFixed` | packages/astro/src/source.ts:560-564 | the root `/p` itself as a workspace: the second round differs |
| `Memo.BackslashNameIsNotFixed` | packages/astro/src/source.ts:560-564 | a workspace called `a\..\b`: labelled `a/../b`, then `b` |
| `Memo.SettlesAfterOneMoreRound` | packages/astro/src/source.ts:824-833 | for every list of workspaces the third result is a fixed point of further rehashing, and the second one is if and only if no label starts with a slash and leads to the root, which takes a backslash |
| `Memo.BuiltMemoIsFixedPoint` | packages/framework-core/src/Collector.ts:171-184 | workspaces that a build reports are never the root, so for those without a backslash on the way from the root `build()` followed by `hash()` on an unchanged tree agrees |
| `Memo.RememberedLeadsBack` | packages/waku/src/source.ts:477-479 | a remembered Waku workspace resolves to the directory it was taken from if and only if its path from the root has no backslash |
| `Memo.BackslashNameIsForgotten` | packages/waku/src/source.ts:477-479 | the directory `a\b` is remembered as `a/b`, which is another one |
| `Memo.WakuMemoIsFixedPoint` | packages/waku/src/source.ts:437-481 | Waku's hash and workspace list are a fixed point for every list of workspaces without a backslash on the way from the root |
| `Memo.FixedForAllContents` | packages/waku/src/source.ts:692-705 | for a hash without collisions, they are one whatever the directories hold if and only if no workspace has such a backslash |
| `Memo.HashTellsInputs` | packages/astro/src/source.ts:544-609 | for a hash without collisions, two Astro projects hash alike if and only if version, root content and the labelled workspaces with their contents, as often as they occur, are the same |
| `Memo.WakuHashTellsInputs` | packages/waku/src/source.ts:465-476 | the same for Waku, options included |
| `Sensitivity.ChangeIsNoticed` | packages/astro/src/source.ts:583-609 | with detected workspaces, two states of a project hash alike if and only if version, root content and the content behind the label of every workspace, own package aside, are the same |
| `Sensitivity.WorkspaceChangeIsNoticed` | packages/astro/src/source.ts:583-609 | without backslashes that content is the workspace directory's own |
| `Sensitivity.ConfiguredChangeIsNoticed` | packages/astro/src/source.ts:570-582 | with configured workspaces, detected ones do not matter: equal version, root and configured directories give equal hashes, and for distinct labels only they do |
| `Sensitivity.OwnPackageIsATree` | packages/astro/src/source.ts:590-594 | what counts as the own package is exactly its root directory and what is below it |
| `Sensitivity.MovedProjectHashesAlike` | packages/astro/src/source.ts:556-564 | a project moved together with its workspaces has the hash and the remembered labels it had |
| `Sensitivity.WakuChangeIsNoticed` | packages/waku/src/source.ts:437-476 | without backslashes, two states of a Waku project hash alike if and only if version, options, root content and every workspace's content are the same |
| `DirectoryHashes.HashTellsSnapshot` | packages/waku/src/source.ts:423-433 | a directory's hash tells the list of files and what each holds |
| `DirectoryHashes.WakuEditIsNoticed` | packages/waku/src/source.ts:383-434 | two states of a directory hash alike if and only if the same files count and hold the same; no other file makes a difference |
| `DirectoryHashes.AstroEditIsNoticed` | packages/astro/src/source.ts:501-537 | for the same listed files, if and only if what counts holds the same; and equal hashes mean that the same files count |
| `DirectoryHashes.WakuRebuildIsDecided` | packages/waku/src/source.ts:437-481 | version, options and workspaces being the same, the input hash changes if and only if a file that counts in the root appears, disappears or changes |
| `DirectoryHashes.AstroRebuildIsDecided` | packages/astro/src/source.ts:544-609 | the same for an Astro project as far as its list of files stays |
| `Canonical.StableIsCanonical` | packages/nextjs/src/source.ts:212-226 | two values have the same stable form if and only if they are equal up to key order and undefined-valued keys at every depth |
| `Canonical.StableIsEquivalent` | packages/nextjs/src/source.ts:212-226 | the stable form is such an equal value itself |
| `Canonical.StableIsIdempotent` | packages/nextjs/src/source.ts:212-226 | stabilising twice is stabilising once |
| `ExportTypes.ChangedMeansDifferent` | packages/cloudflare-rolldown-plugin/src/export-types.ts:98-108 | comparing sizes and the new names' types reports a change exactly when the maps differ, removed exports included |
| `ExportTypes.ConfiguredExportTypes` | packages/cloudflare-vite-plugin/src/export-types.ts:29-38 | exactly the declared classes, a workflow outranking a Durable Object of the same name |
| `Restart.StepKeeps` | packages/cloudflare-vite-plugin/src/dev-plugin.ts:167-203 | every step of every restart and every report keeps the invariant that orders the chain, the running runtimes and the handle |
| `Restart.RunKeeps` | packages/cloudflare-vite-plugin/src/dev-plugin.ts:167-203 | so does every interleaving |
| `Restart.OneRestartInFlight` | packages/cloudflare-vite-plugin/src/dev-plugin.ts:186-203 | in every reachable state at most one restart is in flight |
| `Restart.NoStartBeforeClose` | packages/cloudflare-vite-plugin/src/dev-plugin.ts:167-175 | a runtime only starts when none is up, and never two are |
| `Restart.DrainedMeansServing` | packages/cloudflare-vite-plugin/src/dev-plugin.ts:154-203 | once the chain has drained with the last restart successful, the live runtime was generated for the current export types, they extend the configured ones, and requests and sockets go to its address |
| `Restart.DrainedDownExactly` | packages/cloudflare-vite-plugin/src/dev-plugin.ts:167-203 | in every reachable state whose chain has drained, no runtime is up if and only if some restart failed to start one and every later restart failed to close |
| `Restart.FailedStartLeavesNothing` | packages/cloudflare-vite-plugin/src/dev-plugin.ts:167-203 | from the beginning, one changed report and a failing start lead to a drained chain with no runtime up |
| `Restart.FailureIsNotRetried` | packages/cloudflare-vite-plugin/src/dev-plugin.ts:187-201 | from such a state every run whose reports leave the merged types as they are ends in the same state, serving nothing |
| `Restart.ChangeIsTried` | packages/cloudflare-vite-plugin/src/dev-plugin.ts:187-201 | a report that changes them queues a restart that can begin at once |
| `Restart.TypesAreLatest` | packages/cloudflare-vite-plugin/src/dev-plugin.ts:187-192 | whatever restarts do meanwhile, the export types are those of the latest report and the configuration: each name that either has and no other, with the configured type where there is one and the reported one otherwise |
| `Restart.DevRuntime.ApplyExportTypes` | packages/cloudflare-vite-plugin/src/dev-plugin.ts:187-203 | the new types are those of the report and the configuration, name by name; a restart is queued, and the caller told so, exactly when the old types are not |
| `Restart.DevRuntime.RestartBegins` | packages/cloudflare-vite-plugin/src/dev-plugin.ts:167-168 | a restart up to its first await keeps the invariant; every restart before it has settled and every later one waits |
| `Restart.DevRuntime.RuntimeClosed` | packages/cloudflare-vite-plugin/src/dev-plugin.ts:168-175 | closing the old runtime leaves none up, and the next is to start for the types of that moment; a failure to close changes no runtime |
| `Restart.DevRuntime.ServerStarted` | packages/cloudflare-vite-plugin/src/dev-plugin.ts:169-176 | the new runtime is the only one up, generated for the types read when the old one had closed, which are the current ones when nothing was reported meanwhile; a failure leaves none up |
| `Restart.DevRuntime.Connected` | packages/cloudflare-vite-plugin/src/dev-plugin.ts:176-179 | after the last restart of the chain connects, the dev server serves the current types; a failure leaves requests where they went |
| `HotChannels.RunKeeps` | packages/cloudflare-vite-plugin/src/dev-environment.ts:101-162 | from any sound state, a run keeps soundness and adds exactly its payloads to what is handed over or queued |
| `HotChannels.NothingLostOrDuplicated` | packages/cloudflare-vite-plugin/src/dev-environment.ts:101-162 | over any run of sends, replacements and closings, the payloads sent equal, in order, those handed to the successive sockets followed by the queue; a queue never coexists with a socket |
| `HotChannels.AttachedMeansDelivered` | packages/cloudflare-vite-plugin/src/dev-environment.ts:114-134 | while a socket is attached, everything sent so far has been handed over |
| `HotChannels.StepHandsToCurrent` | packages/cloudflare-vite-plugin/src/dev-environment.ts:114-134 | what a step hands over goes to the socket that is attached then, and what was handed over before stays |
| `HotChannels.HotChannel.SetWs` | packages/cloudflare-vite-plugin/src/dev-environment.ts:114-124 | one attach step; the queue goes to the new socket, and the dispatch listener is on it alone |
| `HotChannels.HotChannel.Replace` | packages/cloudflare-vite-plugin/src/dev-environment.ts:115-117 | the listener moves from the old socket to the new one |
| `HotChannels.HotChannel.Flush` | packages/cloudflare-vite-plugin/src/dev-environment.ts:118-121 | the queued messages are handed to the current socket in order, none twice |
| `HotChannels.HotChannel.Send` | packages/cloudflare-vite-plugin/src/dev-environment.ts:126-134 | one send step |
| `HotChannels.HotChannel.Close` | packages/cloudflare-vite-plugin/src/dev-environment.ts:153-162 | one close step; no socket is attached or listening afterwards |
| `ExportRequests.EachRequestResolvesOnce` | packages/cloudflare-vite-plugin/src/dev-environment.ts:64-81 | in every reachable state the listeners and the timers are those of the unanswered requests, and every other request was resolved exactly once |
| `ExportRequests.ReplyAnswersAll` | packages/cloudflare-vite-plugin/src/dev-environment.ts:164-171 | a reply answers all open requests, in the order they were made, and leaves no listener or timer |
| `ExportRequests.DevEnvironment.RequestExportTypes` | packages/cloudflare-vite-plugin/src/dev-environment.ts:64-81 | keeps the invariant; the new request has its timer and no answer yet |
| `ExportRequests.DevEnvironment.TimesOut` | packages/cloudflare-vite-plugin/src/dev-environment.ts:74-77 | the request is answered exactly once over its life, with nothing, and no reply can answer it again |
| `ExportRequests.DevEnvironment.Listener` | packages/cloudflare-vite-plugin/src/dev-environment.ts:68-73 | one listener disarms its timer, takes itself out of the set in place and answers its request |
| `ExportRequests.DevEnvironment.Dispatch` | packages/cloudflare-vite-plugin/src/dev-environment.ts:164-171 | the loop over the live set, from which each listener removes itself while it is called, skips none and calls none twice: every request ever made has then been answered exactly once |
| `Headers.PatternToSource` | packages/astro/src/headers.ts:16-33 | the loop emits the source of the pattern's tokens: anything, one segment's text, literals |
| `Headers.SkipWord` | packages/astro/src/headers.ts:25-26 | the inner loop stops right behind the placeholder's name |
| `Headers.CfHeadersPatternToRegex` | packages/astro/src/headers.ts:16-34 | a pattern always compiles, to an expression that accepts exactly what it means |
| `Headers.StarMeans` | packages/astro/src/headers.ts:18-20 | a `*` stands for anything on one line, slashes included |
| `Headers.PlaceholderMeans` | packages/astro/src/headers.ts:21-24 | a placeholder stands for one segment's text, whatever it is called |
| `Headers.LiteralMeans` | packages/astro/src/headers.ts:25-28 | a pattern with neither stands for itself |
| `Headers.LineKinds` | packages/astro/src/headers.ts:42-49 | white space around a text aside: comments are skipped, unindented lines are headers, indented ones settings |
| `Headers.HostIsDropped` | packages/astro/src/headers.ts:46 | of a header that is a full address only the path counts |
| `Headers.CacheControlLines` | packages/astro/src/headers.ts:52-57 | exactly the indented lines count that have the header's name, in any case, before a colon, or alone behind a `!` and white space |
| `Headers.ScanFindsSettings` | packages/astro/src/headers.ts:40-62 | scanning with the current section in mind finds something exactly when there is a header line that matches the path and, before the next header, an indented cache-control line |
| `Headers.HeadersFileHasCacheControlForPath` | packages/astro/src/headers.ts:40-62 | the line scanner answers yes exactly when the file has such a header and line |
| `Headers.BuildAssetsHeadersContent` | packages/astro/src/headers.ts:78-102 | nothing exactly when the existing file covers the probe path, otherwise the block in front of the existing content |
| `Headers.InjectedText` | packages/astro/src/headers.ts:97-102 | the new content is the rule with its immutable value, an empty line, and the old content with its last line ended |
| `Headers.InjectionIsConservative` | packages/astro/src/headers.ts:97-101 | for every path, the new content covers it if and only if the assets pattern matches it or the old content covered it |
| `Headers.PatternAcceptsItsFiles` | packages/astro/src/headers.ts:83-84 | a pattern `prefix/*` accepts every file below its own prefix, even when the prefix itself has stars or placeholders |
| `Headers.InjectedFileCoversAssets` | packages/astro/src/headers.ts:83-101 | the injected file covers every asset and the probe |
| `Headers.InjectTwice` | packages/astro/src/headers.ts:78-102 | running the injection on its own output returns nothing |
| `AdditionalModules.MarkersApart` | packages/cloudflare-rolldown-plugin/src/plugins/additional-modules.ts:19 | two markers in one text share at most their two underscores |
| `AdditionalModules.ClosingOfId` | packages/cloudflare-rolldown-plugin/src/plugins/additional-modules.ts:19 | the lazy group ends right behind an id exactly when the id is encodable |
| `AdditionalModules.ReferenceIsReadBack` | packages/cloudflare-rolldown-plugin/src/plugins/additional-modules.ts:81-83 | wherever it stands, a reference is matched as a whole and gives back the type and path it was made from if and only if its path is on one line with no marker in it or running into the closing one |
| `AdditionalModules.MarkerIsCompletedEarly` | packages/cloudflare-rolldown-plugin/src/plugins/additional-modules.ts:81-83 | a reference to the path `__CLOUDFLARE_MODULE` is read back nowhere |
| `AdditionalModules.ReferencesInMarkedCode` | packages/cloudflare-rolldown-plugin/src/plugins/additional-modules.ts:61-63 | in text pieces that open no reference, interleaved with references, `matchAll` finds exactly the references, in order, where they stand |
| `AdditionalModules.EditsInOrder` | packages/cloudflare-rolldown-plugin/src/plugins/additional-modules.ts:61-73 | for every code, the updates go from left to right without overlap, as `magic-string` needs |
| `AdditionalModules.MagicString.Update` | packages/cloudflare-rolldown-plugin/src/plugins/additional-modules.ts:73 | one more replacement, after those already made |
| `AdditionalModules.ReplaceMatches` | packages/cloudflare-rolldown-plugin/src/plugins/additional-modules.ts:62-74 | the loop replaces each match by its import path and nothing else |
| `AdditionalModules.RenderChunk` | packages/cloudflare-rolldown-plugin/src/plugins/additional-modules.ts:58-76 | for every code, the result is the code with its matches replaced |
| `AdditionalModules.EditedIsRendered` | packages/cloudflare-rolldown-plugin/src/plugins/additional-modules.ts:62-74 | replacing the references where they stand gives the same pieces with the import paths between them |
| `AdditionalModules.RewriteMarkedCode` | packages/cloudflare-rolldown-plugin/src/plugins/additional-modules.ts:58-76 | the handler replaces exactly the references, each by the import path for what it encodes, and leaves every piece intact |
| `ImportPaths.ImportResolvesBack` | packages/cloudflare-rolldown-plugin/src/plugins/additional-modules.ts:70-72 | from the chunk's directory the import path denotes the emitted file if and only if the part of its name that is spelled out has no backslash |
| `ImportPaths.ImportIsRelative` | packages/cloudflare-rolldown-plugin/src/plugins/additional-modules.ts:71-72 | it is a relative specifier unless the file is at or below the chunk's directory by a name that starts with a dot |
| `ImportPaths.RewriteChunk` | packages/cloudflare-rolldown-plugin/src/plugins/additional-modules.ts:58-76 | the rewritten chunk is its text with every reference replaced by an import path, and each of those leads from the chunk's directory to the file emitted for its reference, and is relative, exactly under these two conditions |
| `ImportPaths.BackslashNameIsAnother` | packages/cloudflare-rolldown-plugin/src/plugins/additional-modules.ts:70-72 | the file `a\b.bin` beside the chunk is not what its import denotes |
| `ImportPaths.DotNameIsAPackage` | packages/cloudflare-rolldown-plugin/src/plugins/additional-modules.ts:71-72 | the file `.x.wasm` beside the chunk is imported by a specifier that is not relative |
| `WorkerShims.StepKeepsSound` | packages/sveltekit/src/WorkerShim.ts:171-229 | an arriving request, an answer, a settled write and an eviction each keep what is promised of cache, pending writes and answers |
| `WorkerShims.RunKeepsSound` | packages/sveltekit/src/WorkerShim.ts:171-229 | over any run of overlapping requests: what is cached for a path the assets binding serves came from there, no redirect of the shim is cached, and every stored response was no error, not partial, without `Vary: *` and not private, no-cache or no-store when saved |
| `WorkerShims.NoRedirectChain` | packages/sveltekit/src/WorkerShim.ts:202-215 | a request for the target of one of the shim's redirects, when decoding leaves the target alone, is never redirected by the shim, cached or not |
| `WorkerShims.WorkerShim.CacheLookup` | packages/sveltekit/src/WorkerShim.ts:133-139 | what the cache has for the address, without its body for a HEAD request |
| `WorkerShims.WorkerShim.CacheSave` | packages/sveltekit/src/WorkerShim.ts:141-150 | a cacheable response to a reading request is stored and returned marked for its cookie, any other is returned as it is |
| `WorkerShims.EveryAnswerIsRight` | packages/sveltekit/src/WorkerShim.ts:172-229 | in every run, a request whose address is cached and that may use the cache gets a copy, bodyless for HEAD, of what an earlier request for that address got; any other gets the reply of the party it is for, changed at most by the cookie mark: the assets binding for a static asset, prerendered page, version or immutable file, a redirect to the prerendered path with or without the slash, the binding again for a deferred not-found, otherwise the server; and exactly the replies that may be kept go to the cache |
| `WorkerShims.RunKeepsCached` | packages/sveltekit/src/WorkerShim.ts:141-150 | whatever is cached, or on its way, for an address is an answer that a reading request for it got |
| `WorkerShims.WorkerShim.Route` | packages/sveltekit/src/WorkerShim.ts:192-223 | the branches answer with the reply of the party that the request is for |
| `WorkerShims.WorkerShim.Fetch` | packages/sveltekit/src/WorkerShim.ts:172-229 | one request that nothing overlaps gets a copy from the cache or the right party's reply, and leaves the cache of the three corresponding steps; the first request's origin is kept |
| `WorkerShims.WorkerShim.Answer` | packages/sveltekit/src/WorkerShim.ts:178-229 | the same once the origin is known |
| `Contributions.EntryIsChosen` | packages/framework-core/src/Collector.ts:196-217 | after any sequence of `writeBundle` calls there is no entry exactly when no entry chunk of the entry environment was written; otherwise it is the module of the last selected one, or else of the last one with a wrapped facade, or else of the last one |
| `Contributions.ModulesAreRecorded` | packages/framework-core/src/Collector.ts:192-228 | after any such sequence a name is recorded exactly when a file has it or a chunk imports its manifest, and stands for what the last file of that name holds, or else for the manifest where the first importing chunk's directory gets it |
| `Contributions.NameLeadsToFile` | packages/framework-core/src/Collector.ts:191-194 | from the dist directory a module's name leads to the file that was written and is in normal form, when no backslash is in the way |
| `Contributions.OutputsAreLatest` | packages/framework-core/src/Collector.ts:186-190 | for each environment the recorded root and directory are those of its last contributing bundle |
| `Contributions.ClientIsLatest` | packages/framework-core/src/Collector.ts:185-189 | the client directory is that of the last client bundle |
| `Contributions.DirectoryIsRead` | packages/framework-core/src/Collector.ts:320-347 | reading an output directory fails exactly when it or a file in it cannot be read, and gives its files by their module names |
| `Contributions.CollectedInMemory` | packages/framework-core/src/Collector.ts:236-241 | for every sequence of bundles, in-memory collection gives nothing when no file was written, fails when a manifest is not where it is expected, and otherwise gives the written files, each name once, with what they hold, entry first, rest sorted |
| `Collector.ModulesOfEvents` | packages/framework-core/src/Collector.ts:192-228 | a name is recorded exactly when something contributed it; its source is its last emitted content, or else the place where its first manifest is read |
| `Collector.OthersContributeNothing` | packages/framework-core/src/Collector.ts:166-190 | leaving out all calls of skipped and client environments changes nothing but the client directory |
| `Collector.OutputsAreContributors` | packages/framework-core/src/Collector.ts:186-190 | the recorded output directories are those of the contributing environments |
| `Collector.EntryIsRecorded` | packages/framework-core/src/Collector.ts:195-216 | a recorded entry is always one of the recorded modules |
| `Collector.SortPutsEntryFirst` | packages/framework-core/src/BuildOutput.ts:57-70 | for any collation, sorting distinct modules gives a permutation with the entry first and the rest in order |
| `Collector.InMemoryIsComplete` | packages/framework-core/src/Collector.ts:236-241 | nothing when nothing was contributed, failure only when a manifest cannot be read, otherwise every contributed module once with what reading it gives, entry first, rest sorted |
| `Collector.CollectAfterRun` | packages/framework-core/src/Collector.ts:236-241 | the same after any sequence of `writeBundle` calls |
| `Collector.DiskModulesAreListed` | packages/framework-core/src/Collector.ts:248-259 | the filled map has every file of every output directory by name, later directories replacing what earlier ones name alike |
| `Collector.FromDiskIsComplete` | packages/framework-core/src/Collector.ts:243-268 | failure only when a directory cannot be read or none has the entry, otherwise the directories' files, each name once, entry first, rest sorted |
| `Collector.BuildOutputCollector.ConfigResolved` | packages/framework-core/src/Collector.ts:163-165 | only the first resolved configuration sets the dist directory |
| `Collector.BuildOutputCollector.WriteBundle` | packages/framework-core/src/Collector.ts:166-233 | one call's effect on everything recorded; it throws exactly for the entry environment while there is no entry |
| `Collector.BuildOutputCollector.RecordItems` | packages/framework-core/src/Collector.ts:192-229 | the loop over the files applies their contributions in order |
| `Collector.BuildOutputCollector.RecordItem` | packages/framework-core/src/Collector.ts:193-228 | one file: its module, its candidacy as entry, the manifests it imports |
| `Collector.BuildOutputCollector.RecordManifests` | packages/framework-core/src/Collector.ts:218-227 | the loop over imports adds each manifest that is not there yet |
| `Collector.BuildOutputCollector.CollectFromDisk` | packages/framework-core/src/Collector.ts:243-268 | the result is the one specified for the recorded state |
| `Collector.ReadOutputs` | packages/framework-core/src/Collector.ts:248-259 | the loops over directories and files fill the specified map, or fail at the first unreadable directory |
| `Middlewares.HopAt` | packages/cloudflare-runtime/src/PluginContext.ts:75-92 | looked up by name among all services, each middleware's upstream binding leads to the next one in order, the last one's to the user worker |
| `Middlewares.ChainReachesUserWorker` | packages/cloudflare-runtime/src/Runtime.ts:169-209 | from the entry socket, following upstream bindings passes every middleware exactly once and ends at the user worker after that many hops; with no middleware the socket points there |
| `Middlewares.ChainIsOrdered` | packages/cloudflare-runtime/src/PluginContext.ts:65-67 | the chain has the middlewares of all plugins; of two, the earlier one's order, zero where it has none, is at most the later one's; those of one order stand in plugin order |
| `Middlewares.OwnBindingsStay` | packages/cloudflare-runtime/src/PluginContext.ts:77-91 | every other binding of a middleware is what the plugin bound |
| `Middlewares.ServicesStay` | packages/cloudflare-runtime/src/Runtime.ts:169-209 | the user worker and every plugin's services are started with the bindings they were given |
| `CwdLock.StepKeepsSound` | packages/waku/src/source.ts:568-587 | every step of every caller keeps the relation between permit, phases and working directory |
| `CwdLock.RunKeepsSound` | packages/waku/src/source.ts:568-587 | so does every interleaving |
| `CwdLock.BodiesRunInTheirRoots` | packages/sveltekit/src/source.ts:524-543 | in every interleaving, failed bodies included, at most one body runs, in its own root until it leaves it itself, and whenever the permit is free the working directory is the original one |
| `CwdLock.NextCallerCanBegin` | packages/waku/src/source.ts:568-587 | however far the permit's holder has come, ending its body, going back and giving the permit back leaves the process in the original directory and the others where they stood, and any waiting caller can then begin in its own root |
| `CwdLock.CallerGetsIntendedRoot` | packages/waku/src/source.ts:603-604 | for every root that is given, or none, a caller gets the root it would get in the original directory if and only if the directory of each body that runs or is still to be undone gives that root too |
| `CwdLock.AbsoluteRootIsIntended` | packages/waku/src/source.ts:603-604 | an absolute root never depends on who runs |
| `CwdLock.DefaultRootIsOriginal` | packages/waku/src/source.ts:603-604 | a caller without a root gets the original directory if and only if every such body is in it |
| `CwdLock.DefaultRootCanBeAnothers` | packages/waku/src/source.ts:603-640 | a run in which the second caller, without a root, ends up with the first one's |

## Left out

- Strings are sequences of characters; surrogate pairs, Unicode normalisation and case folding are not modelled, and `localeCompare` is an arbitrary total preorder.
- Windows paths: `node:path` is its POSIX form. Symbolic links, and therefore cycles in a tree, do not occur.
- sha256 and the JSON text encoding are uninterpreted functions of their inputs; file hashes are therefore not part of collected modules.
- File system, child processes, sockets, workerd and the bundler: their results are parameters or outcomes of steps.
- fast-glob is read through the same glob meaning as the other compilers; its own options and engine are not modelled.
- Reading `.gitignore` files up to the repository root; the rules are given as lines.
- WakuWalk.ListMemoFiles: says nothing about the files gathered before a failing entry, because the source discards them.
- Listing.PrunedWalkIsFlatFilter: is for names without line terminators, because `.` in the compiled rules does not match those.
- Canonical.StableIsCanonical: is for values whose objects have distinct keys, as JavaScript objects do.
- Artifacts.OutputIsExcludedExactly: is for a `distDir` that is not empty, has no `*` or `?` and does not end in white space; one with wildcards is a glob whose meaning `WakuGlob.ReadingCompiles` gives.
- Memo.BuiltMemoIsFixedPoint: that a module id below `node_modules` is not reported is not used; its workspaces are a part of those for which it is proved.
- Headers.InjectionIsConservative: is for an assets pattern that is one line, neither indented nor a comment, as the site's base and assets directory make it.
- ImportPaths.ImportIsRelative: is for names without backslashes, because with one the import path does not lead back anyway.
- ImportPaths.ImportResolvesBack: emitting the file and naming it is the bundler's; that the name is what was emitted is not modelled.
- AdditionalModules.RewriteMarkedCode: source maps and the `resolveId` hook that chooses a reference's type are not modelled.
- Restart.DrainedMeansServing: is about one `configureServer` call; a server restart that enters it again, and teardown in `buildEnd` and `closeBundle`, are not modelled.
- HotChannels.HotChannel.SetWs: is for a socket that was just opened, the only kind it is given; the payload's JSON text and replies through the client object are not modelled.
- ExportRequests.DevEnvironment.Dispatch: only the export-types event and its listeners are modelled, not other events on the channel.
- Collector.BuildOutputCollector.WriteBundle: module ids outside the project are part of `Memo`, not of the class; an import whose id is a property of every JavaScript object is not treated as a manifest.
- Contributions.NameLeadsToFile: with a backslash in the way the name is another one, as in `Paths.SlashedResolvesBack`.
- Sensitivity.ChangeIsNoticed: takes hashes to have no colon, as hexadecimal digits have none, and sha256 to have no collisions.
- DirectoryHashes.AstroRebuildIsDecided: where a file of the lockfile's name is listed in one state and added in the other, its place in the list is what decides.
- Contributions.EntryIsChosen: `selectEntry` is a pure predicate; an absent one is the predicate that selects nothing.
- Middlewares.ChainReachesUserWorker: asks for distinct service names, which workerd itself demands, and for a middleware's own bindings to leave its upstream name free; plugin registration and deferred plugins are not modelled.
- WorkerShims.NoRedirectChain: which addresses the URL parser makes of a redirect's target is left to the request that follows it; percent-decoding is a parameter.
- WorkerShims.WorkerShim.Fetch: server initialisation and its file reader are not modelled.
- CwdLock.CallerGetsIntendedRoot: is Waku's `rootDirOf`, evaluated by each call; SvelteKit resolves its root when the source is made.
- CwdLock: the original directory stays there to go back to; the lock's queue order is not modelled.
- Generated wrapper exports, asset reading, framework option mapping, deploy targets and the Nuxt and Octane sources would only repeat what is here.
