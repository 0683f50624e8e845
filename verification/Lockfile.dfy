/** The memo options, `findUp` and the lockfile names of packages/astro/src/source.ts and packages/waku/src/source.ts. */
module Lockfiles {
  import opened Options
  import opened Text
  import opened Paths

  /** `memo`: what to hash, what not, and whether the lockfile counts. */
  datatype MemoOptions = MemoOptions(included: Option<seq<string>>, excluded: Option<seq<string>>, lockfile: Option<bool>)

  /** The lockfile counts: because it is said, or because it is not and no files are given at all. */
  predicate CountsLockfile(options: MemoOptions) {
    options == options.(lockfile := Some(true)) || options == MemoOptions(None, None, None)
  }

  const LOCKFILE_NAMES: seq<string> := ["bun.lock", "bun.lockb", "package-lock.json", "pnpm-lock.yaml", "yarn.lock"]

  /** `file` is one of the candidates in a directory at or above `start`. */
  predicate IsCandidate(start: seq<string>, names: seq<string>, up: nat, k: nat, file: seq<string>) {
    up <= |start| && k < |names| && file == start[..|start| - up] + [names[k]]
  }

  /** No candidate exists that is nearer than `up`, or in that directory and before the name at `k`. */
  ghost predicate NoneBefore(present: seq<string> -> bool, start: seq<string>, names: seq<string>, up: nat, k: nat) {
    forall u: nat, j: nat, file :: IsCandidate(start, names, u, j, file) && (u < up || (u == up && j < k)) ==> !present(file)
  }

  /** The nearest candidate, the first one in the order of the names where several stand together. */
  ghost predicate IsNearest(present: seq<string> -> bool, start: seq<string>, names: seq<string>, found: Option<seq<string>>) {
    match found
    case Some(file) =>
      && present(file)
      && exists up: nat, k: nat :: IsCandidate(start, names, up, k, file) && NoneBefore(present, start, names, up, k)
    case None => NoneBefore(present, start, names, |start| + 1, 0)
  }

  method FindUp(present: seq<string> -> bool, start: seq<string>, names: seq<string>) returns (found: Option<seq<string>>)
    ensures IsNearest(present, start, names, found)
  {
    var up := 0;
    while up <= |start|
      invariant up <= |start| + 1 && NoneBefore(present, start, names, up, 0)
    {
      var dir := start[..|start| - up];
      for k := 0 to |names|
        invariant NoneBefore(present, start, names, up, k)
      {
        if present(dir + [names[k]]) {
          assert IsCandidate(start, names, up, k, dir + [names[k]]);
          return Some(dir + [names[k]]);
        }
      }
      up := up + 1;
    }
    return None;
  }

  /** What the lockfile is listed as. */
  function LockfileLabel(start: seq<string>, file: seq<string>): string {
    ToSlashes(Join(RelativeSegments(start, file), '/'))
  }

  /** What the lockfile is listed as, where there is one. */
  function LabelOf(start: seq<string>, lockfile: Option<seq<string>>): Option<string> {
    if lockfile.Some? then Some(LockfileLabel(start, lockfile.value)) else None
  }

  /** From the directory, the label leads to the lockfile exactly when no backslash is in the way. */
  lemma LabelLeadsToLockfile(start: seq<string>, file: seq<string>)
    requires Clean(start) && Clean(file)
    ensures ResolveSegments(start, LockfileLabel(start, file)) == file <==> '\\' !in Join(RelativeSegments(start, file), '/')
  {
    SlashedResolvesBack(start, file);
  }
}
