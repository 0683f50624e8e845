/**
 Export types of a Worker: packages/cloudflare-rolldown-plugin/src/export-types.ts and
 packages/cloudflare-vite-plugin/src/export-types.ts.
 */
module ExportTypes {

  datatype ExportType = DurableObject | WorkerEntrypoint | WorkflowEntrypoint

  type Exports = map<string, ExportType>

  /**
   The types of what is configured or detected, and of nothing else: the configured type where there is
   one, the detected one otherwise.
   */
  predicate AreTypesFor(types: Exports, configured: Exports, detected: Exports) {
    && (forall k :: k in types ==> k in configured || k in detected)
    && (forall k :: k in configured ==> k in types && types[k] == configured[k])
    && (forall k :: k in detected && k !in configured ==> k in types && types[k] == detected[k])
  }

  /** `mergeExportTypes`. */
  function Merge(configured: Exports, detected: Exports): (r: Exports)
    ensures AreTypesFor(r, configured, detected)
    ensures Submap(configured, r)
  {
    detected + configured
  }

  lemma OnlyMerge(types: Exports, configured: Exports, detected: Exports)
    ensures AreTypesFor(types, configured, detected) <==> types == Merge(configured, detected)
  {
    if AreTypesFor(types, configured, detected) {
      var merged := Merge(configured, detected);
      assert types.Keys == merged.Keys;
      assert forall k :: k in types ==> types[k] == merged[k];
    }
  }

  ghost predicate Submap(a: Exports, b: Exports) {
    forall k :: k in a ==> k in b && b[k] == a[k]
  }

  /** The test the sources make: sizes first, then every name of the new map. */
  predicate HaveChanged(previous: Exports, next: Exports) {
    |previous.Keys| != |next.Keys| || exists name :: name in next && !(name in previous && previous[name] == next[name])
  }

  lemma SameSizeSubset<T>(a: set<T>, b: set<T>)
    requires a <= b && |a| == |b|
    ensures a == b
  {
    assert |b - a| == |b| - |a|;
    assert b - a == {};
  }

  /** It reports a change exactly when the maps differ: an added, a removed or a retyped export. */
  lemma ChangedMeansDifferent(previous: Exports, next: Exports)
    ensures HaveChanged(previous, next) <==> previous != next
  {
    if !HaveChanged(previous, next) {
      SameSizeSubset(next.Keys, previous.Keys);
      assert previous == next;
    }
  }

  /** The types that follow from the options: a workflow class outranks a Durable Object class. */
  method ConfiguredExportTypes(namespaces: seq<string>, workflows: seq<string>) returns (types: Exports)
    ensures forall k :: k in types <==> k in namespaces || k in workflows
    ensures forall k :: k in types ==> types[k] == if k in workflows then WorkflowEntrypoint else DurableObject
  {
    types := map[];
    for i := 0 to |namespaces|
      invariant forall k :: k in types <==> k in namespaces[..i]
      invariant forall k :: k in types ==> types[k] == DurableObject
    {
      types := types[namespaces[i] := DurableObject];
      assert namespaces[..i + 1] == namespaces[..i] + [namespaces[i]];
    }
    assert namespaces[..|namespaces|] == namespaces;
    for i := 0 to |workflows|
      invariant forall k :: k in types <==> k in namespaces || k in workflows[..i]
      invariant forall k :: k in types ==> types[k] == if k in workflows[..i] then WorkflowEntrypoint else DurableObject
    {
      types := types[workflows[i] := WorkflowEntrypoint];
      assert workflows[..i + 1] == workflows[..i] + [workflows[i]];
    }
    assert workflows[..|workflows|] == workflows;
  }
}
