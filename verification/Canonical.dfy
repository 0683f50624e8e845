/** The inner `stable` of `stableStringify` in packages/nextjs/src/source.ts. */
module Canonical {
  import opened Text
  import opened Sorting

  /** A JavaScript data value; an object lists its properties in enumeration order. */
  datatype Value =
    | Undefined
    | Null
    | Boolean(b: bool)
    | Number(n: real)
    | Text_(s: string)
    | Array(items: seq<Value>)
    | Object(props: seq<Property>)

  datatype Property = Property(key: string, value: Value)

  predicate DistinctKeys(ps: seq<Property>) {
    forall i, j :: 0 <= i < j < |ps| ==> ps[i].key != ps[j].key
  }

  predicate WellFormed(v: Value) {
    && (v.Array? ==> forall x :: x in v.items ==> WellFormed(x))
    && (v.Object? ==> DistinctKeys(v.props) && forall p :: p in v.props ==> WellFormed(p.value))
  }

  // ----- Object.fromEntries -----

  predicate IsDigits(s: string) {
    s != "" && forall i :: 0 <= i < |s| ==> '0' <= s[i] <= '9'
  }

  function NumberOf(s: string): nat
    requires s == "" || IsDigits(s)
  {
    if s == "" then 0 else NumberOf(s[..|s| - 1]) * 10 + (s[|s| - 1] as nat - '0' as nat)
  }

  /** An array index: a canonical numeral below 2^32 - 1. Such keys are enumerated first, in numeric order. */
  predicate IsIndex(key: string) {
    IsDigits(key) && (key == "0" || key[0] != '0') && NumberOf(key) < 0xFFFF_FFFF
  }

  function Rank(p: Property): nat {
    if IsIndex(p.key) then NumberOf(p.key) else 0xFFFF_FFFF
  }

  predicate EnumeratedBefore(a: Property, b: Property) {
    Rank(a) <= Rank(b)
  }

  /** The properties in the order in which the new object enumerates them. */
  function FromEntries(es: seq<Property>): seq<Property> {
    Sort(EnumeratedBefore, es)
  }

  // ----- stable -----

  predicate ByKey(a: Property, b: Property) {
    LessOrEqual(a.key, b.key)
  }

  function SortedEntries(ps: seq<Property>): (es: seq<Property>)
    ensures forall e :: e in es <==> e in ps && !e.value.Undefined?
  {
    KeptEntries(ps);
    Sort(ByKey, Filter((p: Property) => !p.value.Undefined?, ps))
  }

  lemma KeptEntries(ps: seq<Property>)
    ensures forall e :: e in Sort(ByKey, Filter((p: Property) => !p.value.Undefined?, ps)) <==> e in ps && !e.value.Undefined?
  {
    SortKeepsMembers(ByKey, Filter((p: Property) => !p.value.Undefined?, ps));
    FilterMembers((p: Property) => !p.value.Undefined?, ps);
  }

  function Stable(v: Value): Value
    decreases v
  {
    match v
    case Array(items) => Array(StableItems(items, v))
    case Object(props) => Object(FromEntries(StableEntries(SortedEntries(props), v)))
    case _ => v
  }

  function StableItems(items: seq<Value>, ghost bound: Value): seq<Value>
    requires forall i :: 0 <= i < |items| ==> items[i] < bound
    decreases bound, |items|
  {
    if items == [] then [] else [Stable(items[0])] + StableItems(items[1..], bound)
  }

  function StableEntries(es: seq<Property>, ghost bound: Value): seq<Property>
    requires forall e :: e in es ==> e.value < bound
    decreases bound, |es|
  {
    if es == [] then [] else [Property(es[0].key, Stable(es[0].value))] + StableEntries(es[1..], bound)
  }

  // ----- reference: equality up to key order and undefined properties -----

  ghost predicate Equivalent(v: Value, w: Value)
    decreases v
  {
    match (v, w)
    case (Array(xs), Array(ys)) => |xs| == |ys| && forall i :: 0 <= i < |xs| ==> Equivalent(xs[i], ys[i])
    case (Object(ps), Object(qs)) =>
      && (forall p :: p in ps && !p.value.Undefined? ==>
            exists q :: q in qs && q.key == p.key && Equivalent(p.value, q.value))
      && (forall q :: q in qs && !q.value.Undefined? ==>
            exists p :: p in ps && q.key == p.key && Equivalent(p.value, q.value))
    case _ => v == w
  }

  // ----- the sorted entries -----

  predicate StrictByKey(ps: seq<Property>) {
    forall i, j :: 0 <= i < j < |ps| ==> Less(ps[i].key, ps[j].key)
  }

  lemma {:induction false} FilterDistinct(keep: Property -> bool, ps: seq<Property>)
    requires DistinctKeys(ps)
    ensures DistinctKeys(Filter(keep, ps))
  {
    if ps != [] {
      FilterDistinct(keep, ps[1..]);
      FilterMembers(keep, ps[1..]);
      forall e | e in ps[1..]
        ensures e.key != ps[0].key
      {
        var i :| 0 <= i < |ps[1..]| && ps[1..][i] == e;
      }
    }
  }

  lemma {:induction false} InsertByKey(x: Property, ps: seq<Property>)
    requires StrictByKey(ps) && forall p :: p in ps ==> p.key != x.key
    ensures StrictByKey(Insert(ByKey, x, ps))
  {
    if ps != [] {
      LessIsStrictAndTotal(x.key, ps[0].key);
      if LessOrEqual(x.key, ps[0].key) {
        forall j | 0 <= j < |ps|
          ensures Less(x.key, ps[j].key)
        {
          if j > 0 {
            LessIsTransitive(x.key, ps[0].key, ps[j].key);
          }
        }
      } else {
        InsertByKey(x, ps[1..]);
        InsertPermutes(ByKey, x, ps[1..]);
        var r := Insert(ByKey, x, ps[1..]);
        forall j | 0 <= j < |r|
          ensures Less(ps[0].key, r[j].key)
        {
          assert r[j] in multiset(r);
          assert r[j] == x || r[j] in ps[1..];
        }
      }
    }
  }

  lemma {:induction false} SortByKey(ps: seq<Property>)
    requires DistinctKeys(ps)
    ensures StrictByKey(Sort(ByKey, ps))
  {
    if ps != [] {
      SortByKey(ps[1..]);
      SortKeepsMembers(ByKey, ps[1..]);
      InsertByKey(ps[0], Sort(ByKey, ps[1..]));
    }
  }

  lemma SortedEntriesAreStrict(ps: seq<Property>)
    requires DistinctKeys(ps)
    ensures StrictByKey(SortedEntries(ps))
  {
    FilterDistinct((p: Property) => !p.value.Undefined?, ps);
    SortByKey(Filter((p: Property) => !p.value.Undefined?, ps));
  }

  lemma {:induction false} StrictByMembers(a: seq<Property>, b: seq<Property>)
    requires StrictByKey(a) && StrictByKey(b) && forall x :: x in a <==> x in b
    ensures a == b
  {
    assert forall i :: 0 <= i < |a| ==> a[i] in b;
    assert forall i :: 0 <= i < |b| ==> b[i] in a;
    if a != [] && b != [] {
      LessIsStrictAndTotal(a[0].key, b[0].key);
      assert a[0] == b[0];
      forall x
        ensures x in a[1..] <==> x in b[1..]
      {
        LessIsStrictAndTotal(x.key, x.key);
        assert x in a <==> x == a[0] || x in a[1..];
        assert x in b <==> x == b[0] || x in b[1..];
      }
      StrictByMembers(a[1..], b[1..]);
      assert a == [a[0]] + a[1..] && b == [b[0]] + b[1..];
    }
  }

  lemma {:induction false} StableItemsAre(items: seq<Value>, bound: Value)
    requires forall i :: 0 <= i < |items| ==> items[i] < bound
    ensures |StableItems(items, bound)| == |items|
    ensures forall i :: 0 <= i < |items| ==> StableItems(items, bound)[i] == Stable(items[i])
    decreases |items|
  {
    if items != [] {
      StableItemsAre(items[1..], bound);
    }
  }

  lemma {:induction false} StableEntriesAre(es: seq<Property>, bound: Value)
    requires forall e :: e in es ==> e.value < bound
    ensures
      var r := StableEntries(es, bound);
      |r| == |es| && forall i :: 0 <= i < |es| ==> r[i].key == es[i].key && r[i].value == Stable(es[i].value)
    decreases |es|
  {
    if es != [] {
      StableEntriesAre(es[1..], bound);
    }
  }

  /** The entries from which `Stable` builds an object. */
  function Entries(v: Value): seq<Property>
    requires v.Object?
  {
    StableEntries(SortedEntries(v.props), v)
  }

  /** `e` is what becomes of some defined property of `v`. */
  predicate IsStableEntry(e: Property, v: Value)
    requires v.Object?
  {
    exists p :: p in v.props && !p.value.Undefined? && e == Property(p.key, Stable(p.value))
  }

  lemma EntriesOf(v: Value)
    requires v.Object? && WellFormed(v)
    ensures StrictByKey(Entries(v))
    ensures forall e :: e in Entries(v) <==> IsStableEntry(e, v)
  {
    var es := SortedEntries(v.props);
    SortedEntriesAreStrict(v.props);
    StableEntriesAre(es, v);
  }

  lemma FromEntriesKeepsMembers(es: seq<Property>)
    ensures forall e :: e in FromEntries(es) <==> e in es
    ensures |FromEntries(es)| == |es|
  {
    SortKeepsMembers(EnumeratedBefore, es);
    SortPermutes(EnumeratedBefore, es);
  }

  // ----- canonical form -----

  /** Two values have the same stable form exactly when they are equivalent. */
  lemma {:induction false} StableIsCanonical(v: Value, w: Value)
    requires WellFormed(v) && WellFormed(w)
    ensures Stable(v) == Stable(w) <==> Equivalent(v, w)
    decreases v
  {
    match (v, w)
    case (Array(xs), Array(ys)) =>
      StableItemsAre(xs, v);
      StableItemsAre(ys, w);
      if |xs| == |ys| {
        forall i | 0 <= i < |xs|
          ensures Stable(xs[i]) == Stable(ys[i]) <==> Equivalent(xs[i], ys[i])
        {
          StableIsCanonical(xs[i], ys[i]);
        }
      }
      if Stable(v) == Stable(w) {
        assert forall i :: 0 <= i < |xs| ==> StableItems(xs, v)[i] == StableItems(ys, w)[i];
      }
    case (Object(ps), Object(qs)) =>
      forall p, q | p in ps && q in qs
        ensures Stable(p.value) == Stable(q.value) <==> Equivalent(p.value, q.value)
      {
        StableIsCanonical(p.value, q.value);
      }
      if Stable(v) == Stable(w) {
        SameFormMeansEquivalent(v, w);
      }
      if Equivalent(v, w) {
        EquivalentMeansSameForm(v, w);
      }
    case _ =>
  }

  ghost predicate PropertiesAgree(v: Value, w: Value)
    requires v.Object? && w.Object?
  {
    forall p, q :: p in v.props && q in w.props ==> (Stable(p.value) == Stable(q.value) <==> Equivalent(p.value, q.value))
  }

  lemma SameFormMeansEquivalent(v: Value, w: Value)
    requires v.Object? && w.Object? && WellFormed(v) && WellFormed(w)
    requires PropertiesAgree(v, w) && Stable(v) == Stable(w)
    ensures Equivalent(v, w)
  {
    EntriesOf(v);
    EntriesOf(w);
    FromEntriesKeepsMembers(Entries(v));
    FromEntriesKeepsMembers(Entries(w));
    forall p | p in v.props && !p.value.Undefined?
      ensures exists q :: q in w.props && q.key == p.key && Equivalent(p.value, q.value)
    {
      var e := Property(p.key, Stable(p.value));
      assert e in Entries(v) && e in FromEntries(Entries(v)) && e in Entries(w);
      var q :| q in w.props && !q.value.Undefined? && e == Property(q.key, Stable(q.value));
    }
    forall q | q in w.props && !q.value.Undefined?
      ensures exists p :: p in v.props && q.key == p.key && Equivalent(p.value, q.value)
    {
      var e := Property(q.key, Stable(q.value));
      assert e in Entries(w) && e in FromEntries(Entries(w)) && e in Entries(v);
      var p :| p in v.props && !p.value.Undefined? && e == Property(p.key, Stable(p.value));
    }
  }

  lemma UndefinedStandsAlone(v: Value, w: Value)
    requires Equivalent(v, w)
    ensures v.Undefined? <==> w.Undefined?
  {
  }

  lemma EquivalentMeansSameForm(v: Value, w: Value)
    requires v.Object? && w.Object? && WellFormed(v) && WellFormed(w)
    requires PropertiesAgree(v, w) && Equivalent(v, w)
    ensures Stable(v) == Stable(w)
  {
    EntriesOf(v);
    EntriesOf(w);
    forall e | e in Entries(v)
      ensures e in Entries(w)
    {
      var p :| p in v.props && !p.value.Undefined? && e == Property(p.key, Stable(p.value));
      var q :| q in w.props && q.key == p.key && Equivalent(p.value, q.value);
      UndefinedStandsAlone(p.value, q.value);
      assert e == Property(q.key, Stable(q.value));
    }
    forall e | e in Entries(w)
      ensures e in Entries(v)
    {
      var q :| q in w.props && !q.value.Undefined? && e == Property(q.key, Stable(q.value));
      var p :| p in v.props && q.key == p.key && Equivalent(p.value, q.value);
      UndefinedStandsAlone(p.value, q.value);
      assert e == Property(p.key, Stable(p.value));
    }
    StrictByMembers(Entries(v), Entries(w));
  }

  lemma FromEntriesDistinct(es: seq<Property>)
    requires StrictByKey(es)
    ensures DistinctKeys(FromEntries(es))
  {
    var r := FromEntries(es);
    FromEntriesKeepsMembers(es);
    SortPermutes(EnumeratedBefore, es);
    forall i, j | 0 <= i < j < |r|
      ensures r[i].key != r[j].key
    {
      LessIsStrictAndTotal(r[i].key, r[j].key);
      if r[i].key == r[j].key {
        assert r[i] in es && r[j] in es;
        assert r[i] == r[j];
        TwiceInSeq(r, i, j);
        OnceWhenStrict(es, r[i]);
      }
    }
  }

  lemma {:induction false} OnceWhenStrict(xs: seq<Property>, x: Property)
    requires StrictByKey(xs)
    ensures multiset(xs)[x] <= 1
  {
    if xs != [] {
      OnceWhenStrict(xs[1..], x);
      assert xs == [xs[0]] + xs[1..];
      LessIsStrictAndTotal(x.key, x.key);
    }
  }

  /** The stable form is an equivalent, well-formed value. */
  lemma {:induction false} StableIsEquivalent(v: Value)
    requires WellFormed(v)
    ensures WellFormed(Stable(v)) && Equivalent(Stable(v), v)
    decreases v
  {
    match v
    case Array(items) =>
      forall i | 0 <= i < |items|
        ensures WellFormed(Stable(items[i])) && Equivalent(Stable(items[i]), items[i])
      {
        StableIsEquivalent(items[i]);
      }
      StableArray(v);
    case Object(props) =>
      forall p | p in props
        ensures WellFormed(Stable(p.value)) && Equivalent(Stable(p.value), p.value)
      {
        StableIsEquivalent(p.value);
      }
      StableObject(v);
    case _ =>
  }

  lemma StableArray(v: Value)
    requires v.Array? && WellFormed(v)
    requires forall i :: 0 <= i < |v.items| ==> WellFormed(Stable(v.items[i])) && Equivalent(Stable(v.items[i]), v.items[i])
    ensures WellFormed(Stable(v)) && Equivalent(Stable(v), v)
  {
    StableItemsAre(v.items, v);
    forall x | x in Stable(v).items
      ensures WellFormed(x)
    {
      var i :| 0 <= i < |v.items| && Stable(v).items[i] == x;
    }
  }

  lemma StableObject(v: Value)
    requires v.Object? && WellFormed(v)
    requires forall p :: p in v.props ==> WellFormed(Stable(p.value)) && Equivalent(Stable(p.value), p.value)
    ensures WellFormed(Stable(v)) && Equivalent(Stable(v), v)
  {
    EntriesOf(v);
    FromEntriesKeepsMembers(Entries(v));
    FromEntriesDistinct(Entries(v));
    forall p | p in v.props && !p.value.Undefined?
      ensures exists e :: e in Stable(v).props && e.key == p.key && Equivalent(e.value, p.value)
    {
      assert Property(p.key, Stable(p.value)) in Entries(v);
    }
  }

  /** Stabilising twice is stabilising once. */
  lemma StableIsIdempotent(v: Value)
    requires WellFormed(v)
    ensures Stable(Stable(v)) == Stable(v)
  {
    StableIsEquivalent(v);
    StableIsCanonical(Stable(v), v);
  }
}
