/**
 Startup model loading (backend/models.js `loadModels`): one load per registry
 entry, all-or-nothing, the per-entry singleton maps merged left to right.
 Loads run concurrently in `loadModels`; here they are folded in registry order,
 and the engine is the parameter `load`.
 */
module Loader {
  import opened Optional

  /** One runtime option passed to the engine, e.g. `quantized = false`. */
  datatype Setting = Setting(name: string, value: string)

  /** A registry entry's value: pipeline type, model identifier, options. */
  datatype Descriptor = Descriptor(kind: string, name: string, options: seq<Setting>)

  /** One key of the registry object with its descriptor, in iteration order. */
  datatype Entry = Entry(key: string, descriptor: Descriptor)

  type Registry = seq<Entry>

  /** What one engine load settles to. */
  datatype LoadResult<P> = Loaded(pipeline: P) | LoadFailed(reason: string)

  /** The outcome of startup: the key-to-pipeline map, or process exit. */
  datatype Startup<P> = Serving(models: map<string, P>) | Aborted(exitCode: int)

  const ExitFailure: int := 1

  function Keys(registry: Registry): (ks: set<string>)
    ensures forall i :: 0 <= i < |registry| ==> registry[i].key in ks
    ensures forall k :: k in ks ==> exists i :: 0 <= i < |registry| && registry[i].key == k
  {
    set i | 0 <= i < |registry| :: registry[i].key
  }

  /** Object keys are unique, so a registry read from an object has distinct keys. */
  predicate DistinctKeys(registry: Registry)
  {
    forall i, j :: 0 <= i < j < |registry| ==> registry[i].key != registry[j].key
  }

  /** Some entry's load fails. */
  predicate AnyFails<P>(registry: Registry, load: Descriptor -> LoadResult<P>)
  {
    exists i :: 0 <= i < |registry| && load(registry[i].descriptor).LoadFailed?
  }

  /**
   The `Promise.all` over the per-key loads: the singleton maps in registry
   order when every load succeeds, nothing when any fails.
   */
  function LoadEach<P>(registry: Registry, load: Descriptor -> LoadResult<P>): (r: Option<seq<map<string, P>>>)
    ensures r.None? <==> AnyFails(registry, load)
    ensures r.Some? ==> |r.value| == |registry|
    ensures r.Some? ==> forall i :: 0 <= i < |registry| ==>
      r.value[i] == map[registry[i].key := load(registry[i].descriptor).pipeline]
    decreases |registry|
  {
    if |registry| == 0 then Some([])
    else
      var entry := registry[0];
      match load(entry.descriptor)
      case LoadFailed(_) => None
      case Loaded(p) =>
        var rest := LoadEach(registry[1..], load);
        if rest.None? then
          var i :| 0 <= i < |registry[1..]| && load(registry[1..][i].descriptor).LoadFailed?;
          assert load(registry[i + 1].descriptor).LoadFailed?;
          None
        else Some([map[entry.key := p]] + rest.value)
  }

  /** The `reduce` with `{ ...acc, ...modelObj }` starting from `{}`. */
  function MergeAll<P>(maps: seq<map<string, P>>): map<string, P>
  {
    if |maps| == 0 then map[] else MergeAll(maps[..|maps| - 1]) + maps[|maps| - 1]
  }

  /** The merged map has exactly the keys of the merged maps. */
  lemma {:induction false} MergeAllKeys<P>(maps: seq<map<string, P>>)
    ensures forall k :: k in MergeAll(maps) <==> exists i :: 0 <= i < |maps| && k in maps[i]
    decreases |maps|
  {
    if |maps| > 0 {
      var n := |maps| - 1;
      MergeAllKeys(maps[..n]);
      assert forall i :: 0 <= i < n ==> maps[..n][i] == maps[i];
    }
  }

  /** Spreading later maps over earlier ones: a key takes its value from the last map that has it. */
  lemma {:induction false} MergeAllLastWins<P>(maps: seq<map<string, P>>, k: string, i: nat)
    requires i < |maps| && k in maps[i]
    requires forall j :: i < j < |maps| ==> k !in maps[j]
    ensures k in MergeAll(maps) && MergeAll(maps)[k] == maps[i][k]
    decreases |maps|
  {
    var n := |maps| - 1;
    if i < n {
      assert k !in maps[n];
      assert maps[..n][i] == maps[i];
      MergeAllLastWins(maps[..n], k, i);
    }
  }

  /**
   `loadModels`: an absent registry iterates over nothing; otherwise every
   entry is loaded and the process exits with code 1 if any load fails.
   */
  function LoadModels<P>(registry: Option<Registry>, load: Descriptor -> LoadResult<P>): (s: Startup<P>)
    ensures s.Aborted? <==> registry.Some? && AnyFails(registry.value, load)
    ensures s.Aborted? ==> s.exitCode == ExitFailure
    ensures s.Serving? && registry.None? ==> s.models == map[]
  {
    match registry
    case None => Serving(map[])
    case Some(entries) =>
      match LoadEach(entries, load)
      case None => Aborted(ExitFailure)
      case Some(maps) => Serving(MergeAll(maps))
  }

  /** The predicate under which `maps` are the singleton maps of a fully loaded registry. */
  ghost predicate Singletons<P>(registry: Registry, load: Descriptor -> LoadResult<P>, maps: seq<map<string, P>>)
  {
    && |maps| == |registry|
    && (forall i :: 0 <= i < |registry| ==> load(registry[i].descriptor).Loaded?)
    && (forall i :: 0 <= i < |registry| ==> maps[i] == map[registry[i].key := load(registry[i].descriptor).pipeline])
  }

  lemma KeysOfPrefix(registry: Registry)
    requires |registry| > 0
    ensures Keys(registry) == Keys(registry[..|registry| - 1]) + {registry[|registry| - 1].key}
  {
    var init := registry[..|registry| - 1];
    assert forall i :: 0 <= i < |init| ==> init[i] == registry[i];
  }

  lemma SingletonsOfPrefix<P>(registry: Registry, load: Descriptor -> LoadResult<P>, maps: seq<map<string, P>>)
    requires |registry| > 0 && Singletons(registry, load, maps)
    ensures Singletons(registry[..|registry| - 1], load, maps[..|maps| - 1])
    ensures DistinctKeys(registry) ==> DistinctKeys(registry[..|registry| - 1])
  {
  }

  lemma {:induction false} MergeSingletonsKeys<P>(registry: Registry, load: Descriptor -> LoadResult<P>, maps: seq<map<string, P>>)
    requires Singletons(registry, load, maps)
    ensures MergeAll(maps).Keys == Keys(registry)
    decreases |registry|
  {
    if |registry| > 0 {
      var n := |registry| - 1;
      SingletonsOfPrefix(registry, load, maps);
      MergeSingletonsKeys(registry[..n], load, maps[..n]);
      KeysOfPrefix(registry);
    }
  }

  lemma {:induction false} MergeSingletonsValues<P>(registry: Registry, load: Descriptor -> LoadResult<P>, maps: seq<map<string, P>>)
    requires Singletons(registry, load, maps) && DistinctKeys(registry)
    ensures forall i :: 0 <= i < |registry| ==> registry[i].key in MergeAll(maps)
    ensures forall i :: 0 <= i < |registry| ==> MergeAll(maps)[registry[i].key] == load(registry[i].descriptor).pipeline
    decreases |registry|
  {
    if |registry| > 0 {
      var n := |registry| - 1;
      SingletonsOfPrefix(registry, load, maps);
      MergeSingletonsValues(registry[..n], load, maps[..n]);
      forall i | 0 <= i < n
        ensures MergeAll(maps)[registry[i].key] == load(registry[i].descriptor).pipeline
      {
        assert registry[..n][i] == registry[i];
        assert registry[i].key != registry[n].key;
      }
    }
  }

  /** A present registry that loads serves exactly the registry's keys. */
  lemma LoadModelsKeys<P>(registry: Registry, load: Descriptor -> LoadResult<P>)
    ensures var s := LoadModels(Some(registry), load);
      s.Serving? ==> s.models.Keys == Keys(registry)
  {
    var r := LoadEach(registry, load);
    if r.Some? {
      MergeSingletonsKeys(registry, load, r.value);
    }
  }

  /** With distinct keys, every key maps to the pipeline loaded from its own descriptor. */
  lemma LoadModelsValues<P>(registry: Registry, load: Descriptor -> LoadResult<P>)
    requires DistinctKeys(registry)
    ensures var s := LoadModels(Some(registry), load);
      s.Serving? ==> forall i :: 0 <= i < |registry| ==>
        load(registry[i].descriptor).Loaded? && registry[i].key in s.models &&
        s.models[registry[i].key] == load(registry[i].descriptor).pipeline
  {
    var r := LoadEach(registry, load);
    if r.Some? {
      MergeSingletonsValues(registry, load, r.value);
    }
  }

  /** With distinct keys no entry is lost in the merge: one map entry per registry entry. */
  lemma LoadModelsSize<P>(registry: Registry, load: Descriptor -> LoadResult<P>)
    requires DistinctKeys(registry)
    ensures var s := LoadModels(Some(registry), load);
      s.Serving? ==> |s.models| == |registry|
  {
    var s := LoadModels(Some(registry), load);
    if s.Serving? {
      LoadModelsKeys(registry, load);
      KeysCount(registry);
    }
  }

  lemma {:induction false} KeysCount(registry: Registry)
    requires DistinctKeys(registry)
    ensures |Keys(registry)| == |registry|
    decreases |registry|
  {
    if |registry| > 0 {
      var n := |registry| - 1;
      KeysOfPrefix(registry);
      KeysCount(registry[..n]);
      assert registry[n].key !in Keys(registry[..n]) by {
        forall i | 0 <= i < n
          ensures registry[..n][i].key != registry[n].key
        {
        }
      }
    }
  }

  /** Two registries list the same entries, possibly in a different order. */
  ghost predicate SameEntries(r1: Registry, r2: Registry)
  {
    forall e :: e in r1 <==> e in r2
  }

  lemma SameEntriesFail<P>(r1: Registry, r2: Registry, load: Descriptor -> LoadResult<P>)
    requires SameEntries(r1, r2) && AnyFails(r1, load)
    ensures AnyFails(r2, load)
  {
    var i :| 0 <= i < |r1| && load(r1[i].descriptor).LoadFailed?;
    assert r1[i] in r2;
  }

  lemma SameEntriesKeys(r1: Registry, r2: Registry)
    requires SameEntries(r1, r2)
    ensures Keys(r1) <= Keys(r2)
  {
    forall k | k in Keys(r1) ensures k in Keys(r2) {
      var i :| 0 <= i < |r1| && r1[i].key == k;
      assert r1[i] in r2;
    }
  }

  lemma SameEntriesModels<P>(r1: Registry, r2: Registry, load: Descriptor -> LoadResult<P>)
    requires DistinctKeys(r1) && DistinctKeys(r2) && SameEntries(r1, r2)
    requires LoadModels(Some(r1), load).Serving? && LoadModels(Some(r2), load).Serving?
    ensures forall k :: k in LoadModels(Some(r1), load).models ==>
      k in LoadModels(Some(r2), load).models &&
      LoadModels(Some(r1), load).models[k] == LoadModels(Some(r2), load).models[k]
  {
    var m1 := LoadModels(Some(r1), load).models;
    var m2 := LoadModels(Some(r2), load).models;
    LoadModelsKeys(r1, load);
    LoadModelsValues(r1, load);
    LoadModelsValues(r2, load);
    forall k | k in m1
      ensures k in m2 && m1[k] == m2[k]
    {
      var i :| 0 <= i < |r1| && r1[i].key == k;
      assert r1[i] in r2;
      var j :| 0 <= j < |r2| && r2[j] == r1[i];
      assert m2[r2[j].key] == load(r2[j].descriptor).pipeline;
    }
  }

  lemma PermutationSameEntries(r1: Registry, r2: Registry)
    requires multiset(r1) == multiset(r2)
    ensures SameEntries(r1, r2)
  {
    forall e ensures e in r1 <==> e in r2 {
      assert e in r1 <==> e in multiset(r1);
      assert e in r2 <==> e in multiset(r2);
    }
  }

  lemma MapsEqual<K, V>(m1: map<K, V>, m2: map<K, V>)
    requires m1.Keys == m2.Keys
    requires forall k :: k in m1 ==> m1[k] == m2[k]
    ensures m1 == m2
  {
  }

  lemma SameEntriesServe<P>(r1: Registry, r2: Registry, load: Descriptor -> LoadResult<P>)
    requires DistinctKeys(r1) && DistinctKeys(r2) && SameEntries(r1, r2)
    requires LoadModels(Some(r1), load).Serving? && LoadModels(Some(r2), load).Serving?
    ensures LoadModels(Some(r1), load).models == LoadModels(Some(r2), load).models
  {
    var m1 := LoadModels(Some(r1), load).models;
    var m2 := LoadModels(Some(r2), load).models;
    LoadModelsKeys(r1, load);
    LoadModelsKeys(r2, load);
    SameEntriesKeys(r1, r2);
    SameEntriesKeys(r2, r1);
    SameEntriesModels(r1, r2, load);
    MapsEqual(m1, m2);
  }

  /**
   The result does not depend on the order of the registry: any permutation of
   a registry with distinct keys gives the same startup outcome.
   */
  lemma LoadModelsOrderIndependent<P>(r1: Registry, r2: Registry, load: Descriptor -> LoadResult<P>)
    requires DistinctKeys(r1) && DistinctKeys(r2)
    requires multiset(r1) == multiset(r2)
    ensures LoadModels(Some(r1), load) == LoadModels(Some(r2), load)
  {
    PermutationSameEntries(r1, r2);
    if AnyFails(r1, load) {
      SameEntriesFail(r1, r2, load);
    } else if AnyFails(r2, load) {
      SameEntriesFail(r2, r1, load);
    } else {
      SameEntriesServe(r1, r2, load);
    }
  }

  /** An absent or empty registry starts the server with no pipelines. */
  lemma EmptyRegistryServesNothing<P>(load: Descriptor -> LoadResult<P>)
    ensures LoadModels(None, load) == Serving(map[])
    ensures LoadModels(Some([]), load) == Serving(map[])
  {
  }

}
