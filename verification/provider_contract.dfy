/** The documented contract of IRegionProvider's two acquire operations, and
    the proof that SimpleRegionProvider meets it.

    - `getRegion(location)`: gets the region at the location, creating one if
      it does not exist;
    - `getRegionIfExists(location)`: an Optional holding the region at the
      location if it exists, and empty otherwise.
 */
module RegionProviderContract {
  import opened Outcomes
  import opened RegionProvider

  /** `h` is a region for key `k`, opened at the location `k` names. */
  ghost predicate IsRegionAt<K>(c: Codec<K>, k: K, h: Handle<K>)
  {
    h.key == k && h.path == PathOf(c, k)
  }

  /** The documented contract of `getRegion`: when it returns, it returns the
      region at the requested location, whether or not its file existed. */
  ghost predicate GetRegionContract<K>(c: Codec<K>, k: K, out: Outcome<Handle<K>>)
  {
    out.Return? ==> IsRegionAt(c, k, out.value)
  }

  /** The documented contract of `getRegionIfExists`: a returned Optional is
      empty exactly when the region's file is absent, and otherwise holds the
      region at the requested location. */
  ghost predicate GetRegionIfExistsContract<K>(c: Codec<K>, env: Env<K>, k: K, out: Outcome<Option<Handle<K>>>)
  {
    out.Return? ==>
      && (out.value.None? <==> !Exists(env, PathOf(c, k)))
      && (out.value.Some? ==> IsRegionAt(c, k, out.value.value))
  }

  /** `getRegion` meets its contract in every state, and, while the table is
      still there, returns whenever the factory does: including when the
      region's file does not exist yet. */
  lemma GetRegionMeetsContract<K>(p: Provider<K>, c: Codec<K>, env: Env<K>, k: K)
    ensures GetRegionContract(c, k, GetRegion(p, c, env, k).out)
    ensures !p.nulled && env.create(PathOf(c, k), k).Return? ==> GetRegion(p, c, env, k).out.Return?
  {
  }

  /** `getRegionIfExists` meets its contract in every state; while the table
      is still there and the factory returns, it returns, and holds the very
      handle `getRegion` would have returned. */
  lemma GetRegionIfExistsMeetsContract<K>(p: Provider<K>, c: Codec<K>, env: Env<K>, k: K)
    ensures GetRegionIfExistsContract(c, env, k, GetRegionIfExists(p, c, env, k).out)
    ensures !p.nulled && env.create(PathOf(c, k), k).Return? ==>
              var out := GetRegionIfExists(p, c, env, k).out;
              && out.Return?
              && (out.value.Some? <==> Exists(env, PathOf(c, k)))
              && (out.value.Some? ==> out.value.value == GetRegion(p, c, env, k).out.value)
  {
  }

  /** On an empty directory nothing is enumerated and no region is found,
      and looking for one calls no factory. */
  lemma EmptyDirectory<K>(p: Provider<K>, c: Codec<K>, env: Env<K>, k: K)
    requires env.listing == []
    ensures AllRegions(c, env.listing) == []
    ensures GetRegionIfExists(p, c, env, k).out == Return(None)
    ensures GetRegionIfExists(p, c, env, k).next.factoryCalls == p.factoryCalls
  {
  }
}
