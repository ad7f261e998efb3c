/** SimpleRegionProvider: the table of open region handles that sits in front
    of the region file format.

    The provider is modelled as an immutable state record and every public
    operation as a pure transition that yields the Java call's outcome and the
    next state. Everything the provider does not own is a parameter:
      - `Codec`: the key's `getRegionName` and the injected `nameToRegionKey`;
      - `Env`: the region directory's listing, the injected region factory and
        what `IRegion.close` does, as seen at the moment of the call.
    A region's path is identified with its name in the directory; the listing
    is the one given with each call, and files the factory creates are not
    recorded in it.
 */
module RegionProvider {
  import opened Outcomes

  /** An open region, as created by the factory. `id` is its creation index
      (the model's stand-in for object identity); `path` and `key` are the
      arguments the factory was called with. */
  datatype Handle<K> = Handle(id: nat, path: string, key: K)

  /** The key <-> file name mapping. Nothing here assumes the two are inverse. */
  datatype Codec<!K> = Codec(regionName: K -> string, nameToRegionKey: string -> K)

  /** The world outside the provider at the time of one call:
      - `listing`: the names `Files.list(directory)` yields, in its order;
      - `create`: whether `RegionFactory.create(path, key)` returns or throws;
      - `close`: whether `IRegion.close()` on a handle returns or throws. */
  datatype Env<!K> = Env(
    listing: seq<string>,
    create: (string, K) -> Outcome<()>,
    close: Handle<K> -> Outcome<()>)

  /** The provider's state.
      - `toReturn`: the handle table (the Java field of the same name);
      - `nulled`: `toReturn` has been set to null by `close()`;
      - `created`: every handle the factory has created, in creation order;
      - `factoryCalls`: the (path, key) arguments of every factory call;
      - `closeCalls`: every handle on which `close()` has been invoked. */
  datatype Provider<K(==)> = Provider(
    toReturn: map<K, Handle<K>>,
    nulled: bool,
    created: seq<Handle<K>>,
    factoryCalls: seq<(string, K)>,
    closeCalls: seq<Handle<K>>)

  /** One transition: what the Java call ends with, and the state after it. */
  datatype Step<K(==), +T> = Step(out: Outcome<T>, next: Provider<K>)

  /** What `close()` does: the leak warning it prints (with the count it
      reports), how it ends, and the state after it. */
  datatype ShutdownStep<K(==)> = ShutdownStep(warning: Option<nat>, out: Outcome<()>, next: Provider<K>)

  /** The message of the exception `returnRegion` throws for an untracked key. */
  const NoRegionFound: string := "No region found"

  /** A freshly constructed provider: an empty `HashMap`, nothing created yet. */
  function New<K(==)>(): (p: Provider<K>)
    ensures p.toReturn == map[] && !p.nulled
    ensures p.created == [] && p.factoryCalls == [] && p.closeCalls == []
  {
    Provider(map[], false, [], [], [])
  }

  /** `directory.resolve(key.getRegionName())`. */
  function PathOf<K>(c: Codec<K>, k: K): (path: string)
  {
    c.regionName(k)
  }

  /** `Files.exists(path)` for a path inside the region directory. */
  predicate Exists<K>(env: Env<K>, path: string)
  {
    path in env.listing
  }

  /** `getRegion(regionKey)`: create a region at the key's path and record it
      in the table, overwriting any handle already recorded for the key
      (without closing it). A factory exception propagates before the table
      is touched. After `close()` has dropped the table, the `put` throws a
      NullPointerException, after the factory has already built the region. */
  function GetRegion<K(==)>(p: Provider<K>, c: Codec<K>, env: Env<K>, k: K): (s: Step<K, Handle<K>>)
    // the factory is called exactly once, at the path named by k, and nothing is closed
    ensures s.next.factoryCalls == p.factoryCalls + [(PathOf(c, k), k)]
    ensures s.next.closeCalls == p.closeCalls && s.next.nulled == p.nulled
    // a factory failure propagates unchanged and leaves the table alone
    ensures env.create(PathOf(c, k), k).Throw? ==>
              && s.out == Throw(env.create(PathOf(c, k), k).ex)
              && s.next.toReturn == p.toReturn
              && s.next.created == p.created
    // a factory success yields one new handle, for k, at k's path
    ensures env.create(PathOf(c, k), k).Return? ==>
              && |s.next.created| == |p.created| + 1
              && s.next.created[..|p.created|] == p.created
              && var h := s.next.created[|p.created|];
                && h.id == |p.created| && h.key == k && h.path == PathOf(c, k)
                && (p.nulled ==> s.out == Throw(NullPointerException) && s.next.toReturn == p.toReturn)
                && (!p.nulled ==> s.out == Return(h) && k in s.next.toReturn && s.next.toReturn[k] == h)
    // every other entry of the table is unchanged
    ensures s.next.toReturn - {k} == p.toReturn - {k}
  {
    var path := PathOf(c, k);
    var called := p.(factoryCalls := p.factoryCalls + [(path, k)]);
    match env.create(path, k)
    case Throw(e) => Step(Throw(e), called)
    case Return(_) =>
      var h := Handle(|p.created|, path, k);
      var built := called.(created := called.created + [h]);
      if p.nulled then Step(Throw(NullPointerException), built)
      else Step(Return(h), built.(toReturn := built.toReturn[k := h]))
  }

  /** `getRegionIfExists(regionKey)`: when the key's file is absent, return an
      empty Optional without calling the factory or touching anything;
      otherwise do exactly what `getRegion` does and wrap its handle. */
  function GetRegionIfExists<K(==)>(p: Provider<K>, c: Codec<K>, env: Env<K>, k: K): (s: Step<K, Option<Handle<K>>>)
    ensures !Exists(env, PathOf(c, k)) ==> s.out == Return(None) && s.next == p
    ensures Exists(env, PathOf(c, k)) ==>
              var g := GetRegion(p, c, env, k);
              && s.next == g.next
              && (g.out.Return? <==> s.out.Return?)
              && (g.out.Return? ==> s.out.value == Some(g.out.value))
              && (g.out.Throw? ==> s.out.ex == g.out.ex)
  {
    if !Exists(env, PathOf(c, k)) then Step(Return(None), p)
    else
      var g := GetRegion(p, c, env, k);
      Step(g.out.MapValue(h => Some(h)), g.next)
  }

  /** `returnRegion(key)`: remove the key's entry, throw if there was none,
      then close the removed handle. The removal happens first, so a handle
      whose close throws is no longer tracked either. */
  function ReturnRegion<K(==)>(p: Provider<K>, env: Env<K>, k: K): (s: Step<K, ()>)
    // only the table and the close log can change
    ensures s.next.created == p.created && s.next.factoryCalls == p.factoryCalls && s.next.nulled == p.nulled
    ensures p.nulled ==> s == Step(Throw(NullPointerException), p)
    ensures !p.nulled && k !in p.toReturn ==> s == Step(Throw(IllegalArgumentException(NoRegionFound)), p)
    ensures !p.nulled && k in p.toReturn ==>
              && k !in s.next.toReturn
              && s.next.toReturn.Keys == p.toReturn.Keys - {k}
              && (forall k' :: k' in s.next.toReturn ==> s.next.toReturn[k'] == p.toReturn[k'])
              && s.next.closeCalls == p.closeCalls + [p.toReturn[k]]
              && s.out == env.close(p.toReturn[k])
  {
    if p.nulled then Step(Throw(NullPointerException), p)
    else if k !in p.toReturn then Step(Throw(IllegalArgumentException(NoRegionFound)), p)
    else
      var h := p.toReturn[k];
      Step(env.close(h), p.(toReturn := p.toReturn - {k}, closeCalls := p.closeCalls + [h]))
  }

  /** `allRegions()`: decode every name in the directory listing, in listing
      order. It reads neither the table nor anything else of the provider's,
      which is why it takes no provider state: it works even after `close()`. */
  function AllRegions<K>(c: Codec<K>, listing: seq<string>): (keys: seq<K>)
    ensures |keys| == |listing|
    ensures forall i :: 0 <= i < |listing| ==> keys[i] == c.nameToRegionKey(listing[i])
  {
    if listing == [] then []
    else [c.nameToRegionKey(listing[0])] + AllRegions(c, listing[1..])
  }

  /** `order` lists every key of `keys` exactly once: the order in which
      `HashMap.values()` happens to visit the table, which the model does not fix. */
  predicate Enumerates<K(==)>(order: seq<K>, keys: set<K>)
  {
    && |order| == |keys|
    && (forall i :: 0 <= i < |order| ==> order[i] in keys)
    && (forall i, j :: 0 <= i < j < |order| ==> order[i] != order[j])
  }

  /** The table's handles, visited in `order`. */
  function InOrder<K(==)>(m: map<K, Handle<K>>, order: seq<K>): (hs: seq<Handle<K>>)
    requires forall i :: 0 <= i < |order| ==> order[i] in m
    ensures |hs| == |order|
    ensures forall i :: 0 <= i < |order| ==> hs[i] == m[order[i]]
  {
    if order == [] then []
    else [m[order[0]]] + InOrder(m, order[1..])
  }

  /** The handles a loop closed, and how the loop ended. */
  datatype CloseRun<K> = CloseRun(attempted: seq<Handle<K>>, out: Outcome<()>)

  /** `for (r : values) r.close();`: close the handles one by one; the first
      exception ends the loop and propagates. */
  function CloseEach<K>(hs: seq<Handle<K>>, close: Handle<K> -> Outcome<()>): (run: CloseRun<K>)
    // when every close returns, every handle was closed, in order
    ensures run.out.Return? <==> forall i :: 0 <= i < |hs| ==> close(hs[i]).Return?
    ensures run.out.Return? ==> run.attempted == hs
    // otherwise the loop stopped right after the first failing close
    ensures run.out.Throw? ==>
              && 0 < |run.attempted| <= |hs|
              && run.attempted == hs[..|run.attempted|]
              && close(hs[|run.attempted| - 1]) == run.out
              && forall i :: 0 <= i < |run.attempted| - 1 ==> close(hs[i]).Return?
  {
    if hs == [] then CloseRun([], Return(()))
    else
      match close(hs[0])
      case Throw(e) => CloseRun([hs[0]], Throw(e))
      case Return(_) =>
        var rest := CloseEach(hs[1..], close);
        CloseRun([hs[0]] + rest.attempted, rest.out)
  }

  /** What `close()` does to a non-empty table whose handles it visits in
      the order `hs`: it reports the table size as the leak count; it
      succeeds exactly when every close does, and then every handle was
      closed in turn and the table is emptied and dropped; otherwise it
      closed a prefix ending at the failing handle, whose exception it
      throws, and kept the table as it was. */
  ghost predicate ShutsDown<K>(p: Provider<K>, env: Env<K>, hs: seq<Handle<K>>, s: ShutdownStep<K>)
  {
    && s.next.created == p.created && s.next.factoryCalls == p.factoryCalls
    && s.warning == Some(|p.toReturn|)
    && (s.out.Return? <==> forall i :: 0 <= i < |hs| ==> env.close(hs[i]).Return?)
    && (s.out.Return? ==>
          && s.next.closeCalls == p.closeCalls + hs
          && s.next.toReturn == map[]
          && s.next.nulled)
    && (s.out.Throw? ==>
          && s.next.toReturn == p.toReturn
          && s.next.nulled == p.nulled
          && var n := |s.next.closeCalls| - |p.closeCalls|;
             && 0 < n <= |hs|
             && s.next.closeCalls == p.closeCalls + hs[..n]
             && (forall i :: 0 <= i < n - 1 ==> env.close(hs[i]).Return?)
             && env.close(hs[n - 1]) == s.out)
  }

  /** The body of `close()` once the table is known to be non-empty. */
  function CloseTracked<K(==)>(p: Provider<K>, env: Env<K>, hs: seq<Handle<K>>): (s: ShutdownStep<K>)
    ensures ShutsDown(p, env, hs, s)
  {
    var run := CloseEach(hs, env.close);
    var closed := p.(closeCalls := p.closeCalls + run.attempted);
    if run.out.Throw? then ShutdownStep(Some(|p.toReturn|), run.out, closed)
    else ShutdownStep(Some(|p.toReturn|), Return(()), closed.(toReturn := map[], nulled := true))
  }

  /** `close()`: on an empty table, do nothing (the provider stays usable).
      Otherwise print a warning with the number of leaked regions, close every
      tracked handle, then clear the table and drop it (`toReturn = null`).
      A throwing close aborts the loop: the remaining handles are not closed,
      and the table is neither cleared nor dropped. `order` is the order in
      which `HashMap.values()` visits the table. */
  function Close<K(==)>(p: Provider<K>, env: Env<K>, order: seq<K>): (s: ShutdownStep<K>)
    requires !p.nulled ==> Enumerates(order, p.toReturn.Keys)
    // a dropped table cannot even be asked whether it is empty
    ensures p.nulled ==> s == ShutdownStep(None, Throw(NullPointerException), p)
    // nothing to do on an empty table
    ensures !p.nulled && |p.toReturn| == 0 ==> s == ShutdownStep(None, Return(()), p)
    // otherwise every tracked handle is visited, in the map's order
    ensures !p.nulled && |p.toReturn| > 0 ==> ShutsDown(p, env, InOrder(p.toReturn, order), s)
  {
    if p.nulled then ShutdownStep(None, Throw(NullPointerException), p)
    else if |p.toReturn| == 0 then ShutdownStep(None, Return(()), p)
    else CloseTracked(p, env, InOrder(p.toReturn, order))
  }

  /** Visiting an enumeration of the table's keys visits exactly the table's handles. */
  lemma EnumeratedValues<K>(m: map<K, Handle<K>>, order: seq<K>)
    requires Enumerates(order, m.Keys)
    ensures forall h :: h in m.Values <==> h in InOrder(m, order)
  {
    var hs := InOrder(m, order);
    forall h | h in m.Values
      ensures h in hs
    {
      var k :| k in m && m[k] == h;
      EnumerationCovers(order, m.Keys, k);
      var i :| 0 <= i < |order| && order[i] == k;
      assert hs[i] == h;
    }
  }

  /** An enumeration of a set mentions each of its elements. */
  lemma {:induction false} EnumerationCovers<K>(order: seq<K>, keys: set<K>, k: K)
    requires Enumerates(order, keys)
    requires k in keys
    ensures k in order
    decreases |order|
  {
    if order == [] {
      assert false;
    } else if order[0] != k {
      var rest := order[1..];
      var smaller := keys - {order[0]};
      assert Enumerates(rest, smaller) by {
        assert forall i :: 0 <= i < |rest| ==> rest[i] == order[i + 1];
      }
      EnumerationCovers(rest, smaller, k);
    }
  }
}
