/** What SimpleRegionProvider's transitions preserve and what sequences of
    them do: the well-formedness of the handle table, where leaked handles
    come from, release after release, enumeration, and shutdown.
 */
module ProviderProperties {
  import opened Outcomes
  import opened RegionProvider

  /** The table and logs are consistent with how they are built:
      handles are numbered by creation; a tracked handle was created for its
      own key at that key's path; only created handles are ever closed; a
      dropped table holds nothing. */
  ghost predicate Valid<K>(p: Provider<K>, c: Codec<K>)
  {
    && (forall i :: 0 <= i < |p.created| ==> p.created[i].id == i)
    && (forall k :: k in p.toReturn ==>
          && p.toReturn[k] in p.created
          && p.toReturn[k].key == k
          && p.toReturn[k].path == PathOf(c, k))
    && (forall h :: h in p.closeCalls ==> h in p.created)
    && (p.nulled ==> p.toReturn == map[])
  }

  /** No tracked handle has been closed yet. */
  ghost predicate Clean<K>(p: Provider<K>)
  {
    forall k :: k in p.toReturn ==> p.toReturn[k] !in p.closeCalls
  }

  /** Handles that were created but are neither tracked nor closed: nobody
      can close them through the provider any more. */
  ghost function Leaked<K>(p: Provider<K>): (leaked: set<Handle<K>>)
  {
    set h | h in p.created && h !in p.toReturn.Values && h !in p.closeCalls
  }

  /** A new provider is consistent, clean and has leaked nothing. */
  lemma NewIsValid<K>(c: Codec<K>)
    ensures Valid(New(), c) && Clean(New<K>()) && Leaked(New<K>()) == {}
  {
  }

  /** A handle numbered `|created|` is none of the handles created so far. */
  lemma FreshHandle<K>(p: Provider<K>, c: Codec<K>, h: Handle<K>)
    requires Valid(p, c)
    requires h.id == |p.created|
    ensures h !in p.created && h !in p.closeCalls && h !in p.toReturn.Values
  {
    assert forall i :: 0 <= i < |p.created| ==> p.created[i].id < h.id;
  }

  /** `getRegion` keeps the provider consistent; it also keeps it clean,
      since the handle it tracks is new and so not closed. */
  lemma GetRegionPreserves<K>(p: Provider<K>, c: Codec<K>, env: Env<K>, k: K)
    requires Valid(p, c)
    ensures Valid(GetRegion(p, c, env, k).next, c)
    ensures Clean(p) ==> Clean(GetRegion(p, c, env, k).next)
  {
    var s := GetRegion(p, c, env, k);
    if env.create(PathOf(c, k), k).Return? {
      var h := s.next.created[|p.created|];
      assert s.next.created == p.created + [h];
      FreshHandle(p, c, h);
    }
  }

  /** `getRegionIfExists` keeps the provider consistent and clean. */
  lemma GetRegionIfExistsPreserves<K>(p: Provider<K>, c: Codec<K>, env: Env<K>, k: K)
    requires Valid(p, c)
    ensures Valid(GetRegionIfExists(p, c, env, k).next, c)
    ensures Clean(p) ==> Clean(GetRegionIfExists(p, c, env, k).next)
  {
    if Exists(env, PathOf(c, k)) {
      GetRegionPreserves(p, c, env, k);
    }
  }

  /** `returnRegion` keeps the provider consistent and clean, and the handle
      it closes is no longer tracked. */
  lemma ReturnRegionPreserves<K>(p: Provider<K>, c: Codec<K>, env: Env<K>, k: K)
    requires Valid(p, c)
    ensures Valid(ReturnRegion(p, env, k).next, c)
    ensures Clean(p) ==> Clean(ReturnRegion(p, env, k).next)
    ensures !p.nulled && k in p.toReturn ==> p.toReturn[k] !in ReturnRegion(p, env, k).next.toReturn.Values
  {
    var s := ReturnRegion(p, env, k);
    if !p.nulled && k in p.toReturn {
      forall k' | k' in s.next.toReturn
        ensures s.next.toReturn[k'] != p.toReturn[k]
      {
        assert s.next.toReturn[k'].key == k' != k == p.toReturn[k].key;
      }
    }
    if !p.nulled && k in p.toReturn && Clean(p) {
      forall k' | k' in s.next.toReturn
        ensures s.next.toReturn[k'] !in s.next.closeCalls
      {
        assert s.next.toReturn[k'].key == k' != k == p.toReturn[k].key;
      }
    }
  }

  /** Closing some of the table's handles closes only created handles. */
  lemma ClosingTrackedKeepsLogCreated<K>(p: Provider<K>, c: Codec<K>, hs: seq<Handle<K>>, closeCalls: seq<Handle<K>>)
    requires Valid(p, c)
    requires forall i :: 0 <= i < |hs| ==> hs[i] in p.toReturn.Values
    requires closeCalls == p.closeCalls + hs
    ensures forall h :: h in closeCalls ==> h in p.created
  {
    forall h | h in closeCalls
      ensures h in p.created
    {
      if h !in p.closeCalls {
        var i :| 0 <= i < |hs| && hs[i] == h;
        var k :| k in p.toReturn && p.toReturn[k] == h;
      }
    }
  }

  /** A successful `close()` keeps the provider consistent and clean: the
      table is empty afterwards. */
  lemma CloseSuccessPreserves<K>(p: Provider<K>, c: Codec<K>, env: Env<K>, order: seq<K>)
    requires Valid(p, c)
    requires !p.nulled ==> Enumerates(order, p.toReturn.Keys)
    requires Close(p, env, order).out.Return?
    ensures Valid(Close(p, env, order).next, c) && Clean(Close(p, env, order).next)
  {
    var s := Close(p, env, order);
    if !p.nulled && |p.toReturn| > 0 {
      var hs := InOrder(p.toReturn, order);
      assert s.next.closeCalls == p.closeCalls + hs;
      ClosingTrackedKeepsLogCreated(p, c, hs, s.next.closeCalls);
    }
  }

  /** A `close()` that throws keeps the provider consistent but not clean:
      the handles closed before the failing one, and the failing one itself,
      are still in the table, because the loop aborts before `clear()`. */
  lemma CloseFailureLeavesClosedHandlesTracked<K>(p: Provider<K>, c: Codec<K>, env: Env<K>, order: seq<K>)
    requires Valid(p, c)
    requires !p.nulled && Enumerates(order, p.toReturn.Keys)
    requires Close(p, env, order).out.Throw?
    ensures |p.toReturn| > 0
    ensures Valid(Close(p, env, order).next, c)
    ensures !Clean(Close(p, env, order).next)
  {
    var s := Close(p, env, order);
    assert |p.toReturn| > 0;
    var hs := InOrder(p.toReturn, order);
    var n := |s.next.closeCalls| - |p.closeCalls|;
    assert 0 < n <= |hs| && s.next.closeCalls == p.closeCalls + hs[..n];
    ClosingTrackedKeepsLogCreated(p, c, hs[..n], s.next.closeCalls);
    assert s.next.closeCalls[|p.closeCalls|] == hs[0] == p.toReturn[order[0]];
    assert order[0] in s.next.toReturn && s.next.toReturn[order[0]] in s.next.closeCalls;
  }

  /** Re-acquiring a tracked key overwrites its entry without closing the old
      handle: afterwards that handle is neither tracked nor closed. */
  lemma ReacquireLeaksOldHandle<K>(p: Provider<K>, c: Codec<K>, env: Env<K>, k: K)
    requires Valid(p, c)
    requires !p.nulled && k in p.toReturn && p.toReturn[k] !in p.closeCalls
    requires env.create(PathOf(c, k), k).Return?
    ensures var s := GetRegion(p, c, env, k);
            && s.out.Return? && s.out.value != p.toReturn[k]
            && p.toReturn[k] !in s.next.toReturn.Values
            && p.toReturn[k] !in s.next.closeCalls
            && Leaked(s.next) == Leaked(p) + {p.toReturn[k]}
  {
    var s := GetRegion(p, c, env, k);
    var prev := p.toReturn[k];
    var h := s.next.created[|p.created|];
    assert s.next.created == p.created + [h];
    FreshHandle(p, c, h);
    assert prev !in s.next.toReturn.Values by {
      forall k' | k' in s.next.toReturn
        ensures s.next.toReturn[k'] != prev
      {
        if k' != k {
          assert s.next.toReturn[k'] == p.toReturn[k'];
          assert p.toReturn[k'].key == k' != k == prev.key;
        }
      }
    }
    assert s.next.toReturn.Values == (p.toReturn.Values - {prev}) + {h} by {
      forall v | v in p.toReturn.Values && v != prev
        ensures v in s.next.toReturn.Values
      {
        var k' :| k' in p.toReturn && p.toReturn[k'] == v;
        assert k' != k;
        assert s.next.toReturn[k'] == v;
      }
    }
  }

  /** Acquiring a key that is not tracked, successfully or not, leaks nothing. */
  lemma AcquireUntrackedLeaksNothing<K>(p: Provider<K>, c: Codec<K>, env: Env<K>, k: K)
    requires Valid(p, c)
    requires !p.nulled && k !in p.toReturn
    ensures Leaked(GetRegion(p, c, env, k).next) == Leaked(p)
  {
    var s := GetRegion(p, c, env, k);
    if env.create(PathOf(c, k), k).Return? {
      var h := s.next.created[|p.created|];
      assert s.next.created == p.created + [h];
      FreshHandle(p, c, h);
      assert s.next.toReturn.Values == p.toReturn.Values + {h} by {
        forall v | v in s.next.toReturn.Values
          ensures v in p.toReturn.Values + {h}
        {
          var k' :| k' in s.next.toReturn && s.next.toReturn[k'] == v;
          if k' != k {
            assert v == p.toReturn[k'];
          }
        }
        forall v | v in p.toReturn.Values
          ensures v in s.next.toReturn.Values
        {
          var k' :| k' in p.toReturn && p.toReturn[k'] == v;
          assert s.next.toReturn[k'] == v;
        }
      }
    }
  }

  /** Once `close()` has dropped the table, a `getRegion` whose factory
      returns leaks the region it built: the `put` throws before the handle
      is recorded anywhere. */
  lemma AcquireAfterShutdownLeaks<K>(p: Provider<K>, c: Codec<K>, env: Env<K>, k: K)
    requires Valid(p, c)
    requires p.nulled
    requires env.create(PathOf(c, k), k).Return?
    ensures var s := GetRegion(p, c, env, k);
            && s.out == Throw(NullPointerException)
            && Leaked(s.next) == Leaked(p) + {s.next.created[|p.created|]}
            && s.next.created[|p.created|] !in Leaked(p)
  {
    var s := GetRegion(p, c, env, k);
    var h := s.next.created[|p.created|];
    assert s.next.created == p.created + [h];
    FreshHandle(p, c, h);
  }

  /** Releasing leaks nothing: the removed handle is closed (or its close
      was at least attempted). */
  lemma ReturnRegionLeaksNothing<K>(p: Provider<K>, c: Codec<K>, env: Env<K>, k: K)
    requires Valid(p, c)
    ensures Leaked(ReturnRegion(p, env, k).next) == Leaked(p)
  {
    var s := ReturnRegion(p, env, k);
    if !p.nulled && k in p.toReturn {
      var h := p.toReturn[k];
      forall v | v in p.toReturn.Values && v != h
        ensures v in s.next.toReturn.Values
      {
        var k' :| k' in p.toReturn && p.toReturn[k'] == v;
        assert k' != k;
        assert s.next.toReturn[k'] == v;
      }
      assert s.next.toReturn.Values <= p.toReturn.Values;
    }
  }

  /** Acquire, then release, then release again: the first release removes
      the key and closes the handle just created; the second finds nothing
      and throws "No region found". */
  lemma ReleaseTwiceFails<K>(p: Provider<K>, c: Codec<K>, env1: Env<K>, env2: Env<K>, env3: Env<K>, k: K)
    requires !p.nulled
    requires env1.create(PathOf(c, k), k).Return?
    ensures var s1 := GetRegion(p, c, env1, k);
            var s2 := ReturnRegion(s1.next, env2, k);
            var s3 := ReturnRegion(s2.next, env3, k);
            && s1.out.Return?
            && s2.next.closeCalls == p.closeCalls + [s1.out.value]
            && s2.out == env2.close(s1.out.value)
            && k !in s2.next.toReturn
            && s3.out == Throw(IllegalArgumentException(NoRegionFound))
            && s3.next == s2.next
  {
  }

  /** `allRegions()` yields exactly the decoded names of the directory's entries. */
  lemma AllRegionsDecodesListing<K>(c: Codec<K>, listing: seq<string>)
    ensures (set k | k in AllRegions(c, listing)) == (set n | n in listing :: c.nameToRegionKey(n))
  {
    var keys := AllRegions(c, listing);
    forall k | k in keys
      ensures k in (set n | n in listing :: c.nameToRegionKey(n))
    {
      var i :| 0 <= i < |keys| && keys[i] == k;
      assert listing[i] in listing;
    }
    forall n | n in listing
      ensures c.nameToRegionKey(n) in keys
    {
      var i :| 0 <= i < |listing| && listing[i] == n;
      assert keys[i] == c.nameToRegionKey(n);
    }
  }

  /** When names and keys do correspond (an assumption the code itself never
      makes), a key is enumerated exactly when `getRegionIfExists` would find
      its file. */
  lemma AllRegionsMatchesExists<K>(c: Codec<K>, env: Env<K>, k: K)
    requires c.nameToRegionKey(c.regionName(k)) == k
    requires forall i :: 0 <= i < |env.listing| ==> c.regionName(c.nameToRegionKey(env.listing[i])) == env.listing[i]
    ensures k in AllRegions(c, env.listing) <==> Exists(env, PathOf(c, k))
  {
    var keys := AllRegions(c, env.listing);
    if k in keys {
      var i :| 0 <= i < |keys| && keys[i] == k;
      assert env.listing[i] == PathOf(c, k);
    }
    if Exists(env, PathOf(c, k)) {
      var i :| 0 <= i < |env.listing| && env.listing[i] == PathOf(c, k);
      assert keys[i] == k;
    }
  }

  /** On success, `close()` closes every tracked handle exactly once: the
      handles it closes are pairwise distinct, are exactly the table's
      handles, and number as many as the leak count it reports. */
  lemma ShutdownClosesEachOnce<K>(p: Provider<K>, c: Codec<K>, env: Env<K>, order: seq<K>)
    requires Valid(p, c)
    requires !p.nulled && |p.toReturn| > 0 && Enumerates(order, p.toReturn.Keys)
    requires Close(p, env, order).out.Return?
    ensures var s := Close(p, env, order);
            var closed := s.next.closeCalls[|p.closeCalls|..];
            && s.warning == Some(|closed|)
            && (forall i, j :: 0 <= i < j < |closed| ==> closed[i] != closed[j])
            && (forall h :: h in closed <==> h in p.toReturn.Values)
  {
    var s := Close(p, env, order);
    var hs := InOrder(p.toReturn, order);
    assert s.next.closeCalls[|p.closeCalls|..] == hs;
    forall i, j | 0 <= i < j < |hs|
      ensures hs[i] != hs[j]
    {
      assert hs[i].key == order[i] && hs[j].key == order[j];
    }
    EnumeratedValues(p.toReturn, order);
  }

  /** `close()` on a non-empty table succeeds exactly when closing every
      tracked handle does, whatever order the map visits them in. */
  lemma CloseSucceedsIffEveryCloseDoes<K>(p: Provider<K>, env: Env<K>, order: seq<K>)
    requires !p.nulled && |p.toReturn| > 0 && Enumerates(order, p.toReturn.Keys)
    ensures Close(p, env, order).out.Return? <==> forall h :: h in p.toReturn.Values ==> env.close(h).Return?
  {
    var hs := InOrder(p.toReturn, order);
    EnumeratedValues(p.toReturn, order);
    assert forall i :: 0 <= i < |hs| ==> hs[i] in hs;
  }

  /** Acquiring each of `ks` in turn, with the same surroundings. */
  function AcquireAll<K>(p: Provider<K>, c: Codec<K>, env: Env<K>, ks: seq<K>): (q: Provider<K>)
    decreases |ks|
  {
    if ks == [] then p
    else AcquireAll(GetRegion(p, c, env, ks[0]).next, c, env, ks[1..])
  }

  /** Acquiring distinct untracked keys whose regions can all be created
      adds exactly those keys to the table and closes nothing. */
  lemma {:induction false} AcquireAllTracks<K>(p: Provider<K>, c: Codec<K>, env: Env<K>, ks: seq<K>)
    requires !p.nulled
    requires forall i :: 0 <= i < |ks| ==> env.create(PathOf(c, ks[i]), ks[i]).Return?
    requires forall i, j :: 0 <= i < j < |ks| ==> ks[i] != ks[j]
    requires forall i :: 0 <= i < |ks| ==> ks[i] !in p.toReturn
    ensures var q := AcquireAll(p, c, env, ks);
            && !q.nulled
            && q.closeCalls == p.closeCalls
            && (forall x :: x in q.toReturn <==> x in p.toReturn || x in ks)
            && |q.toReturn| == |p.toReturn| + |ks|
    decreases |ks|
  {
    if ks != [] {
      var s := GetRegion(p, c, env, ks[0]);
      AcquireOneTracks(p, c, env, ks[0]);
      var rest := ks[1..];
      assert forall i :: 0 <= i < |rest| ==> rest[i] == ks[i + 1];
      AcquireAllTracks(s.next, c, env, rest);
      assert AcquireAll(p, c, env, ks) == AcquireAll(s.next, c, env, rest);
      assert forall x :: x in ks <==> x == ks[0] || x in rest;
    }
  }

  /** One successful acquire of an untracked key adds exactly that key. */
  lemma AcquireOneTracks<K>(p: Provider<K>, c: Codec<K>, env: Env<K>, k: K)
    requires !p.nulled && k !in p.toReturn
    requires env.create(PathOf(c, k), k).Return?
    ensures var q := GetRegion(p, c, env, k).next;
            && !q.nulled
            && q.closeCalls == p.closeCalls
            && (forall x :: x in q.toReturn <==> x in p.toReturn || x == k)
            && |q.toReturn| == |p.toReturn| + 1
  {
    var q := GetRegion(p, c, env, k).next;
    assert q.toReturn.Keys == p.toReturn.Keys + {k};
  }

  /** Acquiring n distinct regions on a new provider and then shutting down
      reports n leaked regions; when every close returns, exactly n handles
      are closed and the table ends empty and dropped. */
  lemma AcquireDistinctThenShutdown<K>(c: Codec<K>, env: Env<K>, closing: Env<K>, ks: seq<K>, order: seq<K>)
    requires forall i :: 0 <= i < |ks| ==> env.create(PathOf(c, ks[i]), ks[i]).Return?
    requires forall i, j :: 0 <= i < j < |ks| ==> ks[i] != ks[j]
    requires |ks| > 0
    requires Enumerates(order, AcquireAll(New(), c, env, ks).toReturn.Keys)
    ensures var s := Close(AcquireAll(New(), c, env, ks), closing, order);
            && s.warning == Some(|ks|)
            && (s.out.Return? ==> |s.next.closeCalls| == |ks| && s.next.toReturn == map[] && s.next.nulled)
  {
    AcquireAllTracks(New(), c, env, ks);
  }
}
