# SimpleRegionProvider, modelled in Dafny

RegionLib stores entries in region files. `SimpleRegionProvider` sits in front
of them and tracks open region handles. Its table `toReturn` maps a region key
to the handle currently open for it. It offers five operations:

- `getRegion`: acquire a handle;
- `getRegionIfExists`: acquire a handle only if the region's file exists;
- `returnRegion`: release a handle;
- `allRegions`: enumerate the region files in the directory;
- `close`: shut the provider down.

The project models the provider as an immutable state record and each
operation as a pure transition. A transition returns the Java call's outcome
(a returned value or a thrown exception) together with the next state. The
state holds:

- the table;
- whether `close()` has set the table to null;
- the log of handles the factory created;
- the log of factory calls;
- the log of handles on which `close()` was invoked.

Everything the provider does not own is a parameter:

- `Codec`: the key's `getRegionName` and the injected `nameToRegionKey`;
- `Env`: the directory listing, what the injected `RegionFactory.create`
  does (returns or throws), and what `IRegion.close` does.

Files:

- `outcomes.dfy`: Java exceptions, `Outcome` (return or throw) and `Option`.
- `region_provider.dfy`: the state and the five transitions.
- `provider_properties.dfy`: the state invariants, where leaks come from,
  release-after-release, enumeration and shutdown.
- `provider_contract.dfy`: the documented contract of `IRegionProvider`'s two
  acquire methods, and the proof that the provider meets it.

Behaviour worth noting:

- A `close()` whose loop meets a throwing `IRegion.close` aborts. The remaining
  handles are not closed, and the table is neither cleared nor dropped.
- `close()` on an empty table does nothing and leaves the provider usable.
  Only a non-empty `close()` drops the table.
- After the table is dropped, each operation behaves as follows:
  - `returnRegion` and `close` throw NullPointerException;
  - `getRegion` still calls the factory, and so builds a region, before its
    `put` throws, so that region is leaked
    (`ProviderProperties.AcquireAfterShutdownLeaks`);
  - `getRegionIfExists` on an absent file still returns an empty Optional;
  - `allRegions` still works.
- Re-acquiring a tracked key overwrites the entry without closing the old
  handle (`SimpleRegionProvider.java:66`). The model reproduces this, and
  `ProviderProperties.ReacquireLeaksOldHandle` proves that the old handle is
  leaked.

## Model

| member | source | states |
|---|---|---|
| RegionProvider.GetRegion | src/main/java/cubicchunks/regionlib/region/provider/SimpleRegionProvider.java:61-68 | The factory is called exactly once, with the path named by the key. A factory exception propagates and leaves the table and the created-handle log unchanged. On success a new handle with the next id is created for that key and path. The table maps the key to the new handle, unless the table was dropped, in which case NullPointerException is thrown. All other table entries are unchanged, and nothing is closed. |
| RegionProvider.GetRegionIfExists | src/main/java/cubicchunks/regionlib/region/provider/SimpleRegionProvider.java:70-78 | If the key's file is absent, it returns an empty Optional and the state is identical, so the factory is not called. If the file is present, the next state and the outcome are those of `getRegion`, with the handle wrapped in an Optional. |
| RegionProvider.ReturnRegion | src/main/java/cubicchunks/regionlib/region/provider/SimpleRegionProvider.java:80-86 | A dropped table throws NullPointerException and an untracked key throws IllegalArgumentException("No region found"), each with the state unchanged. For a tracked key, exactly that entry is removed and the other entries keep their handles. Exactly that handle is closed, and the outcome of its close is the call's outcome, so a failing close still leaves the entry removed. |
| RegionProvider.AllRegions | src/main/java/cubicchunks/regionlib/region/provider/SimpleRegionProvider.java:88-94 | One key per listed name, in listing order, each the decoding of that name. It takes no provider state. |
| RegionProvider.CloseEach | src/main/java/cubicchunks/regionlib/region/provider/SimpleRegionProvider.java:99-101 | The loop completes exactly when every close returns, and then every handle was closed in order. Otherwise it stopped at the first throwing close: only that prefix was closed, and the exception propagates. |
| RegionProvider.CloseTracked | src/main/java/cubicchunks/regionlib/region/provider/SimpleRegionProvider.java:97-104 | The warning reports the table size. When every close returns, all handles are closed and the table is emptied and dropped. Otherwise a prefix ending at the first failing handle is closed: every earlier close returned, the failing close's exception propagates, and the table and its state are kept. |
| RegionProvider.Close | src/main/java/cubicchunks/regionlib/region/provider/SimpleRegionProvider.java:96-105 | A dropped table throws NullPointerException. An empty table gives no warning and the state is unchanged, so the provider stays usable. A non-empty table reports a leak count equal to its size. Its handles are closed in the map's visiting order. If every close returns, all handles are closed and the table is emptied and dropped. Otherwise only a prefix up to the first failing handle is closed (every earlier close returned), its exception propagates, and the table is kept and not dropped. |
| RegionProvider.New | src/main/java/cubicchunks/regionlib/region/provider/SimpleRegionProvider.java:54-59 | A new provider has an empty table that has not been dropped, has created no handle, and has called neither the factory nor any close. |
| ProviderProperties.NewIsValid | src/main/java/cubicchunks/regionlib/region/provider/SimpleRegionProvider.java:54-59 | A freshly constructed provider is consistent, tracks nothing that is closed, and has leaked nothing. |
| ProviderProperties.GetRegionPreserves | src/main/java/cubicchunks/regionlib/region/provider/SimpleRegionProvider.java:61-67 | `getRegion` keeps the invariant that every tracked handle was created for its own key at that key's path, and that only created handles are closed. It also keeps every tracked handle unclosed. |
| ProviderProperties.GetRegionIfExistsPreserves | src/main/java/cubicchunks/regionlib/region/provider/SimpleRegionProvider.java:70-77 | `getRegionIfExists` keeps the same invariants. |
| ProviderProperties.ReturnRegionPreserves | src/main/java/cubicchunks/regionlib/region/provider/SimpleRegionProvider.java:80-86 | `returnRegion` keeps the same invariants. On a table that has not been dropped, the handle it removes and closes is no longer tracked, in every consistent state. |
| ProviderProperties.CloseSuccessPreserves | src/main/java/cubicchunks/regionlib/region/provider/SimpleRegionProvider.java:96-105 | A `close()` that returns keeps the invariants: every handle it closed was created. |
| ProviderProperties.CloseFailureLeavesClosedHandlesTracked | src/main/java/cubicchunks/regionlib/region/provider/SimpleRegionProvider.java:99-103 | On a table that has not been dropped, a `close()` whose loop throws keeps the state consistent. It leaves at least one handle that has been closed still in the table, because the loop aborts before `clear()`. |
| ProviderProperties.ReacquireLeaksOldHandle | src/main/java/cubicchunks/regionlib/region/provider/SimpleRegionProvider.java:66 | For a tracked key whose own handle has not been closed (the hypothesis is about this one handle only, so it also covers states where an aborted `close()` has already closed other tracked handles), a successful re-acquire returns a different handle. The old handle ends up neither tracked nor closed. The set of leaked handles grows by exactly that old handle. |
| ProviderProperties.AcquireUntrackedLeaksNothing | src/main/java/cubicchunks/regionlib/region/provider/SimpleRegionProvider.java:61-67 | While the table exists, acquiring an untracked key, whether the factory succeeds or fails, leaves the set of leaked handles unchanged. |
| ProviderProperties.AcquireAfterShutdownLeaks | src/main/java/cubicchunks/regionlib/region/provider/SimpleRegionProvider.java:61-67 | Once `close()` has dropped the table, a `getRegion` whose factory returns throws NullPointerException, and the region it built becomes leaked: the set of leaked handles grows by exactly that new handle. |
| ProviderProperties.ReturnRegionLeaksNothing | src/main/java/cubicchunks/regionlib/region/provider/SimpleRegionProvider.java:80-86 | Releasing leaves the set of leaked handles unchanged. |
| ProviderProperties.ReleaseTwiceFails | src/main/java/cubicchunks/regionlib/region/provider/SimpleRegionProvider.java:61-86 | Acquire, then release, then release again. The first release removes the key, closes exactly the acquired handle, and ends as that close does. The second release throws "No region found" and changes nothing. |
| ProviderProperties.AllRegionsDecodesListing | src/main/java/cubicchunks/regionlib/region/provider/SimpleRegionProvider.java:88-94 | The set of enumerated keys is exactly the set of decoded directory entry names. |
| ProviderProperties.AllRegionsMatchesExists | src/main/java/cubicchunks/regionlib/region/provider/SimpleRegionProvider.java:70-94 | If the codec round-trips on this key and on the listed names (stated as hypotheses, which the code never guarantees), then a key is enumerated exactly when its file exists. |
| ProviderProperties.ShutdownClosesEachOnce | src/main/java/cubicchunks/regionlib/region/provider/SimpleRegionProvider.java:96-105 | A successful `close()` closes pairwise distinct handles. They are exactly the tracked handles, and their number equals the reported leak count. |
| ProviderProperties.CloseSucceedsIffEveryCloseDoes | src/main/java/cubicchunks/regionlib/region/provider/SimpleRegionProvider.java:99-101 | On a non-empty table, `close()` returns exactly when every tracked handle's close returns, whatever order the map visits them in. |
| ProviderProperties.AcquireOneTracks | src/main/java/cubicchunks/regionlib/region/provider/SimpleRegionProvider.java:61-67 | A successful acquire of an untracked key adds exactly that key, grows the table by one, and closes nothing. |
| ProviderProperties.AcquireAllTracks | src/main/java/cubicchunks/regionlib/region/provider/SimpleRegionProvider.java:61-67 | Successfully acquiring n distinct untracked keys adds exactly those keys and grows the table by n. |
| ProviderProperties.AcquireDistinctThenShutdown | src/main/java/cubicchunks/regionlib/region/provider/SimpleRegionProvider.java:96-105 | Take a new provider, successfully acquire n ≥ 1 distinct keys (every factory call returns), then `close()`. The warning reports n. If every close returns, exactly n handles are closed and the table is empty and dropped. For n = 0 the table is empty and `close()` prints no warning (line 97), which `RegionProvider.Close` states. |
| RegionProviderContract.GetRegionMeetsContract | src/main/java/cubicchunks/regionlib/region/IRegionProvider.java:40-47 | A returned handle is the region for the requested key at its location. While the table exists, the call returns whenever the factory does, even if the file did not exist (create one if it does not exist). |
| RegionProviderContract.GetRegionIfExistsMeetsContract | src/main/java/cubicchunks/regionlib/region/IRegionProvider.java:49-56 | A returned Optional is empty exactly when the file is absent, and otherwise holds the region at the requested location. While the table exists and the factory returns, the call returns the same handle `getRegion` would. |
| RegionProviderContract.EmptyDirectory | src/main/java/cubicchunks/regionlib/region/provider/SimpleRegionProvider.java:70-94 | On an empty directory, `allRegions` yields nothing. `getRegionIfExists` returns empty and calls no factory. |

## Left out

- Region construction is left out: `createDefault`, `Region.Builder` and the `RegionFactory` interface (`SimpleRegionProvider.java:107-121`). The factory is an abstract create-or-throw. The model numbers the handles it creates.
- The constructor (`SimpleRegionProvider.java:54-59`) is `RegionProvider.New`. The directory and the factory it captures, and the `nameToRegionKey` function it captures too (line 57), become parameters of each transition (`Env` and `Codec`). Nothing in a transition ties successive calls to one `Codec`: the lemmas that relate several calls take a single codec `c` for all of them, which is how one provider instance behaves.
- Real path and filesystem I/O (`Path.resolve`, `Files.exists`, `Files.list`) are left out. The directory is the listing given with each call, and a region's path is its name. The model does not record files the factory creates, so a listing need not show a file an earlier `getRegion` created.
- `allRegions`' lazy stream is modelled as the complete decoded list. An IOException from `Files.list` and an exception thrown by `nameToRegionKey` while iterating are not modelled, because the decoder is a total function here.
- `HashMap.values()` iteration order is not modelled: `Close` takes the visiting order as a parameter, required to list every key once.
- The warning text on `System.err` is modelled as the count it reports.
- A factory returning `null` is not modelled, nor are Java hashing and equality of keys. Keys are Dafny values compared by `==`.
- What `IRegion.close` does beyond returning or throwing is left out.
- Concurrency is left out. The class uses an unsynchronised `HashMap` and is single-threaded by contract.
