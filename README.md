# HLT component handler and the integer core of AliGenMC, in Dafny

This project models two pieces of AliRoot.

1. The HLT component handler (`HLT/BASE/AliHLTComponentHandler.cxx`). It is a
   registry of component prototypes and does five jobs:
   - It registers prototypes, with or without taking ownership of them.
   - It queues prototypes that libraries announce while they load, then
     flushes that queue into the registry.
   - It spawns and initialises running instances from prototypes.
   - It asks module agents to register their components, skipping agents on a
     black list.
   - It keeps the table of loaded libraries. Under the ROOT loader, each entry
     points to a heap `int` that counts how often the library was loaded.
2. The integer part of the Monte Carlo generator base class
   (`EVGEN/AliGenMC.cxx`):
   - the remapping of diffractive PDG codes to ordinary ones;
   - the parent and decay-product selection arrays and their scans;
   - the forced-decay initialisation of the decay-product selection;
   - the `npart` constructor that sizes and zeroes both arrays.

Files:

- `wrappers.dfy`: `Option`, which stands in for a pointer that may be NULL.
- `hlt_types.dfy` (module `HLTTypes`): the values the handler works on.
  - Prototypes, agents, instances, the environment and library-table entries.
  - The errno codes, with Linux numbering: ENOENT 2, EEXIST 17, EINVAL 22,
    ELIBACC 79.
  - The pure functions that specify the handler: `FirstIndex`, `RegisterStep`,
    `Flush`, `Activated`, `Occurrences`, `FirstLibIndex`, `Release`, and the
    library-table invariant `TableOk`.
  - The lemmas about those functions.
- `hlt_handler.dfy` (module `HLT`): the class `ComponentHandler`.
  - Its fields are the handler's four vectors (`components`, `schedule`,
    `owned`, `libraries`).
  - The heap counters are a map from address to value (`counters`), with an
    allocator (`nextCounter`).
  - The process-wide global-handler slot is a boolean (`globalHandlerSet`).
  - Two ghost traces record what the handler does to the outside: `activations`
    lists the agents it called, and `destroyed` lists the prototypes it
    deleted.
  - The class invariant `Valid()` joins three parts:
    - the library table satisfies `TableOk`;
    - `RegistryValid()`: registered identifiers are unique, every owned or
      deleted prototype is registered, and none is owned or deleted twice;
    - between calls the handler is not the global handler.
  - Each method is proved against the functions of `HLTTypes`.
- `gen_mc.dfy` (module `EvGen`): `CheckPDGCode`, the decay-product table, and
  the class `AliGenMC` with its two `array<int>` selection arrays.

How the external pieces are modelled:

- A load through the operating system is the boolean parameter
  `osLoadSucceeds`.
- The prototypes a library builds statically while it loads are the parameter
  `staticPrototypes`.
- The global list of module agents is a parameter, given once for before the
  load and once for after it.
- A prototype's `Spawn` and an instance's `Init` are function parameters of
  `CreateComponent`.

## Behaviour of the code worth noting

All line numbers refer to `HLT/BASE/AliHLTComponentHandler.cxx`.

- **One table entry per load.** Under the ROOT loader, `LoadLibrary` inserts
  a new entry at the front of the library table on every successful load
  (line 339). This includes a path that is already loaded, whose new entry
  reuses the first entry's counter after incrementing it (lines 314-320). So
  a path can have several entries. The model proves the invariant the code
  keeps (`TableOk`):
  - each counter equals the number of entries for its path;
  - entries share a counter exactly when they share a path;
  - no counter is allocated that no entry refers to.
- **Flush before handler reset.** The scheduled components are flushed while
  the handler is still the global handler (line 354). The handler is cleared
  only afterwards (line 367). Only the second agent activation comes after
  the reset (lines 369-373).
- **UnloadLibrary removes one entry.** `UnloadLibrary(path)` erases only the
  first entry for the path and then stops (lines 386-393). The real unload
  stays disabled (lines 416-442), so only the counter is decremented.
- **HasOutputData with a NULL identifier.** It returns `-ENOENT`, not
  `-EINVAL` (lines 256-269). `FindComponent` turns the `-EINVAL` of
  `FindComponentIndex` into NULL (lines 223-232).
- **Deleted prototypes stay registered.** `DeleteStandardComponents` deletes
  the owned prototypes but leaves them in the registry, because the
  deregistration is commented out (line 555). No prototype is deleted twice:
  `AddComponent` takes ownership only after a successful registration
  (lines 118-126), a successful registration needs a new identifier, and the
  registry never shrinks.

## Model

| member | source | states |
|---|---|---|
| `HLT.ComponentHandler.constructor` | HLT/BASE/AliHLTComponentHandler.cxx:45-91 | All four lists are empty and the handler invariant holds. A NULL environment becomes the zero environment, a given one is copied. The global handler is not set afterwards. |
| `HLT.ComponentHandler.AddComponent` | HLT/BASE/AliHLTComponentHandler.cxx:118-126 | Registers like RegisterComponent. The prototype is appended to the owned list exactly when the result is >= 0. The registry invariant is kept: a prototype that is taken over was not registered before, so it is neither owned nor deleted already. |
| `HLT.ComponentHandler.RegisterComponent` | HLT/BASE/AliHLTComponentHandler.cxx:128-147 | NULL gives -EINVAL. A known identifier gives -EEXIST and leaves the registry unchanged. Otherwise the prototype is appended at the end and 0 is returned. Registered identifiers stay unique. |
| `HLT.ComponentHandler.DeregisterComponent` | HLT/BASE/AliHLTComponentHandler.cxx:149-160 | -EINVAL for NULL and 0 otherwise. The method has no modifies clause, so it changes nothing. |
| `HLT.ComponentHandler.ScheduleRegister` | HLT/BASE/AliHLTComponentHandler.cxx:162-172 | Appends a non-null prototype to the queue and returns 0. NULL gives -EINVAL. The registry is outside its frame. |
| `HLT.ComponentHandler.CreateComponent` | HLT/BASE/AliHLTComponentHandler.cxx:174-201 | The registry is never modified. A NULL identifier gives -EINVAL, an unknown one gives -ENOENT; in both cases the out-variable is untouched. A failed spawn gives -ENOENT and NULL. Otherwise the result is Init's code, and the instance is handed out only when that code is 0. |
| `HLT.ComponentHandler.FindComponentIndex` | HLT/BASE/AliHLTComponentHandler.cxx:203-221 | -EINVAL for NULL and -ENOENT when there is no match. Otherwise the index of the first prototype with that identifier. |
| `HLT.ComponentHandler.FindComponent` | HLT/BASE/AliHLTComponentHandler.cxx:223-232 | Non-null exactly when the identifier is registered, and then it is the prototype at FirstIndex. |
| `HLT.ComponentHandler.InsertComponent` | HLT/BASE/AliHLTComponentHandler.cxx:234-244 | Appends a non-null prototype without checking for duplicates; NULL gives -EINVAL. Its only caller, RegisterComponent, checks the identifier first (line 134). |
| `HLT.ComponentHandler.HasOutputData` | HLT/BASE/AliHLTComponentHandler.cxx:256-269 | -ENOENT for an unknown or NULL identifier. Otherwise 1 when the prototype's type is Source or Processor, and 0 for any other type. |
| `HLT.ComponentHandler.LoadLibrary` | HLT/BASE/AliHLTComponentHandler.cxx:286-379 | A NULL path gives -EINVAL and changes nothing. On every non-null path the global handler is cleared at the end, and the second agent activation happens only after that (ActivateAgents requires the handler cleared). A failed load gives -ELIBACC, adds no entry, leaves the registry and queue alone and skips the second activation. Otherwise there is one more entry at the front whose counter is the old entry count plus one, the queue is flushed, and agents are activated again only if the flush returned >= 0. The handler invariant is kept. |
| `HLT.ComponentHandler.LoadAndRegister` | HLT/BASE/AliHLTComponentHandler.cxx:309-366 | The part of LoadLibrary that runs under the global handler. A failed load gives -ELIBACC and changes nothing. Otherwise a new entry goes to the front of the table and the queue, with a first load's static prototypes, is flushed. Table and registry invariants are kept. |
| `HLT.ComponentHandler.InsertAndFlush` | HLT/BASE/AliHLTComponentHandler.cxx:335-354 | The entry goes to the front of the table, then the queue is flushed with the result of Flush. Table and registry invariants are kept. |
| `HLT.ComponentHandler.LoadWithRoot` | HLT/BASE/AliHLTComponentHandler.cxx:309-334 | A path already in the table increments the counter of its first entry and skips the OS load and the static self-registration. Otherwise a successful load allocates a fresh counter set to 1 and appends the library's static prototypes to the queue. A failed load changes nothing. |
| `HLT.ComponentHandler.ReloadCounter` | HLT/BASE/AliHLTComponentHandler.cxx:314-320 | A repeated load: the counter of the path's first entry is incremented to the old entry count plus one and becomes the handle. A front copy of that entry keeps the table invariant. |
| `HLT.ComponentHandler.NewCounter` | HLT/BASE/AliHLTComponentHandler.cxx:322-327 | A first load: a fresh counter, never allocated before, is set to 1 and becomes the handle. A front entry for the new path keeps the table invariant. |
| `HLT.ComponentHandler.UnloadLibrary` | HLT/BASE/AliHLTComponentHandler.cxx:381-400 | NULL gives -EINVAL. An unknown path is a no-op returning 0. Otherwise only the first entry for the path is erased, its counter is released, and the path's entry count drops by one. The table invariant is kept. |
| `HLT.ComponentHandler.EraseEntry` | HLT/BASE/AliHLTComponentHandler.cxx:390-391 | The step both unload loops take: entry k is erased and its counter released, its path's entry count drops by one, and the table invariant is kept. |
| `HLT.ComponentHandler.UnloadLibraryHandle` | HLT/BASE/AliHLTComponentHandler.cxx:402-454 | Decrements the shared counter and frees it when it reaches zero; the library itself is never unloaded. Returns 0. |
| `HLT.ComponentHandler.UnloadLibraries` | HLT/BASE/AliHLTComponentHandler.cxx:456-467 | Afterwards the library table is empty and no counter is left allocated. |
| `HLT.ComponentHandler.FindLibrary` | HLT/BASE/AliHLTComponentHandler.cxx:484-498 | Returns the first entry for the path, or NULL when there is none. |
| `HLT.ComponentHandler.AddStandardComponents` | HLT/BASE/AliHLTComponentHandler.cxx:500-508 | The global handler ends up cleared and the queue is flushed into the registry, with the result of Flush. The registry invariant is kept. |
| `HLT.ComponentHandler.RegisterScheduledComponents` | HLT/BASE/AliHLTComponentHandler.cxx:510-523 | The queue ends up empty. The registry and the result are those of Flush: queued prototypes in submission order, and the first nonzero per-entry code. The registry invariant is kept at every step. |
| `HLT.ComponentHandler.ActivateAgents` | HLT/BASE/AliHLTComponentHandler.cxx:525-547 | Returns 0. The agents called are exactly Activated(agents, blackList, size), in list order. It may run only while the handler is not the global handler (line 371). |
| `HLT.ComponentHandler.ActivateAll` | HLT/BASE/AliHLTComponentHandler.cxx:369-373 | ActivateAgents with its default arguments (no black list), as LoadLibrary calls it after the handler reset: every agent is called, in order, and only while the handler is not the global handler. |
| `HLT.InBlackList` | HLT/BASE/AliHLTComponentHandler.cxx:531-540 | True exactly when the agent occurs in blackList[0..size); a size of zero or less excludes nothing. |
| `HLT.ComponentHandler.DeleteStandardComponents` | HLT/BASE/AliHLTComponentHandler.cxx:549-561 | The owned list ends up empty. Exactly the previously owned prototypes are deleted, in order. The deleted prototypes stay registered and no prototype is ever deleted twice. |
| `HLT.ComponentHandler.Destroy` | HLT/BASE/AliHLTComponentHandler.cxx:93-98 | The destructor deletes exactly the owned prototypes, so a prototype registered without ownership is never deleted. No prototype is deleted twice over the handler's life. It then empties the library table and frees every counter, and the invariant still holds. |
| `HLT.ComponentHandler.RegistryValid` | HLT/BASE/AliHLTComponentHandler.cxx:118-160 | The registry invariant: registered identifiers are unique, every owned or deleted prototype is registered (deregistration does nothing, lines 149-160), and no prototype is owned or deleted twice. |
| `HLT.ComponentHandler.Loadable` | HLT/BASE/AliHLTComponentHandler.cxx:314-327 | A load ends with a table entry exactly when the path is already in the table or the OS load succeeds. |
| `HLTTypes.FirstIndex` | HLT/BASE/AliHLTComponentHandler.cxx:203-221 | The result is -1 exactly when no prototype has the identifier. Otherwise the entry at the result has the identifier and no earlier entry does. |
| `HLTTypes.FindAfterRegister` | HLT/BASE/AliHLTComponentHandler.cxx:128-147 | After a prototype with a new identifier is appended, a lookup of that identifier finds that very prototype. |
| `HLTTypes.FindUnique` | HLT/BASE/AliHLTComponentHandler.cxx:223-232 | In a registry with unique identifiers, looking up any entry's identifier finds that entry. |
| `HLTTypes.RegisterStep` | HLT/BASE/AliHLTComponentHandler.cxx:128-147 | The code is 0 exactly when the identifier was new, and -EEXIST otherwise. The identifier is registered afterwards, and unique identifiers stay unique. |
| `HLTTypes.Flush` | HLT/BASE/AliHLTComponentHandler.cxx:510-523 | Draining the queue in order through RegisterStep. The old registry is a prefix of the new one, at most the queue is added, and the code is 0 or -EEXIST: the first nonzero per-entry code. |
| `HLTTypes.FlushExtends` | HLT/BASE/AliHLTComponentHandler.cxx:510-523 | Every entry the flush adds comes from the queue. |
| `HLTTypes.FlushKeepsUnique` | HLT/BASE/AliHLTComponentHandler.cxx:510-523 | The flush keeps registry identifiers unique. |
| `HLTTypes.FlushRegistersAll` | HLT/BASE/AliHLTComponentHandler.cxx:510-523 | Afterwards every queued identifier is registered, and so is every identifier registered before. |
| `HLTTypes.FlushCode` | HLT/BASE/AliHLTComponentHandler.cxx:510-523 | The code is 0 exactly when no queued identifier was registered before and none is queued twice. When it is 0, the whole queue has been appended in order. |
| `HLTTypes.FlushDuplicateExample` | HLT/BASE/AliHLTComponentHandler.cxx:510-523 | A queue [A, B, A] leaves A and B registered once each and returns -EEXIST. |
| `HLTTypes.Activated` | HLT/BASE/AliHLTComponentHandler.cxx:525-547 | The activated agents are a filter of the agent list, so there are never more of them than agents. |
| `HLTTypes.ActivatedMembers` | HLT/BASE/AliHLTComponentHandler.cxx:525-547 | An agent is called exactly when it is in the list and not in blackList[0..size), so a black-listed agent is never called. |
| `HLTTypes.ActivatedAll` | HLT/BASE/AliHLTComponentHandler.cxx:525-547 | Without a black list, every agent is called, in list order. |
| `HLTTypes.Excluded` | HLT/BASE/AliHLTComponentHandler.cxx:531-540 | An agent is black-listed exactly when a list is given and the agent occurs in its first size slots. |
| `HLTTypes.Occurrences` | HLT/BASE/AliHLTComponentHandler.cxx:314-339 | The number of entries for a path is at most the table length. |
| `HLTTypes.OccurrencesZero` | HLT/BASE/AliHLTComponentHandler.cxx:484-498 | A path has no entries exactly when no entry names it. |
| `HLTTypes.OccurrencesRemove` | HLT/BASE/AliHLTComponentHandler.cxx:386-393 | Erasing one entry lowers its path's count by one and leaves the counts of other paths alone. |
| `HLTTypes.FirstLibIndex` | HLT/BASE/AliHLTComponentHandler.cxx:484-498 | The result is -1 exactly when no entry names the path. Otherwise it is the first entry that does. |
| `HLTTypes.Release` | HLT/BASE/AliHLTComponentHandler.cxx:416-442 | A counter at 1 is freed and any other counter is decremented. No other counter changes. |
| `HLTTypes.TableOk` | HLT/BASE/AliHLTComponentHandler.cxx:314-339 | The library-table invariant: the allocated counters are exactly those the entries refer to, each lies below the allocator, each equals its path's entry count, and entries share a counter exactly when they share a path. |
| `HLTTypes.CountersPositive` | HLT/BASE/AliHLTComponentHandler.cxx:314-327 | In a valid table every allocated counter is at least 1. |
| `HLTTypes.TableReload` | HLT/BASE/AliHLTComponentHandler.cxx:314-320 | Putting another entry for an already loaded path at the front, sharing its counter incremented by one, keeps the table invariant. |
| `HLTTypes.TableFresh` | HLT/BASE/AliHLTComponentHandler.cxx:322-339 | Putting a new path at the front with a fresh counter set to 1 keeps the table invariant. |
| `HLTTypes.TableRemove` | HLT/BASE/AliHLTComponentHandler.cxx:386-393 | Erasing any entry and releasing its counter keeps the table invariant. |
| `HLTTypes.CountsAfterRemove` | HLT/BASE/AliHLTComponentHandler.cxx:416-442 | After an entry is erased and its counter released, every remaining counter still equals its path's entry count. |
| `HLTTypes.KeysAfterRemove` | HLT/BASE/AliHLTComponentHandler.cxx:416-442 | After an erase and release, the allocated counters are exactly those the remaining entries refer to, so none is leaked. |
| `HLTTypes.TableEmpty` | HLT/BASE/AliHLTComponentHandler.cxx:456-467 | An empty valid table has no allocated counter. |
| `HLTTypes.TableInitial` | HLT/BASE/AliHLTComponentHandler.cxx:45-91 | The empty table with no counters satisfies the table invariant. |
| `EvGen.CheckPDGCode` | EVGEN/AliGenMC.cxx:213-244 | The eight diffractive codes (91, 110, 210, 220, 330, 440, 2110, 2210) go to 92, 113, 211, 223, 333, 443, 2112, 2212. Every other code is returned unchanged. The result is never diffractive. |
| `EvGen.CheckPDGCodeIdempotent` | EVGEN/AliGenMC.cxx:217-243 | Remapping twice gives the same result as remapping once. |
| `EvGen.ChildScanIgnoresTail` | EVGEN/AliGenMC.cxx:111-119 | The decay-product scan sees only slots 0 to 4. Two arrays that agree there give the same answer, whatever slots 5 to 7 hold. |
| `EvGen.ZeroedSelectsOnlyZero` | EVGEN/AliGenMC.cxx:55-57 | On the zeroed arrays the constructor leaves, a scan reports only code 0. |
| `EvGen.DecayProducts` | EVGEN/AliGenMC.cxx:71-98 | The codes Init writes, per forced mode: at most two. |
| `EvGen.InitSelectsProducts` | EVGEN/AliGenMC.cxx:71-119 | After Init every decay product of the forced mode is selected. Any other code is selected exactly when it was already in one of the untouched slots below 5. |
| `EvGen.AliGenMC.constructor` | EVGEN/AliGenMC.cxx:44-59 | Both selection arrays are fresh, have 8 slots and are all zero, and npart is stored. |
| `EvGen.AliGenMC.Init` | EVGEN/AliGenMC.cxx:71-98 | The decay-product array afterwards is DecayProducts(forceDecay) followed by the old contents of the later slots: [0]=11 in electron modes, [0]=13 in muon modes including PiToMu and KaToMu, [0]=211 and [1]=321 for HadronicD, and no change for All and NoDecay. |
| `EvGen.AliGenMC.ParentSelected` | EVGEN/AliGenMC.cxx:101-109 | True exactly when the code occurs among parentSelect[0..8). |
| `EvGen.AliGenMC.ChildSelected` | EVGEN/AliGenMC.cxx:111-119 | True exactly when the code occurs among childSelect[0..5). |

## Left out

- The `dlopen` loader branch (`HAVE_DLFCN_H`) is left out. Only the ROOT-loader branch of `LoadLibrary` and `UnloadLibrary` is modelled.
- `FindSymbol` and the `CompileInfo` call are left out. They resolve foreign symbols and only feed a log message.
- The real OS load is replaced by the `osLoadSucceeds` input. The `gSystem->Unload` call is disabled in the source, and so it is in the model.
- The `try`/`catch(...)` around the loader is left out. Loader exceptions are foreign behaviour.
- The `-EFTYPE` code on Apple is left out. The model always returns `-ELIBACC`.
- Logging is left out: every `HLTInfo`/`HLTDebug`/`HLTWarning`/`HLTError`, `List()` (which only logs), `AnnounceVersion`, `AliHLTLogging::Init` and `fgAliLoggingFunc=NULL`.
- `SetEnvironment` is left out. It is an opaque `memcpy` plus a logging set-up. The handler never interprets the environment: it copies it and hands it to each component's `Init` (line 184), so the model keeps it as one opaque value.
- HLT.ComponentHandler.LoadLibrary: its postconditions on the registry (`components`) and on `owned` assume agents whose `ActivateComponentHandler` registers nothing. Real agents may register components at the second activation (lines 369-373); those registrations are not modelled.
- HLT.ComponentHandler.ActivateAgents: records which agents are called, in what order. It does not model what an agent's `ActivateComponentHandler` then does to the handler; that code is in `AliHLTModuleAgent` and is not part of this model.
- HLT.ComponentHandler.LoadWithRoot: the static self-registration of a library's global prototypes is modelled as one append of `staticPrototypes` to the queue. Their constructors live in other files.
- HLT.ComponentHandler.UnloadLibraryHandle: does not model setting `handle.fName` and `handle.fHandle` to NULL. The entry is erased right afterwards. The "missing library name" branch cannot occur, because every entry has a name.
- HLT.ComponentHandler.CreateComponent: `delete component` is modelled as the instance not being handed out. No heap of instances is modelled.
- The behaviour of `Spawn`, `Init` and `GetComponentType` on concrete components is left out. They are inputs of the model.
- A component whose `GetComponentID()` returns NULL is not modelled. Identifiers are strings.
- HLT.ComponentHandler.FindComponentIndex: does not model a 32-bit overflow of the index counter. That would take a registry of more than 2^31 entries.
- The global component handler is a field of the one modelled handler, not a process-wide slot. Concurrency is not modelled.
- `LoadLibrary` is proved through helpers that mirror its blocks: `LoadAndRegister` (lines 309-366), `LoadWithRoot` (lines 309-334) with `ReloadCounter` (lines 314-320) and `NewCounter` (lines 322-327), and `InsertAndFlush` (lines 335-354). `EraseEntry` is the step shared by both unload loops (lines 390-391 and 462-463).
- `AliGenMC::KinematicSelection` is left out. It is floating-point kinematics.
- The default constructor of `AliGenMC` is left out. It leaves the arrays unsized.
- The copy constructor, the assignment operator and the destructor of `AliGenMC` are left out. They are empty.
- The `SetChild*Range` and `SetCutOnChild` calls are left out. They are floating-point setters from the header.
- `fForceDecay` is whatever value the object holds. The constructor does not set it.
- `Decay_t` holds only the thirteen modes that `Init`'s switch names.
- The particle constants take their standard PDG values (11, 13, 211, 321). The header that defines them is not part of this model.
- `PHOS/macros/AlignmentDB/MakePHOSAlignmentModule2.C` is left out. It builds floating-point alignment objects and writes them to files or the conditions database.
