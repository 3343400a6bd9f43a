/**
 * The HLT component handler (HLT/BASE/AliHLTComponentHandler.cxx): a registry
 * of component prototypes, a deferred-registration queue, the prototypes the
 * handler owns, and the table of loaded libraries with their shared heap
 * counters (ROOT loader branch).
 */
module HLT {
  import opened Wrappers
  import opened HLTTypes

  /** The inner `for` loop of ActivateAgents: does `agent` occur in
      blackList[0..size)? */
  method InBlackList(blackList: seq<Agent>, size: int, agent: Agent) returns (listed: bool)
    requires size <= |blackList|
    ensures listed <==> Excluded(Some(blackList), size, agent)
  {
    var i := 0;
    while i < size && blackList[i] != agent
      invariant 0 <= i && (i == 0 || i <= size)
      invariant forall j :: 0 <= j < i ==> blackList[j] != agent
    {
      i := i + 1;
    }
    listed := i < size;
  }

  class ComponentHandler {
    /** fComponentList: the registered prototypes, in insertion order. */
    var components: seq<Prototype>
    /** fScheduleList: prototypes queued for registration. */
    var schedule: seq<Prototype>
    /** fOwnedComponents: prototypes the handler deletes at teardown. */
    var owned: seq<Prototype>
    /** fLibraryList: the loaded libraries, most recent load first. */
    var libraries: seq<LibHandle>
    /** The heap `int` counters the library entries point to, by address. */
    var counters: map<nat, int>
    /** The address the next `new int` returns. */
    var nextCounter: nat
    /** fEnvironment. */
    var environment: Environment
    /** Whether the process-wide global component handler (set by
        AliHLTComponent::SetGlobalComponentHandler) is this handler. */
    var globalHandlerSet: bool
    /** The agents whose ActivateComponentHandler this handler has called, in order. */
    ghost var activations: seq<Agent>
    /** The prototypes this handler has deleted, in order. */
    ghost var destroyed: seq<Prototype>

    /** Registered identifiers are unique; every owned or deleted prototype
        is registered (a deleted one stays in the registry, whose entries are
        never removed); and no prototype is owned or deleted twice. */
    ghost predicate RegistryValid()
      reads this`components, this`owned, this`destroyed
    {
      && UniqueIds(components)
      && (forall p :: p in owned ==> p in components)
      && (forall p :: p in destroyed ==> p in components)
      && Distinct(destroyed + owned)
    }

    /** The handler's invariant between calls: both of the above, and the
        handler is not installed as the global handler. */
    ghost predicate Valid()
      reads this`libraries, this`counters, this`nextCounter, this`components,
            this`owned, this`destroyed, this`globalHandlerSet
    {
      TableOk(libraries, counters, nextCounter) && RegistryValid() && !globalHandlerSet
    }

    /** Both constructors: a null environment is zero-filled, a given one is
        copied; then the standard components are added. */
    constructor (env: Option<Environment>)
      ensures Valid()
      ensures components == [] && schedule == [] && owned == [] && libraries == []
      ensures environment == (if env.Some? then env.value else ZeroEnvironment)
      ensures !globalHandlerSet
      ensures activations == [] && destroyed == []
    {
      components, schedule, owned, libraries := [], [], [], [];
      counters, nextCounter := map[], 0;
      environment := if env.Some? then env.value else ZeroEnvironment;
      globalHandlerSet := false;
      activations, destroyed := [], [];
      new;
      TableInitial(0);
      var _ := AddStandardComponents();
    }

    /** Registers and, on success, takes ownership of the prototype. */
    method AddComponent(sample: Option<Prototype>) returns (r: int)
      requires RegistryValid()
      modifies this`components, this`owned
      ensures RegistryValid()
      ensures sample.None? ==> r == -EINVAL && components == old(components)
      ensures sample.Some? && HasId(old(components), sample.value.id) ==>
                r == -EEXIST && components == old(components)
      ensures sample.Some? && !HasId(old(components), sample.value.id) ==>
                r == 0 && components == old(components) + [sample.value]
      ensures r >= 0 ==> sample.Some? && owned == old(owned) + [sample.value]
      ensures r < 0 ==> owned == old(owned)
    {
      r := RegisterComponent(sample);
      if r >= 0 {
        // the prototype was not registered before, so it is neither owned nor deleted
        NewIdNotListed(old(components), sample.value);
        DistinctAppend(destroyed + owned, sample.value);
        assert destroyed + owned + [sample.value] == destroyed + (owned + [sample.value]);
        owned := owned + [sample.value];
      }
    }

    /** Appends a non-null prototype whose identifier is not registered yet. */
    method RegisterComponent(sample: Option<Prototype>) returns (r: int)
      requires RegistryValid()
      modifies this`components
      ensures RegistryValid()
      ensures sample.None? ==> r == -EINVAL && components == old(components)
      ensures sample.Some? && HasId(old(components), sample.value.id) ==>
                r == -EEXIST && components == old(components)
      ensures sample.Some? && !HasId(old(components), sample.value.id) ==>
                r == 0 && components == old(components) + [sample.value]
    {
      if sample.Some? {
        var found := FindComponent(Some(sample.value.id));
        if found.None? {
          r := InsertComponent(sample);
          assert components == RegisterStep(old(components), sample.value).list;
        } else {
          r := -EEXIST;
        }
      } else {
        r := -EINVAL;
      }
    }

    /** Not implemented in the source: checks the argument and changes nothing. */
    method DeregisterComponent(componentID: Option<string>) returns (r: int)
      ensures componentID.None? ==> r == -EINVAL
      ensures componentID.Some? ==> r == 0
    {
      if componentID.Some? {
        r := 0;
      } else {
        r := -EINVAL;
      }
    }

    /** Queues a prototype for the next flush; never touches the registry. */
    method ScheduleRegister(sample: Option<Prototype>) returns (r: int)
      modifies this`schedule
      ensures sample.None? ==> r == -EINVAL && schedule == old(schedule)
      ensures sample.Some? ==> r == 0 && schedule == old(schedule) + [sample.value]
    {
      if sample.Some? {
        schedule := schedule + [sample.value];
        r := 0;
      } else {
        r := -EINVAL;
      }
    }

    /** Looks the prototype up, spawns an instance and initialises it with
        the handler's environment; an instance whose Init fails is deleted
        and not handed out. `component` is the caller's out-variable, left
        as it was when no spawn is attempted. The registry is not touched. */
    method CreateComponent(componentID: Option<string>, envParam: nat, argv: seq<string>,
                           spawn: Prototype -> Option<Instance>,
                           init: (Instance, Environment, nat, seq<string>) -> int,
                           component: Option<Instance>)
      returns (r: int, created: Option<Instance>)
      ensures componentID.None? ==> r == -EINVAL && created == component
      ensures componentID.Some? && !HasId(components, componentID.value) ==>
                r == -ENOENT && created == component
      ensures componentID.Some? && HasId(components, componentID.value) ==>
                var p := components[FirstIndex(components, componentID.value)];
                match spawn(p)
                case None => r == -ENOENT && created == None
                case Some(inst) =>
                  r == init(inst, environment, envParam, argv) &&
                  created == (if r != 0 then None else Some(inst))
    {
      created := component;
      if componentID.Some? {
        var sample := FindComponent(componentID);
        if sample.Some? {
          created := spawn(sample.value);
          if created.Some? {
            r := init(created.value, environment, envParam, argv);
            if r != 0 {
              // the instance is deleted and the caller gets null
              created := None;
            }
          } else {
            r := -ENOENT;
          }
        } else {
          r := -ENOENT;
        }
      } else {
        r := -EINVAL;
      }
    }

    /** Index of the first prototype with the given identifier. */
    method FindComponentIndex(componentID: Option<string>) returns (r: int)
      ensures componentID.None? ==> r == -EINVAL
      ensures componentID.Some? && !HasId(components, componentID.value) ==> r == -ENOENT
      ensures componentID.Some? && HasId(components, componentID.value) ==>
                0 <= r < |components| && components[r].id == componentID.value &&
                forall j :: 0 <= j < r ==> components[j].id != componentID.value
    {
      if componentID.None? {
        return -EINVAL;
      }
      var id := componentID.value;
      var k := 0;
      while k < |components|
        invariant 0 <= k <= |components|
        invariant forall j :: 0 <= j < k ==> components[j].id != id
      {
        if components[k].id == id {
          break;
        }
        k := k + 1;
      }
      r := if k == |components| then -ENOENT else k;
    }

    /** The first prototype with the given identifier, or null. */
    method FindComponent(componentID: Option<string>) returns (sample: Option<Prototype>)
      ensures sample.Some? <==> componentID.Some? && HasId(components, componentID.value)
      ensures sample.Some? ==>
                componentID.Some? && 0 <= FirstIndex(components, componentID.value) &&
                sample.value == components[FirstIndex(components, componentID.value)]
    {
      var index := FindComponentIndex(componentID);
      if index >= 0 {
        sample := Some(components[index]);
      } else {
        sample := None;
      }
    }

    /** Appends a non-null prototype without any uniqueness check; its only
        caller, RegisterComponent, checks the identifier first. */
    method InsertComponent(sample: Option<Prototype>) returns (r: int)
      modifies this`components
      ensures sample.None? ==> r == -EINVAL && components == old(components)
      ensures sample.Some? ==> r == 0 && components == old(components) + [sample.value]
    {
      if sample.Some? {
        components := components + [sample.value];
        r := 0;
      } else {
        r := -EINVAL;
      }
    }

    /** 1 when the prototype is a data source or processor, 0 for any other
        type, -ENOENT when there is no such prototype (a null identifier
        included). */
    method HasOutputData(componentID: Option<string>) returns (r: int)
      ensures componentID.None? || !HasId(components, componentID.value) ==> r == -ENOENT
      ensures componentID.Some? && HasId(components, componentID.value) ==>
                var kind := components[FirstIndex(components, componentID.value)].kind;
                r == (if kind == Source || kind == Processor then 1 else 0)
    {
      var sample := FindComponent(componentID);
      if sample.Some? {
        var ct := sample.value.kind;
        r := if ct == Source || ct == Processor then 1 else 0;
      } else {
        r := -ENOENT;
      }
    }

    /** Whether LoadLibrary ends with a table entry for `path`: the path is
        loaded already, or gSystem->Load succeeds. */
    static predicate Loadable(libs: seq<LibHandle>, path: string, osLoadSucceeds: bool) {
      FirstLibIndex(libs, path) >= 0 || osLoadSucceeds
    }

    /** Loads a library under the ROOT loader. `agentsBefore` and
        `agentsAfter` are the process-wide agent list before and after the
        load; `osLoadSucceeds` is the result of gSystem->Load; the prototypes
        the library constructs statically are `staticPrototypes`, and they
        queue themselves through the global handler during the load. */
    method LoadLibrary(libraryPath: Option<string>, activateAgents: bool,
                       agentsBefore: seq<Agent>, osLoadSucceeds: bool,
                       staticPrototypes: seq<Prototype>, agentsAfter: seq<Agent>)
      returns (r: int)
      requires Valid()
      modifies this`libraries, this`counters, this`nextCounter, this`components,
               this`schedule, this`globalHandlerSet, this`activations
      ensures Valid()
      ensures libraryPath.None? ==>
                r == -EINVAL && libraries == old(libraries) && counters == old(counters) &&
                components == old(components) && schedule == old(schedule) &&
                globalHandlerSet == old(globalHandlerSet)
      ensures libraryPath.Some? ==> !globalHandlerSet
      // agents are activated before the load and again after it when the flush did not fail
      ensures activations == old(activations)
                + (if libraryPath.Some? && activateAgents then agentsBefore else [])
                + (if activateAgents && r >= 0 then agentsAfter else [])
      // the load fails: nothing changes but the activations
      ensures libraryPath.Some? && !Loadable(old(libraries), libraryPath.value, osLoadSucceeds) ==>
                r == -ELIBACC && libraries == old(libraries) && counters == old(counters) &&
                components == old(components) && schedule == old(schedule)
      // the load succeeds: one more entry at the front, sharing the counter of
      // the path's first entry when it was loaded already
      ensures libraryPath.Some? && Loadable(old(libraries), libraryPath.value, osLoadSucceeds) ==>
                && |libraries| == |old(libraries)| + 1
                && libraries[1..] == old(libraries)
                && libraries[0].name == libraryPath.value
                && counters[libraries[0].counter] == Occurrences(old(libraries), libraryPath.value) + 1
                && (FirstLibIndex(old(libraries), libraryPath.value) >= 0 ==>
                      libraries[0] == old(libraries)[FirstLibIndex(old(libraries), libraryPath.value)])
      // the queue, with the static prototypes of a first load, is flushed
      ensures libraryPath.Some? && Loadable(old(libraries), libraryPath.value, osLoadSucceeds) ==>
                var queued := old(schedule) + (if FirstLibIndex(old(libraries), libraryPath.value) >= 0
                                               then [] else staticPrototypes);
                && components == Flush(old(components), queued).list
                && r == Flush(old(components), queued).code
                && schedule == []
    {
      if libraryPath.None? {
        r := -EINVAL;
        return;
      }
      var path := libraryPath.value;
      if activateAgents {
        ActivateAll(agentsBefore);
      }
      // static registration goes through the global handler
      globalHandlerSet := true;
      r := LoadAndRegister(path, osLoadSucceeds, staticPrototypes);
      globalHandlerSet := false;
      // dynamic registration by the agents, only once the global handler is cleared
      if r >= 0 && activateAgents {
        ActivateAll(agentsAfter);
      }
    }

    /** The part of LoadLibrary that runs while the handler is the global
        handler: the library is loaded, a new entry goes to the front of the
        table and the queue is flushed, or -ELIBACC when the load fails. */
    method LoadAndRegister(path: string, osLoadSucceeds: bool, staticPrototypes: seq<Prototype>)
      returns (r: int)
      requires TableOk(libraries, counters, nextCounter) && RegistryValid()
      requires globalHandlerSet
      modifies this`libraries, this`counters, this`nextCounter, this`components, this`schedule
      ensures TableOk(libraries, counters, nextCounter) && RegistryValid()
      ensures !Loadable(old(libraries), path, osLoadSucceeds) ==>
                r == -ELIBACC && libraries == old(libraries) && counters == old(counters) &&
                components == old(components) && schedule == old(schedule)
      ensures Loadable(old(libraries), path, osLoadSucceeds) ==>
                && |libraries| == |old(libraries)| + 1
                && libraries[1..] == old(libraries)
                && libraries[0].name == path
                && counters[libraries[0].counter] == Occurrences(old(libraries), path) + 1
                && (FirstLibIndex(old(libraries), path) >= 0 ==>
                      libraries[0] == old(libraries)[FirstLibIndex(old(libraries), path)])
      ensures Loadable(old(libraries), path, osLoadSucceeds) ==>
                var queued := old(schedule) + (if FirstLibIndex(old(libraries), path) >= 0
                                               then [] else staticPrototypes);
                && components == Flush(old(components), queued).list
                && r == Flush(old(components), queued).code
                && schedule == []
    {
      ghost var queued := schedule + (if FirstLibIndex(libraries, path) >= 0 then [] else staticPrototypes);
      var handle := LoadWithRoot(path, osLoadSucceeds, staticPrototypes);
      if handle.Some? {
        assert schedule == queued;
        r := InsertAndFlush(path, handle.value);
      } else {
        r := -ELIBACC;
      }
    }

    /** A successful load: the new entry goes to the front of the table and
        the queue is flushed into the registry. */
    method InsertAndFlush(path: string, counter: nat) returns (r: int)
      requires TableOk([LibHandle(path, counter)] + libraries, counters, nextCounter)
      requires RegistryValid()
      modifies this`libraries, this`components, this`schedule
      ensures TableOk(libraries, counters, nextCounter) && RegistryValid()
      ensures libraries == [LibHandle(path, counter)] + old(libraries)
      ensures schedule == []
      ensures components == Flush(old(components), old(schedule)).list
      ensures r == Flush(old(components), old(schedule)).code
    {
      libraries := [LibHandle(path, counter)] + libraries;
      r := RegisterScheduledComponents();
    }

    /** The ROOT-loader block of LoadLibrary: a path already in the table has
        its shared counter incremented and gSystem->Load is skipped; otherwise
        a successful load allocates a counter set to one, and the library's
        static prototypes have queued themselves meanwhile. Returns the
        counter address for the new table entry, or null when the load failed. */
    method LoadWithRoot(path: string, osLoadSucceeds: bool, staticPrototypes: seq<Prototype>)
      returns (handle: Option<nat>)
      requires TableOk(libraries, counters, nextCounter)
      requires globalHandlerSet
      modifies this`counters, this`nextCounter, this`schedule
      ensures handle.Some? ==> TableOk([LibHandle(path, handle.value)] + libraries, counters, nextCounter)
      ensures handle.Some? ==> handle.value in counters && counters[handle.value] == Occurrences(libraries, path) + 1
      ensures FirstLibIndex(libraries, path) >= 0 ==>
                && handle == Some(libraries[FirstLibIndex(libraries, path)].counter)
                && schedule == old(schedule) && nextCounter == old(nextCounter)
      ensures FirstLibIndex(libraries, path) < 0 && osLoadSucceeds ==>
                && handle == Some(old(nextCounter))
                && counters == old(counters)[old(nextCounter) := 1]
                && nextCounter == old(nextCounter) + 1
                && schedule == old(schedule) + staticPrototypes
      ensures FirstLibIndex(libraries, path) < 0 && !osLoadSucceeds ==>
                && handle.None?
                && counters == old(counters) && nextCounter == old(nextCounter)
                && schedule == old(schedule)
    {
      handle := None;
      var found := FindLibrary(path);
      if found.Some? {
        var c := ReloadCounter(found.value);
        handle := Some(c);
      }
      if handle.None? && osLoadSucceeds {
        // the library's static prototypes announce themselves to the global handler
        schedule := schedule + staticPrototypes;
        var c := NewCounter(path);
        handle := Some(c);
      }
    }

    /** A repeated load: the counter of entry k, whose path is being loaded
        again, is incremented and becomes the new entry's handle. */
    method ReloadCounter(k: nat) returns (c: nat)
      requires TableOk(libraries, counters, nextCounter)
      requires k < |libraries|
      modifies this`counters
      ensures c == libraries[k].counter
      ensures counters == old(counters)[c := old(counters)[c] + 1]
      ensures c in counters && counters[c] == Occurrences(libraries, libraries[k].name) + 1
      ensures TableOk([libraries[k]] + libraries, counters, nextCounter)
    {
      c := libraries[k].counter;
      var count := counters[c];
      assert count == Occurrences(libraries, libraries[k].name);
      TableReload(libraries, counters, nextCounter, k);
      counters := counters[c := count + 1];
    }

    /** A first load: a fresh counter set to one becomes the new entry's handle. */
    method NewCounter(path: string) returns (c: nat)
      requires TableOk(libraries, counters, nextCounter)
      requires forall i :: 0 <= i < |libraries| ==> libraries[i].name != path
      modifies this`counters, this`nextCounter
      ensures c == old(nextCounter) && nextCounter == c + 1
      ensures counters == old(counters)[c := 1]
      ensures c in counters && counters[c] == Occurrences(libraries, path) + 1
      ensures TableOk([LibHandle(path, c)] + libraries, counters, nextCounter)
    {
      TableFresh(libraries, counters, nextCounter, path);
      OccurrencesZero(libraries, path);
      c := nextCounter;
      nextCounter := nextCounter + 1;
      counters := counters[c := 1];
    }

    /** Unloads the first entry for the path; an unknown path is a no-op. */
    method UnloadLibrary(libraryPath: Option<string>) returns (r: int)
      requires TableOk(libraries, counters, nextCounter)
      modifies this`libraries, this`counters
      ensures TableOk(libraries, counters, nextCounter)
      ensures libraryPath.None? ==> r == -EINVAL
      ensures libraryPath.Some? ==> r == 0
      ensures libraryPath.None? || FirstLibIndex(old(libraries), libraryPath.value) < 0 ==>
                libraries == old(libraries) && counters == old(counters)
      ensures libraryPath.Some? && FirstLibIndex(old(libraries), libraryPath.value) >= 0 ==>
                var k := FirstLibIndex(old(libraries), libraryPath.value);
                && libraries == old(libraries)[..k] + old(libraries)[k + 1..]
                && counters == Release(old(counters), old(libraries)[k].counter)
                && Occurrences(libraries, libraryPath.value) == Occurrences(old(libraries), libraryPath.value) - 1
    {
      r := 0;
      if libraryPath.Some? {
        var path := libraryPath.value;
        var k := 0;
        while k < |libraries| && libraries[k].name != path
          invariant 0 <= k <= |libraries|
          invariant forall j :: 0 <= j < k ==> libraries[j].name != path
        {
          k := k + 1;
        }
        if k < |libraries| {
          assert k == FirstLibIndex(libraries, path);
          EraseEntry(k);
        }
      } else {
        r := -EINVAL;
      }
    }

    /** Releases entry k's library and erases the entry: the step both
        UnloadLibrary and UnloadLibraries take for each entry they drop. */
    method EraseEntry(k: nat)
      requires TableOk(libraries, counters, nextCounter)
      requires k < |libraries|
      modifies this`libraries, this`counters
      ensures TableOk(libraries, counters, nextCounter)
      ensures libraries == old(libraries)[..k] + old(libraries)[k + 1..]
      ensures counters == Release(old(counters), old(libraries)[k].counter)
      ensures Occurrences(libraries, old(libraries)[k].name) == Occurrences(old(libraries), old(libraries)[k].name) - 1
    {
      TableRemove(libraries, counters, nextCounter, k);
      OccurrencesRemove(libraries, k, libraries[k].name);
      var _ := UnloadLibraryHandle(libraries[k]);
      libraries := libraries[..k] + libraries[k + 1..];
    }

    /** The handle overload of UnloadLibrary: decrements the shared counter
        and frees it at zero. The library itself is never unloaded. */
    method UnloadLibraryHandle(handle: LibHandle) returns (r: int)
      requires handle.counter in counters
      modifies this`counters
      ensures r == 0
      ensures counters == Release(old(counters), handle.counter)
    {
      var c := handle.counter;
      counters := counters[c := counters[c] - 1];
      if counters[c] == 0 {
        // the call to gSystem->Unload stays disabled
        counters := counters - {c};
      }
      r := 0;
    }

    /** Unloads every library; the table and the counters end up empty. */
    method UnloadLibraries() returns (r: int)
      requires TableOk(libraries, counters, nextCounter)
      modifies this`libraries, this`counters
      ensures TableOk(libraries, counters, nextCounter)
      ensures r == 0 && libraries == [] && counters == map[]
    {
      while libraries != []
        invariant TableOk(libraries, counters, nextCounter)
        decreases |libraries|
      {
        assert libraries[..0] + libraries[1..] == libraries[1..];
        EraseEntry(0);
      }
      TableEmpty(counters, nextCounter);
      r := 0;
    }

    /** The first table entry for the path, as an index, or null. */
    method FindLibrary(library: string) returns (found: Option<nat>)
      ensures found.None? ==> forall j :: 0 <= j < |libraries| ==> libraries[j].name != library
      ensures found.Some? ==>
                found.value < |libraries| && libraries[found.value].name == library &&
                forall j :: 0 <= j < found.value ==> libraries[j].name != library
    {
      found := None;
      var k := 0;
      while k < |libraries|
        invariant 0 <= k <= |libraries|
        invariant forall j :: 0 <= j < k ==> libraries[j].name != library
      {
        if libraries[k].name == library {
          found := Some(k);
          break;
        }
        k := k + 1;
      }
    }

    /** Registers the standard components: the global handler is set and
        cleared again, then the queue is flushed. */
    method AddStandardComponents() returns (r: int)
      requires RegistryValid()
      modifies this`globalHandlerSet, this`components, this`schedule
      ensures RegistryValid()
      ensures !globalHandlerSet
      ensures schedule == []
      ensures components == Flush(old(components), old(schedule)).list
      ensures r == Flush(old(components), old(schedule)).code
    {
      globalHandlerSet := true;
      globalHandlerSet := false;
      r := RegisterScheduledComponents();
    }

    /** Drains the queue in submission order into the registry; returns the
        first nonzero per-entry result. */
    method RegisterScheduledComponents() returns (r: int)
      requires RegistryValid()
      modifies this`components, this`schedule
      ensures RegistryValid()
      ensures schedule == []
      ensures components == Flush(old(components), old(schedule)).list
      ensures r == Flush(old(components), old(schedule)).code
    {
      r := 0;
      while schedule != []
        invariant RegistryValid()
        invariant Flush(components, schedule).list == Flush(old(components), old(schedule)).list
        invariant (if r == 0 then Flush(components, schedule).code else r)
                  == Flush(old(components), old(schedule)).code
        decreases |schedule|
      {
        var local := RegisterComponent(Some(schedule[0]));
        if r == 0 {
          r := local;
        }
        schedule := schedule[1..];
      }
    }

    /** Calls ActivateComponentHandler on every agent of the list, in order,
        except those in blackList[0..size). Agents register their components
        dynamically, so this happens only while the handler is not the
        global handler. */
    method ActivateAgents(agents: seq<Agent>, blackList: Option<seq<Agent>>, size: int) returns (r: int)
      requires blackList.Some? ==> size <= |blackList.value|
      requires !globalHandlerSet
      modifies this`activations
      ensures r == 0
      ensures activations == old(activations) + Activated(agents, blackList, size)
    {
      r := 0;
      var k := 0;
      while k < |agents| && r >= 0
        invariant 0 <= k <= |agents|
        invariant r == 0
        invariant activations == old(activations) + Activated(agents[..k], blackList, size)
      {
        var agent := agents[k];
        var skip := false;
        if blackList.Some? {
          skip := InBlackList(blackList.value, size, agent);
        }
        assert agents[..k + 1][..k] == agents[..k];
        if !skip {
          // the agent is handed this handler to register its components with
          activations := activations + [agent];
        }
        k := k + 1;
      }
      assert agents[..k] == agents;
    }

    /** ActivateAgents with its default arguments (no black list), as
        LoadLibrary calls it: every agent is called, in order. */
    method ActivateAll(agents: seq<Agent>)
      requires !globalHandlerSet
      modifies this`activations
      ensures activations == old(activations) + agents
    {
      var _ := ActivateAgents(agents, None, 0);
      ActivatedAll(agents);
    }

    /** Deletes every owned prototype, front to back, and empties the list. */
    method DeleteStandardComponents() returns (r: int)
      requires RegistryValid()
      modifies this`owned, this`destroyed
      ensures RegistryValid()
      ensures r == 0
      ensures owned == [] && destroyed == old(destroyed) + old(owned)
      ensures Distinct(destroyed)
    {
      while owned != []
        invariant destroyed + owned == old(destroyed) + old(owned)
        invariant forall p :: p in destroyed + owned ==> p in components
        decreases |owned|
      {
        assert destroyed + owned == (destroyed + [owned[0]]) + owned[1..];
        destroyed := destroyed + [owned[0]];
        owned := owned[1..];
      }
      assert destroyed + owned == destroyed;
      r := 0;
    }

    /** The destructor: owned prototypes are deleted, then every library is
        unloaded. Prototypes registered without ownership are not deleted. */
    method Destroy()
      requires Valid()
      modifies this`owned, this`destroyed, this`libraries, this`counters
      ensures Valid()
      ensures owned == [] && destroyed == old(destroyed) + old(owned)
      // every owned prototype is deleted exactly once over the handler's life
      ensures Distinct(destroyed)
      ensures libraries == [] && counters == map[]
    {
      var _ := DeleteStandardComponents();
      var _ := UnloadLibraries();
    }
  }
}
