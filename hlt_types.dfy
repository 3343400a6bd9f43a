/**
 * Values and specification functions of the HLT component handler
 * (HLT/BASE/AliHLTComponentHandler.cxx): component prototypes, module agents,
 * library-table entries, the error codes the handler returns, and the pure
 * functions against which the methods of HLT.ComponentHandler are proved.
 */
module HLTTypes {
  import opened Wrappers

  // errno values (Linux numbering); the handler returns them negated
  const ENOENT: int := 2
  const EEXIST: int := 17
  const EINVAL: int := 22
  const ELIBACC: int := 79

  /** The classifier a prototype reports through GetComponentType. */
  datatype ComponentType = Unknown | Source | Processor | Sink

  /** A component prototype; `ref` stands for the object's address, so two
      prototypes with the same `id` can still be told apart. */
  datatype Prototype = Prototype(ref: nat, id: string, kind: ComponentType)

  /** A running instance produced by a prototype's Spawn. */
  datatype Instance = Instance(ref: nat)

  /** A module agent, identified by its address. */
  datatype Agent = Agent(ref: nat)

  /** The component environment the handler copies and hands to every Init.
      The handler never interprets it, so it is an opaque value here. */
  datatype Environment = Environment(contents: nat)

  /** The environment after `memset(&fEnvironment, 0, ...)`. */
  const ZeroEnvironment := Environment(0)

  /** An entry of the library table under the ROOT loader: the library path
      (the TString behind fName) and the address of the heap `int` counter
      that fHandle points to. Entries for the same path share one counter. */
  datatype LibHandle = LibHandle(name: string, counter: nat)

  // ------------------------------------------------------------------
  // Component registry
  // ------------------------------------------------------------------

  predicate HasId(list: seq<Prototype>, id: string) {
    exists i :: 0 <= i < |list| && list[i].id == id
  }

  /** No two registered prototypes share an identifier. */
  predicate UniqueIds(list: seq<Prototype>) {
    forall i, j :: 0 <= i < j < |list| ==> list[i].id != list[j].id
  }

  /** No prototype occurs twice in the sequence. */
  predicate Distinct(s: seq<Prototype>) {
    forall i, j :: 0 <= i < j < |s| ==> s[i] != s[j]
  }

  /** Appending a prototype that does not occur keeps a sequence distinct. */
  lemma DistinctAppend(s: seq<Prototype>, p: Prototype)
    requires Distinct(s)
    requires p !in s
    ensures Distinct(s + [p])
  {
    var t := s + [p];
    forall i, j | 0 <= i < j < |t| ensures t[i] != t[j] {
      if j == |s| {
        assert t[i] == s[i];
      } else {
        assert t[i] == s[i] && t[j] == s[j];
      }
    }
  }

  /** A prototype whose identifier is not registered is not registered. */
  lemma NewIdNotListed(list: seq<Prototype>, p: Prototype)
    requires !HasId(list, p.id)
    ensures p !in list
  {
    forall i | 0 <= i < |list| ensures list[i] != p {
      assert list[i].id != p.id;
    }
  }

  /** Position of the first prototype with identifier `id`, or -1. */
  function FirstIndex(list: seq<Prototype>, id: string): (r: int)
    ensures -1 <= r < |list|
    ensures 0 <= r ==> list[r].id == id && forall j :: 0 <= j < r ==> list[j].id != id
    ensures r < 0 <==> !HasId(list, id)
    decreases |list|
  {
    if list == [] then -1
    else if list[0].id == id then 0
    else
      var k := FirstIndex(list[1..], id);
      assert forall i :: 1 <= i < |list| ==> list[i] == list[1..][i - 1];
      if k < 0 then -1 else k + 1
  }

  /** Registering a prototype whose identifier is new makes it the one a
      lookup of that identifier finds. */
  lemma FindAfterRegister(list: seq<Prototype>, p: Prototype)
    requires !HasId(list, p.id)
    ensures FirstIndex(list + [p], p.id) == |list|
    ensures (list + [p])[FirstIndex(list + [p], p.id)] == p
  {
    var l := list + [p];
    assert l[|list|].id == p.id;
  }

  /** In a registry with unique identifiers, looking up the identifier of
      any entry finds that very entry. */
  lemma FindUnique(list: seq<Prototype>, k: nat)
    requires UniqueIds(list)
    requires k < |list|
    ensures FirstIndex(list, list[k].id) == k
  {
    assert HasId(list, list[k].id);
  }

  /** The registry and the result code after one registration attempt. */
  datatype Registration = Registration(list: seq<Prototype>, code: int)

  /** One registration of a non-null prototype: rejected with -EEXIST when the
      identifier is already present, appended at the end otherwise. */
  function RegisterStep(list: seq<Prototype>, p: Prototype): (r: Registration)
    ensures r.code == 0 <==> !HasId(list, p.id)
    ensures r.code == 0 || r.code == -EEXIST
    ensures HasId(r.list, p.id)
    ensures UniqueIds(list) ==> UniqueIds(r.list)
  {
    if HasId(list, p.id) then Registration(list, -EEXIST)
    else
      var l := list + [p];
      assert l[|list|].id == p.id;
      Registration(l, 0)
  }

  /** Draining a deferred-registration queue in submission order; the code is
      the first nonzero per-entry result. */
  function Flush(list: seq<Prototype>, queue: seq<Prototype>): (r: Registration)
    ensures list <= r.list && |r.list| <= |list| + |queue|
    ensures r.code == 0 || r.code == -EEXIST
    decreases |queue|
  {
    if queue == [] then Registration(list, 0)
    else
      var first := RegisterStep(list, queue[0]);
      var rest := Flush(first.list, queue[1..]);
      Registration(rest.list, if first.code == 0 then rest.code else first.code)
  }

  /** Every entry the flush adds comes from the queue. */
  lemma {:induction false} FlushExtends(list: seq<Prototype>, queue: seq<Prototype>)
    ensures forall p :: p in Flush(list, queue).list ==> p in list || p in queue
    decreases |queue|
  {
    if queue != [] {
      var first := RegisterStep(list, queue[0]);
      FlushExtends(first.list, queue[1..]);
      forall p | p in Flush(list, queue).list
        ensures p in list || p in queue
      {
        if p !in first.list {
          assert p in queue[1..];
        }
      }
    }
  }

  /** The flush keeps identifiers unique. */
  lemma {:induction false} FlushKeepsUnique(list: seq<Prototype>, queue: seq<Prototype>)
    requires UniqueIds(list)
    ensures UniqueIds(Flush(list, queue).list)
    decreases |queue|
  {
    if queue != [] {
      FlushKeepsUnique(RegisterStep(list, queue[0]).list, queue[1..]);
    }
  }

  lemma HasIdPrefix(small: seq<Prototype>, big: seq<Prototype>, id: string)
    requires small <= big
    requires HasId(small, id)
    ensures HasId(big, id)
  {
    var i :| 0 <= i < |small| && small[i].id == id;
    assert big[i] == small[i];
  }

  /** Every queued identifier, and every identifier registered before, is
      registered after the flush. */
  lemma {:induction false} FlushRegistersAll(list: seq<Prototype>, queue: seq<Prototype>)
    ensures forall i :: 0 <= i < |queue| ==> HasId(Flush(list, queue).list, queue[i].id)
    ensures forall id :: HasId(list, id) ==> HasId(Flush(list, queue).list, id)
    decreases |queue|
  {
    if queue != [] {
      var first := RegisterStep(list, queue[0]);
      FlushRegistersAll(first.list, queue[1..]);
      forall id | HasId(list, id)
        ensures HasId(Flush(list, queue).list, id)
      {
        FlushExtends(list, [queue[0]]);
        HasIdPrefix(list, first.list, id);
      }
      forall i | 0 <= i < |queue|
        ensures HasId(Flush(list, queue).list, queue[i].id)
      {
        if i > 0 {
          assert queue[i] == queue[1..][i - 1];
        }
      }
    }
  }

  /** Registering a new entry adds exactly its identifier. */
  lemma HasIdAppend(list: seq<Prototype>, p: Prototype)
    ensures forall id :: HasId(list + [p], id) <==> HasId(list, id) || id == p.id
  {
    forall id | HasId(list + [p], id) ensures HasId(list, id) || id == p.id {
      var i :| 0 <= i < |list + [p]| && (list + [p])[i].id == id;
      if i < |list| { assert list[i].id == id; }
    }
    forall id | HasId(list, id) ensures HasId(list + [p], id) {
      var i :| 0 <= i < |list| && list[i].id == id;
      assert (list + [p])[i].id == id;
    }
    assert (list + [p])[|list|].id == p.id;
  }

  /** Whether every queued identifier is new to the registry and to the rest
      of the queue. */
  ghost predicate CleanQueue(list: seq<Prototype>, queue: seq<Prototype>) {
    (forall i :: 0 <= i < |queue| ==> !HasId(list, queue[i].id)) && UniqueIds(queue)
  }

  /** A queue is clean for a registry exactly when its head is new and its
      tail is clean for the registry extended by the head. */
  lemma CleanQueueStep(list: seq<Prototype>, queue: seq<Prototype>)
    requires queue != []
    requires !HasId(list, queue[0].id)
    ensures CleanQueue(list, queue) <==> CleanQueue(list + [queue[0]], queue[1..])
  {
    var p, rest := queue[0], queue[1..];
    HasIdAppend(list, p);
    assert forall i :: 0 <= i < |rest| ==> rest[i] == queue[i + 1];
    if CleanQueue(list, queue) {
      forall i | 0 <= i < |rest| ensures !HasId(list + [p], rest[i].id) {
        assert queue[0].id != queue[i + 1].id;
      }
      assert UniqueIds(rest);
    } else if (forall i :: 0 <= i < |queue| ==> !HasId(list, queue[i].id)) {
      var i, j :| 0 <= i < j < |queue| && queue[i].id == queue[j].id;
      if i == 0 {
        assert HasId(list + [p], rest[j - 1].id);
      } else {
        assert rest[i - 1].id == rest[j - 1].id;
      }
    } else {
      var i :| 0 <= i < |queue| && HasId(list, queue[i].id);
      assert i != 0;
      assert HasId(list + [p], rest[i - 1].id);
    }
  }

  /** The flush returns 0 exactly when no queued identifier was registered
      before and the queue holds no identifier twice; otherwise -EEXIST. When
      it returns 0 the whole queue was appended in order. */
  lemma {:induction false} FlushCode(list: seq<Prototype>, queue: seq<Prototype>)
    ensures Flush(list, queue).code == 0 <==>
              (forall i :: 0 <= i < |queue| ==> !HasId(list, queue[i].id)) && UniqueIds(queue)
    ensures Flush(list, queue).code == 0 ==> Flush(list, queue).list == list + queue
    decreases |queue|
  {
    if queue != [] {
      var p, rest := queue[0], queue[1..];
      var first := RegisterStep(list, p);
      FlushCode(first.list, rest);
      if HasId(list, p.id) {
        assert !CleanQueue(list, queue);
      } else {
        assert first.list == list + [p];
        CleanQueueStep(list, queue);
        if Flush(list, queue).code == 0 {
          assert Flush(list, queue).list == (list + [p]) + rest;
          assert [p] + rest == queue;
        }
      }
    }
  }

  /** A queue [A, B, A] (A and B with different identifiers) registers A and
      B once each and reports -EEXIST for the repeated A. */
  lemma FlushDuplicateExample(a: Prototype, b: Prototype)
    requires a.id != b.id
    ensures Flush([], [a, b, a]) == Registration([a, b], -EEXIST)
  {
    var s1 := RegisterStep([], a);
    assert s1 == Registration([a], 0);
    var s2 := RegisterStep([a], b);
    assert !HasId([a], b.id);
    assert s2 == Registration([a, b], 0);
    assert [a, b][0].id == a.id;
    assert RegisterStep([a, b], a) == Registration([a, b], -EEXIST);
    assert Flush([a, b], [a]) == Registration([a, b], -EEXIST);
    assert [b, a][1..] == [a];
    assert Flush([a], [b, a]) == Registration([a, b], -EEXIST);
    assert [a, b, a][1..] == [b, a];
  }

  // ------------------------------------------------------------------
  // Agent activation
  // ------------------------------------------------------------------

  /** Whether `a` occurs in blackList[0..size); a NULL black list excludes nothing. */
  predicate Excluded(blackList: Option<seq<Agent>>, size: int, a: Agent)
    requires blackList.Some? ==> size <= |blackList.value|
  {
    blackList.Some? && exists i :: 0 <= i < size && blackList.value[i] == a
  }

  /** The agents whose ActivateComponentHandler is called, in list order. */
  function Activated(agents: seq<Agent>, blackList: Option<seq<Agent>>, size: int): (r: seq<Agent>)
    requires blackList.Some? ==> size <= |blackList.value|
    ensures |r| <= |agents|
    decreases |agents|
  {
    if agents == [] then []
    else
      var done := Activated(agents[..|agents| - 1], blackList, size);
      var a := agents[|agents| - 1];
      if Excluded(blackList, size, a) then done else done + [a]
  }

  /** An agent is activated exactly when it is in the agent list and not
      black-listed: a black-listed agent is never called. */
  lemma {:induction false} ActivatedMembers(agents: seq<Agent>, blackList: Option<seq<Agent>>, size: int, a: Agent)
    requires blackList.Some? ==> size <= |blackList.value|
    ensures a in Activated(agents, blackList, size) <==> a in agents && !Excluded(blackList, size, a)
    decreases |agents|
  {
    if agents != [] {
      var front := agents[..|agents| - 1];
      ActivatedMembers(front, blackList, size, a);
      assert agents == front + [agents[|agents| - 1]];
    }
  }

  /** Without a black list every agent is activated, in list order. */
  lemma {:induction false} ActivatedAll(agents: seq<Agent>)
    ensures Activated(agents, None, 0) == agents
    decreases |agents|
  {
    if agents != [] {
      ActivatedAll(agents[..|agents| - 1]);
      assert agents == agents[..|agents| - 1] + [agents[|agents| - 1]];
    }
  }

  // ------------------------------------------------------------------
  // Library table (ROOT loader)
  // ------------------------------------------------------------------

  /** Number of table entries for `path`. */
  function Occurrences(libs: seq<LibHandle>, path: string): (n: nat)
    ensures n <= |libs|
    decreases |libs|
  {
    if libs == [] then 0
    else (if libs[0].name == path then 1 else 0) + Occurrences(libs[1..], path)
  }

  /** A path has no entries exactly when no entry names it. */
  lemma {:induction false} OccurrencesZero(libs: seq<LibHandle>, path: string)
    ensures Occurrences(libs, path) == 0 <==> forall i :: 0 <= i < |libs| ==> libs[i].name != path
    decreases |libs|
  {
    if libs != [] {
      OccurrencesZero(libs[1..], path);
      assert forall i :: 1 <= i < |libs| ==> libs[i] == libs[1..][i - 1];
    }
  }

  /** Position of the first table entry for `path`, or -1. */
  function FirstLibIndex(libs: seq<LibHandle>, path: string): (r: int)
    ensures -1 <= r < |libs|
    ensures 0 <= r ==> libs[r].name == path && forall j :: 0 <= j < r ==> libs[j].name != path
    ensures r < 0 <==> forall j :: 0 <= j < |libs| ==> libs[j].name != path
    decreases |libs|
  {
    if libs == [] then -1
    else if libs[0].name == path then 0
    else
      var k := FirstLibIndex(libs[1..], path);
      assert forall i :: 1 <= i < |libs| ==> libs[i] == libs[1..][i - 1];
      if k < 0 then -1 else k + 1
  }

  /** Removing entry k lowers the count of its path by one and leaves the
      other paths' counts alone. */
  lemma {:induction false} OccurrencesRemove(libs: seq<LibHandle>, k: nat, path: string)
    requires k < |libs|
    ensures Occurrences(libs[..k] + libs[k + 1..], path)
            == Occurrences(libs, path) - (if libs[k].name == path then 1 else 0)
    decreases k
  {
    if k > 0 {
      var tail := libs[1..];
      OccurrencesRemove(tail, k - 1, path);
      assert libs[..k] + libs[k + 1..] == [libs[0]] + (tail[..k - 1] + tail[k..]);
    } else {
      assert libs[..0] + libs[1..] == libs[1..];
    }
  }

  /** The counter addresses the table refers to. */
  function CountersOf(libs: seq<LibHandle>): set<nat> {
    set i | 0 <= i < |libs| :: libs[i].counter
  }

  /** Every entry's counter is allocated and equals the number of entries for its path. */
  ghost predicate CountsMatch(libs: seq<LibHandle>, counters: map<nat, int>) {
    forall i :: 0 <= i < |libs| ==>
      libs[i].counter in counters && counters[libs[i].counter] == Occurrences(libs, libs[i].name)
  }

  /** Two entries share a counter exactly when they share a path. */
  ghost predicate SharedByPath(libs: seq<LibHandle>) {
    forall i, j :: 0 <= i < |libs| && 0 <= j < |libs| ==>
      (libs[i].name == libs[j].name <==> libs[i].counter == libs[j].counter)
  }

  /** The library-table invariant of the ROOT branch: every counter equals the
      number of entries for its path, entries share a counter exactly when
      they share a path, the counter table holds no counter that no entry
      refers to, and every allocated counter lies below `next`. */
  ghost predicate TableOk(libs: seq<LibHandle>, counters: map<nat, int>, next: nat) {
    && counters.Keys == CountersOf(libs)
    && (forall c :: c in counters ==> c < next)
    && CountsMatch(libs, counters)
    && SharedByPath(libs)
  }

  /** The counter table after `if (--(*pCount)==0) delete pCount`. */
  function Release(counters: map<nat, int>, c: nat): (r: map<nat, int>)
    requires c in counters
    ensures c in r <==> counters[c] != 1
    ensures c in r ==> r[c] == counters[c] - 1
    ensures forall d :: d != c ==> (d in r <==> d in counters)
    ensures forall d :: d != c && d in counters ==> r[d] == counters[d]
  {
    if counters[c] - 1 == 0 then counters - {c} else counters[c := counters[c] - 1]
  }

  /** In a valid table every counter is at least one. */
  lemma CountersPositive(libs: seq<LibHandle>, counters: map<nat, int>, next: nat, c: nat)
    requires TableOk(libs, counters, next)
    requires c in counters
    ensures counters[c] >= 1
  {
    assert c in CountersOf(libs);
    var i :| 0 <= i < |libs| && libs[i].counter == c;
    OccurrencesZero(libs, libs[i].name);
  }

  lemma CountersOfPrepend(e: LibHandle, libs: seq<LibHandle>)
    ensures CountersOf([e] + libs) == CountersOf(libs) + {e.counter}
  {
    var libs' := [e] + libs;
    forall c | c in CountersOf(libs') ensures c in CountersOf(libs) + {e.counter} {
      var i :| 0 <= i < |libs'| && libs'[i].counter == c;
      if i > 0 { assert libs[i - 1] == libs'[i]; }
    }
    forall c | c in CountersOf(libs) ensures c in CountersOf(libs') {
      var i :| 0 <= i < |libs| && libs[i].counter == c;
      assert libs'[i + 1] == libs[i];
    }
    assert libs'[0] == e;
  }

  /** A copy of entry k put at the front keeps paths and counters paired. */
  lemma SharedAfterPrepend(libs: seq<LibHandle>, k: nat)
    requires SharedByPath(libs)
    requires k < |libs|
    ensures SharedByPath([libs[k]] + libs)
  {
    var libs' := [libs[k]] + libs;
    forall i, j | 0 <= i < |libs'| && 0 <= j < |libs'|
      ensures libs'[i].name == libs'[j].name <==> libs'[i].counter == libs'[j].counter
    {
      assert libs'[i] == libs[if i == 0 then k else i - 1];
      assert libs'[j] == libs[if j == 0 then k else j - 1];
    }
  }

  /** Counting the entries of a table with one more entry at the front. */
  lemma OccurrencesPrepend(e: LibHandle, libs: seq<LibHandle>, path: string)
    ensures Occurrences([e] + libs, path) == (if e.name == path then 1 else 0) + Occurrences(libs, path)
  {
    assert ([e] + libs)[1..] == libs;
  }

  /** A copy of entry k put at the front, with its counter incremented, keeps
      every counter equal to its path's entry count. */
  lemma CountsAfterReload(libs: seq<LibHandle>, counters: map<nat, int>, next: nat, k: nat)
    requires TableOk(libs, counters, next)
    requires k < |libs|
    ensures CountsMatch([libs[k]] + libs, counters[libs[k].counter := counters[libs[k].counter] + 1])
  {
    var e := libs[k];
    var libs' := [e] + libs;
    var counters' := counters[e.counter := counters[e.counter] + 1];
    forall i | 0 <= i < |libs'|
      ensures libs'[i].counter in counters' && counters'[libs'[i].counter] == Occurrences(libs', libs'[i].name)
    {
      var j := if i == 0 then k else i - 1;
      assert libs'[i] == libs[j];
      OccurrencesPrepend(e, libs, libs[j].name);
    }
  }

  /** Loading a path that is already in the table: a new entry at the front
      shares the first matching entry's counter, which is incremented. */
  lemma TableReload(libs: seq<LibHandle>, counters: map<nat, int>, next: nat, k: nat)
    requires TableOk(libs, counters, next)
    requires k < |libs|
    ensures TableOk([libs[k]] + libs, counters[libs[k].counter := counters[libs[k].counter] + 1], next)
  {
    var e := libs[k];
    CountersOfPrepend(e, libs);
    assert e.counter in CountersOf(libs);
    CountsAfterReload(libs, counters, next, k);
    SharedAfterPrepend(libs, k);
  }

  /** A new path at the front with a fresh counter set to one keeps every
      counter equal to its path's entry count. */
  lemma CountsAfterFresh(libs: seq<LibHandle>, counters: map<nat, int>, next: nat, path: string)
    requires TableOk(libs, counters, next)
    requires forall i :: 0 <= i < |libs| ==> libs[i].name != path
    ensures CountsMatch([LibHandle(path, next)] + libs, counters[next := 1])
  {
    var e := LibHandle(path, next);
    var libs' := [e] + libs;
    var counters' := counters[next := 1];
    OccurrencesZero(libs, path);
    forall i | 0 <= i < |libs'|
      ensures libs'[i].counter in counters' && counters'[libs'[i].counter] == Occurrences(libs', libs'[i].name)
    {
      if i == 0 {
        OccurrencesPrepend(e, libs, path);
      } else {
        var d := libs[i - 1];
        assert libs'[i] == d;
        assert d.counter in counters && d.counter < next;
        OccurrencesPrepend(e, libs, d.name);
      }
    }
  }

  /** A new path at the front with a counter no entry uses keeps paths and
      counters paired. */
  lemma SharedAfterFresh(libs: seq<LibHandle>, path: string, c: nat)
    requires SharedByPath(libs)
    requires forall i :: 0 <= i < |libs| ==> libs[i].name != path && libs[i].counter != c
    ensures SharedByPath([LibHandle(path, c)] + libs)
  {
    var libs' := [LibHandle(path, c)] + libs;
    forall i, j | 0 <= i < |libs'| && 0 <= j < |libs'|
      ensures libs'[i].name == libs'[j].name <==> libs'[i].counter == libs'[j].counter
    {
      if i > 0 { assert libs'[i] == libs[i - 1]; }
      if j > 0 { assert libs'[j] == libs[j - 1]; }
    }
  }

  /** Loading a path that is not in the table: a new entry at the front with a
      fresh counter set to one. */
  lemma TableFresh(libs: seq<LibHandle>, counters: map<nat, int>, next: nat, path: string)
    requires TableOk(libs, counters, next)
    requires forall i :: 0 <= i < |libs| ==> libs[i].name != path
    ensures TableOk([LibHandle(path, next)] + libs, counters[next := 1], next + 1)
  {
    CountersOfPrepend(LibHandle(path, next), libs);
    forall i | 0 <= i < |libs| ensures libs[i].counter != next {
      CounterOfEntry(libs, i);
    }
    CountsAfterFresh(libs, counters, next, path);
    SharedAfterFresh(libs, path, next);
  }

  /** Removing entry k leaves a table whose remaining entries keep their
      counters and whose paths keep sharing them. */
  lemma SharedAfterRemove(libs: seq<LibHandle>, k: nat)
    requires SharedByPath(libs)
    requires k < |libs|
    ensures SharedByPath(libs[..k] + libs[k + 1..])
  {
    var libs' := libs[..k] + libs[k + 1..];
    forall i, j | 0 <= i < |libs'| && 0 <= j < |libs'|
      ensures libs'[i].name == libs'[j].name <==> libs'[i].counter == libs'[j].counter
    {
      assert libs'[i] == libs[if i < k then i else i + 1];
      assert libs'[j] == libs[if j < k then j else j + 1];
    }
  }

  lemma CountsAfterRemove(libs: seq<LibHandle>, counters: map<nat, int>, next: nat, k: nat)
    requires TableOk(libs, counters, next)
    requires k < |libs|
    ensures CountsMatch(libs[..k] + libs[k + 1..], Release(counters, libs[k].counter))
  {
    var e := libs[k];
    var libs' := libs[..k] + libs[k + 1..];
    var counters' := Release(counters, e.counter);
    forall i | 0 <= i < |libs'|
      ensures libs'[i].counter in counters' && counters'[libs'[i].counter] == Occurrences(libs', libs'[i].name)
    {
      var j := if i < k then i else i + 1;
      assert libs'[i] == libs[j];
      OccurrencesRemove(libs, k, libs[j].name);
      if libs[j].name == e.name {
        OccurrencesZero(libs', e.name);
      }
    }
  }

  lemma KeysAfterRemove(libs: seq<LibHandle>, counters: map<nat, int>, next: nat, k: nat)
    requires TableOk(libs, counters, next)
    requires k < |libs|
    ensures Release(counters, libs[k].counter).Keys == CountersOf(libs[..k] + libs[k + 1..])
  {
    var e := libs[k];
    var libs' := libs[..k] + libs[k + 1..];
    var counters' := Release(counters, e.counter);
    CountsAfterRemove(libs, counters, next, k);
    forall c | c in CountersOf(libs') ensures c in counters' {
      var i :| 0 <= i < |libs'| && libs'[i].counter == c;
    }
    forall c | c in counters' ensures c in CountersOf(libs') {
      KeptCounterReferenced(libs, counters, next, k, c);
    }
  }

  /** When more than one entry names entry k's path, and those entries share
      entry k's counter, the shortened table still refers to that counter. */
  lemma SharedCounterRemains(libs: seq<LibHandle>, k: nat)
    requires k < |libs|
    requires forall j :: 0 <= j < |libs| && libs[j].name == libs[k].name ==> libs[j].counter == libs[k].counter
    requires Occurrences(libs, libs[k].name) >= 2
    ensures libs[k].counter in CountersOf(libs[..k] + libs[k + 1..])
  {
    var e := libs[k];
    OccurrencesRemove(libs, k, e.name);
    var i := NamedEntry(libs[..k] + libs[k + 1..], e.name);
    RemovedEntry(libs, k, i);
    CounterOfEntry(libs[..k] + libs[k + 1..], i);
  }

  /** An index of an entry for a path that occurs in the table. */
  lemma NamedEntry(libs: seq<LibHandle>, path: string) returns (i: nat)
    requires Occurrences(libs, path) >= 1
    ensures i < |libs| && libs[i].name == path
  {
    OccurrencesZero(libs, path);
    i :| 0 <= i < |libs| && libs[i].name == path;
  }

  /** Entry i of the table without entry k. */
  lemma RemovedEntry(libs: seq<LibHandle>, k: nat, i: nat)
    requires k < |libs| && i < |libs| - 1
    ensures (libs[..k] + libs[k + 1..])[i] == libs[if i < k then i else i + 1]
  {
  }

  lemma CounterOfEntry(libs: seq<LibHandle>, i: nat)
    requires i < |libs|
    ensures libs[i].counter in CountersOf(libs)
  {
  }

  /** A counter that survives the release of entry k is still referred to by
      an entry of the shortened table. */
  lemma KeptCounterReferenced(libs: seq<LibHandle>, counters: map<nat, int>, next: nat, k: nat, c: nat)
    requires TableOk(libs, counters, next)
    requires k < |libs|
    requires c in Release(counters, libs[k].counter)
    ensures c in CountersOf(libs[..k] + libs[k + 1..])
  {
    var libs' := libs[..k] + libs[k + 1..];
    assert c in CountersOf(libs);
    var j :| 0 <= j < |libs| && libs[j].counter == c;
    if j == k {
      // the counter survived its decrement, so another entry shares its path
      CountersPositive(libs, counters, next, c);
      assert counters[c] == Occurrences(libs, libs[k].name);
      assert forall j :: 0 <= j < |libs| && libs[j].name == libs[k].name ==> libs[j].counter == libs[k].counter;
      SharedCounterRemains(libs, k);
    } else {
      var i := if j < k then j else j - 1;
      assert libs'[i] == libs[j];
    }
  }

  /** Unloading entry k: the entry is erased and its counter released; the
      table stays valid. */
  lemma TableRemove(libs: seq<LibHandle>, counters: map<nat, int>, next: nat, k: nat)
    requires TableOk(libs, counters, next)
    requires k < |libs|
    ensures TableOk(libs[..k] + libs[k + 1..], Release(counters, libs[k].counter), next)
  {
    CountsAfterRemove(libs, counters, next, k);
    KeysAfterRemove(libs, counters, next, k);
    SharedAfterRemove(libs, k);
  }

  /** The empty table with no counters is valid. */
  lemma TableInitial(next: nat)
    ensures TableOk([], map[], next)
  {
    assert CountersOf([]) == {};
  }

  /** An empty table holds no counters: none is leaked. */
  lemma TableEmpty(counters: map<nat, int>, next: nat)
    requires TableOk([], counters, next)
    ensures counters == map[]
  {
    assert counters.Keys == {};
  }
}
