/** The cache of dictionary answers (TableInfoCache.cpp) and what its entries are worth over a run. */
module TableInfoCaching {
  import opened Wrappers
  import opened Wire
  import opened NdbTables

  type Entries = map<Bytes, TableInfo>

  class TableInfoCache {
    var entries: Entries

    constructor ()
      ensures entries == map[]
    {
      entries := map[];
    }

    method Get(storeName: Bytes) returns (info: Option<TableInfo>)
      ensures info == Lookup(entries, storeName)
    {
      if storeName in entries {
        return Some(entries[storeName]);
      } else {
        return None;
      }
    }

    /** `newTableInfo` is the dictionary's answer; a missing table is not cached. */
    method Set(storeName: Bytes, newTableInfo: Option<TableInfo>) returns (info: Option<TableInfo>)
      modifies this
      ensures info == newTableInfo && entries == Filled(old(entries), storeName, newTableInfo)
    {
      if newTableInfo.Some? {
        entries := entries[storeName := newTableInfo.value];
      }
      return newTableInfo;
    }

    method Invalidate(storeName: Bytes)
      modifies this
      ensures entries == old(entries) - {storeName}
    {
      entries := entries - {storeName};
    }

    /** get, then set on a miss, as _startTransaction and the GET planner do. */
    method GetOrFill(storeName: Bytes, dictionary: Entries) returns (info: Option<TableInfo>)
      modifies this
      ensures entries == AfterLookup(old(entries), dictionary, storeName)
      ensures info == if storeName in old(entries) then Some(old(entries)[storeName]) else Lookup(dictionary, storeName)
      ensures entries == if storeName !in old(entries) && storeName in dictionary then
                           old(entries)[storeName := dictionary[storeName]]
                         else old(entries)
      ensures info.Some? <==> storeName in old(entries) || storeName in dictionary
      ensures info.Some? ==> storeName in entries && info.value == entries[storeName]
    {
      info := Get(storeName);
      if info.None? {
        info := Set(storeName, Lookup(dictionary, storeName));
      }
    }
  }

  function Lookup(entries: Entries, name: Bytes): Option<TableInfo> {
    if name in entries then Some(entries[name]) else None
  }

  function Filled(entries: Entries, name: Bytes, info: Option<TableInfo>): Entries {
    if info.Some? then entries[name := info.value] else entries
  }

  function AfterLookup(entries: Entries, dictionary: Entries, name: Bytes): Entries {
    if name in entries then entries else Filled(entries, name, Lookup(dictionary, name))
  }

  /** Every cached entry is what the dictionary says. */
  ghost predicate Agrees(entries: Entries, dictionary: Entries) {
    forall name :: name in entries ==> name in dictionary && entries[name] == dictionary[name]
  }

  // ---------------------------------------------------------------- whole operations as steps

  /** A store created or dropped (queries that MySQL refuses change nothing), or looked up. */
  datatype Event = Created(name: Bytes, info: TableInfo) | Dropped(name: Bytes) | LookedUp(name: Bytes)

  datatype System = System(dictionary: Entries, entries: Entries)

  function After(s: System, e: Event): System {
    match e
    case Created(name, info) =>
      if name in s.dictionary then s else s.(dictionary := s.dictionary[name := info])
    case Dropped(name) =>
      if name in s.dictionary then System(s.dictionary - {name}, s.entries - {name}) else s
    case LookedUp(name) => s.(entries := AfterLookup(s.entries, s.dictionary, name))
  }

  function AfterAll(s: System, es: seq<Event>): System
    decreases |es|
  {
    if es == [] then s else AfterAll(After(s, es[0]), es[1..])
  }

  /** With each operation as one step, the cache agrees with the dictionary after any run. */
  lemma {:induction false} CacheAgreesAfterAnyRun(s: System, es: seq<Event>)
    requires Agrees(s.entries, s.dictionary)
    ensures Agrees(AfterAll(s, es).entries, AfterAll(s, es).dictionary)
    decreases |es|
  {
    if es != [] {
      CacheAgreesAfterAnyRun(After(s, es[0]), es[1..]);
    }
  }

  // ---------------------------------------------------------------- steps split at the lock

  /** An answer fetched from the dictionary for `name`, not yet written under the lock. */
  datatype Fetched = Fetched(name: Bytes, info: TableInfo)

  /**
   The steps threads really interleave. A lookup is three: `get` misses, `set` asks the dictionary,
   which may fail to answer, and writes the answer under the lock. A drop is two.
   */
  datatype Step =
    | Create(name: Bytes, info: TableInfo)
    | DropQuery(name: Bytes)
    | Invalidate(name: Bytes)
    | Miss(name: Bytes)
    | Fetch(name: Bytes)
    | GiveUp(name: Bytes)
    | Write(fetched: Fetched)

  /**
   `missed`: the names threads have missed and will ask the dictionary for; `fetched`: the answers
   they have yet to write; `dropped`: the stores whose entry they have yet to invalidate. `answers` is
   every answer the dictionary could have given so far.
   */
  datatype Threads = Threads(dictionary: Entries, entries: Entries, missed: multiset<Bytes>,
      fetched: multiset<Fetched>, dropped: multiset<Bytes>, answers: set<Fetched>)

  predicate Enabled(s: Threads, step: Step) {
    match step
    case Create(name, _) => name !in s.dictionary
    case DropQuery(name) => name in s.dictionary
    case Invalidate(name) => name in s.dropped
    case Miss(name) => name !in s.entries
    case Fetch(name) => name in s.missed
    case GiveUp(name) => name in s.missed
    case Write(f) => f in s.fetched
  }

  function Answer(dictionary: Entries, name: Bytes): multiset<Fetched> {
    if name in dictionary then multiset{Fetched(name, dictionary[name])} else multiset{}
  }

  function Next(s: Threads, step: Step): Threads
    requires Enabled(s, step)
  {
    match step
    case Create(name, info) =>
      s.(dictionary := s.dictionary[name := info], answers := s.answers + {Fetched(name, info)})
    case DropQuery(name) => s.(dictionary := s.dictionary - {name}, dropped := s.dropped + multiset{name})
    case Invalidate(name) => s.(entries := s.entries - {name}, dropped := s.dropped - multiset{name})
    case Miss(name) => s.(missed := s.missed + multiset{name})
    case Fetch(name) =>
      s.(missed := s.missed - multiset{name},
         fetched := s.fetched + Answer(s.dictionary, name))
    case GiveUp(name) => s.(missed := s.missed - multiset{name})
    case Write(f) => s.(entries := s.entries[f.name := f.info], fetched := s.fetched - multiset{f})
  }

  ghost predicate Runs(s: Threads, steps: seq<Step>, end: Threads)
    decreases |steps|
  {
    if steps == [] then s == end else Enabled(s, steps[0]) && Runs(Next(s, steps[0]), steps[1..], end)
  }

  const START := Threads(map[], map[], multiset{}, multiset{}, multiset{}, {})

  /** Whatever is cached, fetched or in the dictionary was an answer of the dictionary once. */
  ghost predicate OnlyAnswers(s: Threads) {
    && (forall name :: name in s.dictionary ==> Fetched(name, s.dictionary[name]) in s.answers)
    && (forall name :: name in s.entries ==> Fetched(name, s.entries[name]) in s.answers)
    && forall f :: f in s.fetched ==> f in s.answers
  }

  lemma StepKeepsAnswers(s: Threads, step: Step)
    requires OnlyAnswers(s) && Enabled(s, step)
    ensures OnlyAnswers(Next(s, step))
  {
    match step
    case Create(_, _) =>
    case DropQuery(_) =>
    case Invalidate(_) =>
    case Miss(_) =>
    case Fetch(_) =>
    case GiveUp(_) =>
    case Write(f) => assert f in s.answers;
  }

  lemma {:induction false} EntriesAreEarlierAnswers(s: Threads, steps: seq<Step>, end: Threads)
    requires OnlyAnswers(s) && Runs(s, steps, end)
    ensures OnlyAnswers(end)
    decreases |steps|
  {
    if steps != [] {
      StepKeepsAnswers(s, steps[0]);
      EntriesAreEarlierAnswers(Next(s, steps[0]), steps[1..], end);
    }
  }

  /** Where the cache disagrees with the dictionary, a drop has still to invalidate the entry. */
  ghost predicate Lags(s: Threads) {
    forall name :: name in s.entries ==> IsCurrent(s, name, s.entries[name]) || name in s.dropped
  }

  predicate IsCurrent(s: Threads, name: Bytes, info: TableInfo) {
    name in s.dictionary && s.dictionary[name] == info
  }

  /** An answer is written in time if it is still right, or the drop that overtook it has yet to invalidate it. */
  predicate IsTimely(s: Threads, step: Step) {
    step.Write? ==> IsCurrent(s, step.fetched.name, step.fetched.info) || step.fetched.name in s.dropped
  }

  /** Of all the steps only a late write makes the cache do more than lag behind the drops. */
  lemma LagsExactlyWhenTimely(s: Threads, step: Step)
    requires Enabled(s, step) && Lags(s)
    ensures Lags(Next(s, step)) <==> IsTimely(s, step)
  {
    var next := Next(s, step);
    match step
    case Write(f) => assert f.name in next.entries;
    case _ =>
  }

  /** Every write of the run is in time. */
  ghost predicate AllTimely(s: Threads, steps: seq<Step>)
    decreases |steps|
  {
    steps != [] && Enabled(s, steps[0]) ==> IsTimely(s, steps[0]) && AllTimely(Next(s, steps[0]), steps[1..])
  }

  /** With timely writes the cache agrees with the dictionary whenever no drop is under way. */
  lemma {:induction false} AgreesBetweenDrops(s: Threads, steps: seq<Step>, end: Threads)
    requires Lags(s) && Runs(s, steps, end) && AllTimely(s, steps)
    ensures Lags(end) && (end.dropped == multiset{} ==> Agrees(end.entries, end.dictionary))
    decreases |steps|
  {
    hide Enabled;
    hide Next;
    if steps != [] {
      LagsExactlyWhenTimely(s, steps[0]);
      AgreesBetweenDrops(Next(s, steps[0]), steps[1..], end);
    }
  }

  // ---------------------------------------------------------------- stale entries

  predicate IsStale(s: Threads, name: Bytes) { name in s.entries && !IsCurrent(s, name, s.entries[name]) }

  /** The steps that can end it: its invalidation, a write of its name, or the same table created again. */
  predicate Refreshes(step: Step, name: Bytes, info: TableInfo) {
    match step
    case Invalidate(n) => n == name
    case Write(f) => f.name == name
    case Create(n, i) => n == name && i == info
    case _ => false
  }

  lemma StepKeepsStale(s: Threads, step: Step, name: Bytes)
    requires Enabled(s, step) && IsStale(s, name) && !Refreshes(step, name, s.entries[name])
    ensures IsStale(Next(s, step), name) && Next(s, step).entries[name] == s.entries[name]
  {
  }

  /** A stale entry stays, unchanged and stale, over every run without such a step. */
  lemma {:induction false} StaleEntriesStay(s: Threads, steps: seq<Step>, end: Threads, name: Bytes)
    requires Runs(s, steps, end) && IsStale(s, name)
    requires forall step :: step in steps ==> !Refreshes(step, name, s.entries[name])
    ensures IsStale(end, name) && end.entries[name] == s.entries[name]
    decreases |steps|
  {
    hide Enabled;
    hide Next;
    hide Refreshes;
    if steps != [] {
      assert steps[0] in steps && forall step :: step in steps[1..] ==> step in steps;
      StepKeepsStale(s, steps[0], name);
      StaleEntriesStay(Next(s, steps[0]), steps[1..], end, name);
    }
  }

  /** No thread is about to write or invalidate the entry, or past a miss of it. */
  predicate IsSettled(s: Threads, name: Bytes) {
    name !in s.dropped && name !in s.missed && forall f :: f in s.fetched ==> f.name != name
  }

  lemma SettledStepKeepsStale(s: Threads, step: Step, name: Bytes)
    requires Enabled(s, step) && IsStale(s, name) && IsSettled(s, name)
    requires step != DropQuery(name) && step != Create(name, s.entries[name])
    ensures IsSettled(Next(s, step), name) && !Refreshes(step, name, s.entries[name])
  {
  }

  /**
   A cached name is not missed again, so a stale entry that nobody is about to touch stays until its
   store is dropped again, or created again just as it was.
   */
  lemma {:induction false} StaleForGood(s: Threads, steps: seq<Step>, end: Threads, name: Bytes)
    requires Runs(s, steps, end) && IsStale(s, name) && IsSettled(s, name)
    requires DropQuery(name) !in steps && Create(name, s.entries[name]) !in steps
    ensures IsStale(end, name) && IsSettled(end, name) && end.entries[name] == s.entries[name]
    decreases |steps|
  {
    hide Enabled;
    hide Next;
    hide IsSettled;
    if steps != [] {
      assert steps[0] in steps && forall step :: step in steps[1..] ==> step in steps;
      SettledStepKeepsStale(s, steps[0], name);
      StepKeepsStale(s, steps[0], name);
      StaleForGood(Next(s, steps[0]), steps[1..], end, name);
    }
  }

  /** It does happen: a fetch that is overtaken by a drop leaves the dropped store in the cache for good. */
  lemma CacheCanBeStale(name: Bytes, info: TableInfo)
    ensures exists end :: Runs(START, StaleRun(name, info), end) && IsStale(end, name) && IsSettled(end, name)
  {
    var fetched := Threads(map[name := info], map[], multiset{}, multiset{Fetched(name, info)}, multiset{},
                           {Fetched(name, info)});
    var end := Threads(map[], map[name := info], multiset{}, multiset{}, multiset{}, {Fetched(name, info)});
    FetchRuns(name, info, fetched);
    OvertakenRuns(name, info, fetched, end);
    RunsOn(START, FetchRun(name, info), fetched, OvertakenRun(name, info), end);
    assert IsStale(end, name) && IsSettled(end, name);
  }

  lemma FetchRuns(name: Bytes, info: TableInfo, end: Threads)
    requires end == Threads(map[name := info], map[], multiset{}, multiset{Fetched(name, info)}, multiset{},
                            {Fetched(name, info)})
    ensures Runs(START, FetchRun(name, info), end)
  {
    var s1 := Next(START, Create(name, info));
    var s2 := Next(s1, Miss(name));
    var steps := FetchRun(name, info);
    assert s1.dictionary == map[name := info] && Next(s2, Fetch(name)) == end;
    assert Runs(end, steps[3..], end);
    assert steps[2..][1..] == steps[3..] && Runs(s2, steps[2..], end);
    assert steps[1..][1..] == steps[2..] && Runs(s1, steps[1..], end);
  }

  lemma OvertakenRuns(name: Bytes, info: TableInfo, s: Threads, end: Threads)
    requires s == Threads(map[name := info], map[], multiset{}, multiset{Fetched(name, info)}, multiset{},
                          {Fetched(name, info)})
    requires end == Threads(map[], map[name := info], multiset{}, multiset{}, multiset{}, {Fetched(name, info)})
    ensures Runs(s, OvertakenRun(name, info), end)
  {
    var s1 := Next(s, DropQuery(name));
    var s2 := Next(s1, Invalidate(name));
    var steps := OvertakenRun(name, info);
    assert s1.dictionary == map[] && s2.dropped == multiset{} && s2.entries == map[];
    assert Next(s2, Write(Fetched(name, info))) == end;
    assert Runs(end, steps[3..], end);
    assert steps[2..][1..] == steps[3..] && Runs(s2, steps[2..], end);
    assert steps[1..][1..] == steps[2..] && Runs(s1, steps[1..], end);
  }

  lemma {:induction false} RunsOn(s: Threads, a: seq<Step>, s': Threads, b: seq<Step>, s'': Threads)
    requires Runs(s, a, s') && Runs(s', b, s'')
    ensures Runs(s, a + b, s'')
    decreases |a|
  {
    hide Enabled;
    hide Next;
    if a == [] {
      assert a + b == b;
    } else {
      RunsOn(Next(s, a[0]), a[1..], s', b, s'');
      assert (a + b)[1..] == a[1..] + b;
    }
  }

  function FetchRun(name: Bytes, info: TableInfo): seq<Step> { [Create(name, info), Miss(name), Fetch(name)] }

  function OvertakenRun(name: Bytes, info: TableInfo): seq<Step> {
    [DropQuery(name), Invalidate(name), Write(Fetched(name, info))]
  }

  function StaleRun(name: Bytes, info: TableInfo): seq<Step> { FetchRun(name, info) + OvertakenRun(name, info) }

  /**
   A stale entry is not for good while a thread is past a miss of its name: after the drop the store
   is created anew, and the thread, asking only now, writes the right answer over the stale one.
   */
  lemma LateMissRefreshes(s: Threads, name: Bytes, info: TableInfo)
    requires IsStale(s, name) && name in s.missed && name !in s.dictionary
    ensures var steps := [Create(name, info), Fetch(name), Write(Fetched(name, info))];
            exists end :: Runs(s, steps, end) && !IsStale(end, name) && DropQuery(name) !in steps
  {
    var s1 := Next(s, Create(name, info));
    var s2 := Next(s1, Fetch(name));
    var end := Next(s2, Write(Fetched(name, info)));
    var steps := [Create(name, info), Fetch(name), Write(Fetched(name, info))];
    assert Runs(end, steps[3..], end);
    assert steps[2..][1..] == steps[3..] && Runs(s2, steps[2..], end);
    assert steps[1..][1..] == steps[2..] && Runs(s1, steps[1..], end);
    assert steps[0] == Create(name, info) && Runs(s, steps, end) && !IsStale(end, name);
  }
}
