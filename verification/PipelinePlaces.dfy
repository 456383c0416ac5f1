/** Every step of the pipeline keeps tuples, list pointers and counters in order. */
module PipelinePlaces {
  import opened Wrappers
  import opened Wire
  import opened FrameDecoding
  import opened Requests
  import opened MessageProcessing
  import opened NdbTables
  import opened TupleRuns
  import opened ResultCodec
  import opened Execution
  import opened Pipeline

  // ---------------------------------------------------------------- lists without repetition

  lemma DistinctTail<T(!new)>(s: seq<T>)
    requires Distinct(s) && s != []
    ensures Distinct(s[1..]) && forall x :: x in s[1..] <==> x in s && x != s[0]
  {
    assert s == [s[0]] + s[1..];
  }

  lemma DistinctWithout<T(!new)>(s: seq<T>, k: nat)
    requires Distinct(s) && k < |s|
    ensures Distinct(s[..k] + s[k + 1..])
    ensures forall x :: x in s[..k] + s[k + 1..] <==> x in s && x != s[k]
  {
    assert s == s[..k] + [s[k]] + s[k + 1..];
  }

  lemma DistinctPlus<T(!new)>(s: seq<T>, x: T)
    requires Distinct(s) && x !in s
    ensures Distinct(s + [x])
  {
  }

  lemma DistinctParts<T(!new)>(a: seq<T>, b: seq<T>)
    requires Distinct(a + b)
    ensures Distinct(a) && Distinct(b) && forall x :: x in a ==> x !in b
  {
    assert forall i :: 0 <= i < |a| ==> (a + b)[i] == a[i];
    assert forall j :: 0 <= j < |b| ==> (a + b)[|a| + j] == b[j];
  }

  lemma DistinctSum<T(!new)>(a: seq<T>, b: seq<T>)
    requires Distinct(a) && Distinct(b) && forall x :: x in a ==> x !in b
    ensures Distinct(a + b)
  {
    forall i, j | 0 <= i < j < |a + b|
      ensures (a + b)[i] != (a + b)[j]
    {
      assert j >= |a| ==> b[j - |a|] in b;
      assert i < |a| ==> a[i] in a;
    }
  }

  lemma SumAssociates(a: seq<nat>, b: seq<nat>, c: seq<nat>)
    ensures a + (b + c) == (a + b) + c
  {
  }

  lemma {:induction false} TicketsConcat(a: seq<Handle>, b: seq<Handle>)
    ensures TicketsOf(a + b) == TicketsOf(a) + TicketsOf(b)
  {
    if a == [] {
      assert a + b == b;
    } else {
      TicketsConcat(a[1..], b);
      assert (a + b)[1..] == a[1..] + b;
      SumAssociates(a[0].tickets, TicketsOf(a[1..]), TicketsOf(b));
    }
  }

  lemma {:induction false} InTickets(hs: seq<Handle>, t: nat)
    ensures t in TicketsOf(hs) <==> exists h :: h in hs && t in h.tickets
  {
    if hs != [] {
      InTickets(hs[1..], t);
      assert hs == [hs[0]] + hs[1..];
    }
  }

  // ---------------------------------------------------------------- the other lanes

  ghost predicate SameFor(items: seq<Item>, items': seq<Item>, e: nat) {
    forall t: nat :: Held(items', t, e) == Held(items, t, e)
  }

  ghost predicate SameOwner(owners: map<nat, Owner>, owners': map<nat, Owner>, e: nat) {
    forall a: nat :: Owned(owners', a, e) == Owned(owners, a, e)
  }

  /** What an executor has is unaffected by changes to the tuples and pointers of the others. */
  lemma OtherLaneOk(items: seq<Item>, items': seq<Item>, owners: map<nat, Owner>, owners': map<nat, Owner>, l: Lane,
                    e: nat)
    requires LaneOk(items, owners, l, e) && SameFor(items, items', e) && SameOwner(owners, owners', e)
    ensures LaneOk(items', owners', l, e)
  {
  }

  /** A step that moves ticket t, which e holds. */
  lemma MovedForOthers(items: seq<Item>, t: nat, item: Item, e: nat, other: nat)
    requires t < |items| && items[t].place.IsHeldBy(e) && other != e
    requires item.place.IsHeldBy(e) || item.place.IsOut()
    ensures SameFor(items, items[t := item], other)
  {
  }

  // ---------------------------------------------------------------- steps on one tuple

  /** Executing the first tuple to do: it becomes pending, or is finished. */
  lemma ExecuteLaneOk(items: seq<Item>, owners: map<nat, Owner>, l: Lane, e: nat, item: Item, l': Lane)
    requires LaneOk(items, owners, l, e) && l.todo != [] && !l.flushing
    requires var t := l.todo[0];
             && t < |items| && IsTodo(Held(items, t, e))
             && (item.place.IsOut() || (item.place.Pending? && item.place.lane == e
                                               && item.place.address == items[t].place.address))
             && var more := if item.place.Pending? then 1 else 0;
             && l' == l.(todo := l.todo[1..], pending := l.pending + (if item.place.Pending? then [t] else []),
                         total := l.total + more, flushing := l.total + more == MAX_TRANSACTIONS)
    ensures LaneOk(items[l.todo[0] := item], owners, l', e)
  {
    hide TicketsOf;
    var t := l.todo[0];
    var items' := items[t := item];
    DistinctTail(l.todo);
    assert t !in l.pending && t !in TicketsOf(l.inbox);
    assert l.pending + [] == l.pending;
    DistinctPlus(l.pending, t);
    assert forall u: nat :: u != t ==> Held(items', u, e) == Held(items, u, e);
    assert HoldsItsTuples(items', l', e);
  }

  /** Ending the k-th pending transaction. */
  lemma CompleteLaneOk(items: seq<Item>, owners: map<nat, Owner>, l: Lane, e: nat, k: nat, item: Item)
    requires LaneOk(items, owners, l, e) && l.flushing && k < |l.pending|
    requires l.pending[k] < |items| && item.place.IsOut()
    ensures LaneOk(items[l.pending[k] := item], owners,
                   l.(pending := l.pending[..k] + l.pending[k + 1..], completed := l.completed + 1), e)
  {
    hide TicketsOf;
    var t := l.pending[k];
    var items' := items[t := item];
    DistinctWithout(l.pending, k);
    assert t in l.pending && t !in l.todo && t !in TicketsOf(l.inbox);
    assert forall u: nat :: u != t ==> Held(items', u, e) == Held(items, u, e);
  }

  // ---------------------------------------------------------------- taking a batch

  lemma {:induction false} AddressesAreOf(hs: seq<Handle>, t: nat)
    requires t in TicketsOf(hs)
    ensures exists h :: h in hs && t in h.tickets && h.address in AddressesOf(hs)
  {
    InTickets(hs, t);
    var h :| h in hs && t in h.tickets;
    var i :| 0 <= i < |hs| && hs[i] == h;
    assert AddressesOf(hs)[i] == h.address;
  }

  lemma FirstIsIn(s: seq<nat>)
    ensures s != [] ==> s[0] in s
  {
  }

  lemma IdleLane(items: seq<Item>, owners: map<nat, Owner>, l: Lane, e: nat)
    requires LaneOk(items, owners, l, e) && l.batch == []
    ensures l.todo == [] && l.pending == []
  {
    FirstIsIn(l.todo);
    FirstIsIn(l.pending);
  }

  lemma BeginHeld(items: seq<Item>, owners: map<nat, Owner>, l: Lane, e: nat, count: nat, t: nat)
    requires LaneOk(items, owners, l, e) && count <= |l.inbox|
    ensures var taken := TicketsOf(l.inbox[..count]);
            var items' := Begin(items, taken);
            && (t in taken ==> IsQueued(Held(items, t, e))
                               && Held(items', t, e) == Some(Todo(e, Held(items, t, e).value.address)))
            && (t !in taken ==> Held(items', t, e) == Held(items, t, e))
  {
    TicketsConcat(l.inbox[..count], l.inbox[count..]);
    assert l.inbox == l.inbox[..count] + l.inbox[count..];
    assert t in TicketsOf(l.inbox[..count]) ==> t in TicketsOf(l.inbox);
  }

  lemma AdoptedWasQueued(owners: map<nat, Owner>, l: Lane, e: nat, count: nat, a: nat)
    requires OwnsItsLists(owners, l, e) && count <= |l.inbox|
    ensures a in AddressesOf(l.inbox[..count]) ==> a in owners && owners[a] == Waiting(e)
  {
    if a in AddressesOf(l.inbox[..count]) {
      var i :| 0 <= i < count && AddressesOf(l.inbox[..count])[i] == a;
      assert AddressesOf(l.inbox)[i] == a;
      assert a in AddressesOf(l.inbox);
      assert Owned(owners, a, e) == Some(Waiting(e));
    }
  }

  lemma AdoptOwned(owners: map<nat, Owner>, l: Lane, e: nat, count: nat, a: nat)
    requires OwnsItsLists(owners, l, e) && count <= |l.inbox|
    ensures var taken := AddressesOf(l.inbox[..count]);
            Owned(Adopt(owners, taken, e), a, e) == if a in taken then Some(Adopted(e)) else Owned(owners, a, e)
  {
    AdoptedWasQueued(owners, l, e, count, a);
  }

  lemma TakeHolds(items: seq<Item>, owners: map<nat, Owner>, l: Lane, e: nat, count: nat)
    requires LaneOk(items, owners, l, e) && l.batch == [] && count <= |l.inbox|
    ensures var taken := TicketsOf(l.inbox[..count]);
            HoldsItsTuples(Begin(items, taken), Lane(l.inbox[count..], AddressesOf(l.inbox[..count]), taken, [], 0, 0,
                false), e)
  {
    var taken := TicketsOf(l.inbox[..count]);
    var items' := Begin(items, taken);
    IdleLane(items, owners, l, e);
    assert l.inbox == l.inbox[..count] + l.inbox[count..];
    TicketsConcat(l.inbox[..count], l.inbox[count..]);
    DistinctParts(taken, TicketsOf(l.inbox[count..]));
    forall t: nat
      ensures t in TicketsOf(l.inbox[count..]) <==> IsQueued(Held(items', t, e))
      ensures t in taken <==> IsTodo(Held(items', t, e))
      ensures !IsPending(Held(items', t, e))
    {
      BeginHeld(items, owners, l, e, count, t);
      assert t in TicketsOf(l.inbox) <==> t in taken || t in TicketsOf(l.inbox[count..]);
      assert t !in l.todo && t !in l.pending;
    }
  }

  lemma TakeOwns(owners: map<nat, Owner>, l: Lane, e: nat, count: nat)
    requires OwnsItsLists(owners, l, e) && l.batch == [] && count <= |l.inbox|
    ensures var taken := AddressesOf(l.inbox[..count]);
            OwnsItsLists(Adopt(owners, taken, e), Lane(l.inbox[count..], taken, TicketsOf(l.inbox[..count]), [], 0, 0,
                false), e)
  {
    var taken := AddressesOf(l.inbox[..count]);
    assert AddressesOf(l.inbox) == taken + AddressesOf(l.inbox[count..]);
    DistinctParts(taken, AddressesOf(l.inbox[count..]));
    forall a: nat
      ensures a in AddressesOf(l.inbox[count..]) <==> Owned(Adopt(owners, taken, e), a, e) == Some(Waiting(e))
      ensures a in taken <==> Owned(Adopt(owners, taken, e), a, e) == Some(Adopted(e))
    {
      AdoptOwned(owners, l, e, count, a);
      assert a in AddressesOf(l.inbox) <==> a in taken || a in AddressesOf(l.inbox[count..]);
      assert a !in l.batch;
    }
  }

  lemma TakeInLists(items: seq<Item>, owners: map<nat, Owner>, l: Lane, e: nat, count: nat)
    requires LaneOk(items, owners, l, e) && l.batch == [] && count <= |l.inbox|
    ensures var taken := TicketsOf(l.inbox[..count]);
            TuplesInLists(Begin(items, taken), Lane(l.inbox[count..], AddressesOf(l.inbox[..count]), taken, [], 0, 0,
                false), e)
  {
    var taken := TicketsOf(l.inbox[..count]);
    var items' := Begin(items, taken);
    TakeHolds(items, owners, l, e, count);
    assert l.inbox == l.inbox[..count] + l.inbox[count..];
    forall h, t | h in l.inbox[count..] && t in h.tickets
      ensures Held(items', t, e) == Some(Queued(e, h.address))
    {
      assert h in l.inbox;
      InTickets(l.inbox[count..], t);
      BeginHeld(items, owners, l, e, count, t);
      assert IsQueued(Held(items', t, e));
    }
    forall t: nat | IsTodo(Held(items', t, e)) || IsPending(Held(items', t, e))
      ensures Held(items', t, e).value.address in AddressesOf(l.inbox[..count])
    {
      BeginHeld(items, owners, l, e, count, t);
      assert t in taken;
      AddressesAreOf(l.inbox[..count], t);
      var h :| h in l.inbox[..count] && t in h.tickets && h.address in AddressesOf(l.inbox[..count]);
      assert h in l.inbox;
    }
  }

  lemma TakeForOthers(items: seq<Item>, owners: map<nat, Owner>, l: Lane, e: nat, count: nat, other: nat)
    requires LaneOk(items, owners, l, e) && count <= |l.inbox| && other != e
    ensures SameFor(items, Begin(items, TicketsOf(l.inbox[..count])), other)
    ensures SameOwner(owners, Adopt(owners, AddressesOf(l.inbox[..count]), e), other)
  {
    var taken := TicketsOf(l.inbox[..count]);
    forall t: nat
      ensures Held(Begin(items, taken), t, other) == Held(items, t, other)
    {
      BeginHeld(items, owners, l, e, count, t);
    }
    forall a: nat
      ensures Owned(Adopt(owners, AddressesOf(l.inbox[..count]), e), a, other) == Owned(owners, a, other)
    {
      AdoptedWasQueued(owners, l, e, count, a);
    }
  }

  // ---------------------------------------------------------------- receiving and scattering

  lemma {:induction false} DrawnTickets(first: nat, choices: seq<nat>, e: nat)
    ensures forall t: nat :: t in Drawn(first, choices, e) <==> first <= t < first + |choices|
                                                                              && choices[t - first] == e
    ensures Distinct(Drawn(first, choices, e))
  {
    if choices != [] {
      var last := |choices| - 1;
      var before := Drawn(first, choices[..last], e);
      DrawnTickets(first, choices[..last], e);
      assert first + last !in before;
      assert before + [] == before;
      DistinctPlus(before, first + last);
      assert forall i :: 0 <= i < last ==> choices[..last][i] == choices[i];
    }
  }

  lemma ReceiveHeld(items: seq<Item>, tuples: seq<TupleValue>, choices: seq<nat>, address: nat, e: nat, t: nat)
    requires |choices| == |tuples|
    ensures Held(items + NewItems(tuples, choices, address), t, e)
            == if t < |items| then Held(items, t, e)
               else if t in Drawn(|items|, choices, e) then Some(Queued(e, address + e)) else None
  {
    DrawnTickets(|items|, choices, e);
  }

  lemma SomethingDrawn(first: nat, choices: seq<nat>, e: nat)
    ensures Drawn(first, choices, e) != [] <==> e in choices
  {
    DrawnTickets(first, choices, e);
    FirstIsIn(Drawn(first, choices, e));
    if e in choices {
      var i :| 0 <= i < |choices| && choices[i] == e;
      assert first + i in Drawn(first, choices, e);
    }
  }

  lemma ReceiveOwned(owners: map<nat, Owner>, choices: seq<nat>, address: nat, n: nat, first: nat, e: nat, a: nat)
    requires forall a :: a in owners ==> a < address
    requires e < n
    ensures Owned(owners + NewOwners(choices, address, n), a, e)
            == if a == address + e && Drawn(first, choices, e) != [] then Some(Waiting(e)) else Owned(owners, a, e)
  {
    SomethingDrawn(first, choices, e);
  }

  lemma ReceiveLaneOk(items: seq<Item>, owners: map<nat, Owner>, l: Lane, e: nat, tuples: seq<TupleValue>,
                      choices: seq<nat>, address: nat, n: nat)
    requires LaneOk(items, owners, l, e) && |choices| == |tuples| && e < n
    requires forall a :: a in owners ==> a < address
    ensures LaneOk(items + NewItems(tuples, choices, address), owners + NewOwners(choices, address, n),
                   Deliver(l, e, |items|, choices, address), e)
  {
    var items', owners' := items + NewItems(tuples, choices, address), owners + NewOwners(choices, address, n);
    var drawn := Drawn(|items|, choices, e);
    DrawnTickets(|items|, choices, e);
    forall t: nat
      ensures Held(items', t, e) == if t < |items| then Held(items, t, e) else if t in drawn then
                Some(Queued(e, address + e)) else None
    {
      ReceiveHeld(items, tuples, choices, address, e, t);
    }
    forall a: nat
      ensures Owned(owners', a, e) == if a == address + e && drawn != [] then Some(Waiting(e)) else Owned(owners, a, e)
    {
      ReceiveOwned(owners, choices, address, n, |items|, e, a);
    }
    if drawn == [] {
      OtherLaneOk(items, items', owners, owners', l, e);
    } else {
      DeliveredLaneOk(items, items', owners, owners', l, e, drawn, address + e);
    }
  }

  /** A new list at a new address, with new tickets. */
  lemma DeliveredLaneOk(items: seq<Item>, items': seq<Item>, owners: map<nat, Owner>, owners': map<nat, Owner>,
                        l: Lane, e: nat,
                        tickets: seq<nat>, address: nat)
    requires LaneOk(items, owners, l, e) && Distinct(tickets) && forall t :: t in tickets ==> t >= |items|
    requires forall t: nat :: Held(items', t, e) == if t < |items| then Held(items, t, e) else if t in tickets then
               Some(Queued(e, address)) else None
    requires address !in owners
    requires forall a: nat :: Owned(owners', a, e) == if a == address then Some(Waiting(e)) else Owned(owners, a, e)
    ensures LaneOk(items', owners', l.(inbox := l.inbox + [Handle(address, tickets)]), e)
  {
    var inbox' := l.inbox + [Handle(address, tickets)];
    var l' := l.(inbox := inbox');
    OneList(address, tickets);
    TicketsConcat(l.inbox, [Handle(address, tickets)]);
    assert AddressesOf(inbox') == AddressesOf(l.inbox) + [address];
    DeliveredHolds(items, items', owners, l, e, tickets, address);
    assert OwnsItsLists(owners', l', e) by {
      assert Owned(owners, address, e) == None;
      assert address !in AddressesOf(l.inbox);
      DistinctPlus(AddressesOf(l.inbox), address);
    }
    DeliveredInLists(items, items', owners, l, e, tickets, address);
  }

  lemma OneList(address: nat, tickets: seq<nat>)
    ensures TicketsOf([Handle(address, tickets)]) == tickets
  {
    assert [Handle(address, tickets)][1..] == [] && tickets + TicketsOf([]) == tickets;
  }

  lemma DeliveredHolds(items: seq<Item>, items': seq<Item>, owners: map<nat, Owner>, l: Lane, e: nat,
                       tickets: seq<nat>, address: nat)
    requires LaneOk(items, owners, l, e) && Distinct(tickets) && forall t :: t in tickets ==> t >= |items|
    requires forall t: nat :: Held(items', t, e) == if t < |items| then Held(items, t, e) else if t in tickets then
               Some(Queued(e, address)) else None
    requires TicketsOf(l.inbox + [Handle(address, tickets)]) == TicketsOf(l.inbox) + tickets
    ensures HoldsItsTuples(items', l.(inbox := l.inbox + [Handle(address, tickets)]), e)
  {
    forall t | t in TicketsOf(l.inbox)
      ensures t !in tickets
    {
      assert IsQueued(Held(items, t, e));
    }
    DistinctSum(TicketsOf(l.inbox), tickets);
    assert forall t: nat :: t >= |items| ==> Held(items, t, e) == None;
  }

  lemma DeliveredInLists(items: seq<Item>, items': seq<Item>, owners: map<nat, Owner>, l: Lane, e: nat,
                         tickets: seq<nat>, address: nat)
    requires LaneOk(items, owners, l, e) && forall t :: t in tickets ==> t >= |items|
    requires forall t: nat :: Held(items', t, e) == if t < |items| then Held(items, t, e) else if t in tickets then
               Some(Queued(e, address)) else None
    ensures TuplesInLists(items', l.(inbox := l.inbox + [Handle(address, tickets)]), e)
  {
    var inbox' := l.inbox + [Handle(address, tickets)];
    forall h, t | h in inbox' && t in h.tickets
      ensures Held(items', t, e) == Some(Queued(e, h.address))
    {
      if h in l.inbox {
        assert Held(items, t, e) == Some(Queued(e, h.address));
      } else {
        assert h == Handle(address, tickets);
      }
    }
  }

  // ---------------------------------------------------------------- all lanes, step by step

  lemma ExecuteKeepsLanes(s: System, e: nat, answers: seq<Answer>)
    requires LanesOk(s) && Enabled(s, Execute(e, answers))
    ensures LanesOk(AfterExecute(s, e, answers))
  {
    hide Run;
    hide ReplyEnvelopes;
    var s', l := AfterExecute(s, e, answers), s.lanes[e];
    var t := l.todo[0];
    OpenMeansNoCrash(s.items[t].tuple.id, s.items[t].tuple.messages, answers);
    assert LaneOk(s.items, s.owners, l, e);
    FirstIsIn(l.todo);
    assert IsTodo(Held(s.items, t, e));
    ExecuteLaneOk(s.items, s.owners, l, e, s'.items[t], s'.lanes[e]);
    assert s'.items == s.items[t := s'.items[t]];
    forall other | 0 <= other < |s.lanes| && other != e
      ensures LaneOk(s'.items, s'.owners, s'.lanes[other], other)
    {
      MovedForOthers(s.items, t, s'.items[t], e, other);
      OtherLaneOk(s.items, s'.items, s.owners, s'.owners, s.lanes[other], other);
    }
  }

  lemma CompleteKeepsLanes(s: System, e: nat, k: nat, verdict: Verdict, fetched: seq<seq<Row>>)
    requires LanesOk(s) && Enabled(s, Complete(e, k, verdict, fetched))
    ensures LanesOk(AfterComplete(s, e, k, verdict, fetched))
  {
    hide Run;
    hide ReplyEnvelope;
    hide CallbackReply;
    var s', l := AfterComplete(s, e, k, verdict, fetched), s.lanes[e];
    var t := l.pending[k];
    assert LaneOk(s.items, s.owners, l, e);
    assert t in l.pending && IsPending(Held(s.items, t, e));
    CompleteLaneOk(s.items, s.owners, l, e, k, s'.items[t]);
    assert s'.items == s.items[t := s'.items[t]];
    forall other | 0 <= other < |s.lanes| && other != e
      ensures LaneOk(s'.items, s'.owners, s'.lanes[other], other)
    {
      MovedForOthers(s.items, t, s'.items[t], e, other);
      OtherLaneOk(s.items, s'.items, s.owners, s'.owners, s.lanes[other], other);
    }
  }

  lemma TakeLaneOk(items: seq<Item>, owners: map<nat, Owner>, l: Lane, e: nat, count: nat)
    requires LaneOk(items, owners, l, e) && l.batch == [] && count <= |l.inbox|
    ensures var taken := l.inbox[..count];
            LaneOk(Begin(items, TicketsOf(taken)), Adopt(owners, AddressesOf(taken), e),
                   Lane(l.inbox[count..], AddressesOf(taken), TicketsOf(taken), [], 0, 0, false), e)
  {
    hide HoldsItsTuples;
    hide TuplesInLists;
    TakeHolds(items, owners, l, e, count);
    TakeOwns(owners, l, e, count);
    TakeInLists(items, owners, l, e, count);
  }

  lemma TakeKeepsLanes(s: System, e: nat, count: nat)
    requires LanesOk(s) && Enabled(s, Take(e, count))
    ensures LanesOk(AfterTake(s, e, count))
  {
    hide TicketsOf;
    hide HoldsItsTuples;
    hide TuplesInLists;
    hide OwnsItsLists;
    var s', l := AfterTake(s, e, count), s.lanes[e];
    assert LaneOk(s.items, s.owners, l, e);
    TakeLaneOk(s.items, s.owners, l, e, count);
    forall other | 0 <= other < |s.lanes| && other != e
      ensures LaneOk(s'.items, s'.owners, s'.lanes[other], other)
    {
      TakeForOthers(s.items, s.owners, l, e, count, other);
      OtherLaneOk(s.items, s'.items, s.owners, s'.owners, s.lanes[other], other);
    }
  }

  lemma ScatterKeepsLanes(s: System, w: nat, randoms: seq<nat>)
    requires LanesOk(s) && Enabled(s, Receive(w, randoms))
    ensures LanesOk(AfterScatter(s, w, randoms))
  {
    var s' := AfterScatter(s, w, randoms);
    var tuples, choices := NewTuples(s, w), Choices(randoms, |s.lanes|);
    forall e | 0 <= e < |s.lanes|
      ensures LaneOk(s'.items, s'.owners, s'.lanes[e], e)
    {
      ReceiveLaneOk(s.items, s.owners, s.lanes[e], e, tuples, choices, s.nextAddress, |s.lanes|);
    }
  }

  lemma ReceiveKeepsLanes(s: System, w: nat, randoms: seq<nat>)
    requires LanesOk(s) && Enabled(s, Receive(w, randoms))
    ensures LanesOk(AfterReceive(s, w, randoms))
  {
    hide LaneOk;
    if !IsMisread(s.inboxes[w]) {
      ScatterKeepsLanes(s, w, randoms);
    }
  }

  lemma FinishLaneOk(items: seq<Item>, owners: map<nat, Owner>, l: Lane, e: nat, owners': map<nat, Owner>)
    requires LaneOk(items, owners, l, e) && l.todo == [] && l.total == 0
    requires owners' == map a | a in owners && a !in l.batch :: owners[a]
    ensures LaneOk(items, owners', l.(batch := []), e)
  {
    assert l.pending == [];
    forall a: nat
      ensures Owned(owners', a, e) == if a in l.batch then None else Owned(owners, a, e)
    {
    }
  }

  lemma BatchIsOwned(items: seq<Item>, owners: map<nat, Owner>, l: Lane, e: nat)
    requires LaneOk(items, owners, l, e)
    ensures forall a: nat :: a in l.batch ==> Owned(owners, a, e) == Some(Adopted(e))
  {
  }

  lemma FinishKeepsLanes(s: System, e: nat)
    requires LanesOk(s) && Enabled(s, Finish(e))
    ensures LanesOk(Next(s, Finish(e)))
  {
    hide LaneOk;
    var s', l := Next(s, Finish(e)), s.lanes[e];
    FinishLaneOk(s.items, s.owners, l, e, s'.owners);
    BatchIsOwned(s.items, s.owners, l, e);
    forall other | 0 <= other < |s.lanes| && other != e
      ensures LaneOk(s'.items, s'.owners, s'.lanes[other], other)
    {
      forall a: nat
        ensures Owned(s'.owners, a, other) == Owned(s.owners, a, other)
      {
        assert a in l.batch ==> Owned(s.owners, a, e) == Some(Adopted(e));
      }
      OtherLaneOk(s.items, s'.items, s.owners, s'.owners, s.lanes[other], other);
    }
  }

  lemma CountersLaneOk(items: seq<Item>, owners: map<nat, Owner>, l: Lane, e: nat, l': Lane)
    requires LaneOk(items, owners, l, e) && CountsRight(l')
    requires l' == l.(total := l'.total, completed := l'.completed, flushing := l'.flushing)
    ensures LaneOk(items, owners, l', e)
  {
  }

  lemma CountersKeepLanes(s: System, step: Step)
    requires LanesOk(s) && Enabled(s, step) && (step.Wait? || step.FlushDone?)
    ensures LanesOk(Next(s, step))
  {
    var s', e := Next(s, step), step.lane;
    assert LaneOk(s.items, s.owners, s.lanes[e], e);
    assert CountsRight(s'.lanes[e]);
    hide LaneOk;
    CountersLaneOk(s.items, s.owners, s.lanes[e], e, s'.lanes[e]);
  }

  lemma OuterStepsKeepLanes(s: System, step: Step)
    requires LanesOk(s) && Enabled(s, step) && (step.Arrive? || step.Forward?)
    ensures LanesOk(Next(s, step))
  {
    hide LaneOk;
    var s' := Next(s, step);
    assert s'.items == s.items && s'.lanes == s.lanes && s'.owners == s.owners;
  }

  /** No step loses or repeats a tuple or a list, or lets a counter go wrong. */
  lemma StepKeepsLanes(s: System, step: Step)
    requires LanesOk(s) && Enabled(s, step)
    ensures LanesOk(Next(s, step))
  {
    hide LanesOk;
    hide CanDo;
    hide AfterReceive;
    hide AfterTake;
    hide AfterExecute;
    hide AfterComplete;
    match step
    case Arrive(_, _) => OuterStepsKeepLanes(s, step);
    case Receive(w, randoms) => ReceiveKeepsLanes(s, w, randoms);
    case Take(e, count) => TakeKeepsLanes(s, e, count);
    case Execute(e, answers) => ExecuteKeepsLanes(s, e, answers);
    case Wait(_) => CountersKeepLanes(s, step);
    case Complete(e, k, verdict, fetched) => CompleteKeepsLanes(s, e, k, verdict, fetched);
    case FlushDone(_) => CountersKeepLanes(s, step);
    case Finish(e) => FinishKeepsLanes(s, e);
    case Forward(_) => OuterStepsKeepLanes(s, step);
  }
}
