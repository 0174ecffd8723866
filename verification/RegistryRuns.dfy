/**
 Runs of the registry written out: how a call gets from its beginning to its enumeration, and a
 registration with a filter followed to the end, through the enumeration and through the callback.
 */
module RegistryRuns {
  import opened Runs
  import opened Wrappers
  import opened SlotAlgebra
  import opened Registry
  import opened RegistrySafety
  import opened RegistryTheorems

  ghost predicate Reachable(s: State) {
    ReachableBy(INITIAL, Takes, s)
  }

  lemma ReachNext(s: State, step: Step)
    requires Reachable(s) && Enabled(s, step)
    ensures Reachable(Execute(s, step))
  {
    hide Enabled, Execute, ReachableBy;
    Reach(INITIAL, Takes, s, step, Execute(s, step));
  }

  /** Everything but the list and the records of the calls is the same. */
  predicate SameElsewhere(s: State, t: State) {
    t.images == s.images && t.jobs == s.jobs && t.failed == s.failed && t.applied == s.applied
  }

  /** What a call registers whose replacement the image with header 7 defines. */
  function EntryOf(rewrite: Rewrite, filter: Filter): Entry {
    Entry(7, rewrite, filter)
  }

  /** A new call has its node and the head it read; nothing else has changed. */
  predicate Begun(s: State, t: State, id: CallId, rewrite: Rewrite, filter: Filter) {
    && InPhase(t, id, LoadingHead) && SameElsewhere(s, t) && t.once == s.once && t.registered == s.registered
    && t.history == s.history && t.head == s.head
    && t.calls == s.calls[id := t.calls[id]] && t.calls[id].entry == EntryOf(rewrite, filter)
    && t.nodes == s.nodes[id := Node(EntryOf(rewrite, filter), None)]
  }

  lemma BeginAndAllocate(s: State, id: CallId, rewrite: Rewrite, filter: Filter) returns (t: State)
    requires Reachable(s) && id !in s.calls && rewrite.replacee != 0 && rewrite.replacement != 0
    ensures Reachable(t) && Begun(s, t, id, rewrite, filter)
  {
    hide Reachable;
    var begin := Begin(id, Some(7), rewrite, filter);
    ReachNext(s, begin);
    var s1 := Execute(s, begin);
    ReachNext(s1, Allocate(id, true));
    t := Execute(s1, Allocate(id, true));
  }

  lemma LinkAndExchange(s: State, id: CallId) returns (t: State)
    requires Reachable(s) && InPhase(s, id, LoadingHead) && id in s.nodes
    ensures Reachable(t) && InPhase(t, id, AtOnce) && SameElsewhere(s, t) && t.once == s.once
            && t.registered == s.registered
    ensures t.calls == s.calls[id := t.calls[id]] && t.calls[id].entry == s.calls[id].entry
    ensures t.nodes == s.nodes[id := Node(s.nodes[id].entry, s.head)]
    ensures t.history == s.history + [id] && t.head == Some(id)
  {
    hide Reachable;
    ReachNext(s, LoadHead(id));
    var s3 := Execute(s, LoadHead(id));
    ReachNext(s3, LinkNode(id));
    var s4 := Execute(s3, LinkNode(id));
    ReachNext(s4, Exchange(id, false));
    t := Execute(s4, Exchange(id, false));
  }

  /** A new call publishes its entry and reaches the once block. */
  lemma Publish(s: State, id: CallId, rewrite: Rewrite, filter: Filter) returns (t: State)
    requires Reachable(s) && id !in s.calls && rewrite.replacee != 0 && rewrite.replacement != 0
    ensures Reachable(t) && InPhase(t, id, AtOnce) && SameElsewhere(s, t) && t.once == s.once
            && t.registered == s.registered
    ensures t.calls.Keys == s.calls.Keys + {id} && t.calls[id].entry == EntryOf(rewrite, filter)
    ensures t.nodes == s.nodes[id := Node(EntryOf(rewrite, filter), s.head)]
    ensures t.history == s.history + [id] && t.head == Some(id)
    ensures forall c | c in s.calls :: t.calls[c] == s.calls[c]
  {
    hide Reachable, Execute, Enabled;
    var begun := BeginAndAllocate(s, id, rewrite, filter);
    t := LinkAndExchange(begun, id);
  }

  /** Only the phase and the count of one call, and perhaps the once token, have moved. */
  predicate OnlyCall(s: State, t: State, id: CallId) {
    && SameElsewhere(s, t) && t.nodes == s.nodes && t.history == s.history && t.head == s.head
    && t.calls.Keys == s.calls.Keys
    && (forall c | c in s.calls && c != id :: t.calls[c] == s.calls[c])
    && (id in s.calls ==> t.calls[id].entry == s.calls[id].entry)
  }

  predicate HasCounted(s: State, id: CallId) {
    InPhase(s, id, Enumerating(0)) && s.calls[id].count == |s.images|
  }

  lemma FirstThroughOnce(s: State, id: CallId) returns (t: State)
    requires Reachable(s) && InPhase(s, id, AtOnce) && s.once.Unstarted?
    ensures Reachable(t) && OnlyCall(s, t, id) && HasCounted(t, id) && t.once.Completed? && t.registered
  {
    hide Reachable;
    ReachNext(s, EnterOnce(id));
    var s1 := Execute(s, EnterOnce(id));
    ReachNext(s1, InstallCallback(id));
    var s2 := Execute(s1, InstallCallback(id));
    ReachNext(s2, LeaveOnce(id));
    var s3 := Execute(s2, LeaveOnce(id));
    ReachNext(s3, CountImages(id));
    t := Execute(s3, CountImages(id));
  }

  lemma NextThroughOnce(s: State, id: CallId) returns (t: State)
    requires Reachable(s) && InPhase(s, id, AtOnce) && s.once.Completed?
    ensures Reachable(t) && OnlyCall(s, t, id) && HasCounted(t, id)
  {
    hide Reachable;
    ReachNext(s, EnterOnce(id));
    var s1 := Execute(s, EnterOnce(id));
    ReachNext(s1, CountImages(id));
    t := Execute(s1, CountImages(id));
  }

  // ---- a registration with a filter ----

  const CHOSEN := Entry(7, Rewrite(1, 2), Accepting({9, 10}))

  /** The one call there is. */
  predicate OneCall(s: State, phase: Phase) {
    && s.calls.Keys == {0} && s.calls[0].phase == phase && s.calls[0].count == 2 && s.calls[0].entry == CHOSEN
    && s.nodes.Keys == {0} && s.nodes[0] == Node(CHOSEN, None) && s.head == Some(0) && |s.history| == 1
    && s.registered && s.failed == {}
  }

  /** Images 9 and 8 are loaded and call 0 has counted them. */
  lemma TwoCounted() returns (s: State)
    ensures Reachable(s) && OneCall(s, Enumerating(0)) && s.jobs == map[]
    ensures s.images == [Image(9, [1], [1], Unscheduled), Image(8, [1], [1], Unscheduled)]
  {
    hide ReachableBy;
    ReachStart(INITIAL, Takes);
    var nine, eight := LoadImage(9, [1]), LoadImage(8, [1]);
    ReachNext(INITIAL, nine);
    var s0 := Execute(INITIAL, nine);
    ReachNext(s0, eight);
    var s1 := Execute(s0, eight);
    assert s1.images == [Image(9, [1], [1], Unscheduled), Image(8, [1], [1], Unscheduled)];
    var s2 := Publish(s1, 0, Rewrite(1, 2), Accepting({9, 10}));
    s := FirstThroughOnce(s2, 0);
  }

  /** A scan that is at its one slot, which holds the replacee, rewrites it. */
  lemma ScanOne(s: State, actor: Actor, i: nat) returns (t: State)
    requires Reachable(s) && actor in s.jobs && s.jobs[actor] == Job(0, i, 0, false) && ActorReady(s, actor)
    requires i < |s.images| && s.images[i].slots == [1] && 0 in s.nodes && s.nodes[0].entry == CHOSEN
    ensures Reachable(t) && t == s.(images := s.images[i := s.images[i].(slots := [2])], jobs := t.jobs)
    ensures t.jobs == s.jobs[actor := Job(0, i, 1, false)]
  {
    hide Reachable;
    ReachNext(s, ReadSlot(actor));
    var s1 := Execute(s, ReadSlot(actor));
    assert s1.jobs == s.jobs[actor := Job(0, i, 0, true)];
    ReachNext(s1, StoreSlot(actor, true));
    t := Execute(s1, StoreSlot(actor, true));
    assert t.images[i].slots == [2];
  }

  /** The enumeration rewrites image 9, passes over image 8, and the call returns. */
  lemma Enumerated(s: State) returns (t: State)
    requires Reachable(s) && OneCall(s, Enumerating(0)) && s.jobs == map[]
    requires s.images == [Image(9, [1], [1], Unscheduled), Image(8, [1], [1], Unscheduled)]
    ensures Reachable(t) && OneCall(t, Returned(true)) && t.jobs == map[]
    ensures t.images == [Image(9, [1], [2], Unscheduled), Image(8, [1], [1], Unscheduled)]
  {
    hide Reachable;
    ReachNext(s, Enumerate(0));
    var s1 := Execute(s, Enumerate(0));
    var s2 := ScanOne(s1, Caller(0), 0);
    assert s2.images == [Image(9, [1], [2], Unscheduled), Image(8, [1], [1], Unscheduled)];
    ReachNext(s2, FinishScan(Caller(0)));
    var s3 := Execute(s2, FinishScan(Caller(0)));
    assert s3.jobs == map[] && OneCall(s3, Enumerating(1));
    ReachNext(s3, Enumerate(0));
    var s4 := Execute(s3, Enumerate(0));
    assert OneCall(s4, Enumerating(2));
    ReachNext(s4, Enumerate(0));
    t := Execute(s4, Enumerate(0));
  }

  /** Image 10 is loaded afterwards, and its callback meets the entry. */
  lemma LoadedLater(s: State) returns (t: State)
    requires Reachable(s) && OneCall(s, Returned(true)) && s.jobs == map[]
    requires s.images == [Image(9, [1], [2], Unscheduled), Image(8, [1], [1], Unscheduled)]
    ensures Reachable(t) && OneCall(t, Returned(true)) && t.jobs == map[Callback(2) := Job(0, 2, 0, false)]
    ensures t.images == [Image(9, [1], [2], Unscheduled), Image(8, [1], [1], Unscheduled),
                         Image(10, [1], [1], Walking(Some(0), 1, 1))]
  {
    hide Reachable;
    var ten := LoadImage(10, [1]);
    ReachNext(s, ten);
    var s1 := Execute(s, ten);
    assert s1.images[2] == Image(10, [1], [1], Pending);
    ReachNext(s1, StartCallback(2));
    var s2 := Execute(s1, StartCallback(2));
    ReachNext(s2, WalkOn(2));
    t := Execute(s2, WalkOn(2));
  }

  lemma CalledBack(s: State) returns (t: State)
    requires Reachable(s) && OneCall(s, Returned(true)) && s.jobs == map[Callback(2) := Job(0, 2, 0, false)]
    requires s.images == [Image(9, [1], [2], Unscheduled), Image(8, [1], [1], Unscheduled),
                          Image(10, [1], [1], Walking(Some(0), 1, 1))]
    ensures Reachable(t) && OneCall(t, Returned(true)) && t.jobs == map[]
    ensures t.images == [Image(9, [1], [2], Unscheduled), Image(8, [1], [1], Unscheduled),
                         Image(10, [1], [2], Finished(1))]
  {
    hide Reachable;
    var s1 := ScanOne(s, Callback(2), 2);
    assert s1.images[2] == Image(10, [1], [2], Walking(Some(0), 1, 1));
    ReachNext(s1, FinishScan(Callback(2)));
    var s2 := Execute(s1, FinishScan(Callback(2)));
    assert s2.images[2] == Image(10, [1], [2], Walking(None, 0, 1)) && s2.jobs == map[];
    ReachNext(s2, WalkOn(2));
    t := Execute(s2, WalkOn(2));
  }

  /**
   At rest, a registration of 1 as 2 whose filter accepts 9 and 10 has rewritten image 9, which it counted,
   and image 10, which was loaded later, and has left image 8 alone.
   */
  lemma FilterHonoured() returns (s: State)
    ensures Reachable(s) && Quiescent(s) && s.failed == {} && InPhase(s, 0, Returned(true))
    ensures s.calls[0].entry == Entry(7, Rewrite(1, 2), Accepting({9, 10}))
    ensures s.images == [Image(9, [1], [2], Unscheduled), Image(8, [1], [1], Unscheduled),
                         Image(10, [1], [2], Finished(1))]
  {
    hide Reachable;
    var counted := TwoCounted();
    var returned := Enumerated(counted);
    var loaded := LoadedLater(returned);
    s := CalledBack(loaded);
  }
}
