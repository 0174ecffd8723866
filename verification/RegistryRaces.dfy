/**
 A registration of a function as its own replacement is harmless on its own, but not beside another
 registration for the same function: its store may come late and take the other rebind back.
 */
module RegistryRaces {
  import opened Runs
  import opened Wrappers
  import opened SlotAlgebra
  import opened Registry
  import opened RegistryRuns
  import opened RegistrySafety
  import opened RegistryValues
  import opened RegistryTheorems

  /** Two calls, 1 to 2 and 1 to 1, are about to scan the one image, whose slot was bound to 1. */
  predicate Ready(s: State, slots: seq<nat>) {
    && s.images == [Image(9, [1], slots, Unscheduled)] && s.failed == {}
    && s.calls.Keys == {0, 1} && 0 in s.nodes && 1 in s.nodes && 0 in s.history && 1 in s.history
    && s.nodes[0].entry == s.calls[0].entry == EntryOf(Rewrite(1, 2), NoFilter)
    && s.nodes[1].entry == s.calls[1].entry == EntryOf(Rewrite(1, 1), NoFilter)
    && s.calls[0].phase == Enumerating(0) && s.calls[1].phase == Enumerating(0)
    && s.calls[0].count == 1 && s.calls[1].count == 1
  }

  /** The image is loaded, and the first call has counted it. */
  lemma OneCounts() returns (s: State)
    ensures Reachable(s) && s.images == [Image(9, [1], [1], Unscheduled)] && s.failed == {} && s.jobs == map[]
    ensures s.calls.Keys == {0} && s.nodes.Keys == {0} && 0 in s.history && s.once.Completed?
    ensures s.nodes[0].entry == s.calls[0].entry == EntryOf(Rewrite(1, 2), NoFilter)
    ensures s.calls[0].phase == Enumerating(0) && s.calls[0].count == 1
  {
    hide ReachableBy;
    ReachStart(INITIAL, Takes);
    var load := LoadImage(9, [1]);
    ReachNext(INITIAL, load);
    var s0 := Execute(INITIAL, load);
    var s1 := Publish(s0, 0, Rewrite(1, 2), NoFilter);
    s := FirstThroughOnce(s1, 0);
  }

  lemma BothCount() returns (s: State)
    ensures Reachable(s) && Ready(s, [1]) && s.jobs == map[]
  {
    hide Reachable;
    var s2 := OneCounts();
    var s3 := Publish(s2, 1, Rewrite(1, 1), NoFilter);
    s := NextThroughOnce(s3, 1);
  }

  predicate Matched(s: State, id: CallId) {
    Caller(id) in s.jobs && s.jobs[Caller(id)] == Job(id, 0, 0, true)
  }

  /** One of the calls finds the slot. */
  lemma FindSlot(s: State, id: CallId) returns (t: State)
    requires Reachable(s) && Ready(s, [1]) && id in {0, 1} && Caller(id) !in s.jobs
    ensures Reachable(t) && t == s.(jobs := s.jobs[Caller(id) := Job(id, 0, 0, true)])
  {
    hide Reachable;
    ReachNext(s, Enumerate(id));
    var s1 := Execute(s, Enumerate(id));
    assert s1 == s.(jobs := s.jobs[Caller(id) := Job(id, 0, 0, false)]);
    ReachNext(s1, ReadSlot(Caller(id)));
    t := Execute(s1, ReadSlot(Caller(id)));
    assert t.jobs == s.jobs[Caller(id) := Job(id, 0, 0, true)];
  }

  /** One of the calls stores to the slot it found, whatever it holds by now. */
  lemma StoreFound(s: State, id: CallId, slots: seq<nat>) returns (t: State)
    requires Reachable(s) && Ready(s, slots) && |slots| == 1 && id in {0, 1} && Matched(s, id)
    ensures Reachable(t) && Ready(t, [if id == 0 then 2 else 1])
    ensures t.jobs == s.jobs[Caller(id) := Job(id, 0, 1, false)]
  {
    hide Reachable;
    ReachNext(s, StoreSlot(Caller(id), true));
    t := Execute(s, StoreSlot(Caller(id), true));
    assert t.images[0].slots == [if id == 0 then 2 else 1];
    assert t.images == [t.images[0]];
  }

  /** A call whose scan is through returns. */
  lemma FinishCall(s: State, id: CallId) returns (t: State)
    requires Reachable(s) && InPhase(s, id, Enumerating(0)) && s.calls[id].count == 1 && |s.images| == 1
             && id in s.nodes
    requires Caller(id) in s.jobs && s.jobs[Caller(id)] == Job(id, 0, 1, false) && |s.images[0].slots| == 1
    ensures Reachable(t) && t.images == s.images && t.failed == s.failed && t.nodes == s.nodes && t.history == s.history
    ensures t.calls == s.calls[id := s.calls[id].(phase := Returned(true))] && t.jobs == s.jobs - {Caller(id)}
  {
    hide Reachable;
    ReachNext(s, FinishScan(Caller(id)));
    var s1 := Execute(s, FinishScan(Caller(id)));
    ReachNext(s1, Enumerate(id));
    t := Execute(s1, Enumerate(id));
  }

  /**
   At rest, with no store refused, the slot shows the replacee although a registration for it has
   returned true. The rewrites that change something are compatible; the no-op is what spoils it.
   */
  lemma StaleNoOpUndoes() returns (s: State)
    ensures Reachable(s) && Quiescent(s) && s.failed == {} && InPhase(s, 0, Returned(true))
    ensures s.images == [Image(9, [1], [1], Unscheduled)] && s.calls[0].entry.rewrite == Rewrite(1, 2)
    ensures Eligible(s.calls[0].entry, s.images[0].header)
    ensures EligibleRewrites(s, 0) == {Rewrite(1, 2), Rewrite(1, 1)} && Compatible(Effective(EligibleRewrites(s, 0)))
  {
    hide Reachable, Execute, Enabled;
    var s0 := BothCount();
    var s1 := FindSlot(s0, 0);
    var s2 := FindSlot(s1, 1);
    var s3 := StoreFound(s2, 0, [1]);
    var s4 := StoreFound(s3, 1, [2]);
    var s5 := FinishCall(s4, 0);
    s := FinishCall(s5, 1);
    OnlyTwo(s);
  }

  lemma OnlyTwo(s: State)
    requires Reachable(s) && |s.images| == 1 && s.images[0].header == 9 && s.calls.Keys == {0, 1}
    requires 0 in s.nodes && 1 in s.nodes && 0 in s.history && 1 in s.history
    requires s.nodes[0].entry == EntryOf(Rewrite(1, 2), NoFilter)
             && s.nodes[1].entry == EntryOf(Rewrite(1, 1), NoFilter)
    ensures EligibleRewrites(s, 0) == {Rewrite(1, 2), Rewrite(1, 1)}
  {
    var run, steps :| IsRun(run, steps) && run[|steps|] == s;
    RunInvariant(run, steps, |steps|);
    assert s.nodes[0].entry.rewrite in EligibleRewrites(s, 0) && s.nodes[1].entry.rewrite in EligibleRewrites(s, 0);
    forall e | e in EligibleRewrites(s, 0) ensures e in {Rewrite(1, 2), Rewrite(1, 1)} {
      var n :| n in s.history && n in s.nodes && s.nodes[n].entry.rewrite == e;
      assert n in s.calls;
    }
  }
}
