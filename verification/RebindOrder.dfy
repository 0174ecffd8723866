/**
 Sequences of rebinds on the memory of one image: what the slots resolve to afterwards is what the
 slot algebra says of the registered rewrites, so the order of compatible rebinds does not show.
 */
module RebindOrder {
  import opened Memory
  import opened Pointers
  import opened Rebind
  import opened SlotAlgebra
  import opened Words

  /** The rebind of a job on raw addresses. */
  function RewriteOf(job: Job): Rewrite {
    Rewrite(job.replaceeRaw, Strip(job.replacement))
  }

  function RewritesOf(jobs: seq<Job>): (es: seq<Rewrite>)
    ensures |es| == |jobs| && forall i | 0 <= i < |jobs| :: es[i] == RewriteOf(jobs[i])
  {
    seq(|jobs|, i requires 0 <= i < |jobs| => RewriteOf(jobs[i]))
  }

  /** Signing aside, rebinding a slot is the rewrite of what it resolves to. */
  lemma SlotRefines(job: Job, authenticated: bool, slot: u64, value: u64)
    requires IsSigner(job.sign) && job.replaceeRaw != 0
    ensures Strip(Rewritten(job, authenticated, slot, value)) == RewriteSlot(RewriteOf(job), Strip(value))
  {
    StripZero();
    StripTwice(job.replacement);
  }

  /** The memory of one image under a sequence of rebinds, every store of which succeeds. */
  ghost predicate Chain(states: seq<map<int, byte>>, jobs: seq<Job>, ranges: seq<SlotRange>) {
    && |states| == |jobs| + 1
    && forall i | 0 <= i < |jobs| :: Rebound(states[i], states[i + 1], ranges, jobs[i], true)
  }

  predicate Resolvable(jobs: seq<Job>) {
    forall i | 0 <= i < |jobs| :: jobs[i].replaceeRaw != 0
  }

  ghost predicate Signed(jobs: seq<Job>) {
    forall i | 0 <= i < |jobs| :: IsSigner(jobs[i].sign)
  }

  lemma OneRebind(before: map<int, byte>, after: map<int, byte>, ranges: seq<SlotRange>, job: Job, r: SlotRange, k: nat)
    requires Rebound(before, after, ranges, job, true) && Rebind.Disjoint(ranges) && r in ranges && k < r.count
    requires Rebind.AllMapped(before, ranges) && IsSigner(job.sign) && job.replaceeRaw != 0
    ensures Rebind.AllMapped(after, ranges) && Mapped(before, r.Slot(k), 8)
    ensures Strip(SlotValue(after, r.Slot(k))) == RewriteSlot(RewriteOf(job), Strip(SlotValue(before, r.Slot(k))))
  {
    hide Strip, Rewritten, SlotValue, Rebind.Disjoint, IsSigner;
    var slot := r.Slot(k);
    assert Mapped(before, slot, 8);
    assert AllDone(before, after, r, job, true);
    assert SlotDone(before, after, r, k, job, true);
    SlotRefines(job, r.authenticated, slot, SlotValue(before, slot));
  }

  /** A chain of rebinds computes the rewrites in their order on every slot. */
  lemma {:induction false} ChainApplies(states: seq<map<int, byte>>, jobs: seq<Job>, ranges: seq<SlotRange>,
                                        r: SlotRange, k: nat)
    requires Chain(states, jobs, ranges) && Rebind.Disjoint(ranges) && Rebind.AllMapped(states[0], ranges)
    requires Resolvable(jobs) && Signed(jobs) && r in ranges && k < r.count
    ensures Rebind.AllMapped(states[|jobs|], ranges) && r.Slot(k) < TWO_64
    ensures Strip(SlotValue(states[|jobs|], r.Slot(k)))
            == ApplyAll(RewritesOf(jobs), Strip(SlotValue(states[0], r.Slot(k))))
    decreases |jobs|
  {
    hide Strip, SlotValue, Rebound, Rebind.Disjoint, IsSigner, RewriteOf, RewriteSlot;
    if jobs != [] {
      OneRebind(states[0], states[1], ranges, jobs[0], r, k);
      forall i | 0 <= i < |jobs| - 1 ensures Rebound(states[1..][i], states[1..][i + 1], ranges, jobs[1..][i], true) {
        assert Rebound(states[i + 1], states[i + 2], ranges, jobs[i + 1], true);
      }
      assert forall i | 0 <= i < |jobs| - 1 :: IsSigner(jobs[1..][i].sign);
      ChainApplies(states[1..], jobs[1..], ranges, r, k);
      assert RewritesOf(jobs)[1..] == RewritesOf(jobs[1..]);
    }
  }

  /**
   Any two sequences of the same compatible rebinds, in any order and however often each, leave
   every slot of the image resolving to the same address: already loaded and future images agree.
   */
  lemma OrderDoesNotShow(states: seq<map<int, byte>>, jobs: seq<Job>, states2: seq<map<int, byte>>, jobs2: seq<Job>,
                         ranges: seq<SlotRange>, r: SlotRange, k: nat)
    requires Chain(states, jobs, ranges) && Chain(states2, jobs2, ranges) && states[0] == states2[0]
    requires Rebind.Disjoint(ranges) && Rebind.AllMapped(states[0], ranges)
    requires Resolvable(jobs) && Signed(jobs) && Resolvable(jobs2) && Signed(jobs2) && r in ranges && k < r.count
    requires Elements(RewritesOf(jobs)) == Elements(RewritesOf(jobs2))
             && Compatible(Effective(Elements(RewritesOf(jobs))))
    ensures Mapped(states[|jobs|], r.Slot(k), 8) && Mapped(states2[|jobs2|], r.Slot(k), 8)
    ensures Strip(SlotValue(states[|jobs|], r.Slot(k))) == Strip(SlotValue(states2[|jobs2|], r.Slot(k)))
  {
    hide Strip, SlotValue, Rebound, IsSigner, ApplyAll;
    ChainApplies(states, jobs, ranges, r, k);
    ChainApplies(states2, jobs2, ranges, r, k);
    OrderAndMultiplicityIrrelevant(RewritesOf(jobs), RewritesOf(jobs2), Strip(SlotValue(states[0], r.Slot(k))));
  }
}
