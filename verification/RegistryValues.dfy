/**
 What the slots themselves hold, with every read, every store and every image scan interleaved.
 Two scans may race on one slot; with compatible rewrites the race is harmless.
 */
module RegistryValues {
  import opened Wrappers
  import opened SlotAlgebra
  import opened Registry
  import opened RegistrySafety

  /** The rewrites of the published entries that take part in image `i`. */
  function EligibleRewrites(s: State, i: nat): set<Rewrite>
    requires i < |s.images|
  {
    set n | n in s.history && n in s.nodes && Eligible(s.nodes[n].entry, s.images[i].header)
      :: s.nodes[n].entry.rewrite
  }

  predicate ValidSlot(s: State, i: nat, k: nat) {
    i < |s.images| && k < |s.images[i].slots| && k < |s.images[i].original|
  }

  /** Some eligible entry makes `value` of what dyld bound the slot to. */
  ghost predicate Yields(s: State, i: nat, k: nat, value: nat)
    requires ValidSlot(s, i, k)
  {
    exists e :: e in EligibleRewrites(s, i) && e.replacee == s.images[i].original[k] && e.replacement == value
  }

  /** A slot holds what dyld bound it to, or what some eligible entry makes of that. */
  ghost predicate SlotOk(s: State, i: nat, k: nat)
    requires ValidSlot(s, i, k)
  {
    s.images[i].slots[k] == s.images[i].original[k] || Yields(s, i, k, s.images[i].slots[k])
  }

  /** Entry `n` has nothing left to do at this slot, unless a store there was refused. */
  predicate Settled(s: State, n: CallId, i: nat, k: nat)
    requires ValidSlot(s, i, k) && n in s.nodes
  {
    var e := s.nodes[n].entry.rewrite;
    (i, k) in s.failed || (s.images[i].original[k] == e.replacee ==> s.images[i].slots[k] == e.replacement)
  }

  ghost predicate JobValues(s: State, a: Actor)
    requires a in s.jobs
  {
    var job := s.jobs[a];
    && job.image < |s.images| && job.node in s.nodes
    && (job.matched ==>
          && ValidSlot(s, job.image, job.slot)
          && Yields(s, job.image, job.slot, s.nodes[job.node].entry.rewrite.replacement))
    && forall k | 0 <= k < job.slot :: ValidSlot(s, job.image, k) && Settled(s, job.node, job.image, k)
  }

  /** Entry `n` has nothing left to do in image `i`, up to refused stores. */
  ghost predicate AllSettled(s: State, n: CallId, i: nat)
    requires i < |s.images|
  {
    n in s.nodes && forall k | 0 <= k < |s.images[i].slots| :: ValidSlot(s, i, k) && Settled(s, n, i, k)
  }

  ghost predicate ImageValues(s: State, i: nat)
    requires i < |s.images|
  {
    && |s.images[i].slots| == |s.images[i].original|
    && (forall k | 0 <= k < |s.images[i].slots| :: SlotOk(s, i, k))
    && (forall a | a in s.jobs && s.jobs[a].image == i :: JobValues(s, a))
    && (forall n | (n, i) in s.applied :: AllSettled(s, n, i))
  }

  /** The part of `Extends` that matters to the slots of image `i`. */
  ghost predicate Grew(s: State, t: State, i: nat) {
    && s.history <= t.history
    && (forall n | n in s.nodes :: n in t.nodes && t.nodes[n].entry == s.nodes[n].entry)
    && i < |s.images| && i < |t.images|
    && t.images[i].header == s.images[i].header && t.images[i].original == s.images[i].original
  }

  lemma RewritesGrow(s: State, t: State, i: nat)
    requires Grew(s, t, i)
    ensures EligibleRewrites(s, i) <= EligibleRewrites(t, i)
  {
    forall e | e in EligibleRewrites(s, i) ensures e in EligibleRewrites(t, i) {
      var n :| n in s.history && n in s.nodes && Eligible(s.nodes[n].entry, s.images[i].header)
               && s.nodes[n].entry.rewrite == e;
      var j :| 0 <= j < |s.history| && s.history[j] == n;
      assert t.history[j] == n;
    }
  }

  lemma SettledKept(s: State, t: State, n: CallId, i: nat, k: nat)
    requires Grew(s, t, i) && t.images[i].slots == s.images[i].slots && s.failed <= t.failed
    requires n in s.nodes && ValidSlot(s, i, k) && Settled(s, n, i, k)
    ensures n in t.nodes && ValidSlot(t, i, k) && Settled(t, n, i, k)
  {
  }

  /**
   A step that leaves the slots of image `i` as they were: what is left to show concerns the 
   actors whose jobs it moved and the scans they finished.
   */
  lemma ValuesKept(s: State, t: State, i: nat, moved: set<Actor>)
    requires Grew(s, t, i) && ImageValues(s, i)
    requires t.images[i].slots == s.images[i].slots && s.failed <= t.failed
    requires forall a | a in t.jobs && t.jobs[a].image == i && a !in moved :: a in s.jobs && t.jobs[a] == s.jobs[a]
    requires forall a | a in moved && a in t.jobs && t.jobs[a].image == i :: JobValues(t, a)
    requires forall n | (n, i) in t.applied && (n, i) !in s.applied :: AllSettled(t, n, i)
    ensures ImageValues(t, i)
  {
    RewritesGrow(s, t, i);
    forall k | 0 <= k < |t.images[i].slots| ensures SlotOk(t, i, k) { assert SlotOk(s, i, k); }
    forall a | a in t.jobs && t.jobs[a].image == i && a !in moved ensures JobValues(t, a) {
      assert JobValues(s, a);
      forall k | 0 <= k < t.jobs[a].slot ensures ValidSlot(t, i, k) && Settled(t, t.jobs[a].node, i, k) {
        SettledKept(s, t, s.jobs[a].node, i, k);
      }
    }
    forall n | (n, i) in t.applied && (n, i) in s.applied ensures AllSettled(t, n, i) {
      assert AllSettled(s, n, i);
      forall k | 0 <= k < |t.images[i].slots| ensures ValidSlot(t, i, k) && Settled(t, n, i, k) {
        SettledKept(s, t, n, i, k);
      }
    }
  }

  /** The rewrite of a running scan is one of the image's eligible rewrites, and not of null. */
  lemma ScanIsEligible(s: State, actor: Actor)
    requires Inv(s) && actor in s.jobs
    ensures var job := s.jobs[actor];
            && job.node in s.nodes && job.image < |s.images|
            && s.nodes[job.node].entry.rewrite in EligibleRewrites(s, job.image)
            && s.nodes[job.node].entry.rewrite.replacee != 0
  {
    assert JobOk(s, actor);
    assert CallOk(s, s.jobs[actor].node);
  }

  /** What the slot that a scan has reached tells about the entry being applied. */
  ghost predicate SlotTells(s: State, actor: Actor)
    requires CanScan(s, actor) && SlotsLeft(s, actor)
  {
    var job := s.jobs[actor];
    var e := s.nodes[job.node].entry.rewrite;
    && ValidSlot(s, job.image, job.slot) && e.replacee != 0
    && if s.images[job.image].slots[job.slot] == e.replacee
       then Yields(s, job.image, job.slot, e.replacement)
       else Settled(s, job.node, job.image, job.slot)
  }

  /** A slot that shows the replacee is still unwritten; one that does not is settled. */
  lemma InspectedSlot(s: State, actor: Actor)
    requires Inv(s) && CanScan(s, actor) && SlotsLeft(s, actor)
    requires ImageValues(s, s.jobs[actor].image) && Compatible(EligibleRewrites(s, s.jobs[actor].image))
    ensures SlotTells(s, actor) && JobValues(s, actor)
  {
    hide Inv, EligibleRewrites;
    ScanIsEligible(s, actor);
    var job := s.jobs[actor];
    assert JobValues(s, actor);
    assert SlotOk(s, job.image, job.slot);
  }

  lemma JobAfterInspect(s: State, actor: Actor)
    requires CanScan(s, actor) && SlotsLeft(s, actor) && !s.jobs[actor].matched
    requires SlotTells(s, actor) && JobValues(s, actor)
    ensures JobValues(Inspect(s, actor), actor)
  {
    var t, job := Inspect(s, actor), s.jobs[actor];
    forall k | 0 <= k < t.jobs[actor].slot ensures ValidSlot(t, job.image, k) && Settled(t, job.node, job.image, k) {
      if k < job.slot { assert Settled(s, job.node, job.image, k); }
    }
  }

  lemma ValuesInspect(s: State, actor: Actor)
    requires CanScan(s, actor) && SlotsLeft(s, actor) && !s.jobs[actor].matched
    requires ImageValues(s, s.jobs[actor].image)
    requires SlotTells(s, actor) && JobValues(s, actor)
    ensures ImageValues(Inspect(s, actor), s.jobs[actor].image)
  {
    JobAfterInspect(s, actor);
    ValuesKept(s, Inspect(s, actor), s.jobs[actor].image, {actor});
  }

  /** After a store or a refusal, a slot settled for any entry of the image is settled still. */
  lemma SettledAfterStore(s: State, actor: Actor, succeeds: bool, n: CallId, k: nat)
    requires Inv(s) && CanScan(s, actor) && SlotsLeft(s, actor) && s.jobs[actor].matched
    requires var i := s.jobs[actor].image; Compatible(EligibleRewrites(s, i)) && JobValues(s, actor)
    requires n in s.nodes && s.nodes[n].entry.rewrite in EligibleRewrites(s, s.jobs[actor].image)
    requires ValidSlot(s, s.jobs[actor].image, k)
    requires Settled(s, n, s.jobs[actor].image, k) || k == s.jobs[actor].slot
    ensures Settled(Overwrite(s, actor, succeeds), n, s.jobs[actor].image, k)
  {
    hide Inv, EligibleRewrites;
    var job := s.jobs[actor];
    if succeeds && k == job.slot {
      YieldedSettles(s, n, job.image, k, s.nodes[job.node].entry.rewrite.replacement);
    }
  }

  /** One replacee has one replacement. */
  lemma YieldedSettles(s: State, n: CallId, i: nat, k: nat, value: nat)
    requires ValidSlot(s, i, k) && Yields(s, i, k, value) && n in s.nodes
    requires Compatible(EligibleRewrites(s, i)) && s.nodes[n].entry.rewrite in EligibleRewrites(s, i)
    ensures s.images[i].original[k] == s.nodes[n].entry.rewrite.replacee ==>
              value == s.nodes[n].entry.rewrite.replacement
  {
    hide EligibleRewrites;
  }

  lemma AppliedIsEligible(s: State, n: CallId, i: nat)
    requires Inv(s) && (n, i) in s.applied
    ensures i < |s.images| && n in s.nodes && s.nodes[n].entry.rewrite in EligibleRewrites(s, i)
  {
    assert AppliedOk(s, n, i);
    assert CallOk(s, n);
  }

  lemma ValuesOverwrite(s: State, actor: Actor, succeeds: bool)
    requires Inv(s) && CanScan(s, actor) && SlotsLeft(s, actor) && s.jobs[actor].matched
    requires ImageValues(s, s.jobs[actor].image) && Compatible(EligibleRewrites(s, s.jobs[actor].image))
    ensures ImageValues(Overwrite(s, actor, succeeds), s.jobs[actor].image)
  {
    var t, i := Overwrite(s, actor, succeeds), s.jobs[actor].image;
    assert JobValues(s, actor);
    ScanIsEligible(s, actor);
    assert EligibleRewrites(t, i) == EligibleRewrites(s, i);
    forall k | 0 <= k < |t.images[i].slots| ensures SlotOk(t, i, k) { assert SlotOk(s, i, k); }
    forall a | a in t.jobs && t.jobs[a].image == i ensures JobValues(t, a) {
      assert JobValues(s, a);
      ScanIsEligible(s, a);
      forall k | 0 <= k < t.jobs[a].slot ensures ValidSlot(t, i, k) && Settled(t, t.jobs[a].node, i, k) {
        SettledAfterStore(s, actor, succeeds, t.jobs[a].node, k);
      }
    }
    forall n | (n, i) in t.applied ensures AllSettled(t, n, i) {
      AppliedIsEligible(s, n, i);
      assert AllSettled(s, n, i);
      forall k | 0 <= k < |t.images[i].slots| ensures ValidSlot(t, i, k) && Settled(t, n, i, k) {
        SettledAfterStore(s, actor, succeeds, n, k);
      }
    }
  }

  lemma FinishedScanSettles(s: State, actor: Actor)
    requires Inv(s) && CanScan(s, actor) && !SlotsLeft(s, actor)
    requires ImageValues(s, s.jobs[actor].image)
    ensures AllSettled(s, s.jobs[actor].node, s.jobs[actor].image)
  {
    assert JobValues(s, actor);
  }

  /** A finished scan has settled every slot of the image. */
  lemma ValuesEndScan(s: State, actor: Actor)
    requires Inv(s) && CanScan(s, actor) && !SlotsLeft(s, actor)
    requires ImageValues(s, s.jobs[actor].image)
    ensures ImageValues(RecordScan(s, actor), s.jobs[actor].image)
  {
    var job, t := s.jobs[actor], RecordScan(s, actor);
    FinishedScanSettles(s, actor);
    forall k | 0 <= k < |t.images[job.image].slots|
      ensures ValidSlot(t, job.image, k) && Settled(t, job.node, job.image, k)
    {
      SettledKept(s, t, job.node, job.image, k);
    }
    ValuesKept(s, t, job.image, {actor});
  }

  lemma ExtendsGrew(s: State, t: State, i: nat)
    requires Extends(s, t) && i < |s.images|
    ensures Grew(s, t, i) && |t.images[i].slots| == |s.images[i].slots|
  {
  }

  /** A step that starts or ends no scan and touches no slot. */
  lemma ValuesIdle(s: State, t: State, i: nat)
    requires Extends(s, t) && i < |s.images| && ImageValues(s, i)
    requires t.images[i].slots == s.images[i].slots
    requires t.jobs == s.jobs && t.applied == s.applied && t.failed == s.failed
    ensures ImageValues(t, i)
  {
    ExtendsGrew(s, t, i);
    ValuesKept(s, t, i, {});
  }

  lemma ValuesStart(s: State, t: State, i: nat, actor: Actor)
    requires i < |s.images| && ImageValues(s, i) && actor in t.jobs
    requires t == s.(jobs := s.jobs[actor := t.jobs[actor]]) && t.jobs[actor].slot == 0 && !t.jobs[actor].matched
    requires t.jobs[actor].node in s.nodes && t.jobs[actor].image < |s.images|
    ensures ImageValues(t, i)
  {
    ValuesKept(s, t, i, {actor});
  }

  lemma ValuesReadSlot(s: State, actor: Actor, i: nat)
    requires Inv(s) && CanScan(s, actor) && SlotsLeft(s, actor) && !s.jobs[actor].matched
    requires i < |s.images| && ImageValues(s, i) && Compatible(EligibleRewrites(s, i))
    ensures ImageValues(Inspect(s, actor), i)
  {
    if s.jobs[actor].image == i {
      InspectedSlot(s, actor);
      ValuesInspect(s, actor);
    } else {
      ValuesKept(s, Inspect(s, actor), i, {actor});
    }
  }

  lemma ValuesStoreSlot(s: State, actor: Actor, succeeds: bool, i: nat)
    requires Inv(s) && CanScan(s, actor) && SlotsLeft(s, actor) && s.jobs[actor].matched
    requires i < |s.images| && ImageValues(s, i) && Compatible(EligibleRewrites(s, i))
    ensures ImageValues(Overwrite(s, actor, succeeds), i)
  {
    if s.jobs[actor].image == i {
      ValuesOverwrite(s, actor, succeeds);
    } else {
      ValuesKept(s, Overwrite(s, actor, succeeds), i, {actor});
    }
  }

  lemma ValuesFinishScan(s: State, actor: Actor, i: nat)
    requires Inv(s) && CanScan(s, actor) && !SlotsLeft(s, actor)
    requires i < |s.images| && ImageValues(s, i)
    ensures ImageValues(EndScan(s, actor), i)
  {
    var r := RecordScan(s, actor);
    if s.jobs[actor].image == i {
      ValuesEndScan(s, actor);
    } else {
      ValuesKept(s, r, i, {actor});
    }
    ValuesKept(r, EndScan(s, actor), i, {});
  }

  predicate Idle(step: Step) {
    !step.ReadSlot? && !step.StoreSlot? && !step.FinishScan? && !step.Enumerate? && !step.WalkOn?
  }

  lemma IdleStep(s: State, step: Step, i: nat)
    requires Enabled(s, step) && Idle(step) && i < |s.images|
    ensures var t := Execute(s, step);
            && i < |t.images| && t.images[i].slots == s.images[i].slots
            && t.jobs == s.jobs && t.applied == s.applied && t.failed == s.failed
  {
    match step
    case Begin(id, source, rewrite, filter) =>
    case Allocate(id, succeeds) =>
    case LoadHead(id) =>
    case LinkNode(id) =>
    case Exchange(id, spurious) =>
    case EnterOnce(id) =>
    case ScheduleLoaded(id, image) =>
    case InstallCallback(id) =>
    case LeaveOnce(id) =>
    case CountImages(id) =>
    case LoadImage(header, original) =>
    case StartCallback(image) =>
  }

  lemma ValuesIdleStep(s: State, step: Step, i: nat)
    requires Enabled(s, step) && Idle(step) && i < |s.images| && Extends(s, Execute(s, step))
    requires ImageValues(s, i)
    ensures ImageValues(Execute(s, step), i)
  {
    IdleStep(s, step, i);
    ValuesIdle(s, Execute(s, step), i);
  }

  lemma ValuesEnumerate(s: State, id: CallId, i: nat)
    requires CanEnumerate(s, id) && i < |s.images| && ImageValues(s, i)
    requires Extends(s, NextImage(s, id))
    ensures ImageValues(NextImage(s, id), i)
  {
    var t := NextImage(s, id);
    if t.jobs == s.jobs { ValuesIdle(s, t, i); } else { ValuesStart(s, t, i, Caller(id)); }
  }

  lemma ValuesWalkOn(s: State, k: nat, i: nat)
    requires CanWalk(s, k) && i < |s.images| && ImageValues(s, i)
    requires Extends(s, NextEntry(s, k))
    ensures ImageValues(NextEntry(s, k), i)
  {
    var t := NextEntry(s, k);
    if t.jobs == s.jobs { ValuesIdle(s, t, i); } else { ValuesStart(s, t, i, Callback(k)); }
  }

  /** Each step keeps the values of each image whose eligible rewrites are compatible. */
  lemma ValuesStep(s: State, step: Step, i: nat)
    requires Inv(s) && Enabled(s, step) && i < |s.images| && Extends(s, Execute(s, step))
    requires ImageValues(s, i) && Compatible(EligibleRewrites(s, i))
    ensures ImageValues(Execute(s, step), i)
  {
    hide Inv, Extends, ImageValues, Compatible, EligibleRewrites;
    match step
    case ReadSlot(actor) => ValuesReadSlot(s, actor, i);
    case StoreSlot(actor, succeeds) => ValuesStoreSlot(s, actor, succeeds, i);
    case FinishScan(actor) => ValuesFinishScan(s, actor, i);
    case Enumerate(id) => ValuesEnumerate(s, id, i);
    case WalkOn(k) => ValuesWalkOn(s, k, i);
    case _ => ValuesIdleStep(s, step, i);
  }

  /** A freshly loaded image holds what dyld bound. */
  lemma ValuesLoad(s: State, header: Header, original: seq<nat>)
    requires Inv(s)
    ensures ImageValues(AddImage(s, header, original), |s.images|)
  {
    var t := AddImage(s, header, original);
    forall a | a in t.jobs ensures t.jobs[a].image < |s.images| { assert JobOk(s, a); }
    forall n, k | (n, k) in t.applied ensures k < |s.images| { assert AppliedOk(s, n, k); }
  }
}
