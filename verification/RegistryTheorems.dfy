/**
 The promises of the global rebind function, over every finite run of the step system: any
 interleaving of any number of registrations, image loads and callbacks.
 */
module RegistryTheorems {
  import opened Runs
  import opened Wrappers
  import opened SlotAlgebra
  import opened Registry
  import opened RegistrySafety
  import opened RegistryValues

  predicate Takes(s: State, step: Step, t: State) {
    Enabled(s, step) && t == Execute(s, step)
  }

  ghost predicate IsRun(run: seq<State>, steps: seq<Step>) {
    IsRunOf(INITIAL, Takes, run, steps)
  }

  lemma StepTaken(run: seq<State>, steps: seq<Step>, k: nat)
    requires IsRun(run, steps) && k + 1 < |run|
    ensures |run| == |steps| + 1 && Enabled(run[k], steps[k]) && run[k + 1] == Execute(run[k], steps[k])
  {
    hide Enabled, Execute;
    assert Takes(run[k], steps[k], run[k + 1]);
  }

  lemma {:induction false} RunInvariant(run: seq<State>, steps: seq<Step>, k: nat)
    requires IsRun(run, steps) && k < |run|
    ensures Inv(run[k])
  {
    if k == 0 {
      InvInitial();
    } else {
      RunInvariant(run, steps, k - 1);
      StepTaken(run, steps, k - 1);
      InvStep(run[k - 1], steps[k - 1]);
    }
  }

  lemma {:induction false} RunExtends(run: seq<State>, steps: seq<Step>, i: nat, k: nat)
    requires IsRun(run, steps) && i <= k < |run|
    ensures Extends(run[i], run[k])
    decreases k
  {
    hide Inv, Extends, Enabled, Execute, IsRunOf, Takes;
    if i == k {
      ExtendsItself(run[k]);
    } else {
      RunExtends(run, steps, i, k - 1);
      RunInvariant(run, steps, k - 1);
      StepTaken(run, steps, k - 1);
      InvStep(run[k - 1], steps[k - 1]);
      ExtendsTransitive(run[i], run[k - 1], run[k]);
    }
  }

  lemma ExtendsItself(s: State)
    ensures Extends(s, s)
  {
  }

  // ---- coverage ----

  /** Images a returned call answers for: those it counted and those whose callback has finished. */
  predicate Covered(s: State, c: CallId, i: nat)
    requires c in s.calls && i < |s.images|
  {
    i < s.calls[c].count || s.images[i].callback.Finished?
  }

  lemma CoverageInState(s: State, c: CallId, i: nat)
    requires Inv(s) && InPhase(s, c, Returned(true)) && i < |s.images| && Covered(s, c, i)
    ensures (c, i) in s.applied <==> Eligible(s.calls[c].entry, s.images[i].header)
  {
    assert CallOk(s, c);
    if (c, i) in s.applied {
      assert AppliedOk(s, c, i);
    } else if i < s.calls[c].count {
      assert Handled(s, c, i);
    } else {
      assert LateOk(s, i, c) && WalkOk(s, i);
      assert Handled(s, s.history[s.calls[c].position], i);
    }
  }

  /**
   Once a registration has returned true, its entry has been applied to exactly those covered
   images that are not its source image and pass its filter, if it has one.
   */
  lemma Coverage(run: seq<State>, steps: seq<Step>, k: nat, c: CallId, i: nat)
    requires IsRun(run, steps) && k < |run|
    requires InPhase(run[k], c, Returned(true)) && i < |run[k].images| && Covered(run[k], c, i)
    ensures var (entry, header) := (run[k].calls[c].entry, run[k].images[i].header);
            (c, i) in run[k].applied <==>
            header != entry.source && (entry.filter == NoFilter
                                       || (entry.filter.Accepting? && header in entry.filter.headers))
  {
    RunInvariant(run, steps, k);
    CoverageInState(run[k], c, i);
  }

  /** In no reachable state has an entry been applied to its source image or to a rejected one. */
  lemma NeverAppliedToExcluded(run: seq<State>, steps: seq<Step>, k: nat, c: CallId, i: nat)
    requires IsRun(run, steps) && k < |run| && (c, i) in run[k].applied
    ensures c in run[k].history && c in run[k].calls && i < |run[k].images|
    ensures run[k].images[i].header != run[k].calls[c].entry.source
    ensures run[k].calls[c].entry.filter.Accepting? ==>
              run[k].images[i].header in run[k].calls[c].entry.filter.headers
  {
    RunInvariant(run, steps, k);
    assert AppliedOk(run[k], c, i) && CallOk(run[k], c);
  }

  predicate UnderWay(image: Image) {
    image.callback.Pending? || image.callback.Walking?
  }

  /** Nothing is under way: every call has returned and no callback is pending or walking. */
  predicate Quiescent(s: State) {
    && (forall c | c in s.calls :: s.calls[c].phase.Returned?)
    && (forall i | 0 <= i < |s.images| :: !UnderWay(s.images[i]))
  }

  lemma QuiescentCovers(s: State, c: CallId, i: nat)
    requires Inv(s) && Quiescent(s) && InPhase(s, c, Returned(true)) && i < |s.images|
    ensures Covered(s, c, i)
  {
    assert LateOk(s, i, c);
  }

  /** At rest, every successful registration has reached every loaded image that it should. */
  lemma QuiescentCoverage(run: seq<State>, steps: seq<Step>, k: nat, c: CallId, i: nat)
    requires IsRun(run, steps) && k < |run| && Quiescent(run[k])
    requires InPhase(run[k], c, Returned(true)) && i < |run[k].images|
    ensures var (entry, header) := (run[k].calls[c].entry, run[k].images[i].header);
            (c, i) in run[k].applied <==>
            header != entry.source && (entry.filter == NoFilter
                                       || (entry.filter.Accepting? && header in entry.filter.headers))
  {
    RunInvariant(run, steps, k);
    QuiescentCovers(run[k], c, i);
    CoverageInState(run[k], c, i);
  }

  // ---- the list refines an append-only history ----

  function Reversed(h: seq<CallId>): seq<CallId> {
    if h == [] then [] else [h[|h| - 1]] + Reversed(h[..|h| - 1])
  }

  /** Following `next` from `link` visits exactly `list` and then ends. */
  ghost predicate Lists(nodes: map<CallId, Node>, link: Link, list: seq<CallId>)
    decreases |list|
  {
    if list == [] then link == None
    else link == Some(list[0]) && list[0] in nodes && Lists(nodes, nodes[list[0]].next, list[1..])
  }

  lemma {:induction false} ListsPrefix(s: State, nodes: map<CallId, Node>, m: nat)
    requires Inv(s) && m <= |s.history|
    requires forall j | 0 <= j < |s.history| && s.history[j] in s.nodes ::
               s.history[j] in nodes && nodes[s.history[j]] == s.nodes[s.history[j]]
    ensures Lists(nodes, LinkAt(s.history, m), Reversed(s.history[..m]))
  {
    if m > 0 {
      assert NodeOk(s, m - 1);
      assert s.history[..m][..m - 1] == s.history[..m - 1];
      ListsPrefix(s, nodes, m - 1);
    }
  }

  /** The walk from the head terminates and meets each published entry once, newest first. */
  lemma ListRefinesHistory(run: seq<State>, steps: seq<Step>, k: nat)
    requires IsRun(run, steps) && k < |run|
    ensures Lists(run[k].nodes, run[k].head, Reversed(run[k].history))
    ensures forall i, j | 0 <= i < j < |run[k].history| :: run[k].history[i] != run[k].history[j]
  {
    var s := run[k];
    RunInvariant(run, steps, k);
    assert s.history[..|s.history|] == s.history;
    ListsPrefix(s, s.nodes, |s.history|);
    forall i, j | 0 <= i < j < |s.history| ensures s.history[i] != s.history[j] {
      assert NodeOk(s, i) && NodeOk(s, j);
    }
  }

  lemma {:induction false} ReversedSplit(g: seq<CallId>, h: seq<CallId>)
    ensures Reversed(g + h) == Reversed(h) + Reversed(g)
  {
    if h == [] {
      assert g + h == g;
    } else {
      assert (g + h)[..|g + h| - 1] == g + h[..|h| - 1];
      ReversedSplit(g, h[..|h| - 1]);
    }
  }

  /**
   A head read at one time is a valid snapshot for ever: in any later state it still lists what it
   listed, and that is the tail of the later list.
   */
  lemma SnapshotIsSuffix(run: seq<State>, steps: seq<Step>, i: nat, k: nat)
    requires IsRun(run, steps) && i <= k < |run|
    ensures Lists(run[k].nodes, run[i].head, Reversed(run[i].history))
    ensures exists newer :: Reversed(run[k].history) == newer + Reversed(run[i].history)
  {
    var s, t := run[i], run[k];
    RunInvariant(run, steps, i);
    RunExtends(run, steps, i, k);
    assert s.history[..|s.history|] == s.history;
    forall j | 0 <= j < |s.history| ensures s.history[j] in t.nodes { assert NodeOk(s, j); }
    ListsPrefix(s, t.nodes, |s.history|);
    assert t.history == s.history + t.history[|s.history|..];
    ReversedSplit(s.history, t.history[|s.history|..]);
  }

  // ---- the exchange loop ----

  predicate Pushes(s: State, step: Step) {
    step.Exchange? && CanExchange(s, step.id) && s.head == s.calls[step.id].phase.expected && !step.spurious
  }

  predicate GenuinelyFails(s: State, step: Step, c: CallId) {
    step.Exchange? && step.id == c && CanExchange(s, c) && s.head != s.calls[c].phase.expected
  }

  predicate Started(phase: Phase) {
    phase.Linking? || phase.Exchanging? || Published(phase)
  }

  /** The steps of dyld and of the scans, which leave the calls' own records alone. */
  predicate ByImage(step: Step) {
    || step.ScheduleLoaded? || step.InstallCallback? || step.LoadImage? || step.StartCallback? || step.WalkOn?
    || step.ReadSlot? || step.StoreSlot?
  }

  lemma ByImageEffect(s: State, step: Step)
    requires Enabled(s, step) && ByImage(step)
    ensures Execute(s, step).calls == s.calls && Execute(s, step).history == s.history
  {
    match step
    case ScheduleLoaded(id, image) =>
    case InstallCallback(id) =>
    case LoadImage(header, original) =>
    case StartCallback(image) =>
    case WalkOn(image) =>
    case ReadSlot(actor) =>
    case StoreSlot(actor, succeeds) =>
  }

  /** How one step moves the history variables of call `c`. */
  ghost predicate Effect(s: State, step: Step, t: State, c: CallId) {
    && c in s.calls && c in t.calls
    && |t.history| == |s.history| + (if Pushes(s, step) then 1 else 0)
    && (t.calls[c].phase == Returned(false) <==> s.calls[c].phase == Returned(false) || step == Allocate(c, false))
    && t.calls[c].failures == s.calls[c].failures + (if GenuinelyFails(s, step, c) then 1 else 0)
    && (Started(s.calls[c].phase) ==>
          && Started(t.calls[c].phase) && t.calls[c].firstSeen == s.calls[c].firstSeen
          && (Published(t.calls[c].phase) <==> Published(s.calls[c].phase) || (Pushes(s, step) && step.id == c)))
  }

  lemma FinishScanEffect(s: State, actor: Actor, c: CallId)
    requires Enabled(s, FinishScan(actor)) && c in s.calls
    ensures Effect(s, FinishScan(actor), Execute(s, FinishScan(actor)), c)
  {
    match actor
    case Caller(id) =>
    case Callback(i) =>
  }

  lemma ExchangeEffect(s: State, step: Step, c: CallId)
    requires Enabled(s, step) && c in s.calls && step.Exchange?
    ensures Effect(s, step, Execute(s, step), c)
  {
  }

  lemma EarlyStepEffect(s: State, step: Step, c: CallId)
    requires Enabled(s, step) && c in s.calls
    requires step.Begin? || step.Allocate? || step.LoadHead? || step.LinkNode?
    ensures Effect(s, step, Execute(s, step), c)
  {
    match step
    case Begin(id, source, rewrite, filter) =>
    case Allocate(id, succeeds) =>
    case LoadHead(id) =>
    case LinkNode(id) =>
  }

  lemma LateStepEffect(s: State, step: Step, c: CallId)
    requires Enabled(s, step) && c in s.calls
    requires step.CountImages? || step.Enumerate?
    ensures Effect(s, step, Execute(s, step), c)
  {
    match step
    case CountImages(id) =>
    case Enumerate(id) =>
  }

  lemma OnceStepEffect(s: State, step: Step, c: CallId)
    requires Enabled(s, step) && c in s.calls && (step.EnterOnce? || step.LeaveOnce?)
    ensures Effect(s, step, Execute(s, step), c)
  {
    match step
    case EnterOnce(id) =>
    case LeaveOnce(id) =>
  }

  lemma StepEffect(s: State, step: Step, c: CallId)
    requires Enabled(s, step) && c in s.calls
    ensures Effect(s, step, Execute(s, step), c)
  {
    hide Execute, Enabled;
    if ByImage(step) {
      ByImageEffect(s, step);
    } else {
      hide Effect;
      match step
      case FinishScan(actor) => FinishScanEffect(s, actor, c);
      case Exchange(id, spurious) => ExchangeEffect(s, step, c);
      case Begin(id, source, rewrite, filter) => EarlyStepEffect(s, step, c);
      case Allocate(id, succeeds) => EarlyStepEffect(s, step, c);
      case LoadHead(id) => EarlyStepEffect(s, step, c);
      case LinkNode(id) => EarlyStepEffect(s, step, c);
      case EnterOnce(id) => OnceStepEffect(s, step, c);
      case LeaveOnce(id) => OnceStepEffect(s, step, c);
      case CountImages(id) => LateStepEffect(s, step, c);
      case Enumerate(id) => LateStepEffect(s, step, c);
    }
  }

  /** Exchanges of call `c` among the first `k` steps that found the head changed. */
  ghost function Failures(run: seq<State>, steps: seq<Step>, c: CallId, k: nat): nat
    requires k <= |steps| && k <= |run|
  {
    if k == 0 then 0
    else Failures(run, steps, c, k - 1) + if GenuinelyFails(run[k - 1], steps[k - 1], c) then 1 else 0
  }

  /** Entries that calls other than `c` published in the steps from `i` to `k`. */
  ghost function OtherPushes(run: seq<State>, steps: seq<Step>, c: CallId, i: nat, k: nat): nat
    requires i <= k <= |steps| && k <= |run|
    decreases k
  {
    if k == i then 0
    else OtherPushes(run, steps, c, i, k - 1)
         + if Pushes(run[k - 1], steps[k - 1]) && steps[k - 1].id != c then 1 else 0
  }

  /** Only `Begin` makes calls. */
  lemma NewCallHasNotFailed(s: State, step: Step, c: CallId)
    requires Enabled(s, step) && c !in s.calls && c in Execute(s, step).calls
    ensures Execute(s, step).calls[c].failures == 0
  {
    if ByImage(step) {
      ByImageEffect(s, step);
    } else {
      match step
      case Begin(id, source, rewrite, filter) =>
      case Allocate(id, succeeds) =>
      case LoadHead(id) =>
      case LinkNode(id) =>
      case Exchange(id, spurious) =>
      case EnterOnce(id) =>
      case LeaveOnce(id) =>
      case CountImages(id) =>
      case Enumerate(id) =>
      case FinishScan(actor) =>
    }
  }

  lemma {:induction false} FailuresAreCounted(run: seq<State>, steps: seq<Step>, c: CallId, k: nat)
    requires IsRun(run, steps) && k < |run|
    ensures Failures(run, steps, c, k) == if c in run[k].calls then run[k].calls[c].failures else 0
  {
    if k > 0 {
      FailuresAreCounted(run, steps, c, k - 1);
      if c in run[k - 1].calls {
        StepEffect(run[k - 1], steps[k - 1], c);
      } else if c in run[k].calls {
        NewCallHasNotFailed(run[k - 1], steps[k - 1], c);
      } else {
        RunInvariant(run, steps, k - 1);
      }
    }
  }

  // ---- which calls fail ----

  predicate Refuses(source: Option<Header>, rewrite: Rewrite) {
    source == None || rewrite.replacee == 0 || rewrite.replacement == 0
  }

  lemma BeginEffect(s: State, c: CallId, source: Option<Header>, rewrite: Rewrite, filter: Filter)
    requires Enabled(s, Begin(c, source, rewrite, filter))
    ensures var t := Execute(s, Begin(c, source, rewrite, filter));
            && c in t.calls && (t.calls[c].phase == Returned(false) <==> Refuses(source, rewrite))
            && (source.Some? && !Refuses(source, rewrite) ==> t.calls[c].entry == Entry(source.value, rewrite, filter))
  {
  }

  /**
   A call fails exactly if it names no replacee, no replacement or a replacement that no image defines, or
   if its allocation fails. Otherwise what it was called with is what is registered.
   */
  lemma {:induction false} FailsExactly(run: seq<State>, steps: seq<Step>, j: nat, k: nat, c: CallId,
                                        source: Option<Header>, rewrite: Rewrite, filter: Filter)
    requires IsRun(run, steps) && j < k < |run| && steps[j] == Begin(c, source, rewrite, filter)
    ensures c in run[k].calls
    ensures run[k].calls[c].phase == Returned(false) <==>
            source == None || rewrite.replacee == 0 || rewrite.replacement == 0
            || exists m :: j < m < k && steps[m] == Allocate(c, false)
    ensures run[k].calls[c].phase != Returned(false) ==>
              source.Some? && run[k].calls[c].entry == Entry(source.value, rewrite, filter)
    decreases k
  {
    hide Execute, Enabled, Inv;
    StepTaken(run, steps, k - 1);
    if k == j + 1 {
      BeginEffect(run[j], c, source, rewrite, filter);
    } else {
      FailsExactly(run, steps, j, k - 1, c, source, rewrite, filter);
      StepEffect(run[k - 1], steps[k - 1], c);
      RunExtends(run, steps, k - 1, k);
      if steps[k - 1] == Allocate(c, false) { assert j < k - 1 < k; }
    }
  }

  lemma LoadHeadEffect(s: State, c: CallId)
    requires Enabled(s, LoadHead(c))
    ensures var t := Execute(s, LoadHead(c));
            && c in t.calls && t.calls[c].phase.Linking? && t.calls[c].firstSeen == |s.history|
            && t.history == s.history
  {
  }

  lemma {:induction false} PushesAreCounted(run: seq<State>, steps: seq<Step>, c: CallId, i: nat, k: nat)
    requires IsRun(run, steps) && i < k < |run| && steps[i] == LoadHead(c)
    ensures c in run[k].calls && Started(run[k].calls[c].phase) && run[k].calls[c].firstSeen == |run[i].history|
    ensures |run[k].history| == |run[i].history| + OtherPushes(run, steps, c, i, k)
                                + if Published(run[k].calls[c].phase) then 1 else 0
    decreases k
  {
    hide Execute, Enabled, Inv;
    StepTaken(run, steps, i);
    if k == i + 1 {
      LoadHeadEffect(run[i], c);
      assert OtherPushes(run, steps, c, i, i) == 0;
    } else {
      PushesAreCounted(run, steps, c, i, k - 1);
      StepTaken(run, steps, k - 1);
      StepEffect(run[k - 1], steps[k - 1], c);
    }
  }

  /**
   The exchange loop is lock-free in this sense: from its first read of the head on, a call loses
   the exchange at most once for each entry that others publish. Spurious failures are not counted.
   */
  lemma LostExchangesAreOthersPushes(run: seq<State>, steps: seq<Step>, c: CallId, i: nat, k: nat)
    requires IsRun(run, steps) && i < k < |run| && steps[i] == LoadHead(c)
    ensures Failures(run, steps, c, k) <= OtherPushes(run, steps, c, i, k)
  {
    FailuresAreCounted(run, steps, c, k);
    PushesAreCounted(run, steps, c, i, k);
    RunInvariant(run, steps, k);
    assert CallOk(run[k], c);
  }

  // ---- what the slots hold ----

  /** The eligible rewrites of an image, by what was registered. */
  lemma EligibleRewritesAre(run: seq<State>, steps: seq<Step>, k: nat, i: nat, e: Rewrite)
    requires IsRun(run, steps) && k < |run| && i < |run[k].images|
    ensures e in EligibleRewrites(run[k], i) <==>
            exists c :: c in run[k].history && c in run[k].calls && run[k].calls[c].entry.rewrite == e
                        && run[k].images[i].header != run[k].calls[c].entry.source
                        && (run[k].calls[c].entry.filter == NoFilter
                            || (run[k].calls[c].entry.filter.Accepting?
                                && run[k].images[i].header in run[k].calls[c].entry.filter.headers))
  {
    var s := run[k];
    RunInvariant(run, steps, k);
    forall c | c in s.history ensures c in s.nodes && c in s.calls && s.nodes[c].entry == s.calls[c].entry {
      var j :| 0 <= j < |s.history| && s.history[j] == c;
      assert NodeOk(s, j);
    }
  }

  lemma CompatibleBefore(s: State, t: State, i: nat)
    requires Extends(s, t) && i < |s.images| && Compatible(EligibleRewrites(t, i))
    ensures Compatible(EligibleRewrites(s, i))
  {
    ExtendsGrew(s, t, i);
    RewritesGrow(s, t, i);
  }

  lemma {:induction false} RunValues(run: seq<State>, steps: seq<Step>, k: nat, i: nat)
    requires IsRun(run, steps) && k < |run| && i < |run[k].images|
    requires Compatible(EligibleRewrites(run[k], i))
    ensures ImageValues(run[k], i)
    decreases k
  {
    if k > 0 {
      var s, step := run[k - 1], steps[k - 1];
      RunInvariant(run, steps, k - 1);
      InvStep(s, step);
      if i < |s.images| {
        CompatibleBefore(s, run[k], i);
        RunValues(run, steps, k - 1, i);
        ValuesStep(s, step, i);
      } else {
        OnlyLoadsAddImages(s, step);
        ValuesLoad(s, step.header, step.original);
      }
    }
  }

  lemma OnlyLoadsAddImages(s: State, step: Step)
    requires Enabled(s, step)
    ensures |Execute(s, step).images| == |s.images| + if step.LoadImage? then 1 else 0
  {
    match step
    case Begin(id, source, rewrite, filter) =>
    case Allocate(id, succeeds) =>
    case LoadHead(id) =>
    case LinkNode(id) =>
    case Exchange(id, spurious) =>
    case EnterOnce(id) =>
    case ScheduleLoaded(id, image) =>
    case InstallCallback(id) =>
    case LeaveOnce(id) =>
    case CountImages(id) =>
    case Enumerate(id) =>
    case LoadImage(header, original) =>
    case StartCallback(image) =>
    case WalkOn(image) =>
    case ReadSlot(actor) =>
    case StoreSlot(actor, succeeds) =>
    case FinishScan(actor) =>
  }

  /**
   A registration that has returned true has taken effect: in every covered eligible image each
   slot dyld bound to the replacee holds the replacement, and no slot still shows the replacee, except
   where a store was refused. Scans may be racing on the same image meanwhile.
   */
  lemma RegistrationTakesEffect(run: seq<State>, steps: seq<Step>, k: nat, c: CallId, i: nat, slot: nat)
    requires IsRun(run, steps) && k < |run|
    requires InPhase(run[k], c, Returned(true)) && i < |run[k].images| && Covered(run[k], c, i)
    requires var (entry, header) := (run[k].calls[c].entry, run[k].images[i].header);
             header != entry.source && (entry.filter == NoFilter
                                        || (entry.filter.Accepting? && header in entry.filter.headers))
    requires Compatible(EligibleRewrites(run[k], i))
    requires ValidSlot(run[k], i, slot) && (i, slot) !in run[k].failed
    ensures TakesEffect(run[k].calls[c].entry.rewrite, run[k].images[i].original[slot], run[k].images[i].slots[slot])
  {
    var s := run[k];
    RunInvariant(run, steps, k);
    CoverageInState(s, c, i);
    RunValues(run, steps, k, i);
    assert CallOk(s, c) && AllSettled(s, c, i) && SlotOk(s, i, slot);
    AppliedIsEligible(s, c, i);
    assert Settled(s, c, i, slot);
  }

  /** A slot that dyld bound to the value and where no store was refused. */
  predicate BoundTo(s: State, i: nat, slot: nat, value: nat) {
    ValidSlot(s, i, slot) && (i, slot) !in s.failed && s.images[i].original[slot] == value
  }

  /**
   Compatibility is exact, races or not: at rest, in an image that binds a slot to each eligible replacee,
   all eligible registrations have taken effect at all slots if and only if their rewrites are compatible.
   */
  lemma AllTakeEffectExactly(run: seq<State>, steps: seq<Step>, k: nat, i: nat)
    requires IsRun(run, steps) && k < |run| && Quiescent(run[k]) && i < |run[k].images|
    requires forall e | e in EligibleRewrites(run[k], i) :: exists slot: nat :: BoundTo(run[k], i, slot, e.replacee)
    ensures (forall slot: nat | ValidSlot(run[k], i, slot) && (i, slot) !in run[k].failed ::
               AllTakeEffect(EligibleRewrites(run[k], i), run[k].images[i].original[slot],
                             run[k].images[i].slots[slot]))
            <==> Compatible(EligibleRewrites(run[k], i))
  {
    var s, es := run[k], EligibleRewrites(run[k], i);
    if Compatible(es) {
      forall slot: nat, e | ValidSlot(s, i, slot) && (i, slot) !in s.failed && e in es
        ensures TakesEffect(e, s.images[i].original[slot], s.images[i].slots[slot])
      {
        var c := EntryAtRest(run, steps, k, i, e);
        RegistrationTakesEffect(run, steps, k, c, i, slot);
      }
    } else {
      var e, f :| e in es && f in es && !((e.replacee == f.replacee ==> e.replacement == f.replacement)
                                          && (e.replacement == f.replacee ==> NoOp(f)));
      var slot: nat :| BoundTo(s, i, slot, e.replacee);
      assert !(TakesEffect(e, e.replacee, s.images[i].slots[slot])
               && TakesEffect(f, e.replacee, s.images[i].slots[slot]));
    }
  }

  /** The registration behind an eligible rewrite; at rest it has returned and covers the image. */
  lemma EntryAtRest(run: seq<State>, steps: seq<Step>, k: nat, i: nat, e: Rewrite) returns (c: CallId)
    requires IsRun(run, steps) && k < |run| && Quiescent(run[k]) && i < |run[k].images|
             && e in EligibleRewrites(run[k], i)
    ensures InPhase(run[k], c, Returned(true)) && Covered(run[k], c, i) && run[k].calls[c].entry.rewrite == e
    ensures Eligible(run[k].calls[c].entry, run[k].images[i].header)
  {
    var s := run[k];
    RunInvariant(run, steps, k);
    c :| c in s.history && c in s.nodes && Eligible(s.nodes[c].entry, s.images[i].header)
         && s.nodes[c].entry.rewrite == e;
    var j :| 0 <= j < |s.history| && s.history[j] == c;
    assert NodeOk(s, j);
    QuiescentCovers(s, c, i);
  }

  /**
   At rest every slot holds what its image's eligible entries make of the value dyld bound, in
   whatever order, how often and by whichever thread or callback they were applied.
   */
  lemma QuiescentSlots(run: seq<State>, steps: seq<Step>, k: nat, i: nat, slot: nat)
    requires IsRun(run, steps) && k < |run| && Quiescent(run[k]) && i < |run[k].images|
    requires Compatible(EligibleRewrites(run[k], i))
    requires ValidSlot(run[k], i, slot) && (i, slot) !in run[k].failed
    ensures Resolves(EligibleRewrites(run[k], i), run[k].images[i].original[slot], run[k].images[i].slots[slot])
  {
    var s := run[k];
    var es, original := EligibleRewrites(s, i), s.images[i].original[slot];
    RunInvariant(run, steps, k);
    RunValues(run, steps, k, i);
    assert SlotOk(s, i, slot);
    if exists e :: e in es && e.replacee == original {
      var e :| e in es && e.replacee == original;
      var c := EntryAtRest(run, steps, k, i, e);
      RegistrationTakesEffect(run, steps, k, c, i, slot);
    }
  }

  /**
   Images loaded before and after a registration end equal: at rest, two images that dyld bound
   alike and that have the same eligible entries hold the same slots, and those are what applying
   the entries one after the other in any order would give.
   */
  lemma LoadOrderIsInvisible(run: seq<State>, steps: seq<Step>, k: nat, i: nat, j: nat, slot: nat, list: seq<Rewrite>)
    requires IsRun(run, steps) && k < |run| && Quiescent(run[k]) && i < |run[k].images| && j < |run[k].images|
    requires EligibleRewrites(run[k], i) == EligibleRewrites(run[k], j) == Elements(list)
    requires Compatible(Elements(list))
    requires ValidSlot(run[k], i, slot) && (i, slot) !in run[k].failed
    requires ValidSlot(run[k], j, slot) && (j, slot) !in run[k].failed
    requires run[k].images[i].original[slot] == run[k].images[j].original[slot]
    ensures run[k].images[i].slots[slot] == run[k].images[j].slots[slot]
            == ApplyAll(list, run[k].images[i].original[slot])
  {
    QuiescentSlots(run, steps, k, i, slot);
    QuiescentSlots(run, steps, k, j, slot);
    ApplyAllResolves(list, run[k].images[i].original[slot]);
  }

  // ---- progress ----

  /** A step that some thread or callback already under way can take, and that changes something. */
  predicate Progress(s: State, step: Step) {
    && Enabled(s, step) && !step.Begin? && !step.LoadImage? && !step.ScheduleLoaded?
    && (step.InstallCallback? ==> !s.registered)
  }

  /** The next step of a scan. */
  lemma ScanCanMove(s: State, actor: Actor) returns (step: Step)
    requires Inv(s) && actor in s.jobs
    ensures Progress(s, step) && step in {FinishScan(actor), StoreSlot(actor, true), ReadSlot(actor)}
  {
    assert JobOk(s, actor);
    step := if !SlotsLeft(s, actor) then FinishScan(actor)
            else if s.jobs[actor].matched then StoreSlot(actor, true) else ReadSlot(actor);
  }

  /** A call that is neither scanning nor at or in the once block has a step of its own. */
  lemma CallCanMove(s: State, c: CallId) returns (step: Step)
    requires Inv(s) && c in s.calls && Caller(c) !in s.jobs
    requires !s.calls[c].phase.Returned? && !s.calls[c].phase.AtOnce? && !s.calls[c].phase.InOnce?
    ensures Progress(s, step)
    ensures step in {Allocate(c, true), LoadHead(c), LinkNode(c), Exchange(c, false), CountImages(c), Enumerate(c)}
  {
    assert CallOk(s, c);
    match s.calls[c].phase
    case Allocating => step := Allocate(c, true);
    case LoadingHead => step := LoadHead(c);
    case Linking(_) => step := LinkNode(c);
    case Exchanging(_) => step := Exchange(c, false);
    case Counting => step := CountImages(c);
    case Enumerating(_) => step := Enumerate(c);
  }

  lemma CallbackCanMove(s: State, i: nat) returns (step: Step)
    requires Inv(s) && i < |s.images| && Callback(i) !in s.jobs && UnderWay(s.images[i])
    ensures Progress(s, step) && step in {StartCallback(i), WalkOn(i)}
  {
    assert WalkOk(s, i);
    if s.images[i].callback.Pending? {
      step := StartCallback(i);
    } else {
      if s.images[i].callback.cursor.Some? { assert NodeOk(s, s.images[i].callback.remaining - 1); }
      step := WalkOn(i);
    }
  }

  lemma OnceCanMove(s: State, c: CallId)
    requires OnceOk(s) && c in s.calls
    requires s.calls[c].phase.AtOnce? || (s.calls[c].phase.InOnce? && s.once == Running(c))
    ensures exists step :: Progress(s, step)
  {
    if s.once.Running? {
      assert Progress(s, if s.registered then LeaveOnce(s.once.owner) else InstallCallback(s.once.owner));
    } else {
      assert Progress(s, EnterOnce(c));
    }
  }

  /**
   No guard of the protocol gets stuck: whatever is under way, some actor can move it on. The loader's
   lock is not part of this step system.
   */
  lemma NeverStuck(run: seq<State>, steps: seq<Step>, k: nat)
    requires IsRun(run, steps) && k < |run| && !Quiescent(run[k])
    ensures exists step :: Progress(run[k], step)
  {
    var s := run[k];
    RunInvariant(run, steps, k);
    var step;
    if actor :| actor in s.jobs {
      step := ScanCanMove(s, actor);
    } else if c :| c in s.calls && !s.calls[c].phase.Returned? {
      assert CallOk(s, c);
      if s.calls[c].phase.AtOnce? || s.calls[c].phase.InOnce? {
        OnceCanMove(s, c);
      } else {
        step := CallCanMove(s, c);
      }
    } else {
      var i :| 0 <= i < |s.images| && UnderWay(s.images[i]);
      step := CallbackCanMove(s, i);
    }
  }
}
