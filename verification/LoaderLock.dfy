/**
 dyld's recursive loader lock around the registry. An image load holds it until the image's callback
 and whatever it runs are over; registering the callback holds it while the loaded images are visited.
 A registration that begins on the thread that holds the lock, in a filter for instance, suspends
 whatever that thread was doing until it returns.
 */
module LoaderLock {
  import opened Runs
  import opened Wrappers
  import opened SlotAlgebra
  import opened Registry
  import opened RegistrySafety
  import opened RegistryTheorems

  datatype Lock = Free | Loading(image: nat) | Installing(call: CallId)

  /**
   The registry, who holds the lock, and the unreturned calls that began on the holder's thread, each
   of which has suspended those before it.
   */
  datatype Guarded = Guarded(s: State, lock: Lock, inside: seq<CallId>)

  const START := Guarded(INITIAL, Free, [])

  datatype Move = Plain(step: Step) | BeginInside(step: Step) | Release

  // ---- the thread that holds the lock ----

  predicate OnThread(g: Guarded, c: CallId) {
    g.lock == Installing(c) || c in g.inside
  }

  /** The call that the holder's thread is working on. */
  function Current(g: Guarded): Option<CallId> {
    if g.inside != [] then Some(g.inside[|g.inside| - 1])
    else if g.lock.Installing? then Some(g.lock.call)
    else None
  }

  /** A call on the holder's thread moves only if none that began later has suspended it. */
  predicate MayMove(g: Guarded, c: CallId) {
    OnThread(g, c) ==> Current(g) == Some(c)
  }

  /**
   Callbacks run on the holder's thread: for the image being loaded, or for all images in the once
   block of a call on that thread. A later call suspends them too.
   */
  predicate CallbacksMayMove(g: Guarded) {
    g.inside == [] || g.s.once == Running(g.inside[|g.inside| - 1])
  }

  predicate ActorMayMove(g: Guarded, actor: Actor) {
    match actor
    case Caller(c) => MayMove(g, c)
    case Callback(_) => CallbacksMayMove(g)
  }

  /** The next thing the call does is to ask its filter about an image. */
  predicate CallAtFilter(s: State, c: CallId) {
    && CanEnumerate(s, c) && s.calls[c].phase.index < s.calls[c].count
    && s.images[s.calls[c].phase.index].header != s.nodes[c].entry.source && s.nodes[c].entry.filter.Accepting?
  }

  predicate CallbackAtFilter(s: State, i: nat) {
    && CanWalk(s, i) && s.images[i].callback.cursor.Some?
    && var entry := s.nodes[s.images[i].callback.cursor.value].entry;
       s.images[i].header != entry.source && entry.filter.Accepting?
  }

  /** Code of others runs on the holder's thread: a filter, or what dyld runs for the image besides this callback. */
  predicate OthersRun(g: Guarded) {
    match Current(g)
    case Some(c) =>
      || CallAtFilter(g.s, c)
      || (InPhase(g.s, c, InOnce) && exists i: nat :: i < |g.s.images| && CallbackAtFilter(g.s, i))
    case None =>
      && g.lock.Loading? && g.lock.image < |g.s.images|
      && (g.s.images[g.lock.image].callback.Walking? ==> CallbackAtFilter(g.s, g.lock.image))
  }

  // ---- moves ----

  predicate LockAllows(g: Guarded, step: Step) {
    match step
    case Begin(_, _, _, _) => true
    case LoadImage(_, _) => g.lock == Free
    case InstallCallback(c) => !g.s.registered && (g.lock == Free || Current(g) == Some(c))
    case ScheduleLoaded(c, _) => g.s.registered && Current(g) == Some(c)
    case LeaveOnce(c) =>
      Current(g) == Some(c) && forall i | 0 <= i < |g.s.images| :: g.s.images[i].callback.Finished?
    case StartCallback(_) => CallbacksMayMove(g)
    case WalkOn(_) => CallbacksMayMove(g)
    case ReadSlot(actor) => ActorMayMove(g, actor)
    case StoreSlot(actor, _) => ActorMayMove(g, actor)
    case FinishScan(actor) => ActorMayMove(g, actor)
    case Allocate(c, _) => MayMove(g, c)
    case LoadHead(c) => MayMove(g, c)
    case LinkNode(c) => MayMove(g, c)
    case Exchange(c, _) => MayMove(g, c)
    case EnterOnce(c) => MayMove(g, c)
    case CountImages(c) => MayMove(g, c)
    case Enumerate(c) => MayMove(g, c)
  }

  predicate Allowed(g: Guarded, move: Move) {
    match move
    case Plain(step) => Enabled(g.s, step) && LockAllows(g, step)
    case BeginInside(step) => step.Begin? && Enabled(g.s, step) && OthersRun(g)
    case Release =>
      g.lock.Loading? && g.lock.image < |g.s.images| && !UnderWay(g.s.images[g.lock.image]) && g.inside == []
  }

  /** A call that has returned gives its thread back. */
  function Unwound(s: State, inside: seq<CallId>): seq<CallId> {
    var n := |inside|;
    if n > 0 && inside[n - 1] in s.calls && s.calls[inside[n - 1]].phase.Returned? then inside[..n - 1] else inside
  }

  function LockAfter(g: Guarded, step: Step): Lock {
    if step.LoadImage? then Loading(|g.s.images|)
    else if step.InstallCallback? && g.lock == Free then Installing(step.id)
    else if step.LeaveOnce? && g.lock == Installing(step.id) then Free
    else g.lock
  }

  function Apply(g: Guarded, move: Move): Guarded
    requires Allowed(g, move)
  {
    match move
    case Plain(step) => var t := Execute(g.s, step); Guarded(t, LockAfter(g, step), Unwound(t, g.inside))
    case BeginInside(step) => var t := Execute(g.s, step); Guarded(t, g.lock, Unwound(t, g.inside + [step.id]))
    case Release => g.(lock := Free)
  }

  predicate Makes(g: Guarded, move: Move, h: Guarded) {
    Allowed(g, move) && h == Apply(g, move)
  }

  ghost predicate Later(g: Guarded, h: Guarded) {
    ReachableBy(g, Makes, h)
  }

  ghost predicate Reachable(g: Guarded) {
    Later(START, g)
  }

  // ---- the lock only restricts the registry ----

  /** Forgetting the lock leaves a run of the registry, so what holds of all those holds here too. */
  lemma {:induction false} Projected(run: seq<Guarded>, moves: seq<Move>, k: nat)
    returns (plain: seq<State>, steps: seq<Step>)
    requires IsRunOf(START, Makes, run, moves) && k < |run|
    ensures IsRun(plain, steps) && plain[|steps|] == run[k].s
  {
    hide Enabled, Execute, LockAllows, OthersRun, Unwound;
    if k == 0 {
      plain, steps := [INITIAL], [];
    } else {
      plain, steps := Projected(run, moves, k - 1);
      assert Makes(run[k - 1], moves[k - 1], run[k - 1 + 1]);
      if moves[k - 1] != Release {
        var step := moves[k - 1].step;
        ExtendRun(INITIAL, Takes, plain, steps, step, run[k].s);
        plain, steps := plain + [run[k].s], steps + [step];
      }
    }
  }

  // ---- the invariant of the lock ----

  /** The callbacks under way are those of the load that holds the lock, or of a once block on its holder's thread. */
  predicate CallbacksOk(g: Guarded) {
    forall i | 0 <= i < |g.s.images| && UnderWay(g.s.images[i]) ::
      g.lock == Loading(i) || (g.s.once.Running? && g.s.registered && OnThread(g, g.s.once.owner))
  }

  predicate LockOk(g: Guarded) {
    && (g.lock.Loading? ==> g.lock.image < |g.s.images|)
    && (g.lock.Installing? ==> g.s.once == Running(g.lock.call) && g.lock.call !in g.inside)
    && (g.s.once.Unstarted? ==> !g.s.registered)
    && (g.s.once.Running? && g.s.registered ==> OnThread(g, g.s.once.owner))
    && (g.lock.Installing? ==> g.s.registered)
    && (forall c | c in g.inside :: c in g.s.calls && !g.s.calls[c].phase.Returned?)
    && (forall j, k | 0 <= j < k < |g.inside| :: g.inside[j] != g.inside[k])
    && (g.lock == Free ==> g.inside == [])
    && CallbacksOk(g)
  }

  lemma StartOk()
    ensures LockOk(START)
  {
  }

  /** A step that leaves the once token, the registration and all calls but one in place, and starts no callback. */
  ghost predicate Quiet(s: State, t: State, mover: Option<CallId>) {
    && t.once == s.once && t.registered == s.registered && |t.images| == |s.images|
    && (forall i | 0 <= i < |s.images| :: UnderWay(t.images[i]) ==> UnderWay(s.images[i]))
    && (forall c | c in s.calls :: c in t.calls && (Some(c) != mover ==> t.calls[c].phase == s.calls[c].phase))
    && (mover.Some? && mover.value in s.calls && s.calls[mover.value].phase.Returned? ==>
          t.calls[mover.value].phase == s.calls[mover.value].phase)
  }

  lemma QuietKeeps(g: Guarded, t: State, mover: Option<CallId>)
    requires LockOk(g) && Quiet(g.s, t, mover) && OnceOk(t) && (mover.Some? ==> MayMove(g, mover.value))
    ensures LockOk(Guarded(t, g.lock, Unwound(t, g.inside)))
  {
    var h := Guarded(t, g.lock, Unwound(t, g.inside));
    assert forall c | c in h.inside :: c in g.inside;
    if h.inside != g.inside {
      var last := g.inside[|g.inside| - 1];
      assert forall c | c in g.inside && c != last :: c in h.inside;
    }
  }

  /** The call whose step it is. */
  function Mover(step: Step): Option<CallId> {
    match step
    case Begin(c, _, _, _) => Some(c)
    case Allocate(c, _) => Some(c)
    case LoadHead(c) => Some(c)
    case LinkNode(c) => Some(c)
    case Exchange(c, _) => Some(c)
    case EnterOnce(c) => Some(c)
    case ScheduleLoaded(c, _) => Some(c)
    case InstallCallback(c) => Some(c)
    case LeaveOnce(c) => Some(c)
    case CountImages(c) => Some(c)
    case Enumerate(c) => Some(c)
    case LoadImage(_, _) => None
    case StartCallback(_) => None
    case WalkOn(_) => None
    case ReadSlot(actor) => if actor.Caller? then Some(actor.call) else None
    case StoreSlot(actor, _) => if actor.Caller? then Some(actor.call) else None
    case FinishScan(actor) => if actor.Caller? then Some(actor.call) else None
  }

  /** The steps that the lock is about. */
  predicate Marked(step: Step) {
    step.EnterOnce? || step.ScheduleLoaded? || step.InstallCallback? || step.LeaveOnce? || step.LoadImage?
  }

  lemma EarlyQuiet(s: State, step: Step)
    requires Enabled(s, step) && (step.Begin? || step.Allocate? || step.LoadHead? || step.LinkNode? || step.Exchange?)
    ensures Quiet(s, Execute(s, step), Mover(step))
  {
    match step
    case Begin(id, source, rewrite, filter) =>
    case Allocate(id, succeeds) =>
    case LoadHead(id) =>
    case LinkNode(id) =>
    case Exchange(id, spurious) =>
  }

  lemma LateQuiet(s: State, step: Step)
    requires Enabled(s, step) && (step.CountImages? || step.Enumerate? || step.StartCallback? || step.WalkOn?)
    ensures Quiet(s, Execute(s, step), Mover(step))
  {
    match step
    case CountImages(id) =>
    case Enumerate(id) =>
    case StartCallback(image) =>
    case WalkOn(image) =>
  }

  lemma ScanQuiet(s: State, step: Step)
    requires Enabled(s, step) && (step.ReadSlot? || step.StoreSlot? || step.FinishScan?)
    ensures Quiet(s, Execute(s, step), Mover(step))
  {
    match step
    case ReadSlot(actor) =>
    case StoreSlot(actor, succeeds) =>
    case FinishScan(actor) =>
  }

  lemma StepQuiet(s: State, step: Step)
    requires Enabled(s, step) && !Marked(step)
    ensures Quiet(s, Execute(s, step), Mover(step))
  {
    hide Enabled, Execute, Quiet;
    if step.Begin? || step.Allocate? || step.LoadHead? || step.LinkNode? || step.Exchange? {
      EarlyQuiet(s, step);
    } else if step.ReadSlot? || step.StoreSlot? || step.FinishScan? {
      ScanQuiet(s, step);
    } else {
      LateQuiet(s, step);
    }
  }

  lemma OnceKeeps(g: Guarded, step: Step)
    requires LockOk(g) && Allowed(g, Plain(step)) && (step.EnterOnce? || step.InstallCallback? || step.LeaveOnce?)
    requires OnceOk(g.s) && CallOk(g.s, step.id)
    ensures LockOk(Apply(g, Plain(step)))
  {
    match step
    case EnterOnce(id) =>
    case InstallCallback(id) =>
    case LeaveOnce(id) =>
  }

  lemma ImagesKeep(g: Guarded, step: Step)
    requires LockOk(g) && Allowed(g, Plain(step)) && (step.ScheduleLoaded? || step.LoadImage?)
    requires OnceOk(g.s) && (step.ScheduleLoaded? ==> CallOk(g.s, step.id))
    ensures LockOk(Apply(g, Plain(step)))
  {
    match step
    case ScheduleLoaded(id, image) =>
    case LoadImage(header, original) =>
  }

  lemma BeginKeeps(g: Guarded, step: Step)
    requires LockOk(g) && Allowed(g, BeginInside(step)) && OnceOk(g.s)
    ensures LockOk(Apply(g, BeginInside(step)))
  {
    EarlyQuiet(g.s, step);
  }

  lemma PlainKeeps(g: Guarded, step: Step)
    requires Inv(g.s) && LockOk(g) && Allowed(g, Plain(step)) && Inv(Execute(g.s, step))
    ensures LockOk(Apply(g, Plain(step)))
  {
    if Marked(step) {
      if !step.LoadImage? { assert CallOk(g.s, step.id); }
      if step.ScheduleLoaded? || step.LoadImage? { ImagesKeep(g, step); } else { OnceKeeps(g, step); }
    } else {
      StepQuiet(g.s, step);
      MoverMay(g, step);
      QuietKeeps(g, Execute(g.s, step), Mover(step));
    }
  }

  lemma MoverMay(g: Guarded, step: Step)
    requires OnceOk(g.s) && LockOk(g) && Allowed(g, Plain(step)) && !Marked(step)
    ensures Mover(step).Some? ==> MayMove(g, Mover(step).value)
  {
  }

  /** Every move keeps the lock's invariant. */
  lemma LockStep(g: Guarded, move: Move)
    requires Inv(g.s) && LockOk(g) && Allowed(g, move)
    ensures Inv(Apply(g, move).s) && LockOk(Apply(g, move))
  {
    match move
    case Release =>
    case BeginInside(step) =>
      InvStep(g.s, step);
      BeginKeeps(g, step);
    case Plain(step) =>
      InvStep(g.s, step);
      PlainKeeps(g, step);
  }

  /** In every reachable state the lock's invariant holds beside the registry's. */
  lemma ReachableOk(g: Guarded)
    requires Reachable(g)
    ensures Inv(g.s) && LockOk(g)
  {
    hide Inv, LockOk, Makes;
    var kept := (h: Guarded) => Inv(h.s) && LockOk(h);
    InvInitial();
    StartOk();
    forall h, move, next | kept(h) && Makes(h, move, next) ensures kept(next) { MoveOk(h, move, next); }
    KeptByAll(START, Makes, kept, g);
  }

  lemma MoveOk(g: Guarded, move: Move, h: Guarded)
    requires Inv(g.s) && LockOk(g) && Makes(g, move, h)
    ensures Inv(h.s) && LockOk(h)
  {
    hide Inv, LockOk, Allowed, Apply;
    LockStep(g, move);
  }

  // ---- when the holder is stuck for ever ----

  /** The call that the holder's thread is working on waits for a once block that is running. */
  predicate Wedged(g: Guarded) {
    g.inside != [] && InPhase(g.s, g.inside[|g.inside| - 1], AtOnce) && g.s.once.Running?
  }

  /** A move by which the holder's thread goes on with what it is doing. */
  predicate ByHolder(g: Guarded, move: Move) {
    match move
    case Release => true
    case BeginInside(_) => false
    case Plain(step) =>
      match step
      case Begin(_, _, _, _) => false
      case LoadImage(_, _) => false
      case _ => Mover(step).Some? ==> OnThread(g, Mover(step).value)
  }

  /** A move that some thread already under way can make. */
  predicate Advances(g: Guarded, move: Move) {
    Allowed(g, move) && !move.BeginInside? && !(move.Plain? && (move.step.Begin? || move.step.LoadImage?))
  }

  predicate HolderMove(g: Guarded, move: Move) {
    Advances(g, move) && ByHolder(g, move)
  }

  lemma ActorMoves(g: Guarded, actor: Actor) returns (move: Move)
    requires Inv(g.s) && actor in g.s.jobs && ActorMayMove(g, actor)
    ensures Advances(g, move) && (actor.Callback? || OnThread(g, actor.call) ==> ByHolder(g, move))
  {
    hide Inv, Enabled;
    var step := ScanCanMove(g.s, actor);
    move := Plain(step);
  }

  lemma CallbackMovesOn(g: Guarded, i: nat) returns (move: Move)
    requires Inv(g.s) && i < |g.s.images| && UnderWay(g.s.images[i]) && CallbacksMayMove(g)
    ensures HolderMove(g, move)
  {
    hide Inv, Enabled;
    if Callback(i) in g.s.jobs {
      move := ActorMoves(g, Callback(i));
    } else {
      var step := CallbackCanMove(g.s, i);
      move := Plain(step);
    }
  }

  /** A call that is neither at nor in the once block goes on. */
  lemma CallMovesOn(g: Guarded, c: CallId) returns (move: Move)
    requires Inv(g.s) && c in g.s.calls && MayMove(g, c)
    requires !g.s.calls[c].phase.Returned? && !g.s.calls[c].phase.AtOnce? && !g.s.calls[c].phase.InOnce?
    ensures Advances(g, move) && (OnThread(g, c) ==> ByHolder(g, move))
  {
    hide Inv, Enabled;
    if Caller(c) in g.s.jobs {
      move := ActorMoves(g, Caller(c));
    } else {
      var step := CallCanMove(g.s, c);
      move := Plain(step);
    }
  }

  /** The owner of the once block goes on, if the lock is its own. */
  lemma OwnerMoves(g: Guarded, c: CallId) returns (move: Move)
    requires Inv(g.s) && InPhase(g.s, c, InOnce) && g.s.once == Running(c) && Current(g) == Some(c) && OnThread(g, c)
    ensures HolderMove(g, move)
  {
    if !g.s.registered {
      move := Plain(InstallCallback(c));
    } else if i: nat :| i < |g.s.images| && UnderWay(g.s.images[i]) {
      move := CallbackMovesOn(g, i);
    } else if i: nat :| i < |g.s.images| && g.s.images[i].callback.Unscheduled? {
      move := Plain(ScheduleLoaded(c, i));
    } else {
      move := Plain(LeaveOnce(c));
    }
  }

  lemma HolderMoves(g: Guarded) returns (move: Move)
    requires Inv(g.s) && LockOk(g) && g.lock != Free && !Wedged(g)
    ensures HolderMove(g, move)
  {
    if g.inside != [] {
      var c := g.inside[|g.inside| - 1];
      assert c in g.inside && CallOk(g.s, c);
      if g.s.calls[c].phase.AtOnce? {
        move := Plain(EnterOnce(c));
      } else if g.s.calls[c].phase.InOnce? {
        move := OwnerMoves(g, c);
      } else {
        move := CallMovesOn(g, c);
      }
    } else if g.lock.Installing? {
      assert OnceOk(g.s);
      move := OwnerMoves(g, g.lock.call);
    } else if UnderWay(g.s.images[g.lock.image]) {
      move := CallbackMovesOn(g, g.lock.image);
    } else {
      move := Release;
    }
  }

  lemma WedgedHolder(g: Guarded, move: Move)
    requires OnceOk(g.s) && Wedged(g) && g.lock != Free
    ensures !HolderMove(g, move)
  {
    if HolderMove(g, move) && move.Plain? { WedgedStep(g, move.step); }
  }

  lemma WedgedStep(g: Guarded, step: Step)
    requires OnceOk(g.s) && Wedged(g) && g.lock != Free && ByHolder(g, Plain(step))
    ensures !Allowed(g, Plain(step))
  {
    match step
    case Allocate(id, succeeds) =>
    case LoadHead(id) =>
    case LinkNode(id) =>
    case Exchange(id, spurious) =>
    case EnterOnce(id) =>
    case ScheduleLoaded(id, image) =>
    case InstallCallback(id) =>
    case LeaveOnce(id) =>
    case CountImages(id) =>
    case Enumerate(id) =>
    case StartCallback(image) =>
    case WalkOn(image) =>
    case ReadSlot(actor) =>
    case StoreSlot(actor, succeeds) =>
    case FinishScan(actor) =>
  }

  /** In every reachable state, the thread that holds the loader lock can go on exactly if it is not wedged. */
  lemma HolderStuckExactly(g: Guarded)
    requires Reachable(g) && g.lock != Free
    ensures (forall move :: !HolderMove(g, move)) <==> Wedged(g)
  {
    hide Inv, LockOk, HolderMove, Wedged;
    ReachableOk(g);
    if Wedged(g) {
      assert OnceOk(g.s) by { OnceOfInv(g.s); }
      forall move ensures !HolderMove(g, move) { WedgedHolder(g, move); }
    } else {
      var move := HolderMoves(g);
    }
  }

  lemma OnceOfInv(s: State)
    requires Inv(s)
    ensures OnceOk(s)
  {
  }

  /** Something is still to be finished. */
  predicate Busy(g: Guarded) {
    !Quiescent(g.s) || g.lock != Free
  }

  lemma FreeMoves(g: Guarded) returns (move: Move)
    requires Inv(g.s) && LockOk(g) && g.lock == Free && !Quiescent(g.s)
    ensures Advances(g, move)
  {
    if i: nat :| i < |g.s.images| && UnderWay(g.s.images[i]) {
      move := CallbackMovesOn(g, i);
    } else {
      var c :| c in g.s.calls && !g.s.calls[c].phase.Returned?;
      assert CallOk(g.s, c) && OnceOk(g.s);
      if g.s.calls[c].phase.AtOnce? || g.s.calls[c].phase.InOnce? {
        move := Plain(if g.s.once.Running? then InstallCallback(g.s.once.owner) else EnterOnce(c));
      } else {
        move := CallMovesOn(g, c);
      }
    }
  }

  lemma SomeMoves(g: Guarded)
    requires Inv(g.s) && LockOk(g) && Busy(g) && !Wedged(g)
    ensures exists move :: Advances(g, move)
  {
    hide Inv, LockOk, Advances, Wedged;
    var move;
    if g.lock == Free { move := FreeMoves(g); } else { move := HolderMoves(g); }
  }

  /** Whatever is to be finished, some thread goes on, unless the holder of the lock is wedged. */
  lemma ProgressUnlessWedged(g: Guarded)
    requires Reachable(g) && Busy(g) && !Wedged(g)
    ensures exists move :: Advances(g, move)
  {
    ReachableOk(g);
    SomeMoves(g);
  }

  // ---- no way past a running once block ----

  predicate Early(phase: Phase) {
    phase.Allocating? || phase.LoadingHead? || phase.Linking? || phase.Exchanging? || phase.AtOnce?
  }

  /** The current call began under the lock and has not got past the once block, which is running. */
  predicate Blocking(g: Guarded, c: CallId) {
    && g.inside != [] && g.inside[|g.inside| - 1] == c && g.lock != Free && g.s.once.Running?
    && c in g.s.calls && Early(g.s.calls[c].phase)
  }

  /** Nothing has changed for the call: it still blocks, or it has failed before the once block. */
  predicate StillBlocking(g: Guarded, h: Guarded, c: CallId) {
    && h.s.once == g.s.once && c in h.s.calls
    && ((Blocking(h, c) && h.lock == g.lock && h.inside == g.inside) || h.s.calls[c].phase == Returned(false))
  }

  lemma OtherStep(g: Guarded, step: Step, c: CallId)
    requires Blocking(g, c) && OnceOk(g.s) && Allowed(g, Plain(step)) && Mover(step) != Some(c)
    ensures !step.EnterOnce? && !step.ScheduleLoaded? && !step.InstallCallback? && !step.LeaveOnce? && !step.LoadImage?
    ensures Execute(g.s, step).once == g.s.once && InPhase(Execute(g.s, step), c, g.s.calls[c].phase)
  {
    assert !Marked(step);
    StepQuiet(g.s, step);
  }

  lemma OwnStep(g: Guarded, step: Step, c: CallId)
    requires Blocking(g, c) && OnceOk(g.s) && Allowed(g, Plain(step)) && Mover(step) == Some(c)
    ensures step.Allocate? || step.LoadHead? || step.LinkNode? || step.Exchange?
    ensures var t := Execute(g.s, step);
            t.once == g.s.once && c in t.calls && (Early(t.calls[c].phase) || t.calls[c].phase == Returned(false))
    ensures !g.s.calls[c].phase.AtOnce?
  {
    match step
    case Allocate(id, succeeds) =>
    case LoadHead(id) =>
    case LinkNode(id) =>
    case Exchange(id, spurious) =>
    case EnterOnce(id) =>
    case ScheduleLoaded(id, image) =>
    case InstallCallback(id) =>
    case LeaveOnce(id) =>
    case CountImages(id) =>
    case Enumerate(id) =>
    case ReadSlot(actor) =>
    case StoreSlot(actor, succeeds) =>
    case FinishScan(actor) =>
  }

  /** No move lets a blocking call, or the owner of the once block, go past it. */
  lemma BlockingMove(g: Guarded, move: Move, c: CallId)
    requires Blocking(g, c) && OnceOk(g.s) && Allowed(g, move)
    ensures StillBlocking(g, Apply(g, move), c)
    ensures g.s.calls[c].phase.AtOnce? ==> InPhase(Apply(g, move).s, c, AtOnce)
  {
    match move
    case Release =>
    case BeginInside(step) =>
    case Plain(step) =>
      hide Enabled, Execute, MayMove;
      if Mover(step) == Some(c) { OwnStep(g, step, c); } else { OtherStep(g, step, c); }
  }

  lemma FailedStep(s: State, step: Step, c: CallId)
    requires Enabled(s, step) && InPhase(s, c, Returned(false))
    ensures InPhase(Execute(s, step), c, Returned(false))
  {
    if Marked(step) {
      match step
      case EnterOnce(id) =>
      case ScheduleLoaded(id, image) =>
      case InstallCallback(id) =>
      case LeaveOnce(id) =>
      case LoadImage(header, original) =>
    } else {
      StepQuiet(s, step);
    }
  }

  /**
   A wedged thread holds the lock for ever, and with it every call that began there and everyone who waits
   for them.
   */
  lemma WedgedForever(g: Guarded, h: Guarded)
    requires Reachable(g) && Wedged(g) && Later(g, h)
    ensures Wedged(h) && h.lock == g.lock != Free && h.inside == g.inside && h.s.once == g.s.once
  {
    hide Inv, LockOk, Makes;
    ReachableOk(g);
    assert g.lock != Free by { HeldWhenInside(g); }
    var kept := (x: Guarded) =>
      Inv(x.s) && LockOk(x) && Wedged(x) && x.lock == g.lock && x.inside == g.inside && x.s.once == g.s.once;
    forall x, move, y | kept(x) && Makes(x, move, y) ensures kept(y) {
      MoveOk(x, move, y);
      WedgedMove(x, move, y);
    }
    KeptByAll(g, Makes, kept, h);
  }

  lemma HeldWhenInside(g: Guarded)
    requires LockOk(g) && g.inside != []
    ensures g.lock != Free
  {
  }

  lemma WedgedMove(g: Guarded, move: Move, h: Guarded)
    requires Inv(g.s) && LockOk(g) && Wedged(g) && Makes(g, move, h)
    ensures Wedged(h) && h.lock == g.lock && h.inside == g.inside && h.s.once == g.s.once
  {
    hide Inv, Allowed, Apply, LockOk;
    OnceOfInv(g.s);
    HeldWhenInside(g);
    BlockingMove(g, move, g.inside[|g.inside| - 1]);
  }

  // ---- which registrations under the lock are safe ----

  /** The call failed before the once block, or blocks its thread there, with the once block as it was. */
  predicate Doomed(g: Guarded, c: CallId, once: Once) {
    InPhase(g.s, c, Returned(false)) || (Blocking(g, c) && g.s.once == once)
  }

  lemma DoomedMove(g: Guarded, move: Move, h: Guarded, c: CallId, once: Once)
    requires Inv(g.s) && Doomed(g, c, once) && Makes(g, move, h)
    ensures Doomed(h, c, once)
  {
    hide Inv, Allowed, Blocking;
    OnceOfInv(g.s);
    if InPhase(g.s, c, Returned(false)) {
      if move != Release { StillFailed(g, move, c); }
    } else {
      BlockingMove(g, move, c);
    }
  }

  lemma StillFailed(g: Guarded, move: Move, c: CallId)
    requires Allowed(g, move) && move != Release && InPhase(g.s, c, Returned(false))
    ensures InPhase(Apply(g, move).s, c, Returned(false))
  {
    hide Enabled, Execute, LockAllows, OthersRun;
    FailedStep(g.s, move.step, c);
  }

  lemma BegunInside(g: Guarded, step: Step)
    requires LockOk(g) && Allowed(g, BeginInside(step)) && g.s.once.Running?
    ensures Doomed(Apply(g, BeginInside(step)), step.id, g.s.once)
  {
  }

  /**
   A registration that begins under the lock while the once block is running never gets past it: at no
   later time has it succeeded, and unless it failed at once it holds up its thread for ever.
   */
  lemma BegunWhileRunningNeverSucceeds(g: Guarded, step: Step, h: Guarded)
    requires Reachable(g) && Allowed(g, BeginInside(step)) && g.s.once.Running?
    requires Later(Apply(g, BeginInside(step)), h)
    ensures InPhase(h.s, step.id, Returned(false)) || (Blocking(h, step.id) && h.s.once == g.s.once)
  {
    hide Inv, LockOk, Makes, Blocking;
    ReachableOk(g);
    var begun := Apply(g, BeginInside(step));
    MoveOk(g, BeginInside(step), begun) by { assert Makes(g, BeginInside(step), begun) by { BeginMakes(g, step); } }
    BegunInside(g, step);
    var kept := (x: Guarded) => Inv(x.s) && LockOk(x) && Doomed(x, step.id, g.s.once);
    forall x, move, y | kept(x) && Makes(x, move, y) ensures kept(y) {
      MoveOk(x, move, y);
      DoomedMove(x, move, y, step.id, g.s.once);
    }
    KeptByAll(begun, Makes, kept, h);
  }

  lemma BeginMakes(g: Guarded, step: Step)
    requires Allowed(g, BeginInside(step))
    ensures Makes(g, BeginInside(step), Apply(g, BeginInside(step)))
  {
  }

  /** A move under the restriction that registrations begin under the lock only once the once block is over. */
  predicate MakesSafely(g: Guarded, move: Move, h: Guarded) {
    Makes(g, move, h) && (move.BeginInside? ==> g.s.once.Completed?)
  }

  predicate SafeInside(g: Guarded) {
    g.inside != [] ==> g.s.once.Completed?
  }

  lemma SafeMove(g: Guarded, move: Move, h: Guarded)
    requires Inv(g.s) && SafeInside(g) && MakesSafely(g, move, h)
    ensures SafeInside(h)
  {
    hide Inv, Enabled, Execute, LockAllows, OthersRun;
    if move != Release {
      InvStep(g.s, move.step);
      assert g.s.once.Completed? ==> h.s.once.Completed?;
    }
  }

  /**
   If every registration under the lock begins after the once block is over, nobody is ever wedged and
   progress is sure.
   */
  lemma SafeAfterOnce(g: Guarded)
    requires ReachableBy(START, MakesSafely, g)
    ensures !Wedged(g) && (Busy(g) ==> exists move :: Advances(g, move))
  {
    hide Inv, LockOk, Makes, SafeInside, Advances, Busy;
    var kept := (x: Guarded) => Inv(x.s) && LockOk(x) && SafeInside(x);
    InvInitial();
    StartOk();
    assert SafeInside(START) by { StartSafe(); }
    forall x, move, y | kept(x) && MakesSafely(x, move, y) ensures kept(y) {
      MoveOk(x, move, y);
      SafeMove(x, move, y);
    }
    KeptByAll(START, MakesSafely, kept, g);
    NotWedged(g);
    if Busy(g) { SomeMoves(g); }
  }

  lemma StartSafe()
    ensures SafeInside(START)
  {
  }

  lemma NotWedged(g: Guarded)
    requires SafeInside(g)
    ensures !Wedged(g)
  {
  }

  // ---- both outcomes are real while the once block has not started ----

  lemma Go(from: Guarded, g: Guarded, move: Move)
    requires Later(from, g) && Allowed(g, move)
    ensures Later(from, Apply(g, move))
  {
    hide Allowed, Apply, ReachableBy;
    BothMake(g, move);
    Reach(from, Makes, g, move, Apply(g, move));
  }

  lemma BothMake(g: Guarded, move: Move)
    requires Allowed(g, move)
    ensures Makes(g, move, Apply(g, move))
  {
  }

  const SOME_REWRITE := Rewrite(1, 2)

  function BeginStep(id: CallId, source: Header, filter: Filter): Step {
    Begin(id, Some(source), SOME_REWRITE, filter)
  }

  predicate SameOutside(g: Guarded, h: Guarded) {
    && h.lock == g.lock && h.inside == g.inside && h.s.images == g.s.images && h.s.jobs == g.s.jobs
    && h.s.once == g.s.once && h.s.registered == g.s.registered
  }

  predicate StackOk(g: Guarded) {
    forall c | c in g.inside :: c in g.s.calls && !g.s.calls[c].phase.Returned?
  }

  lemma ToExchange(from: Guarded, g: Guarded, id: CallId) returns (h: Guarded)
    requires Later(from, g) && InPhase(g.s, id, Allocating) && MayMove(g, id) && StackOk(g)
    ensures Later(from, h) && SameOutside(g, h) && StackOk(h) && InPhase(h.s, id, Linking(g.s.head))
    ensures h.s.calls == g.s.calls[id := h.s.calls[id]] && h.s.calls[id].entry == g.s.calls[id].entry
    ensures h.s.nodes == g.s.nodes[id := Node(g.s.calls[id].entry, None)]
    ensures h.s.head == g.s.head && h.s.history == g.s.history
  {
    hide Later;
    Go(from, g, Plain(Allocate(id, true)));
    var g1 := Apply(g, Plain(Allocate(id, true)));
    assert g1.inside == g.inside;
    Go(from, g1, Plain(LoadHead(id)));
    h := Apply(g1, Plain(LoadHead(id)));
  }

  /** A call that has begun publishes its entry and reaches the once block by itself. */
  lemma ToOnceBlock(from: Guarded, g: Guarded, id: CallId) returns (h: Guarded)
    requires Later(from, g) && InPhase(g.s, id, Allocating) && MayMove(g, id) && StackOk(g)
    ensures Later(from, h) && SameOutside(g, h) && StackOk(h) && InPhase(h.s, id, AtOnce)
    ensures h.s.calls == g.s.calls[id := h.s.calls[id]] && h.s.calls[id].entry == g.s.calls[id].entry
    ensures h.s.nodes == g.s.nodes[id := Node(g.s.calls[id].entry, g.s.head)] && h.s.head == Some(id)
  {
    hide Later;
    var linking := ToExchange(from, g, id);
    Go(from, linking, Plain(LinkNode(id)));
    var linked := Apply(linking, Plain(LinkNode(id)));
    assert linked.inside == g.inside;
    Go(from, linked, Plain(Exchange(id, false)));
    h := Apply(linked, Plain(Exchange(id, false)));
  }

  /** dyld has loaded one image, without slots, and still holds the lock. */
  lemma OneLoaded() returns (g: Guarded)
    ensures Reachable(g) && g == Guarded(INITIAL.(images := [Image(9, [], [], Unscheduled)]), Loading(0), [])
  {
    hide ReachableBy;
    ReachStart(START, Makes);
    Go(START, START, Plain(LoadImage(9, [])));
    g := Apply(START, Plain(LoadImage(9, [])));
  }

  /** Another thread registers in between and takes the once token, but waits for the lock in the once block. */
  lemma TokenTaken(begun: Guarded) returns (bad: Guarded)
    requires begun.s.images == [Image(9, [], [], Unscheduled)] && begun.lock == Loading(0) && begun.inside == [1]
    requires begun.s.calls.Keys == {1} && InPhase(begun.s, 1, Allocating) && begun.s.once.Unstarted?
    ensures Later(begun, bad) && Wedged(bad) && OnThread(bad, 1)
  {
    hide ReachableBy;
    ReachStart(begun, Makes);
    var first := Plain(BeginStep(0, 9, NoFilter));
    Go(begun, begun, first);
    var other := ToOnceBlock(begun, Apply(begun, first), 0);
    Go(begun, other, Plain(EnterOnce(0)));
    bad := ToOnceBlock(begun, Apply(other, Plain(EnterOnce(0))), 1);
  }

  /** The call under the lock takes the token itself and visits the image. */
  lemma TokenOwn(begun: Guarded) returns (h: Guarded)
    requires begun.s.images == [Image(9, [], [], Unscheduled)] && begun.lock == Loading(0) && begun.inside == [1]
    requires begun.s.calls.Keys == {1} && InPhase(begun.s, 1, Allocating) && begun.s.once.Unstarted?
    requires !begun.s.registered && begun.s.head == None && begun.s.jobs == map[] && begun.s.calls[1].entry.source == 9
    ensures Later(begun, h) && InPhase(h.s, 1, InOnce) && h.s.once == Running(1) && h.s.registered && h.inside == [1]
    ensures h.s.jobs == map[] && 1 in h.s.nodes && h.s.nodes[1] == Node(h.s.calls[1].entry, None)
    ensures h.s.calls[1].entry.source == 9
            && h.s.images == [Image(9, [], [], Walking(Some(1), |h.s.history|, |h.s.history|))]
  {
    hide ReachableBy;
    ReachStart(begun, Makes);
    var g0 := ToOnceBlock(begun, begun, 1);
    Go(begun, g0, Plain(EnterOnce(1)));
    var g1 := Apply(g0, Plain(EnterOnce(1)));
    Go(begun, g1, Plain(InstallCallback(1)));
    var g2 := Apply(g1, Plain(InstallCallback(1)));
    Go(begun, g2, Plain(ScheduleLoaded(1, 0)));
    var g3 := Apply(g2, Plain(ScheduleLoaded(1, 0)));
    Go(begun, g3, Plain(StartCallback(0)));
    h := Apply(g3, Plain(StartCallback(0)));
  }

  /** It passes over the image, which defines its replacement, and leaves the once block. */
  lemma LeavesBlock(begun: Guarded, g: Guarded) returns (h: Guarded)
    requires Later(begun, g) && InPhase(g.s, 1, InOnce) && g.s.once == Running(1) && g.s.registered && g.inside == [1]
    requires g.s.jobs == map[] && 1 in g.s.nodes && g.s.nodes[1] == Node(g.s.calls[1].entry, None)
    requires g.s.calls[1].entry.source == 9
    requires g.s.images == [Image(9, [], [], Walking(Some(1), |g.s.history|, |g.s.history|))]
    ensures Later(begun, h) && InPhase(h.s, 1, Counting) && h.inside == [1] && h.s.jobs == map[]
    ensures |h.s.images| == 1 && h.s.images[0].header == 9 && 1 in h.s.nodes && h.s.nodes[1].entry.source == 9
  {
    hide ReachableBy;
    Go(begun, g, Plain(WalkOn(0)));
    var g1 := Apply(g, Plain(WalkOn(0)));
    assert g1.inside == [1] && g1.s.images[0].callback.Walking? && g1.s.images[0].callback.cursor == None;
    Go(begun, g1, Plain(WalkOn(0)));
    var g2 := Apply(g1, Plain(WalkOn(0)));
    assert g2.inside == [1] && g2.s.images[0].callback.Finished?;
    Go(begun, g2, Plain(LeaveOnce(1)));
    h := Apply(g2, Plain(LeaveOnce(1)));
  }

  lemma Returns(begun: Guarded, g: Guarded) returns (good: Guarded)
    requires Later(begun, g) && InPhase(g.s, 1, Counting) && g.inside == [1] && g.s.jobs == map[]
    requires |g.s.images| == 1 && g.s.images[0].header == 9 && 1 in g.s.nodes && g.s.nodes[1].entry.source == 9
    ensures Later(begun, good) && InPhase(good.s, 1, Returned(true))
  {
    hide ReachableBy;
    Go(begun, g, Plain(CountImages(1)));
    var g1 := Apply(g, Plain(CountImages(1)));
    Go(begun, g1, Plain(Enumerate(1)));
    var g2 := Apply(g1, Plain(Enumerate(1)));
    Go(begun, g2, Plain(Enumerate(1)));
    good := Apply(g2, Plain(Enumerate(1)));
  }

  /**
   While the once block has not started, a registration under the lock may go either way: it succeeds if
   it gets the token, and wedges its thread if another gets it first.
   */
  lemma BegunBeforeGoesEitherWay() returns (g: Guarded, step: Step, good: Guarded, bad: Guarded)
    ensures Reachable(g) && Allowed(g, BeginInside(step)) && g.s.once.Unstarted?
    ensures Later(Apply(g, BeginInside(step)), good) && InPhase(good.s, step.id, Returned(true))
    ensures Later(Apply(g, BeginInside(step)), bad) && Wedged(bad) && OnThread(bad, step.id)
  {
    hide ReachableBy;
    g := OneLoaded();
    step := BeginStep(1, 9, NoFilter);
    var begun := Apply(g, BeginInside(step));
    bad := TokenTaken(begun);
    var visiting := TokenOwn(begun);
    var left := LeavesBlock(begun, visiting);
    good := Returns(begun, left);
  }

  /** A call on another thread, with a filter, has reached the once block. */
  lemma FilterInBlock() returns (g: Guarded)
    ensures Reachable(g) && g.lock == Free && g.inside == [] && g.s.images == [Image(9, [], [], Unscheduled)]
    ensures InPhase(g.s, 0, AtOnce) && g.s.calls.Keys == {0} && g.s.once.Unstarted? && !g.s.registered
            && g.s.jobs == map[]
    ensures 0 in g.s.nodes && g.s.nodes[0].entry == Entry(7, SOME_REWRITE, Accepting({9})) && g.s.head == Some(0)
  {
    hide ReachableBy;
    var loaded := OneLoaded();
    Go(START, loaded, Release);
    var freed := Apply(loaded, Release);
    var first := Plain(BeginStep(0, 7, Accepting({9})));
    Go(START, freed, first);
    g := ToOnceBlock(START, Apply(freed, first), 0);
  }

  lemma FilterAsked(g: Guarded) returns (h: Guarded)
    requires Reachable(g) && g.lock == Free && g.inside == [] && g.s.images == [Image(9, [], [], Unscheduled)]
    requires InPhase(g.s, 0, AtOnce) && g.s.calls.Keys == {0} && g.s.once.Unstarted? && !g.s.registered
             && g.s.jobs == map[]
    requires 0 in g.s.nodes && g.s.nodes[0].entry == Entry(7, SOME_REWRITE, Accepting({9})) && g.s.head == Some(0)
    ensures Reachable(h) && h.lock == Installing(0) && h.inside == [] && h.s.once == Running(0)
            && InPhase(h.s, 0, InOnce)
    ensures |h.s.images| == 1 && CallbackAtFilter(h.s, 0) && h.s.calls.Keys == {0}
  {
    hide ReachableBy;
    Go(START, g, Plain(EnterOnce(0)));
    var g1 := Apply(g, Plain(EnterOnce(0)));
    Go(START, g1, Plain(InstallCallback(0)));
    var g2 := Apply(g1, Plain(InstallCallback(0)));
    Go(START, g2, Plain(ScheduleLoaded(0, 0)));
    var g3 := Apply(g2, Plain(ScheduleLoaded(0, 0)));
    Go(START, g3, Plain(StartCallback(0)));
    h := Apply(g3, Plain(StartCallback(0)));
  }

  /** A filter that registers while the once block visits an image wedges its own thread in the middle of the walk. */
  lemma RegisteringFilterWedges() returns (g: Guarded, step: Step, bad: Guarded)
    ensures Reachable(g) && Allowed(g, BeginInside(step)) && g.lock == Installing(0) && CallbackAtFilter(g.s, 0)
    ensures Later(Apply(g, BeginInside(step)), bad) && Wedged(bad) && bad.inside == [step.id]
    ensures |bad.s.images| == 1 && bad.s.images[0].callback.Walking?
  {
    hide ReachableBy;
    var inBlock := FilterInBlock();
    g := FilterAsked(inBlock);
    step := BeginStep(1, 9, NoFilter);
    var begun := Apply(g, BeginInside(step));
    ReachStart(begun, Makes);
    bad := ToOnceBlock(begun, begun, 1);
  }
}
