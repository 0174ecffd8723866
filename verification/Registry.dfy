/**
 The process-wide rebind registry as a step system: any number of registering calls, dyld loading
 images, and the add-image callback, interleaved one atomic action at a time under sequential
 consistency. Images are never unloaded and filters are pure, so a filter is the set of headers
 it accepts. A list node is named by the call that allocated it: nodes are never freed, so malloc
 never hands out the same block twice.
 */
module Registry {
  import opened Wrappers
  import opened SlotAlgebra

  type Header = nat
  type CallId = nat
  type Link = Option<CallId>

  datatype Filter = NoFilter | Accepting(headers: set<Header>)

  datatype Entry = Entry(source: Header, rewrite: Rewrite, filter: Filter)

  /** One block of the lock-free list; only `next` changes, and only before publication. */
  datatype Node = Node(entry: Entry, next: Link)

  /** The source image is excluded and the optional filter is honoured. */
  predicate Eligible(entry: Entry, header: Header) {
    && header != entry.source
    && (entry.filter.NoFilter? || header in entry.filter.headers)
  }

  /** Where one call of the global rebind function stands. */
  datatype Phase =
    | Allocating
    | LoadingHead
    | Linking(expected: Link)
    | Exchanging(expected: Link)
    | AtOnce
    | InOnce
    | Counting
    | Enumerating(index: nat)
    | Returned(ok: bool)

  /**
   `count` is the image count the call read. The last four fields are history variables that no
   step reads: the entry's place in the registration order, how many entries had been published
   at the call's first and latest reads of the head, and its genuine exchange failures.
   */
  datatype Call = Call(entry: Entry, phase: Phase, count: nat,
                       position: nat, firstSeen: nat, expectedSeen: nat, failures: nat)

  datatype Once = Unstarted | Running(owner: CallId) | Completed

  /**
   The add-image callback of one image. `remaining` and `seen` are history variables: how many of
   the oldest entries are still ahead of the cursor, and how many the snapshot held.
   */
  datatype Walk =
    | Unscheduled
    | Pending
    | Walking(cursor: Link, remaining: int, seen: nat)
    | Finished(seen: nat)

  datatype Image = Image(header: Header, original: seq<nat>, slots: seq<nat>, callback: Walk)

  datatype Actor = Caller(call: CallId) | Callback(image: nat)

  /** An actor scanning one image for one entry: `matched` once it has read a slot to overwrite. */
  datatype Job = Job(node: CallId, image: nat, slot: nat, matched: bool)

  /**
   `history` lists the published nodes oldest first; `applied` and `failed` record finished scans
   and refused stores. These three are history variables too.
   */
  datatype State = State(
    nodes: map<CallId, Node>, head: Link, history: seq<CallId>, calls: map<CallId, Call>,
    once: Once, registered: bool, images: seq<Image>, jobs: map<Actor, Job>,
    applied: set<(CallId, nat)>, failed: set<(nat, nat)>)

  const INITIAL := State(map[], None, [], map[], Unstarted, false, [], map[], {}, {})

  datatype Step =
    | Begin(id: CallId, source: Option<Header>, rewrite: Rewrite, filter: Filter)
    | Allocate(id: CallId, succeeds: bool)
    | LoadHead(id: CallId)
    | LinkNode(id: CallId)
    | Exchange(id: CallId, spurious: bool)
    | EnterOnce(id: CallId)
    | ScheduleLoaded(id: CallId, image: nat)
    | InstallCallback(id: CallId)
    | LeaveOnce(id: CallId)
    | CountImages(id: CallId)
    | Enumerate(id: CallId)
    | LoadImage(header: Header, original: seq<nat>)
    | StartCallback(image: nat)
    | WalkOn(image: nat)
    | ReadSlot(actor: Actor)
    | StoreSlot(actor: Actor, succeeds: bool)
    | FinishScan(actor: Actor)

  predicate InPhase(s: State, id: CallId, phase: Phase) {
    id in s.calls && s.calls[id].phase == phase
  }

  function SetCall(s: State, id: CallId, call: Call): State {
    s.(calls := s.calls[id := call])
  }

  function SetPhase(s: State, id: CallId, phase: Phase): State
    requires id in s.calls
  {
    SetCall(s, id, s.calls[id].(phase := phase))
  }

  function SetImage(s: State, i: nat, image: Image): State
    requires i < |s.images|
  {
    s.(images := s.images[i := image])
  }

  function SetCallback(s: State, i: nat, callback: Walk): State
    requires i < |s.images|
  {
    SetImage(s, i, s.images[i].(callback := callback))
  }

  // ---- one registering call ----

  /** The argument checks and the lookup of the image that defines the replacement. */
  function BeginCall(s: State, id: CallId, source: Option<Header>, rewrite: Rewrite, filter: Filter): State {
    if rewrite.replacee == 0 || rewrite.replacement == 0 || source.None? then
      SetCall(s, id, Call(Entry(0, rewrite, filter), Returned(false), 0, 0, 0, 0, 0))
    else
      SetCall(s, id, Call(Entry(source.value, rewrite, filter), Allocating, 0, 0, 0, 0, 0))
  }

  function AllocateNode(s: State, id: CallId, succeeds: bool): State
    requires InPhase(s, id, Allocating)
  {
    if succeeds then
      SetPhase(s, id, LoadingHead).(nodes := s.nodes[id := Node(s.calls[id].entry, None)])
    else
      SetPhase(s, id, Returned(false))
  }

  function ReadHead(s: State, id: CallId): State
    requires InPhase(s, id, LoadingHead)
  {
    SetCall(s, id, s.calls[id].(phase := Linking(s.head), firstSeen := |s.history|, expectedSeen := |s.history|))
  }

  predicate CanLink(s: State, id: CallId) {
    id in s.calls && s.calls[id].phase.Linking? && id in s.nodes
  }

  function SetNext(s: State, id: CallId): State
    requires CanLink(s, id)
  {
    var expected := s.calls[id].phase.expected;
    SetPhase(s, id, Exchanging(expected)).(nodes := s.nodes[id := s.nodes[id].(next := expected)])
  }

  predicate CanExchange(s: State, id: CallId) {
    id in s.calls && s.calls[id].phase.Exchanging?
  }

  /** The weak compare-and-exchange on the head, which may also fail although the head matches. */
  function CompareExchange(s: State, id: CallId, spurious: bool): State
    requires CanExchange(s, id)
  {
    var call := s.calls[id];
    if s.head != call.phase.expected then
      SetCall(s, id, call.(phase := Linking(s.head), expectedSeen := |s.history|, failures := call.failures + 1))
    else if spurious then
      SetPhase(s, id, Linking(s.head))
    else
      SetCall(s, id, call.(phase := AtOnce, position := |s.history|))
        .(head := Some(id), history := s.history + [id])
  }

  /** The first arrival runs the once block; the others wait until it is over. */
  function ReachOnce(s: State, id: CallId): State
    requires InPhase(s, id, AtOnce) && !s.once.Running?
  {
    if s.once.Unstarted? then SetPhase(s, id, InOnce).(once := Running(id)) else SetPhase(s, id, Counting)
  }

  function FinishOnce(s: State, id: CallId): State
    requires InPhase(s, id, InOnce) && s.registered
  {
    SetPhase(s, id, Counting).(once := Completed)
  }

  function ReadCount(s: State, id: CallId): State
    requires InPhase(s, id, Counting)
  {
    SetCall(s, id, s.calls[id].(phase := Enumerating(0), count := |s.images|))
  }

  predicate CanEnumerate(s: State, id: CallId) {
    && id in s.calls && s.calls[id].phase.Enumerating? && Caller(id) !in s.jobs
    && id in s.nodes && s.calls[id].count <= |s.images|
  }

  /** One turn of the enumeration: return, start a scan, or pass over an ineligible image. */
  function NextImage(s: State, id: CallId): State
    requires CanEnumerate(s, id)
  {
    var index := s.calls[id].phase.index;
    if index >= s.calls[id].count then
      SetPhase(s, id, Returned(true))
    else if Eligible(s.nodes[id].entry, s.images[index].header) then
      s.(jobs := s.jobs[Caller(id) := Job(id, index, 0, false)])
    else
      SetPhase(s, id, Enumerating(index + 1))
  }

  // ---- dyld and the add-image callback ----

  predicate CanSchedule(s: State, id: CallId, i: nat) {
    InPhase(s, id, InOnce) && i < |s.images| && s.images[i].callback.Unscheduled?
  }

  predicate CanLoad(s: State, header: Header) {
    forall i | 0 <= i < |s.images| :: s.images[i].header != header
  }

  function AddImage(s: State, header: Header, original: seq<nat>): State {
    s.(images := s.images + [Image(header, original, original, if s.registered then Pending else Unscheduled)])
  }

  predicate CanStart(s: State, i: nat) {
    i < |s.images| && s.images[i].callback.Pending?
  }

  function TakeSnapshot(s: State, i: nat): State
    requires CanStart(s, i)
  {
    SetCallback(s, i, Walking(s.head, |s.history|, |s.history|))
  }

  predicate CanWalk(s: State, i: nat) {
    && i < |s.images| && s.images[i].callback.Walking? && Callback(i) !in s.jobs
    && (s.images[i].callback.cursor.Some? ==> s.images[i].callback.cursor.value in s.nodes)
  }

  /** The callback's cursor moves to the next older entry. */
  function Advance(s: State, i: nat): State
    requires i < |s.images| && s.images[i].callback.Walking?
    requires s.images[i].callback.cursor.Some? && s.images[i].callback.cursor.value in s.nodes
  {
    var walk := s.images[i].callback;
    SetCallback(s, i, Walking(s.nodes[walk.cursor.value].next, walk.remaining - 1, walk.seen))
  }

  /** One turn of the list walk: finish, start a scan, or pass over an ineligible entry. */
  function NextEntry(s: State, i: nat): State
    requires CanWalk(s, i)
  {
    var walk := s.images[i].callback;
    if walk.cursor.None? then
      SetCallback(s, i, Finished(walk.seen))
    else if Eligible(s.nodes[walk.cursor.value].entry, s.images[i].header) then
      s.(jobs := s.jobs[Callback(i) := Job(walk.cursor.value, i, 0, false)])
    else
      Advance(s, i)
  }

  // ---- scanning one image for one entry ----

  predicate ActorReady(s: State, actor: Actor) {
    match actor
    case Caller(id) => id in s.calls && s.calls[id].phase.Enumerating?
    case Callback(i) => (
      && i < |s.images| && s.images[i].callback.Walking?
      && s.images[i].callback.cursor.Some? && s.images[i].callback.cursor.value in s.nodes)
  }

  predicate CanScan(s: State, actor: Actor) {
    && actor in s.jobs && s.jobs[actor].node in s.nodes && s.jobs[actor].image < |s.images|
    && s.jobs[actor].slot <= |s.images[s.jobs[actor].image].slots|
    && ActorReady(s, actor)
  }

  predicate SlotsLeft(s: State, actor: Actor)
    requires CanScan(s, actor)
  {
    s.jobs[actor].slot < |s.images[s.jobs[actor].image].slots|
  }

  function Inspect(s: State, actor: Actor): State
    requires CanScan(s, actor) && SlotsLeft(s, actor) && !s.jobs[actor].matched
  {
    var job := s.jobs[actor];
    var current := s.images[job.image].slots[job.slot];
    if current != 0 && current == s.nodes[job.node].entry.rewrite.replacee
    then s.(jobs := s.jobs[actor := job.(matched := true)])
    else s.(jobs := s.jobs[actor := job.(slot := job.slot + 1)])
  }

  /** The best-effort store; whatever the slot holds by now is overwritten. */
  function Overwrite(s: State, actor: Actor, succeeds: bool): State
    requires CanScan(s, actor) && SlotsLeft(s, actor) && s.jobs[actor].matched
  {
    var job := s.jobs[actor];
    var image := s.images[job.image];
    var next := s.(jobs := s.jobs[actor := job.(slot := job.slot + 1, matched := false)]);
    if succeeds then
      SetImage(next, job.image, image.(slots := image.slots[job.slot := s.nodes[job.node].entry.rewrite.replacement]))
    else
      next.(failed := s.failed + {(job.image, job.slot)})
  }

  function RecordScan(s: State, actor: Actor): State
    requires CanScan(s, actor)
  {
    s.(jobs := s.jobs - {actor}, applied := s.applied + {(s.jobs[actor].node, s.jobs[actor].image)})
  }

  /** The actor takes up its loop again after the scan. */
  function Resume(s: State, actor: Actor): State
    requires ActorReady(s, actor)
  {
    match actor
    case Caller(id) => SetPhase(s, id, Enumerating(s.calls[id].phase.index + 1))
    case Callback(i) => Advance(s, i)
  }

  function EndScan(s: State, actor: Actor): State
    requires CanScan(s, actor)
  {
    Resume(RecordScan(s, actor), actor)
  }

  // ---- the step relation ----

  predicate Enabled(s: State, step: Step) {
    match step
    case Begin(id, _, _, _) => id !in s.calls
    case Allocate(id, _) => InPhase(s, id, Allocating)
    case LoadHead(id) => InPhase(s, id, LoadingHead)
    case LinkNode(id) => CanLink(s, id)
    case Exchange(id, _) => CanExchange(s, id)
    case EnterOnce(id) => InPhase(s, id, AtOnce) && !s.once.Running?
    case ScheduleLoaded(id, image) => CanSchedule(s, id, image)
    case InstallCallback(id) => InPhase(s, id, InOnce)
    case LeaveOnce(id) => InPhase(s, id, InOnce) && s.registered
    case CountImages(id) => InPhase(s, id, Counting)
    case Enumerate(id) => CanEnumerate(s, id)
    case LoadImage(header, _) => CanLoad(s, header)
    case StartCallback(image) => CanStart(s, image)
    case WalkOn(image) => CanWalk(s, image)
    case ReadSlot(actor) => CanScan(s, actor) && SlotsLeft(s, actor) && !s.jobs[actor].matched
    case StoreSlot(actor, _) => CanScan(s, actor) && SlotsLeft(s, actor) && s.jobs[actor].matched
    case FinishScan(actor) => CanScan(s, actor) && !SlotsLeft(s, actor)
  }

  function Execute(s: State, step: Step): State
    requires Enabled(s, step)
  {
    match step
    case Begin(id, source, rewrite, filter) => BeginCall(s, id, source, rewrite, filter)
    case Allocate(id, succeeds) => AllocateNode(s, id, succeeds)
    case LoadHead(id) => ReadHead(s, id)
    case LinkNode(id) => SetNext(s, id)
    case Exchange(id, spurious) => CompareExchange(s, id, spurious)
    case EnterOnce(id) => ReachOnce(s, id)
    case ScheduleLoaded(_, image) => SetCallback(s, image, Pending)
    case InstallCallback(_) => s.(registered := true)
    case LeaveOnce(id) => FinishOnce(s, id)
    case CountImages(id) => ReadCount(s, id)
    case Enumerate(id) => NextImage(s, id)
    case LoadImage(header, original) => AddImage(s, header, original)
    case StartCallback(image) => TakeSnapshot(s, image)
    case WalkOn(image) => NextEntry(s, image)
    case ReadSlot(actor) => Inspect(s, actor)
    case StoreSlot(actor, succeeds) => Overwrite(s, actor, succeeds)
    case FinishScan(actor) => EndScan(s, actor)
  }
}
