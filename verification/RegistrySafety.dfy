/**
 What every reachable state of the registry satisfies: the lock-free list refines an append-only
 history, and every registration that has returned true has been applied wherever it must be.
 */
module RegistrySafety {
  import opened Wrappers
  import opened SlotAlgebra
  import opened Registry

  /** The pointer to the newest of the first `k` published nodes. */
  function LinkAt(history: seq<CallId>, k: nat): Link
    requires k <= |history|
  {
    if k == 0 then None else Some(history[k - 1])
  }

  predicate Published(phase: Phase) {
    phase.AtOnce? || phase.InOnce? || phase.Counting? || phase.Enumerating? || phase == Returned(true)
  }

  predicate PastOnce(phase: Phase) {
    phase.Counting? || phase.Enumerating? || phase == Returned(true)
  }

  predicate Counted(phase: Phase) {
    phase.Enumerating? || phase == Returned(true)
  }

  /** How many images of its enumeration a call has dealt with. */
  function Visited(call: Call): nat {
    if call.phase.Enumerating? then call.phase.index else call.count
  }

  /** Scanning image `i` for entry `n` is either done or not called for. */
  predicate Handled(s: State, n: CallId, i: nat)
    requires n in s.nodes && i < |s.images|
  {
    Eligible(s.nodes[n].entry, s.images[i].header) ==> (n, i) in s.applied
  }

  /** Node `j` of the list, counting from the oldest, is in place and immutable. */
  predicate NodeOk(s: State, j: nat)
    requires j < |s.history|
  {
    var n := s.history[j];
    && n in s.nodes && n in s.calls
    && Published(s.calls[n].phase) && s.calls[n].position == j
    && s.nodes[n] == Node(s.calls[n].entry, LinkAt(s.history, j))
  }

  predicate CallOk(s: State, c: CallId)
    requires c in s.calls
  {
    var call := s.calls[c];
    && (!call.phase.Allocating? && !call.phase.Returned? ==> c in s.nodes && s.nodes[c].entry == call.entry)
    && (call.phase != Returned(false) ==> call.entry.rewrite.replacee != 0)
    && (call.phase.Allocating? ==> c !in s.nodes)
    && (call.phase.Allocating? || call.phase.LoadingHead? ==> call.failures == 0)
    && (call.phase.Linking? || call.phase.Exchanging? ==>
          && call.firstSeen + call.failures <= call.expectedSeen <= |s.history|
          && call.phase.expected == LinkAt(s.history, call.expectedSeen))
    && (call.phase.Exchanging? ==> s.nodes[c].next == call.phase.expected)
    && (Published(call.phase) ==>
          && call.position < |s.history| && s.history[call.position] == c
          && call.firstSeen + call.failures <= call.position)
    && (call.phase.InOnce? ==> s.once == Running(c))
    && (PastOnce(call.phase) ==> s.once.Completed?)
    && (Counted(call.phase) ==>
          && Visited(call) <= call.count <= |s.images|
          && c in s.nodes && s.nodes[c].entry == call.entry
          && forall k | 0 <= k < Visited(call) :: Handled(s, c, k))
  }

  predicate OnceOk(s: State) {
    && (s.once.Running? ==> InPhase(s, s.once.owner, InOnce))
    && (s.once.Completed? ==> s.registered)
  }

  /** How far the callback of image `i` has gone through its snapshot of the list. */
  predicate WalkOk(s: State, i: nat)
    requires i < |s.images|
  {
    match s.images[i].callback
    case Walking(cursor, remaining, seen) =>
      && 0 <= remaining <= seen <= |s.history|
      && cursor == LinkAt(s.history, remaining)
      && forall j | remaining <= j < seen :: s.history[j] in s.nodes && Handled(s, s.history[j], i)
    case Finished(seen) =>
      && seen <= |s.history|
      && forall j | 0 <= j < seen :: s.history[j] in s.nodes && Handled(s, s.history[j], i)
    case _ => true
  }

  /** An image that call `c` did not count is one whose callback snapshot holds `c`. */
  predicate LateOk(s: State, i: nat, c: CallId)
    requires i < |s.images| && c in s.calls
  {
    Counted(s.calls[c].phase) && s.calls[c].count <= i ==>
      match s.images[i].callback
      case Unscheduled => false
      case Pending => true
      case Walking(_, _, seen) => s.calls[c].position < seen
      case Finished(seen) => s.calls[c].position < seen
  }

  predicate JobOk(s: State, a: Actor)
    requires a in s.jobs
  {
    var job := s.jobs[a];
    && job.image < |s.images| && job.slot <= |s.images[job.image].slots|
    && (job.matched ==> job.slot < |s.images[job.image].slots|)
    && job.node in s.nodes && job.node in s.calls && Published(s.calls[job.node].phase)
    && Eligible(s.nodes[job.node].entry, s.images[job.image].header)
    && match a
       case Caller(c) => job.node == c && InPhase(s, c, Enumerating(job.image)) && job.image < s.calls[c].count
       case Callback(i) =>
           job.image == i && s.images[i].callback.Walking? && s.images[i].callback.cursor == Some(job.node)
  }

  /** Only eligible pairs of a published entry and an image are ever applied. */
  predicate AppliedOk(s: State, n: CallId, i: nat) {
    && n in s.nodes && n in s.calls && Published(s.calls[n].phase) && i < |s.images|
    && Eligible(s.nodes[n].entry, s.images[i].header)
  }

  ghost predicate Inv(s: State) {
    && (forall j | 0 <= j < |s.history| :: NodeOk(s, j))
    && s.head == LinkAt(s.history, |s.history|)
    && (forall n | n in s.nodes :: n in s.calls)
    && (forall c | c in s.calls :: CallOk(s, c))
    && OnceOk(s)
    && (forall i | 0 <= i < |s.images| :: |s.images[i].slots| == |s.images[i].original| && WalkOk(s, i))
    && (forall i, c | 0 <= i < |s.images| && c in s.calls :: LateOk(s, i, c))
    && (forall a | a in s.jobs :: JobOk(s, a))
    && (forall n, i | (n, i) in s.applied :: AppliedOk(s, n, i))
  }

  lemma InvInitial()
    ensures Inv(INITIAL)
  {
  }

  /** What no step takes back: the registry, the loaded images and the finished scans only grow. */
  ghost predicate Extends(s: State, t: State) {
    && s.history <= t.history
    && (forall c | c in s.calls :: c in t.calls && t.calls[c].entry == s.calls[c].entry)
    && (forall c | c in s.calls && Published(s.calls[c].phase) ::
          Published(t.calls[c].phase) && t.calls[c].position == s.calls[c].position)
    && (forall n | n in s.nodes :: n in t.nodes && t.nodes[n].entry == s.nodes[n].entry)
    && (forall j | 0 <= j < |s.history| && s.history[j] in s.nodes :: t.nodes[s.history[j]] == s.nodes[s.history[j]])
    && |s.images| <= |t.images|
    && (forall i | 0 <= i < |s.images| ::
          && t.images[i].header == s.images[i].header && t.images[i].original == s.images[i].original
          && |t.images[i].slots| == |s.images[i].slots|)
    && s.applied <= t.applied
    && (s.registered ==> t.registered)
    && (s.once.Completed? ==> t.once.Completed?)
  }

  /** Everything about call `c` that the invariant reads is as it was. */
  predicate SameCall(s: State, t: State, c: CallId) {
    && c in s.calls && c in t.calls && t.calls[c] == s.calls[c]
    && (c in s.nodes <==> c in t.nodes) && (c in s.nodes ==> t.nodes[c] == s.nodes[c])
    && (s.calls[c].phase.InOnce? ==> t.once == s.once)
  }

  predicate SameCallback(s: State, t: State, i: nat) {
    i < |s.images| && i < |t.images| && t.images[i].callback == s.images[i].callback
  }

  predicate SameJob(s: State, t: State, a: Actor) {
    && a in s.jobs && a in t.jobs && t.jobs[a] == s.jobs[a]
    && match a case Caller(c) => SameCall(s, t, c) case Callback(i) => SameCallback(s, t, i)
  }

  lemma KeepsCall(s: State, t: State, c: CallId)
    requires Extends(s, t) && SameCall(s, t, c) && CallOk(s, c)
    ensures CallOk(t, c)
  {
    if Counted(t.calls[c].phase) {
      forall k | 0 <= k < Visited(t.calls[c]) ensures Handled(t, c, k) { assert Handled(s, c, k); }
    }
  }

  lemma KeepsWalk(s: State, t: State, i: nat)
    requires Extends(s, t) && SameCallback(s, t, i) && WalkOk(s, i)
    ensures WalkOk(t, i)
  {
    forall j | 0 <= j < |s.history| && s.history[j] in s.nodes && Handled(s, s.history[j], i)
      ensures t.history[j] in t.nodes && Handled(t, t.history[j], i)
    {
      assert t.history[j] == s.history[j];
    }
  }

  lemma KeepsNodes(s: State, t: State)
    requires Inv(s) && Extends(s, t)
    ensures forall j | 0 <= j < |s.history| :: NodeOk(t, j)
  {
    forall j | 0 <= j < |s.history| ensures NodeOk(t, j) {
      assert NodeOk(s, j);
      assert t.history[j] == s.history[j] && LinkAt(t.history, j) == LinkAt(s.history, j);
    }
  }

  lemma KeepsLate(s: State, t: State, i: nat, c: CallId)
    requires Extends(s, t) && SameCall(s, t, c) && SameCallback(s, t, i) && LateOk(s, i, c)
    ensures LateOk(t, i, c)
  {
  }

  lemma KeepsJob(s: State, t: State, a: Actor)
    requires Extends(s, t) && SameJob(s, t, a) && JobOk(s, a)
    ensures JobOk(t, a)
  {
  }

  /**
   The frame of a step that touches only the calls `cs`, the callbacks of the images `xs` and the
   jobs of `actors`: the invariant need only be shown again for those.
   */
  lemma Frame(s: State, t: State, cs: set<CallId>, xs: set<nat>, actors: set<Actor>)
    requires Inv(s) && Extends(s, t) && OnceOk(t) && t.nodes.Keys <= t.calls.Keys
    requires forall c | c in t.calls && c !in cs :: SameCall(s, t, c)
    requires forall i | 0 <= i < |t.images| && i !in xs :: SameCallback(s, t, i)
    requires forall a | a in t.jobs && a !in actors :: SameJob(s, t, a)
    requires forall j | |s.history| <= j < |t.history| :: NodeOk(t, j)
    requires t.head == LinkAt(t.history, |t.history|)
    requires forall c | c in t.calls && c in cs :: CallOk(t, c)
    requires forall i | 0 <= i < |t.images| && i in xs :: |t.images[i].slots| == |t.images[i].original| && WalkOk(t, i)
    requires forall i, c | 0 <= i < |t.images| && c in t.calls && (i in xs || c in cs) :: LateOk(t, i, c)
    requires forall a | a in t.jobs && a in actors :: JobOk(t, a)
    requires forall n, i | (n, i) in t.applied && (n, i) !in s.applied :: AppliedOk(t, n, i)
    ensures Inv(t)
  {
    KeepsNodes(s, t);
    forall c | c in t.calls ensures CallOk(t, c) {
      if c !in cs { KeepsCall(s, t, c); }
    }
    forall i | 0 <= i < |t.images| ensures |t.images[i].slots| == |t.images[i].original| && WalkOk(t, i) {
      if i !in xs { assert SameCallback(s, t, i); KeepsWalk(s, t, i); }
    }
    forall i, c | 0 <= i < |t.images| && c in t.calls ensures LateOk(t, i, c) {
      if i !in xs && c !in cs { assert SameCallback(s, t, i) && SameCall(s, t, c); KeepsLate(s, t, i, c); }
    }
    forall a | a in t.jobs ensures JobOk(t, a) {
      if a !in actors { KeepsJob(s, t, a); }
    }
    forall n, i | (n, i) in t.applied ensures AppliedOk(t, n, i) {
      if (n, i) in s.applied { assert AppliedOk(s, n, i); }
    }
  }

  /**
   `t` differs from `s` in what belongs to call `id` alone: its own record, its own node while that
   is unpublished, the once token if the call holds it, and the list only by a push of its node.
   */
  predicate OnlyCallMoved(s: State, t: State, id: CallId) {
    && id in t.calls && t.calls == s.calls[id := t.calls[id]]
    && (t.nodes == s.nodes || (id !in s.history && id in t.nodes && t.nodes == s.nodes[id := t.nodes[id]]))
    && (t.history == s.history || t.history == s.history + [id])
    && t.images == s.images && t.jobs == s.jobs && t.applied == s.applied
    && Caller(id) !in s.jobs
    && (id in s.nodes ==> t.nodes[id].entry == s.nodes[id].entry)
    && (id in s.calls ==>
          && t.calls[id].entry == s.calls[id].entry
          && (Published(s.calls[id].phase) ==>
                Published(t.calls[id].phase) && t.calls[id].position == s.calls[id].position))
    && (s.registered ==> t.registered)
    && (t.once == s.once || s.once.Unstarted? || s.once == Running(id))
  }

  lemma CallMoveExtends(s: State, t: State, id: CallId)
    requires OnlyCallMoved(s, t, id)
    ensures Extends(s, t)
  {
  }

  lemma OthersUnmoved(s: State, t: State, id: CallId)
    requires Inv(s) && OnlyCallMoved(s, t, id)
    ensures forall c | c in t.calls && c != id :: SameCall(s, t, c)
    ensures forall a | a in t.jobs :: SameJob(s, t, a)
  {
    forall c | c in t.calls && c != id ensures SameCall(s, t, c) { assert CallOk(s, c); }
    forall a | a in t.jobs ensures SameJob(s, t, a) { assert JobOk(s, a); }
  }

  /** The invariant after a move of one call, from what concerns that call. */
  lemma CallMoves(s: State, t: State, id: CallId)
    requires Inv(s) && OnlyCallMoved(s, t, id) && OnceOk(t)
    requires CallOk(t, id)
    requires forall i | 0 <= i < |t.images| :: LateOk(t, i, id)
    requires t.head == LinkAt(t.history, |t.history|)
    requires t.history != s.history ==> NodeOk(t, |s.history|)
    ensures Inv(t) && Extends(s, t)
  {
    CallMoveExtends(s, t, id);
    OthersUnmoved(s, t, id);
    Frame(s, t, {id}, {}, {});
  }

  lemma NotScanning(s: State, id: CallId)
    requires Inv(s) && (id in s.calls ==> !s.calls[id].phase.Enumerating?)
    ensures Caller(id) !in s.jobs
  {
    forall a | a in s.jobs ensures a != Caller(id) { assert JobOk(s, a); }
  }

  lemma NotYetListed(s: State, id: CallId)
    requires Inv(s) && (id in s.calls ==> !Published(s.calls[id].phase))
    ensures id !in s.history && Caller(id) !in s.jobs
  {
    forall j | 0 <= j < |s.history| ensures s.history[j] != id { assert NodeOk(s, j); }
    NotScanning(s, id);
  }

  lemma InvBegin(s: State, id: CallId, source: Option<Header>, rewrite: Rewrite, filter: Filter)
    requires Inv(s) && id !in s.calls
    ensures var t := BeginCall(s, id, source, rewrite, filter); Inv(t) && Extends(s, t)
  {
    NotYetListed(s, id);
    var t := BeginCall(s, id, source, rewrite, filter);
    assert CallOk(t, id);
    CallMoves(s, t, id);
  }

  lemma InvAllocate(s: State, id: CallId, succeeds: bool)
    requires Inv(s) && InPhase(s, id, Allocating)
    ensures var t := AllocateNode(s, id, succeeds); Inv(t) && Extends(s, t)
  {
    NotYetListed(s, id);
    assert CallOk(s, id);
    CallMoves(s, AllocateNode(s, id, succeeds), id);
  }

  lemma InvReadHead(s: State, id: CallId)
    requires Inv(s) && InPhase(s, id, LoadingHead)
    ensures var t := ReadHead(s, id); Inv(t) && Extends(s, t)
  {
    NotYetListed(s, id);
    assert CallOk(s, id);
    CallMoves(s, ReadHead(s, id), id);
  }

  lemma InvSetNext(s: State, id: CallId)
    requires Inv(s) && CanLink(s, id)
    ensures var t := SetNext(s, id); Inv(t) && Extends(s, t)
  {
    NotYetListed(s, id);
    assert CallOk(s, id);
    CallMoves(s, SetNext(s, id), id);
  }

  /** A head that still equals the expected pointer means that nothing was pushed in between. */
  lemma NoReuse(s: State, k: nat)
    requires Inv(s) && k <= |s.history|
    ensures s.head == LinkAt(s.history, k) <==> k == |s.history|
  {
    if 0 < k < |s.history| {
      assert NodeOk(s, k - 1) && NodeOk(s, |s.history| - 1);
    }
  }

  lemma InvExchange(s: State, id: CallId, spurious: bool)
    requires Inv(s) && CanExchange(s, id)
    ensures var t := CompareExchange(s, id, spurious); Inv(t) && Extends(s, t)
  {
    NotYetListed(s, id);
    assert CallOk(s, id);
    NoReuse(s, s.calls[id].expectedSeen);
    CallMoves(s, CompareExchange(s, id, spurious), id);
  }

  lemma InvReachOnce(s: State, id: CallId)
    requires Inv(s) && InPhase(s, id, AtOnce) && !s.once.Running?
    ensures var t := ReachOnce(s, id); Inv(t) && Extends(s, t)
  {
    NotScanning(s, id);
    assert CallOk(s, id);
    CallMoves(s, ReachOnce(s, id), id);
  }

  lemma InvInOnce(s: State, t: State, id: CallId)
    requires Inv(s) && InPhase(s, id, InOnce)
    requires t == s.(registered := true) || (s.registered && t == FinishOnce(s, id))
    ensures Inv(t) && Extends(s, t)
  {
    NotScanning(s, id);
    assert CallOk(s, id);
    CallMoves(s, t, id);
  }

  lemma InvReadCount(s: State, id: CallId)
    requires Inv(s) && InPhase(s, id, Counting)
    ensures var t := ReadCount(s, id); Inv(t) && Extends(s, t)
  {
    NotScanning(s, id);
    assert CallOk(s, id);
    CallMoves(s, ReadCount(s, id), id);
  }

  /** `t` has the same calls and the same list, and every image of `s` up to slots and callbacks. */
  ghost predicate RegistryUnmoved(s: State, t: State) {
    && t == s.(images := t.images, jobs := t.jobs, applied := t.applied, failed := t.failed)
    && |s.images| <= |t.images| && s.applied <= t.applied
    && forall i | 0 <= i < |s.images| ::
         && t.images[i].header == s.images[i].header && t.images[i].original == s.images[i].original
         && |t.images[i].slots| == |s.images[i].slots|
  }

  lemma UnmovedExtends(s: State, t: State)
    requires RegistryUnmoved(s, t)
    ensures Extends(s, t)
    ensures forall c | c in t.calls :: SameCall(s, t, c)
  {
  }

  /** The jobs of actors other than `actor`, which themselves have not moved. */
  lemma OtherJobsUnmoved(s: State, t: State, actor: Actor)
    requires Inv(s) && RegistryUnmoved(s, t)
    requires (actor in t.jobs && t.jobs == s.jobs[actor := t.jobs[actor]]) || t.jobs == s.jobs - {actor}
    requires forall i | 0 <= i < |s.images| && Callback(i) != actor :: SameCallback(s, t, i)
    ensures forall a | a in t.jobs && a != actor :: SameJob(s, t, a)
  {
    forall a | a in t.jobs && a != actor ensures SameJob(s, t, a) {
      assert JobOk(s, a);
      match a case Caller(c) => assert SameCall(s, t, c); case Callback(i) => assert SameCallback(s, t, i);
    }
  }

  /** The invariant after a step that only concerns the scan of one actor. */
  lemma ScanMoves(s: State, t: State, actor: Actor)
    requires Inv(s) && RegistryUnmoved(s, t) && |t.images| == |s.images|
    requires forall i | 0 <= i < |t.images| :: SameCallback(s, t, i)
    requires (actor in t.jobs && t.jobs == s.jobs[actor := t.jobs[actor]]) || t.jobs == s.jobs - {actor}
    requires actor in t.jobs ==> JobOk(t, actor)
    requires forall n, i | (n, i) in t.applied && (n, i) !in s.applied :: AppliedOk(t, n, i)
    ensures Inv(t) && Extends(s, t)
  {
    UnmovedExtends(s, t);
    OtherJobsUnmoved(s, t, actor);
    Frame(s, t, {}, {}, {actor});
  }

  /** The invariant after a step that only gives image `i`, new or old, a callback state. */
  lemma CallbackMoves(s: State, t: State, i: nat)
    requires Inv(s) && RegistryUnmoved(s, t) && i < |t.images| && |t.images| <= |s.images| + 1
    requires forall k | 0 <= k < |t.images| && k != i :: SameCallback(s, t, k)
    requires t.jobs == s.jobs && t.applied == s.applied && Callback(i) !in s.jobs
    requires |t.images[i].slots| == |t.images[i].original| && WalkOk(t, i)
    requires forall c | c in t.calls :: LateOk(t, i, c)
    ensures Inv(t) && Extends(s, t)
  {
    hide Extends, CallOk, JobOk, LateOk, WalkOk, NodeOk, AppliedOk;
    UnmovedExtends(s, t);
    assert t.jobs == s.jobs - {Callback(i)};
    OtherJobsUnmoved(s, t, Callback(i));
    Frame(s, t, {}, {i}, {});
  }

  lemma InvPassImage(s: State, id: CallId)
    requires Inv(s) && CanEnumerate(s, id) && NextImage(s, id).jobs == s.jobs
    ensures var t := NextImage(s, id); Inv(t) && Extends(s, t)
  {
    var t := NextImage(s, id);
    assert CallOk(s, id);
    forall i | 0 <= i < |t.images| ensures LateOk(t, i, id) { assert LateOk(s, i, id); }
    forall k | 0 <= k < Visited(t.calls[id]) ensures Handled(t, id, k) {
      if k < Visited(s.calls[id]) { assert Handled(s, id, k); }
    }
    CallMoves(s, t, id);
  }

  lemma InvNextImage(s: State, id: CallId)
    requires Inv(s) && CanEnumerate(s, id)
    ensures var t := NextImage(s, id); Inv(t) && Extends(s, t)
  {
    var t := NextImage(s, id);
    assert CallOk(s, id);
    if t.jobs == s.jobs { InvPassImage(s, id); } else { ScanMoves(s, t, Caller(id)); }
  }

  lemma NotWalking(s: State, i: nat)
    requires Inv(s) && (i < |s.images| ==> !s.images[i].callback.Walking?)
    ensures Callback(i) !in s.jobs
  {
    forall a | a in s.jobs ensures a != Callback(i) { assert JobOk(s, a); }
  }

  lemma InvSchedule(s: State, id: CallId, i: nat)
    requires Inv(s) && CanSchedule(s, id, i)
    ensures var t := SetCallback(s, i, Pending); Inv(t) && Extends(s, t)
  {
    NotWalking(s, i);
    CallbackMoves(s, SetCallback(s, i, Pending), i);
  }

  lemma InvTakeSnapshot(s: State, i: nat)
    requires Inv(s) && CanStart(s, i)
    ensures var t := TakeSnapshot(s, i); Inv(t) && Extends(s, t)
  {
    NotWalking(s, i);
    forall c | c in s.calls ensures LateOk(TakeSnapshot(s, i), i, c) { assert CallOk(s, c); }
    CallbackMoves(s, TakeSnapshot(s, i), i);
  }

  lemma InvAddImage(s: State, header: Header, original: seq<nat>)
    requires Inv(s)
    ensures var t := AddImage(s, header, original); Inv(t) && Extends(s, t)
  {
    var t := AddImage(s, header, original);
    forall c | c in t.calls ensures LateOk(t, |s.images|, c) { assert CallOk(s, c); }
    NotWalking(s, |s.images|);
    CallbackMoves(s, t, |s.images|);
  }

  lemma InvAdvance(s: State, i: nat)
    requires Inv(s) && CanWalk(s, i) && s.images[i].callback.cursor.Some?
    requires Handled(s, s.images[i].callback.cursor.value, i)
    ensures var t := Advance(s, i); Inv(t) && Extends(s, t)
  {
    var t, walk := Advance(s, i), s.images[i].callback;
    assert WalkOk(s, i);
    assert NodeOk(s, walk.remaining - 1);
    forall c | c in t.calls ensures LateOk(t, i, c) { assert LateOk(s, i, c); }
    forall j | walk.remaining - 1 <= j < walk.seen ensures s.history[j] in t.nodes && Handled(t, s.history[j], i) {
      if j >= walk.remaining { assert Handled(s, s.history[j], i); }
    }
    CallbackMoves(s, t, i);
  }

  lemma InvNextEntry(s: State, i: nat)
    requires Inv(s) && CanWalk(s, i)
    ensures var t := NextEntry(s, i); Inv(t) && Extends(s, t)
  {
    var t, walk := NextEntry(s, i), s.images[i].callback;
    assert WalkOk(s, i);
    if walk.cursor.None? {
      forall c | c in t.calls ensures LateOk(t, i, c) { assert LateOk(s, i, c); }
      KeepsWalkFinished(s, t, i);
      CallbackMoves(s, t, i);
    } else {
      assert NodeOk(s, walk.remaining - 1);
      if t.jobs == s.jobs { InvAdvance(s, i); } else { ScanMoves(s, t, Callback(i)); }
    }
  }

  lemma KeepsWalkFinished(s: State, t: State, i: nat)
    requires CanWalk(s, i) && WalkOk(s, i) && s.images[i].callback.cursor.None?
    requires t == SetCallback(s, i, Finished(s.images[i].callback.seen))
    ensures WalkOk(t, i)
  {
    forall j | 0 <= j < s.images[i].callback.seen ensures s.history[j] in t.nodes && Handled(t, s.history[j], i) {
      assert Handled(s, s.history[j], i);
    }
  }

  lemma InvInspect(s: State, actor: Actor)
    requires Inv(s) && CanScan(s, actor) && SlotsLeft(s, actor) && !s.jobs[actor].matched
    ensures var t := Inspect(s, actor); Inv(t) && Extends(s, t)
  {
    assert JobOk(s, actor);
    ScanMoves(s, Inspect(s, actor), actor);
  }

  lemma InvOverwrite(s: State, actor: Actor, succeeds: bool)
    requires Inv(s) && CanScan(s, actor) && SlotsLeft(s, actor) && s.jobs[actor].matched
    ensures var t := Overwrite(s, actor, succeeds); Inv(t) && Extends(s, t)
  {
    assert JobOk(s, actor);
    ScanMoves(s, Overwrite(s, actor, succeeds), actor);
  }

  lemma InvRecordScan(s: State, actor: Actor)
    requires Inv(s) && CanScan(s, actor)
    ensures var t := RecordScan(s, actor); Inv(t) && Extends(s, t)
  {
    assert JobOk(s, actor);
    ScanMoves(s, RecordScan(s, actor), actor);
  }

  lemma InvNextAfterScan(s: State, id: CallId)
    requires Inv(s) && CanEnumerate(s, id) && s.calls[id].phase.index < s.calls[id].count
    requires Handled(s, id, s.calls[id].phase.index)
    ensures var t := Resume(s, Caller(id)); Inv(t) && Extends(s, t)
  {
    var t := Resume(s, Caller(id));
    assert CallOk(s, id);
    forall i | 0 <= i < |t.images| ensures LateOk(t, i, id) { assert LateOk(s, i, id); }
    forall k | 0 <= k < Visited(t.calls[id]) ensures Handled(t, id, k) { assert Handled(s, id, k); }
    CallMoves(s, t, id);
  }

  lemma ExtendsTransitive(s: State, t: State, u: State)
    requires Extends(s, t) && Extends(t, u)
    ensures Extends(s, u)
  {
    forall j | 0 <= j < |s.history| ensures u.history[j] == s.history[j] { assert t.history[j] == s.history[j]; }
    forall j | 0 <= j < |s.history| && s.history[j] in s.nodes ensures u.nodes[s.history[j]] == s.nodes[s.history[j]] {
      assert t.history[j] in t.nodes;
    }
  }

  lemma JobFacts(s: State, actor: Actor)
    requires Inv(s) && actor in s.jobs
    ensures JobOk(s, actor)
    ensures actor.Caller? ==> CallOk(s, actor.call)
  {
  }

  lemma CallerReady(s: State, id: CallId)
    requires CanScan(s, Caller(id)) && JobOk(s, Caller(id)) && CallOk(s, id)
    ensures var t := RecordScan(s, Caller(id));
            && CanEnumerate(t, id) && t.calls[id].phase.index < t.calls[id].count
            && Handled(t, id, t.calls[id].phase.index)
  {
  }

  lemma CallbackReady(s: State, i: nat)
    requires CanScan(s, Callback(i)) && JobOk(s, Callback(i))
    ensures var t := RecordScan(s, Callback(i));
            && CanWalk(t, i) && t.images[i].callback.cursor.Some?
            && Handled(t, t.images[i].callback.cursor.value, i)
  {
  }

  lemma InvEndCallerScan(s: State, id: CallId)
    requires Inv(s) && CanScan(s, Caller(id))
    ensures var r := RecordScan(s, Caller(id)); ActorReady(r, Caller(id)) && Inv(Resume(r, Caller(id)))
    ensures var r := RecordScan(s, Caller(id)); Extends(r, Resume(r, Caller(id)))
  {
    InvRecordScan(s, Caller(id));
    JobFacts(s, Caller(id));
    CallerReady(s, id);
    InvNextAfterScan(RecordScan(s, Caller(id)), id);
  }

  lemma InvEndCallbackScan(s: State, i: nat)
    requires Inv(s) && CanScan(s, Callback(i))
    ensures var r := RecordScan(s, Callback(i)); ActorReady(r, Callback(i)) && Inv(Resume(r, Callback(i)))
    ensures var r := RecordScan(s, Callback(i)); Extends(r, Resume(r, Callback(i)))
  {
    InvRecordScan(s, Callback(i));
    JobFacts(s, Callback(i));
    CallbackReady(s, i);
    InvAdvance(RecordScan(s, Callback(i)), i);
  }

  lemma InvEndScan(s: State, actor: Actor)
    requires Inv(s) && CanScan(s, actor)
    ensures Inv(EndScan(s, actor))
    ensures Extends(s, EndScan(s, actor))
  {
    match actor
    case Caller(id) =>
      InvEndCallerScan(s, id);
      InvRecordScan(s, actor);
      ExtendsTransitive(s, RecordScan(s, actor), EndScan(s, actor));
    case Callback(i) =>
      InvEndCallbackScan(s, i);
      InvRecordScan(s, actor);
      ExtendsTransitive(s, RecordScan(s, actor), EndScan(s, actor));
  }

  /** Every step of every actor keeps the invariant and only adds to the registry. */
  lemma InvStep(s: State, step: Step)
    requires Inv(s) && Enabled(s, step)
    ensures Inv(Execute(s, step)) && Extends(s, Execute(s, step))
  {
    hide Inv, Extends;
    match step
    case Begin(id, source, rewrite, filter) => InvBegin(s, id, source, rewrite, filter);
    case Allocate(id, succeeds) => InvAllocate(s, id, succeeds);
    case LoadHead(id) => InvReadHead(s, id);
    case LinkNode(id) => InvSetNext(s, id);
    case Exchange(id, spurious) => InvExchange(s, id, spurious);
    case EnterOnce(id) => InvReachOnce(s, id);
    case ScheduleLoaded(id, image) => InvSchedule(s, id, image);
    case InstallCallback(id) => InvInOnce(s, Execute(s, step), id);
    case LeaveOnce(id) => InvInOnce(s, Execute(s, step), id);
    case CountImages(id) => InvReadCount(s, id);
    case Enumerate(id) => InvNextImage(s, id);
    case LoadImage(header, original) => InvAddImage(s, header, original);
    case StartCallback(image) => InvTakeSnapshot(s, image);
    case WalkOn(image) => InvNextEntry(s, image);
    case ReadSlot(actor) => InvInspect(s, actor);
    case StoreSlot(actor, succeeds) => InvOverwrite(s, actor, succeeds);
    case FinishScan(actor) => InvEndScan(s, actor);
  }
}
