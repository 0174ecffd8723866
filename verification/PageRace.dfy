/**
 Protected pointer stores of several threads to slots on one page. Each thread queries the page's
 protection, makes it writable, stores, and puts back what it read; every request is granted. What one
 thread puts back is not what another has come to rely on.
 */
module PageRace {
  import opened Memory
  import opened Runs

  /** Where a thread's store stands, and the protection it read and is going to put back. */
  datatype Stage = Idle | Queried(saved: Protection) | Opened(saved: Protection) | Stored(saved: Protection)

  /** The page and the threads. A gated page lets a store through, because each thread opens its own window. */
  datatype Shared = Shared(gated: bool, page: Protection, stages: map<nat, Stage>, alive: bool)

  const TEMPORARY := Installed(READ_WRITE_COPY)

  /** The next action of one thread. A store to a page that does not permit it kills the process. */
  function Act(s: Shared, t: nat): Shared {
    if !s.alive || t !in s.stages then s
    else
      match s.stages[t]
      case Idle => s.(stages := s.stages[t := Queried(s.page)])
      case Queried(saved) => s.(page := TEMPORARY, stages := s.stages[t := Opened(saved)])
      case Opened(saved) =>
        if s.gated || s.page.write then s.(stages := s.stages[t := Stored(saved)]) else s.(alive := false)
      case Stored(saved) => s.(page := Installed(saved), stages := s.stages[t := Idle])
  }

  predicate AtRest(s: Shared) {
    forall t | t in s.stages :: s.stages[t].Idle?
  }

  // ---- stores that do not overlap ----

  /** A thread begins only while no other is between its query and its restoration. */
  predicate ActsAlone(s: Shared, t: nat, next: Shared) {
    next == Act(s, t) && (t in s.stages && s.stages[t].Idle? ==> AtRest(s))
  }

  /** At most one thread is under way, and it is going to put the page's own protection back. */
  ghost predicate OneAtATime(s: Shared, own: Protection) {
    && s.alive && (AtRest(s) ==> s.page == own)
    && (forall t, u | t in s.stages && u in s.stages && !s.stages[t].Idle? && !s.stages[u].Idle? :: t == u)
    && (forall t | t in s.stages && !s.stages[t].Idle? ::
          s.stages[t].saved == own && s.page == if s.stages[t].Queried? then own else TEMPORARY)
  }

  lemma AloneStep(s: Shared, t: nat, next: Shared, own: Protection)
    requires OneAtATime(s, own) && !own.copy && ActsAlone(s, t, next)
    ensures OneAtATime(next, own)
  {
    if t in s.stages { assert next.stages[t] != s.stages[t]; }
  }

  /**
   If stores do not overlap, any number of threads with any number of stores fault nowhere and leave the
   page as it was.
   */
  lemma AloneIsSafe(start: Shared, s: Shared)
    requires start.alive && AtRest(start) && !start.page.copy && ReachableBy(start, ActsAlone, s)
    ensures s.alive && (AtRest(s) ==> s.page == start.page)
  {
    var kept := (x: Shared) => OneAtATime(x, start.page);
    forall x, t, y | kept(x) && ActsAlone(x, t, y) ensures kept(y) { AloneStep(x, t, y, start.page); }
    KeptByAll(start, ActsAlone, kept, s);
  }

  // ---- two stores, in any order ----

  /** When one thread takes its four actions. */
  datatype Times = Times(query: nat, open: nat, store: nat, restore: nat)

  predicate Follows(schedule: seq<nat>, t: nat, at: Times) {
    && at.query < at.open < at.store < at.restore < |schedule|
    && schedule[at.query] == t && schedule[at.open] == t && schedule[at.store] == t && schedule[at.restore] == t
    && forall k | 0 <= k < |schedule| && schedule[k] == t :: k in {at.query, at.open, at.store, at.restore}
  }

  /** Threads 0 and 1 make one store each. */
  predicate TwoStores(schedule: seq<nat>, a: Times, b: Times) {
    (forall k | 0 <= k < |schedule| :: schedule[k] < 2) && Follows(schedule, 0, a) && Follows(schedule, 1, b)
  }

  function Outset(gated: bool, own: Protection): Shared {
    Shared(gated, own, map[0 := Idle, 1 := Idle], true)
  }

  function After(gated: bool, own: Protection, schedule: seq<nat>): Shared {
    if schedule == [] then Outset(gated, own)
    else Act(After(gated, own, schedule[..|schedule| - 1]), schedule[|schedule| - 1])
  }

  /** The first thread reads the protection while the second has the page open. */
  predicate SeesOpen(a: Times, b: Times) {
    b.open < a.query < b.restore
  }

  function Saved(own: Protection, a: Times, b: Times): Protection {
    if SeesOpen(a, b) then TEMPORARY else own
  }

  /** The second thread closes the page between the first one's opening it and its store. */
  predicate ClosedBefore(a: Times, b: Times) {
    a.open < b.restore < a.store && !SeesOpen(b, a)
  }

  /** Whoever restores last puts the page's own protection back. */
  predicate LastPutsBack(a: Times, b: Times) {
    if a.restore < b.restore then !SeesOpen(b, a) else !SeesOpen(a, b)
  }

  /** Two stores do no harm to each other, by the order of their actions alone. */
  predicate Harmless(gated: bool, own: Protection, a: Times, b: Times) {
    || own == TEMPORARY
    || (LastPutsBack(a, b) && (gated || own.write || (!ClosedBefore(a, b) && !ClosedBefore(b, a))))
  }

  predicate Overlap(a: Times, b: Times) {
    a.query < b.restore && b.query < a.restore
  }

  function StageAt(own: Protection, a: Times, b: Times, n: nat): Stage {
    if n <= a.query || n > a.restore then Idle
    else if n <= a.open then Queried(Saved(own, a, b))
    else if n <= a.store then Opened(Saved(own, a, b))
    else Stored(Saved(own, a, b))
  }

  /** What the page holds after `n` actions: what the latest of the openings and restorations so far put there. */
  function PageAt(own: Protection, a: Times, b: Times, n: nat): Protection {
    var lastA := if a.restore < n then a.restore + 1 else if a.open < n then a.open + 1 else 0;
    var lastB := if b.restore < n then b.restore + 1 else if b.open < n then b.open + 1 else 0;
    if lastA == 0 && lastB == 0 then own
    else if lastA > lastB then (if a.restore < n then Saved(own, a, b) else TEMPORARY)
    else if b.restore < n then Saved(own, b, a) else TEMPORARY
  }

  predicate FaultedBy(gated: bool, own: Protection, a: Times, b: Times, n: nat) {
    !gated && !own.write && ((a.store < n && ClosedBefore(a, b)) || (b.store < n && ClosedBefore(b, a)))
  }

  function StateAt(gated: bool, own: Protection, a: Times, b: Times, n: nat): Shared {
    Shared(gated, PageAt(own, a, b, n), map[0 := StageAt(own, a, b, n), 1 := StageAt(own, b, a, n)], true)
  }

  lemma {:induction false} StatesAre(gated: bool, own: Protection, schedule: seq<nat>, a: Times, b: Times, n: nat)
    requires TwoStores(schedule, a, b) && !own.copy && n <= |schedule|
    ensures var s := After(gated, own, schedule[..n]);
            if FaultedBy(gated, own, a, b, n) then !s.alive else s == StateAt(gated, own, a, b, n)
    decreases n
  {
    if n > 0 {
      StatesAre(gated, own, schedule, a, b, n - 1);
      assert schedule[..n][..n - 1] == schedule[..n - 1];
      if !FaultedBy(gated, own, a, b, n - 1) { NextState(gated, own, schedule, a, b, n - 1); }
    }
  }

  /** The two threads take turns. */
  predicate TakeTurns(a: Times, b: Times) {
    && a.query < a.open < a.store < a.restore && b.query < b.open < b.store < b.restore
    && {a.query, a.open, a.store, a.restore} !! {b.query, b.open, b.store, b.restore}
  }

  /** The first thread's action puts the page where it should be next. */
  lemma PageMoves(own: Protection, a: Times, b: Times, n: nat)
    requires TakeTurns(a, b) && n in {a.query, a.open, a.store, a.restore}
    ensures PageAt(own, a, b, n + 1)
            == if n == a.open then TEMPORARY else if n == a.restore then Saved(own, a, b) else PageAt(own, a, b, n)
    ensures n == a.query ==> PageAt(own, a, b, n) == Saved(own, a, b)
    ensures n == a.store ==> PageAt(own, a, b, n) == if ClosedBefore(a, b) then own else TEMPORARY
  {
    assert n !in {b.query, b.open, b.store, b.restore};
  }

  lemma SamePage(own: Protection, a: Times, b: Times, n: nat)
    requires TakeTurns(a, b)
    ensures PageAt(own, a, b, n) == PageAt(own, b, a, n)
  {
    assert a.restore in {a.query, a.open, a.store, a.restore} && a.open in {a.query, a.open, a.store, a.restore};
  }

  lemma StageMoves(own: Protection, a: Times, b: Times, n: nat)
    requires TakeTurns(a, b) && n in {a.query, a.open, a.store, a.restore}
    ensures var saved := Saved(own, a, b);
            if n == a.query then StageAt(own, a, b, n).Idle? && StageAt(own, a, b, n + 1) == Queried(saved)
            else if n == a.open then StageAt(own, a, b, n) == Queried(saved)
                && StageAt(own, a, b, n + 1) == Opened(saved)
            else if n == a.store then StageAt(own, a, b, n) == Opened(saved)
                && StageAt(own, a, b, n + 1) == Stored(saved)
            else StageAt(own, a, b, n) == Stored(saved) && StageAt(own, a, b, n + 1).Idle?
    ensures StageAt(own, b, a, n + 1) == StageAt(own, b, a, n)
  {
    assert n !in {b.query, b.open, b.store, b.restore};
  }

  lemma FaultMoves(gated: bool, own: Protection, a: Times, b: Times, n: nat)
    requires TakeTurns(a, b) && n in {a.query, a.open, a.store, a.restore} && !FaultedBy(gated, own, a, b, n)
    ensures FaultedBy(gated, own, a, b, n + 1) <==> n == a.store && !gated && !own.write && ClosedBefore(a, b)
    ensures FaultedBy(gated, own, a, b, n + 1) == FaultedBy(gated, own, b, a, n + 1)
  {
    assert n !in {b.query, b.open, b.store, b.restore};
  }

  lemma NextOfFirst(gated: bool, own: Protection, a: Times, b: Times, n: nat)
    requires TakeTurns(a, b) && !own.copy && n in {a.query, a.open, a.store, a.restore}
             && !FaultedBy(gated, own, a, b, n)
    ensures var s := Act(StateAt(gated, own, a, b, n), 0);
            if FaultedBy(gated, own, a, b, n + 1) then !s.alive else s == StateAt(gated, own, a, b, n + 1)
  {
    hide PageAt, StageAt, FaultedBy, ClosedBefore, SeesOpen;
    PageMoves(own, a, b, n);
    StageMoves(own, a, b, n);
    FaultMoves(gated, own, a, b, n);
  }

  lemma NextOfSecond(gated: bool, own: Protection, a: Times, b: Times, n: nat)
    requires TakeTurns(a, b) && !own.copy && n in {b.query, b.open, b.store, b.restore}
             && !FaultedBy(gated, own, a, b, n)
    ensures var s := Act(StateAt(gated, own, a, b, n), 1);
            if FaultedBy(gated, own, a, b, n + 1) then !s.alive else s == StateAt(gated, own, a, b, n + 1)
  {
    hide PageAt, StageAt, ClosedBefore, SeesOpen;
    assert TakeTurns(b, a);
    assert !FaultedBy(gated, own, b, a, n);
    PageMoves(own, b, a, n);
    StageMoves(own, b, a, n);
    FaultMoves(gated, own, b, a, n);
    SamePage(own, a, b, n);
    SamePage(own, a, b, n + 1);
  }

  lemma NextState(gated: bool, own: Protection, schedule: seq<nat>, a: Times, b: Times, n: nat)
    requires TwoStores(schedule, a, b) && !own.copy && n < |schedule| && !FaultedBy(gated, own, a, b, n)
    ensures var s := Act(StateAt(gated, own, a, b, n), schedule[n]);
            if FaultedBy(gated, own, a, b, n + 1) then !s.alive else s == StateAt(gated, own, a, b, n + 1)
  {
    hide Act, StateAt, FaultedBy;
    assert TakeTurns(a, b);
    if schedule[n] == 0 { NextOfFirst(gated, own, a, b, n); } else { NextOfSecond(gated, own, a, b, n); }
  }

  /** Both stores succeed and leave the page as it was, exactly if their actions come in a harmless order. */
  lemma TwoStoresExactly(gated: bool, own: Protection, schedule: seq<nat>, a: Times, b: Times)
    requires TwoStores(schedule, a, b) && !own.copy
    ensures var s := After(gated, own, schedule);
            (s.alive && AtRest(s) && s.page == own) <==> Harmless(gated, own, a, b)
  {
    StatesAre(gated, own, schedule, a, b, |schedule|);
    assert schedule[..|schedule|] == schedule;
  }

  /** Stores that do not overlap are harmless. */
  lemma ApartIsHarmless(gated: bool, own: Protection, schedule: seq<nat>, a: Times, b: Times)
    requires TwoStores(schedule, a, b)
    ensures !Overlap(a, b) ==> Harmless(gated, own, a, b)
  {
  }

  const READ_ONLY := Protection(true, false, false, false)

  /** The second thread reads the protection that the first put there for a moment, and leaves it there for good. */
  lemma LeftWritable(gated: bool)
    ensures var s := After(gated, READ_ONLY, [0, 0, 1, 0, 0, 1, 1, 1]); s.alive && AtRest(s) && s.page == TEMPORARY
  {
    StatesAre(gated, READ_ONLY, [0, 0, 1, 0, 0, 1, 1, 1], Times(0, 1, 3, 4), Times(2, 5, 6, 7), 8);
    assert [0, 0, 1, 0, 0, 1, 1, 1][..8] == [0, 0, 1, 0, 0, 1, 1, 1];
  }

  /** The first thread closes the page before the second has stored. */
  lemma ClosedTooSoon()
    ensures !After(false, READ_ONLY, [0, 1, 0, 1, 0, 0, 1, 1]).alive
  {
    StatesAre(false, READ_ONLY, [0, 1, 0, 1, 0, 0, 1, 1], Times(0, 2, 4, 5), Times(1, 3, 6, 7), 8);
    assert [0, 1, 0, 1, 0, 0, 1, 1][..8] == [0, 1, 0, 1, 0, 0, 1, 1];
  }
}
