/**
 Rebinding the symbol-pointer slots of one image, as in RorkHookRebind.c. The image is unchanged
 but for its slots, and where dyld keeps a section's data is a function of the section's names.
 */
module Rebind {
  import opened Bits
  import opened LoadCommands
  import opened Memory
  import opened Pages
  import opened Pointers
  import opened SymbolTables
  import opened Words
  import opened Wrappers

  const SECTION_SIZE := 80
  const NON_LAZY_SLOTS := 6
  const LAZY_SLOTS := 7
  /** `__auth_got`. */
  const AUTH_GOT: seq<byte> := [0x5f, 0x5f, 0x61, 0x75, 0x74, 0x68, 0x5f, 0x67, 0x6f, 0x74]

  // ---- one slot ----

  /** What to look for, what to put there, and how authenticated slots are signed. */
  datatype Job = Job(replaceeRaw: u64, replacement: u64, sign: Signer)

  /** The value for a matching slot: raw, or signed for the slot's own address. */
  function FinalValue(job: Job, authenticated: bool, slot: u64): u64 {
    if authenticated then job.sign(Strip(job.replacement), slot) else Strip(job.replacement)
  }

  predicate Matches(job: Job, value: u64) {
    value != 0 && Strip(value) == job.replaceeRaw
  }

  /** What rebinding makes of a slot that holds `value`. */
  function Rewritten(job: Job, authenticated: bool, slot: u64, value: u64): u64 {
    if Matches(job, value) then FinalValue(job, authenticated, slot) else value
  }

  function SlotValue(bytes: map<int, byte>, slot: int): u64
    requires Mapped(bytes, slot, 8)
  {
    U64At(Load(bytes, slot, 8), 0)
  }

  lemma SlotStored(bytes: map<int, byte>, slot: u64, value: u64)
    requires Mapped(bytes, slot, 8)
    ensures var after := WriteAt(bytes, slot, U64Bytes(value));
            Mapped(after, slot, 8) && SlotValue(after, slot) == value
  {
    LoadStored(bytes, slot, U64Bytes(value));
  }

  lemma SlotUntouched(bytes: map<int, byte>, after: map<int, byte>, slot: int)
    requires Mapped(bytes, slot, 8) && after.Keys == bytes.Keys
    requires forall a | slot <= a < slot + 8 && a in bytes :: after[a] == bytes[a]
    ensures Mapped(after, slot, 8) && SlotValue(after, slot) == SlotValue(bytes, slot)
  {
    assert Load(after, slot, 8) == Load(bytes, slot, 8);
  }

  // ---- slot ranges ----

  /** The slots of one section. */
  datatype SlotRange = SlotRange(base: u64, count: nat, authenticated: bool)
  {
    function Slot(k: nat): nat {
      base + 8 * k
    }

    predicate Covers(a: int) {
      base <= a < base + 8 * count
    }
  }

  /** Slot `k` was rewritten, or, unless all stores had to succeed, left alone. */
  ghost predicate SlotDone(before: map<int, byte>, after: map<int, byte>, r: SlotRange, k: nat, job: Job, full: bool) {
    Mapped(before, r.Slot(k), 8) && Mapped(after, r.Slot(k), 8) && r.Slot(k) < TWO_64 ==>
      || SlotValue(after, r.Slot(k)) == Rewritten(job, r.authenticated, r.Slot(k), SlotValue(before, r.Slot(k)))
      || (!full && SlotValue(after, r.Slot(k)) == SlotValue(before, r.Slot(k)))
  }

  ghost predicate Untouched(before: map<int, byte>, after: map<int, byte>, a: int) {
    a in before ==> a in after && after[a] == before[a]
  }

  /** The first `n` slots of the range are done and nothing else has changed. */
  ghost predicate Progress(before: map<int, byte>, after: map<int, byte>, r: SlotRange, n: nat, job: Job, full: bool) {
    && after.Keys == before.Keys
    && (forall a: int | !(r.base <= a < r.base + 8 * n) :: Untouched(before, after, a))
    && (forall k | 0 <= k < n :: SlotDone(before, after, r, k, job, full))
  }

  /**
   Slot `k` was stored to, or left alone: because it does not match, or, unless it `must` succeed, because
   the store failed.
   */
  ghost predicate SlotOutcome(before: map<int, byte>, after: map<int, byte>, r: SlotRange, k: nat, job: Job,
                              must: bool) {
    r.Slot(k) < TWO_64 && Mapped(before, r.Slot(k), 8) ==>
      var value := SlotValue(before, r.Slot(k));
      || after == WriteAt(before, r.Slot(k), U64Bytes(Rewritten(job, r.authenticated, r.Slot(k), value)))
      || (after == before && (must ==> Rewritten(job, r.authenticated, r.Slot(k), value) == value))
  }

  /** How many of the first `n` slots should have been rewritten and were not. */
  ghost function Missed(before: map<int, byte>, after: map<int, byte>, r: SlotRange, n: nat, job: Job): nat {
    if n == 0 then 0
    else Missed(before, after, r, n - 1, job) + if SlotDone(before, after, r, n - 1, job, true) then 0 else 1
  }

  lemma {:induction false} NoneMissed(before: map<int, byte>, after: map<int, byte>, r: SlotRange, n: nat, job: Job)
    ensures Missed(before, after, r, n, job) == 0 <==> forall k | 0 <= k < n :: SlotDone(before, after, r, k, job, true)
  {
    hide SlotDone;
    if n > 0 { NoneMissed(before, after, r, n - 1, job); }
  }

  /** What happens behind the first `n` slots is not missed by them. */
  lemma {:induction false} StillMissed(before: map<int, byte>, mid: map<int, byte>, after: map<int, byte>, r: SlotRange,
                                       n: nat, job: Job)
    requires mid.Keys == before.Keys && after.Keys == mid.Keys
    requires forall a | a in mid && a < r.Slot(n) :: after[a] == mid[a]
    ensures Missed(before, after, r, n, job) == Missed(before, mid, r, n, job)
  {
    hide SlotValue, Rewritten;
    if n > 0 {
      StillMissed(before, mid, after, r, n - 1, job);
      if Mapped(before, r.Slot(n - 1), 8) { SlotUntouched(mid, after, r.Slot(n - 1)); }
    }
  }

  lemma OutcomeWeakens(before: map<int, byte>, after: map<int, byte>, r: SlotRange, k: nat, job: Job, must: bool)
    requires SlotOutcome(before, after, r, k, job, must)
    ensures SlotOutcome(before, after, r, k, job, false)
  {
  }

  /** The next slot was skipped or stored to. */
  lemma NextSlot(before: map<int, byte>, mid: map<int, byte>, after: map<int, byte>, r: SlotRange, n: nat, job: Job,
                 full: bool)
    requires Progress(before, mid, r, n, job, full) && r.Slot(n) < TWO_64 && Mapped(mid, r.Slot(n), 8)
    requires SlotOutcome(mid, after, r, n, job, full)
    ensures Progress(before, after, r, n + 1, job, full)
  {
    hide SlotValue, U64Bytes, Load, Rewritten, WriteAt;
    var slot := r.Slot(n);
    var value := SlotValue(mid, slot);
    assert Mapped(before, slot, 8);
    forall a: int | slot <= a < slot + 8 && a in before ensures mid[a] == before[a] {
      assert Untouched(before, mid, a);
    }
    SlotUntouched(before, mid, slot);
    SlotStored(mid, slot, Rewritten(job, r.authenticated, slot, value));
    OnlySlot(mid, after, slot, Rewritten(job, r.authenticated, slot, value));
    forall a: int | !(r.base <= a < slot + 8) ensures Untouched(before, after, a) {
      assert Untouched(before, mid, a);
    }
    forall k | 0 <= k < n ensures SlotDone(before, after, r, k, job, full) {
      assert SlotDone(before, mid, r, k, job, full);
      if Mapped(before, r.Slot(k), 8) { SlotUntouched(mid, after, r.Slot(k)); }
    }
  }

  /** A slot that `must` succeed is not missed, and no other slot is affected. */
  lemma OneMissed(before: map<int, byte>, mid: map<int, byte>, after: map<int, byte>, r: SlotRange, n: nat, job: Job,
                  must: bool)
    requires Progress(before, mid, r, n, job, false) && r.Slot(n) < TWO_64 && Mapped(mid, r.Slot(n), 8)
    requires SlotOutcome(mid, after, r, n, job, must)
    ensures Missed(before, after, r, n + 1, job) <= Missed(before, mid, r, n, job) + if must then 0 else 1
  {
    hide SlotValue, U64Bytes, Load, Rewritten, WriteAt;
    var slot := r.Slot(n);
    var value := SlotValue(mid, slot);
    assert Mapped(before, slot, 8);
    forall a: int | slot <= a < slot + 8 && a in before ensures mid[a] == before[a] {
      assert Untouched(before, mid, a);
    }
    SlotUntouched(before, mid, slot);
    SlotStored(mid, slot, Rewritten(job, r.authenticated, slot, value));
    OnlySlot(mid, after, slot, Rewritten(job, r.authenticated, slot, value));
    StillMissed(before, mid, after, r, n, job);
  }

  lemma OnlySlot(mid: map<int, byte>, after: map<int, byte>, slot: int, value: u64)
    requires after == mid || after == WriteAt(mid, slot, U64Bytes(value))
    ensures after.Keys == mid.Keys
    ensures forall a | a in mid && !(slot <= a < slot + 8) :: after[a] == mid[a]
  {
  }

  // ---- the section loop ----

  /** What it takes for every store to succeed: a cooperative environment and a readable range. */
  ghost predicate Cooperative(m: Machine, r: SlotRange)
    reads m`pages
  {
    && m.pageSize >= 8 && IsPowerOfTwo(m.pageSize) && 0 !in m.pages && r.base > 0 && r.count > 0
    && r.base + 8 * r.count < TWO_64 && m.Readable(r.base) && m.Uniform(r.base, r.base + 8 * r.count - 1)
  }

  predicate ReadablePage(pages: PageMap, q: nat) {
    q in pages && pages[q].read
  }

  /** Every slot lies on readable pages, which is all that it takes to store to it. */
  ghost predicate AllStorable(pages: PageMap, pageSize: nat, r: SlotRange) {
    && pageSize >= 8 && IsPowerOfTwo(pageSize) && r.base + 8 * r.count < TWO_64
    && forall k: nat | k < r.count ::
         && PageOf(r.Slot(k), pageSize) > 0 && ReadablePage(pages, PageOf(r.Slot(k), pageSize))
         && ReadablePage(pages, PageOf(r.Slot(k) + 7, pageSize))
  }

  lemma CooperativeSlots(m: Machine, r: SlotRange)
    requires Cooperative(m, r)
    ensures AllStorable(m.pages, m.pageSize, r)
  {
    forall k: nat | k < r.count
      ensures PageOf(r.Slot(k), m.pageSize) > 0 && ReadablePage(m.pages, PageOf(r.Slot(k), m.pageSize))
      ensures ReadablePage(m.pages, PageOf(r.Slot(k) + 7, m.pageSize))
    {
      var slot := r.Slot(k);
      PageMonotone(r.base, slot, m.pageSize);
      PageMonotone(slot, slot + 7, m.pageSize);
      PageMonotone(slot + 7, r.base + 8 * r.count - 1, m.pageSize);
      assert PageOf(slot, m.pageSize) in m.pages && PageOf(slot + 7, m.pageSize) in m.pages;
    }
  }

  lemma SlotStorable(m: Machine, r: SlotRange, k: nat)
    requires AllStorable(m.pages, m.pageSize, r) && k < r.count
    ensures m.Storable(r.Slot(k), READ_WRITE_COPY)
  {
    AtMostTwo(m, r.Slot(k));
  }

  /** Slots stay storable, because what stores leave behind is readable. */
  lemma StayStorable(before: PageMap, after: PageMap, pageSize: nat, r: SlotRange, first: nat, last: nat)
    requires AllStorable(before, pageSize, r) && OnlyTouched(before, after, first, last, READ_WRITE_COPY)
    ensures AllStorable(after, pageSize, r)
  {
    hide PageOf, IsPowerOfTwo;
  }

  /** How often the environment has not cooperated. */
  ghost function Denials(m: Machine): nat
    reads m
  {
    |m.refusals| + m.unopened + m.shortAnswers
  }

  lemma AtMostTwo(m: Machine, slot: u64)
    ensures m.pageSize >= 8 ==> m.FirstPage(slot) <= m.LastPage(slot) <= m.FirstPage(slot) + 1
  {
    if m.pageSize >= 8 { NextPage(slot, m.pageSize); }
  }

  /** What a store does to the protections, whether it faults or not. */
  lemma StoreTouches(m: Machine, bytes: map<int, byte>, pages: PageMap, slot: u64, value: u64, did: Attempt, ok: bool,
                     refusals: int)
    requires Outcome(m.enforced, m.gated, bytes, m.bytes, pages, m.pages, slot, value, m.FirstPage(slot),
                     m.LastPage(slot), READ_WRITE_COPY, did, ok, m.alive, refusals)
    requires m.alive ==> Transaction(bytes, m.bytes, pages, m.pages, slot, value, m.FirstPage(slot), m.LastPage(slot),
                                     READ_WRITE_COPY, ok, did.Unrestored())
    requires m.pageSize >= 8
    ensures OnlyTouched(pages, m.pages, m.FirstPage(slot), m.LastPage(slot), READ_WRITE_COPY)
    ensures m.alive && refusals == 0 ==> m.pages == pages
  {
    hide Protected, PutBackEach, OnlyTouched, StoreFaults, WriteAt, PageOf;
    AtMostTwo(m, slot);
    ProtectedTouches(pages, m.FirstPage(slot), m.LastPage(slot), READ_WRITE_COPY);
    Untouching(pages, m.FirstPage(slot), m.LastPage(slot));
  }

  lemma Untouching(pages: PageMap, first: nat, last: nat)
    ensures OnlyTouched(pages, pages, first, last, READ_WRITE_COPY)
  {
  }

  /** What a store does to the bytes. */
  lemma StoreWrites(m: Machine, bytes: map<int, byte>, pages: PageMap, slot: u64, value: u64, did: Attempt, ok: bool,
                    refusals: int)
    requires Outcome(m.enforced, m.gated, bytes, m.bytes, pages, m.pages, slot, value, m.FirstPage(slot),
                     m.LastPage(slot), READ_WRITE_COPY, did, ok, m.alive, refusals)
    ensures m.bytes == bytes || m.bytes == WriteAt(bytes, slot, U64Bytes(value))
    ensures m.alive && ok ==> m.bytes == WriteAt(bytes, slot, U64Bytes(value))
  {
    hide Protected, PutBackEach, StoreFaults, WriteAt, PageOf;
  }

  /** Without TPRO a store may fail, but it does not fault. */
  lemma FaultsNeedTPRO(m: Machine, bytes: map<int, byte>, pages: PageMap, slot: u64, value: u64, did: Attempt, ok: bool,
                       refusals: int, wasOpen: bool, obeyed: bool)
    requires Outcome(m.enforced, m.gated, bytes, m.bytes, pages, m.pages, slot, value, m.FirstPage(slot),
                     m.LastPage(slot), READ_WRITE_COPY, did, ok, m.alive, refusals)
    requires Possible(did, m.enforced, wasOpen, m.configurationKnown, obeyed)
    ensures m.alive || m.enforced
  {
    hide Effect, Protected, PageOf;
  }

  /**
   Rewrites one slot if it resolves to the replacee; a store that fails is passed over, and only TPRO can
   make one fault.
   */
  method RebindSlot(m: Machine, r: SlotRange, k: nat, job: Job)
    requires m.Valid() && m.alive && k < r.count && r.base > 0 && r.Slot(k) + 8 <= TWO_64
             && Mapped(m.bytes, r.Slot(k), 8)
    modifies m
    ensures m.Valid() && m.HistoryGrows() && (m.alive ==> m.tproOpen == old(m.tproOpen)) && (m.alive || m.enforced)
    ensures SlotOutcome(old(m.bytes), m.bytes, r, k, job, m.Cooperated() && old(AllStorable(m.pages, m.pageSize, r)))
    ensures m.Cooperated() ==> m.alive
    ensures m.pageSize >= 8 ==>
              && OnlyTouched(old(m.pages), m.pages, m.FirstPage(r.Slot(k)), m.LastPage(r.Slot(k)), READ_WRITE_COPY)
              && (m.alive && |m.refusals| == |old(m.refusals)| ==> m.pages == old(m.pages))
  {
    hide WriteAt, U64Bytes, SlotValue, Strip, PageOf, Outcome, Transaction, OnlyTouched, Possible;
    var slot := r.Slot(k);
    Untouching(m.pages, m.FirstPage(slot), m.LastPage(slot));
    var current := SlotValue(m.bytes, slot);
    if current == 0 { return; }
    var resolved := Strip(current);
    if resolved != job.replaceeRaw { return; }
    var finalValue := FinalValue(job, r.authenticated, slot);
    if AllStorable(m.pages, m.pageSize, r) { SlotStorable(m, r, k); }
    ghost var did;
    var ok;
    ok, did := m.StoreProtectedPointer(slot, finalValue, READ_WRITE_COPY);
    if did.Some? {
      FaultsNeedTPRO(m, old(m.bytes), old(m.pages), slot, finalValue, did.value, ok, |m.refusals| - |old(m.refusals)|,
                     old(m.tproOpen), m.unopened == old(m.unopened));
      StoreWrites(m, old(m.bytes), old(m.pages), slot, finalValue, did.value, ok, |m.refusals| - |old(m.refusals)|);
      if m.pageSize >= 8 {
        StoreTouches(m, old(m.bytes), old(m.pages), slot, finalValue, did.value, ok, |m.refusals| - |old(m.refusals)|);
      }
    }
  }

  lemma LargePages(m: Machine, r: SlotRange)
    requires Cooperative(m, r)
    ensures m.pageSize >= 8
  {
  }

  // ---- the frame on protections ----

  /** Some slot of the ranges lies on the page. */
  ghost predicate OnPage(ranges: seq<SlotRange>, pageSize: nat, q: nat) {
    exists r, k: nat :: r in ranges && k < r.count && TouchesPage(r, k, pageSize, q)
  }

  predicate TouchesPage(r: SlotRange, k: nat, pageSize: nat, q: nat) {
    q == PageOf(r.Slot(k), pageSize) || q == PageOf(r.Slot(k) + 7, pageSize)
  }

  /** Every page is as before, or was left with the temporary protection and holds a slot of the ranges. */
  ghost predicate PageFrame(before: PageMap, after: PageMap, pageSize: nat, ranges: seq<SlotRange>) {
    pageSize >= 8 ==>
      && after.Keys == before.Keys
      && forall q | q in before ::
           after[q] == before[q] || (after[q] == Installed(READ_WRITE_COPY) && OnPage(ranges, pageSize, q))
  }

  lemma FrameSame(pages: PageMap, pageSize: nat, ranges: seq<SlotRange>)
    ensures PageFrame(pages, pages, pageSize, ranges)
  {
  }

  lemma FrameCompose(before: PageMap, mid: PageMap, after: PageMap, pageSize: nat, first: seq<SlotRange>,
                     second: seq<SlotRange>)
    requires PageFrame(before, mid, pageSize, first) && PageFrame(mid, after, pageSize, second)
    ensures PageFrame(before, after, pageSize, first + second)
  {
    hide TouchesPage;
    var all := first + second;
    forall q | OnPage(first, pageSize, q) ensures OnPage(all, pageSize, q) {
      var r, k: nat :| r in first && k < r.count && TouchesPage(r, k, pageSize, q);
      assert r in all;
    }
    forall q | OnPage(second, pageSize, q) ensures OnPage(all, pageSize, q) {
      var r, k: nat :| r in second && k < r.count && TouchesPage(r, k, pageSize, q);
      assert r in all;
    }
  }

  /** One more slot of a range. */
  lemma FrameStep(before: PageMap, mid: PageMap, after: PageMap, pageSize: nat, r: SlotRange, n: nat)
    requires PageFrame(before, mid, pageSize, [r.(count := n)])
    requires pageSize >= 8 ==>
               OnlyTouched(mid, after, PageOf(r.Slot(n), pageSize), PageOf(r.Slot(n) + 7, pageSize), READ_WRITE_COPY)
    ensures PageFrame(before, after, pageSize, [r.(count := n + 1)])
  {
    hide PageOf;
    var grown := r.(count := n + 1);
    forall q | OnPage([r.(count := n)], pageSize, q) ensures OnPage([grown], pageSize, q) {
      var p, k: nat :| p in [r.(count := n)] && k < p.count && TouchesPage(p, k, pageSize, q);
      assert grown in [grown] && TouchesPage(grown, k, pageSize, q);
    }
    forall q | q == PageOf(r.Slot(n), pageSize) || q == PageOf(r.Slot(n) + 7, pageSize)
      ensures OnPage([grown], pageSize, q) {
      assert grown in [grown] && TouchesPage(grown, n, pageSize, q);
    }
  }

  /** What one turn of the scan adds. */
  lemma NextTurn(before: map<int, byte>, mid: map<int, byte>, after: map<int, byte>, pages: PageMap, midPages: PageMap,
                 afterPages: PageMap, pageSize: nat, r: SlotRange, n: nat, job: Job, must: bool)
    requires r.Slot(n) < TWO_64 && Mapped(mid, r.Slot(n), 8) && SlotOutcome(mid, after, r, n, job, must)
    requires Progress(before, mid, r, n, job, false) && PageFrame(pages, midPages, pageSize, [r.(count := n)])
    requires pageSize >= 8 ==>
               OnlyTouched(midPages, afterPages, PageOf(r.Slot(n), pageSize), PageOf(r.Slot(n) + 7, pageSize),
                           READ_WRITE_COPY)
    ensures after.Keys == before.Keys && Progress(before, after, r, n + 1, job, false)
    ensures Missed(before, after, r, n + 1, job) <= Missed(before, mid, r, n, job) + if must then 0 else 1
    ensures PageFrame(pages, afterPages, pageSize, [r.(count := n + 1)])
  {
    hide SlotOutcome, Progress, PageFrame, OnlyTouched, PageOf, Missed;
    OutcomeWeakens(mid, after, r, n, job, must);
    NextSlot(before, mid, after, r, n, job, false);
    OneMissed(before, mid, after, r, n, job, must);
    FrameStep(pages, midPages, afterPages, pageSize, r, n);
    SameKeys(before, after, r, n + 1, job);
  }

  /** A scan that missed nothing is complete. */
  lemma Complete(before: map<int, byte>, after: map<int, byte>, r: SlotRange, job: Job)
    requires Progress(before, after, r, r.count, job, false) && Missed(before, after, r, r.count, job) == 0
    ensures Progress(before, after, r, r.count, job, true)
  {
    hide SlotDone;
    NoneMissed(before, after, r, r.count, job);
  }

  /**
   Scans a readable slot range from end to end, or until a store faults. A store that fails does not end the
   scan: each slot that is missed stands for a denial of its own.
   */
  method RebindRange(m: Machine, r: SlotRange, job: Job)
    requires m.Valid() && m.alive && r.base > 0 && r.base + 8 * r.count < TWO_64 && Mapped(m.bytes, r.base, 8 * r.count)
    modifies m
    ensures m.Valid() && m.HistoryGrows() && (m.alive ==> m.tproOpen == old(m.tproOpen)) && (m.alive || m.enforced)
    ensures Progress(old(m.bytes), m.bytes, r, r.count, job, false)
    ensures PageFrame(old(m.pages), m.pages, m.pageSize, [r])
    ensures m.pageSize >= 8 && m.alive && |m.refusals| == |old(m.refusals)| ==> m.pages == old(m.pages)
    ensures m.alive && old(Cooperative(m, r)) ==>
              Missed(old(m.bytes), m.bytes, r, r.count, job) <= Denials(m) - old(Denials(m))
    ensures m.Cooperated() && old(Cooperative(m, r)) ==>
              m.alive && Progress(old(m.bytes), m.bytes, r, r.count, job, true)
  {
    hide SlotOutcome, Progress, Cooperative, SlotValue, WriteAt, PageFrame, OnlyTouched, PageOf, U64Bytes, Missed,
         AllStorable;
    ghost var before, pages := m.bytes, m.pages;
    ghost var good := Cooperative(m, r);
    if good {
      LargePages(m, r);
      CooperativeSlots(m, r);
    }
    NothingYet(before, r, job);
    FrameSame(pages, m.pageSize, [r.(count := 0)]);
    var index := 0;
    while index < r.count
      invariant 0 <= index <= r.count
      invariant m.Valid() && m.HistoryGrows() && (m.alive ==> m.tproOpen == old(m.tproOpen)) && (m.alive || m.enforced)
      invariant m.bytes.Keys == before.Keys && Progress(before, m.bytes, r, index, job, false)
      invariant PageFrame(pages, m.pages, m.pageSize, [r.(count := index)])
      invariant m.pageSize >= 8 && m.alive && |m.refusals| == |old(m.refusals)| ==> m.pages == pages
      invariant m.Cooperated() ==> m.alive
      invariant good && m.alive ==> AllStorable(m.pages, m.pageSize, r)
      invariant good && m.alive ==> Missed(before, m.bytes, r, index, job) <= Denials(m) - old(Denials(m))
    {
      ghost var mid, midPages := m.bytes, m.pages;
      ghost var storable := AllStorable(m.pages, m.pageSize, r);
      ghost var must := false;
      Passed(mid, r, index, job);
      Untouching(midPages, m.FirstPage(r.Slot(index)), m.LastPage(r.Slot(index)));
      if m.alive {
        label Here:
        RebindSlot(m, r, index, job);
        must := m.Cooperated@Here() && storable;
        if good {
          StayStorable(midPages, m.pages, m.pageSize, r, m.FirstPage(r.Slot(index)), m.LastPage(r.Slot(index)));
        }
      }
      NextTurn(before, mid, m.bytes, pages, midPages, m.pages, m.pageSize, r, index, job, must);
      index := index + 1;
    }
    assert r.(count := index) == r;
    if m.Cooperated() && good { Complete(before, m.bytes, r, job); }
  }

  /** A slot that is passed over is an outcome unless the store had to succeed. */
  lemma Passed(bytes: map<int, byte>, r: SlotRange, k: nat, job: Job)
    ensures SlotOutcome(bytes, bytes, r, k, job, false)
  {
  }

  lemma NothingYet(before: map<int, byte>, r: SlotRange, job: Job)
    ensures Progress(before, before, r, 0, job, false) && Missed(before, before, r, 0, job) == 0
  {
  }

  lemma SameKeys(before: map<int, byte>, after: map<int, byte>, r: SlotRange, n: nat, job: Job)
    requires Progress(before, after, r, n, job, false)
    ensures after.Keys == before.Keys
  {
  }

  // ---- several ranges ----

  ghost predicate Covered(ranges: seq<SlotRange>, a: int) {
    exists r | r in ranges :: r.Covers(a)
  }

  ghost predicate Apart(r: SlotRange, q: SlotRange) {
    r.base + 8 * r.count <= q.base || q.base + 8 * q.count <= r.base
  }

  ghost predicate Disjoint(ranges: seq<SlotRange>) {
    forall i, j | 0 <= i < j < |ranges| :: Apart(ranges[i], ranges[j])
  }

  ghost predicate AllDone(before: map<int, byte>, after: map<int, byte>, r: SlotRange, job: Job, full: bool) {
    forall k | 0 <= k < r.count :: SlotDone(before, after, r, k, job, full)
  }

  /**
   Nothing outside the ranges has changed, and inside them every slot was rewritten or, short of `full`,
   left alone.
   */
  ghost predicate Rebound(before: map<int, byte>, after: map<int, byte>, ranges: seq<SlotRange>, job: Job, full: bool) {
    && after.Keys == before.Keys
    && (forall a: int | !Covered(ranges, a) :: Untouched(before, after, a))
    && (Disjoint(ranges) ==> forall r | r in ranges :: AllDone(before, after, r, job, full))
  }

  lemma ReboundNothing(bytes: map<int, byte>, job: Job)
    ensures Rebound(bytes, bytes, [], job, true)
  {
  }

  /** Leaving everything alone is a rebind some of whose stores failed. */
  lemma ReboundAlone(bytes: map<int, byte>, ranges: seq<SlotRange>, job: Job)
    ensures Rebound(bytes, bytes, ranges, job, false)
  {
  }

  lemma ReboundOne(before: map<int, byte>, after: map<int, byte>, r: SlotRange, job: Job, full: bool)
    requires Progress(before, after, r, r.count, job, full) || (after == before && !full)
    ensures Rebound(before, after, [r], job, full)
  {
    forall a: int | !Covered([r], a) ensures Untouched(before, after, a) {
      assert !r.Covers(a) by { assert r in [r]; }
    }
  }

  /** A slot that the second pass leaves alone stays as the first pass left it, and the other way round. */
  lemma SlotFrame(before: map<int, byte>, mid: map<int, byte>, after: map<int, byte>, r: SlotRange, k: nat, job: Job,
                  full: bool)
    requires mid.Keys == before.Keys && after.Keys == mid.Keys && k < r.count
    requires (SlotDone(before, mid, r, k, job, full) && forall a: int | r.Covers(a) :: Untouched(mid, after, a))
             || (SlotDone(mid, after, r, k, job, full) && forall a: int | r.Covers(a) :: Untouched(before, mid, a))
    ensures SlotDone(before, after, r, k, job, full)
  {
    hide SlotValue, Rewritten;
    var slot := r.Slot(k);
    if Mapped(before, slot, 8) {
      assert forall a | slot <= a < slot + 8 :: r.Covers(a);
      if forall a: int | r.Covers(a) :: Untouched(mid, after, a) {
        forall a | slot <= a < slot + 8 && a in mid ensures after[a] == mid[a] { assert Untouched(mid, after, a); }
        SlotUntouched(mid, after, slot);
      }
      if forall a: int | r.Covers(a) :: Untouched(before, mid, a) {
        forall a | slot <= a < slot + 8 && a in before ensures mid[a] == before[a] { assert Untouched(before, mid, a); }
        SlotUntouched(before, mid, slot);
      }
    }
  }

  lemma OutsideOthers(ranges: seq<SlotRange>, r: SlotRange, a: int)
    requires r.Covers(a) && forall q | q in ranges :: Apart(r, q)
    ensures !Covered(ranges, a)
  {
    forall q | q in ranges ensures !q.Covers(a) { assert Apart(r, q); }
  }

  lemma DisjointParts(first: seq<SlotRange>, second: seq<SlotRange>)
    requires Disjoint(first + second)
    ensures Disjoint(first) && Disjoint(second)
    ensures forall r, q | r in first && q in second :: Apart(r, q)
  {
    var all := first + second;
    forall i, j | 0 <= i < j < |first| ensures Apart(first[i], first[j]) { assert Apart(all[i], all[j]); }
    forall i, j | 0 <= i < j < |second| ensures Apart(second[i], second[j]) {
      assert Apart(all[|first| + i], all[|first| + j]);
    }
    forall r, q | r in first && q in second ensures Apart(r, q) {
      var i :| 0 <= i < |first| && first[i] == r;
      var j :| 0 <= j < |second| && second[j] == q;
      assert Apart(all[i], all[|first| + j]);
    }
  }

  /** Rebinding some ranges and then others is rebinding all of them. */
  lemma Compose(before: map<int, byte>, mid: map<int, byte>, after: map<int, byte>,
                first: seq<SlotRange>, second: seq<SlotRange>, job: Job, full: bool)
    requires Rebound(before, mid, first, job, full) && Rebound(mid, after, second, job, full)
    ensures Rebound(before, after, first + second, job, full)
  {
    hide SlotDone, Apart, Disjoint;
    var all := first + second;
    forall a: int | !Covered(all, a) ensures Untouched(before, after, a) {
      assert !Covered(first, a) by { forall r | r in first ensures !r.Covers(a) { assert r in all; } }
      assert !Covered(second, a) by { forall r | r in second ensures !r.Covers(a) { assert r in all; } }
      assert Untouched(before, mid, a) && Untouched(mid, after, a);
    }
    if Disjoint(all) {
      DisjointParts(first, second);
      forall r | r in all ensures AllDone(before, after, r, job, full) {
        ComposeRange(before, mid, after, first, second, r, job, full);
      }
    }
  }

  lemma ComposeRange(before: map<int, byte>, mid: map<int, byte>, after: map<int, byte>,
                     first: seq<SlotRange>, second: seq<SlotRange>, r: SlotRange, job: Job, full: bool)
    requires Rebound(before, mid, first, job, full) && Rebound(mid, after, second, job, full)
    requires Disjoint(first) && Disjoint(second) && (r in first || r in second)
    requires forall r, q | r in first && q in second :: Apart(r, q)
    ensures AllDone(before, after, r, job, full)
  {
    hide SlotDone, Disjoint;
    if r in first {
      forall a: int | r.Covers(a) ensures Untouched(mid, after, a) { OutsideOthers(second, r, a); }
      assert AllDone(before, mid, r, job, full);
    } else {
      forall a: int | r.Covers(a) ensures Untouched(before, mid, a) {
        forall q | q in first ensures Apart(r, q) { assert Apart(q, r); }
        OutsideOthers(first, r, a);
      }
      assert AllDone(mid, after, r, job, full);
    }
    forall k | 0 <= k < r.count ensures SlotDone(before, after, r, k, job, full) {
      SlotFrame(before, mid, after, r, k, job, full);
    }
  }

  // ---- sections of an image ----

  /** `getsectiondata`: address (zero for NULL) and size of the data of a section, by segment and section name. */
  type SectionData = (Name, Name) -> (u64, u64)

  /** A 16-byte name field up to its first NUL. */
  function CopyName(field: seq<byte>): Name
    requires |field| == 16
  {
    match FindTerminator(field, 0)
    case None => field
    case Some(t) => field[..t]
  }

  /** The slots of a pointer section, if dyld has well-formed data for it. */
  function SectionRange(section: seq<byte>, data: SectionData): Option<SlotRange>
    requires |section| == SECTION_SIZE
  {
    var (address, size) := data(CopyName(section[16..32]), CopyName(section[..16]));
    if address == 0 || size / 8 == 0 || size % 8 != 0 then None
    else Some(SlotRange(address, size / 8, CopyName(section[..16]) == AUTH_GOT))
  }

  predicate IsPointerSection(section: seq<byte>)
    requires |section| == SECTION_SIZE
  {
    var kind := And(U32At(section, 64), 0xff);
    kind == LAZY_SLOTS || kind == NON_LAZY_SLOTS
  }

  /** The section records that follow a segment command, all of them or, if they do not fit, none. */
  function SectionCount(c: Command): nat {
    if IsSegment(c) && SEGMENT_SIZE + SECTION_SIZE * U32At(c, 64) <= |c| then U32At(c, 64) else 0
  }

  function Section(c: Command, n: nat): (section: seq<byte>)
    requires n < SectionCount(c)
    ensures |section| == SECTION_SIZE
  {
    c[SEGMENT_SIZE + SECTION_SIZE * n..SEGMENT_SIZE + SECTION_SIZE * n + SECTION_SIZE]
  }

  /** The slot ranges of the first `n` sections of a command, in order. */
  function CommandRanges(c: Command, data: SectionData, n: nat): seq<SlotRange>
    requires n <= SectionCount(c)
  {
    if n == 0 then []
    else
      CommandRanges(c, data, n - 1)
      + if IsPointerSection(Section(c, n - 1)) && SectionRange(Section(c, n - 1), data).Some?
        then [SectionRange(Section(c, n - 1), data).value] else []
  }

  function ImageRanges(cs: seq<Command>, data: SectionData, n: nat): seq<SlotRange>
    requires n <= |cs|
  {
    if n == 0 then [] else ImageRanges(cs, data, n - 1) + CommandRanges(cs[n - 1], data, SectionCount(cs[n - 1]))
  }

  ghost predicate AllCooperative(m: Machine, ranges: seq<SlotRange>)
    reads m`pages
  {
    forall r | r in ranges :: Cooperative(m, r)
  }

  /**
   What any scan leaves behind, also one cut short by a fault: slots rewritten or left alone, and no page
   changed but one that holds a slot, and none at all unless a request was refused. Only TPRO can cut it
   short. If the environment cooperates and what it scans is `good`, every matching slot is rewritten.
   */
  twostate predicate ScannedIf(m: Machine, ranges: seq<SlotRange>, job: Job, good: bool)
    reads m
  {
    && m.Valid() && m.HistoryGrows() && (m.alive ==> m.tproOpen == old(m.tproOpen)) && (m.alive || m.enforced)
    && Rebound(old(m.bytes), m.bytes, ranges, job, false)
    && PageFrame(old(m.pages), m.pages, m.pageSize, ranges)
    && (m.pageSize >= 8 && m.alive && |m.refusals| == |old(m.refusals)| ==> m.pages == old(m.pages))
    && (m.Cooperated() && good ==> m.alive && Rebound(old(m.bytes), m.bytes, ranges, job, true))
  }

  twostate predicate Scanned(m: Machine, ranges: seq<SlotRange>, job: Job)
    reads m
  {
    ScannedIf(m, ranges, job, old(AllCooperative(m, ranges)))
  }

  lemma RangeReadable(m: Machine, r: SlotRange)
    requires m.Valid() && forall a: nat | r.base <= a < r.base + 8 * r.count :: m.Readable(a)
    ensures Mapped(m.bytes, r.base, 8 * r.count)
  {
    forall a | r.base <= a < r.base + 8 * r.count ensures a in m.bytes { assert m.Readable(a); }
  }

  lemma CooperativeRange(m: Machine, r: SlotRange)
    requires Cooperative(m, r)
    ensures r.base != 0 && m.Readable(r.base) && r.count > 0 && m.Uniform(r.base, r.base + 8 * r.count - 1)
  {
  }

  function RangeList(section: seq<byte>, data: SectionData): seq<SlotRange>
    requires |section| == SECTION_SIZE
  {
    if SectionRange(section, data).Some? then [SectionRange(section, data).value] else []
  }

  /**
   One section: nothing happens unless its data is well-formed and readable. If readable data is not
   mistaken for unreadable, only denials make slots go missing, one each.
   */
  method RebindSection(m: Machine, section: seq<byte>, data: SectionData, job: Job)
    requires m.Valid() && m.alive && |section| == SECTION_SIZE
    modifies m
    ensures Scanned(m, RangeList(section, data), job)
    ensures var r := SectionRange(section, data);
            r.Some? && old(Cooperative(m, r.value)) && m.alive && m.shortAnswers == old(m.shortAnswers) ==>
              Missed(old(m.bytes), m.bytes, r.value, r.value.count, job) <= Denials(m) - old(Denials(m))
  {
    hide Rebound, Progress, Cooperative, PageFrame, Missed;
    ghost var before := m.bytes;
    ReboundNothing(before, job);
    ReboundAlone(before, RangeList(section, data), job);
    FrameSame(m.pages, m.pageSize, RangeList(section, data));
    var segname, sectname := CopyName(section[16..32]), CopyName(section[..16]);
    var (slots, sectionSize) := data(segname, sectname);
    var slotCount := sectionSize / 8;
    if slots == 0 || slotCount == 0 || sectionSize % 8 != 0 { return; }
    var r := SlotRange(slots, slotCount, sectname == AUTH_GOT);
    assert SectionRange(section, data) == Some(r);
    if Cooperative(m, r) { CooperativeRange(m, r); }
    ghost var cooperative := AllCooperative(m, [r]);
    assert cooperative ==> Cooperative(m, r) by { assert r in [r]; }
    var readable := m.MemoryIsReadable(slots, sectionSize);
    if !readable { return; }
    RangeReadable(m, r);
    RebindRange(m, r, job);
    ReboundOne(before, m.bytes, r, job, false);
    if Progress(before, m.bytes, r, r.count, job, true) { ReboundOne(before, m.bytes, r, job, true); }
  }

  /** A cooperative environment has pages that hold a slot, if there is any slot at all. */
  lemma AllLarge(m: Machine, ranges: seq<SlotRange>)
    requires AllCooperative(m, ranges)
    ensures ranges == [] || m.pageSize >= 8
  {
    if ranges != [] { assert Cooperative(m, ranges[0]); }
  }

  /** The pointer sections of one segment command, if its section records fit. */
  method RebindImageLoadCommand(m: Machine, c: Command, data: SectionData, job: Job)
    requires m.Valid() && m.alive
    modifies m
    ensures Scanned(m, CommandRanges(c, data, SectionCount(c)), job)
  {
    hide Rebound, Cooperative, IsPointerSection, SectionRange, U32At, PageFrame;
    ghost var before, pages := m.bytes, m.pages;
    ghost var all := CommandRanges(c, data, SectionCount(c));
    ghost var good := AllCooperative(m, all);
    if good { AllLarge(m, all); }
    ReboundNothing(before, job);
    ReboundAlone(before, [], job);
    FrameSame(pages, m.pageSize, []);
    if !IsSegment(c) { return; }
    var nsects := U32At(c, 64);
    var sectionsSize := nsects * SECTION_SIZE;
    var sectionsEnd := SEGMENT_SIZE + sectionsSize;
    if sectionsEnd > |c| { return; }
    var sectionIndex := 0;
    while sectionIndex < nsects
      invariant 0 <= sectionIndex <= nsects
      invariant ScannedIf(m, CommandRanges(c, data, sectionIndex), job, good)
    {
      var section := Section(c, sectionIndex);
      ghost var mid, midPages, done := m.bytes, m.pages, CommandRanges(c, data, sectionIndex);
      ghost var next := if IsPointerSection(section) then RangeList(section, data) else [];
      ghost var nextGood := AllCooperative(m, next);
      RangesWithin(c, data, sectionIndex);
      assert forall r | r in next :: r in CommandRanges(c, data, sectionIndex + 1);
      ReboundAlone(mid, next, job);
      ReboundNothing(mid, job);
      FrameSame(midPages, m.pageSize, next);
      if m.alive && IsPointerSection(section) {
        RebindSection(m, section, data, job);
      }
      Compose(before, mid, m.bytes, done, next, job, false);
      FrameCompose(pages, midPages, m.pages, m.pageSize, done, next);
      if m.Cooperated() && good {
        assert nextGood;
        Compose(before, mid, m.bytes, done, next, job, true);
      }
      sectionIndex := sectionIndex + 1;
    }
  }

  lemma RangesWithin(c: Command, data: SectionData, n: nat)
    requires n < SectionCount(c)
    ensures forall r | r in CommandRanges(c, data, n + 1) :: r in CommandRanges(c, data, SectionCount(c))
    decreases SectionCount(c) - n
  {
    if n + 1 < SectionCount(c) { RangesWithin(c, data, n + 1); }
  }

  lemma ImageRangesWithin(cs: seq<Command>, data: SectionData, n: nat)
    requires n < |cs|
    ensures forall r | r in ImageRanges(cs, data, n + 1) :: r in ImageRanges(cs, data, |cs|)
    decreases |cs| - n
  {
    if n + 1 < |cs| { ImageRangesWithin(cs, data, n + 1); }
  }

  /** All slot ranges that rebinding the image at `header` may touch. */
  function RangesOf(image: seq<byte>, data: SectionData): seq<SlotRange> {
    match Commands(image)
    case None => []
    case Some(cs) => ImageRanges(cs, data, |cs|)
  }

  /** The visitor on every load command; it always asks for the next. */
  method RebindCommands(m: Machine, cs: seq<Command>, data: SectionData, job: Job)
    requires m.Valid() && m.alive
    modifies m
    ensures Scanned(m, ImageRanges(cs, data, |cs|), job)
  {
    hide Rebound, Cooperative, CommandRanges, PageFrame;
    ghost var before, pages := m.bytes, m.pages;
    ghost var all := ImageRanges(cs, data, |cs|);
    ghost var good := AllCooperative(m, all);
    if good { AllLarge(m, all); }
    ReboundNothing(before, job);
    ReboundAlone(before, [], job);
    FrameSame(pages, m.pageSize, []);
    var index := 0;
    while index < |cs|
      invariant 0 <= index <= |cs|
      invariant ScannedIf(m, ImageRanges(cs, data, index), job, good)
    {
      ghost var mid, midPages, done := m.bytes, m.pages, ImageRanges(cs, data, index);
      ghost var next := CommandRanges(cs[index], data, SectionCount(cs[index]));
      ghost var nextGood := AllCooperative(m, next);
      ImageRangesWithin(cs, data, index);
      assert forall r | r in next :: r in ImageRanges(cs, data, index + 1);
      ReboundAlone(mid, next, job);
      FrameSame(midPages, m.pageSize, next);
      if m.alive {
        RebindImageLoadCommand(m, cs[index], data, job);
      }
      Compose(before, mid, m.bytes, done, next, job, false);
      FrameCompose(pages, midPages, m.pages, m.pageSize, done, next);
      if m.Cooperated() && good {
        assert nextGood;
        Compose(before, mid, m.bytes, done, next, job, true);
      }
      index := index + 1;
    }
  }

  /**
   Rebinds one loaded image. The load commands are read from `image`, the bytes behind its header,
   which the slots are not part of.
   */
  method RebindSymbolInImage(m: Machine, header: u64, image: seq<byte>, replacee: u64, replacement: u64,
                             data: SectionData, sign: Signer)
    requires m.Valid() && m.alive
    modifies m
    ensures header == 0 || replacee == 0 || replacement == 0 ==>
              m.alive && m.bytes == old(m.bytes) && m.pages == old(m.pages) && m.tproOpen == old(m.tproOpen)
    ensures header != 0 && replacee != 0 && replacement != 0 ==>
              Scanned(m, RangesOf(image, data), Job(Strip(replacee), replacement, sign))
  {
    hide Rebound, Cooperative, Commands, PageFrame;
    if header == 0 || replacee == 0 || replacement == 0 { return; }
    var replaceeRaw := Strip(replacee);
    var job := Job(replaceeRaw, replacement, sign);
    ReboundNothing(m.bytes, job);
    ReboundAlone(m.bytes, [], job);
    FrameSame(m.pages, m.pageSize, []);
    var valid := ValidateLoadCommands(image);
    if !valid { return; }
    RebindCommands(m, Commands(image).value, data, job);
  }

  // ---- undoing ----

  /** The new value of a matching slot resolves to the replacement, signed or not. */
  lemma RewrittenResolves(job: Job, authenticated: bool, slot: u64, value: u64)
    requires IsSigner(job.sign) && Matches(job, value)
    ensures Strip(Rewritten(job, authenticated, slot, value)) == Strip(job.replacement)
  {
  }

  /** Rebinding B back to A restores what a slot resolves to exactly unless it resolved to B before, or A is B. */
  lemma UndoSlotExactly(a: u64, b: u64, sign: Signer, authenticated: bool, slot: u64, value: u64)
    requires IsSigner(sign) && Strip(b) != 0
    ensures var there := Rewritten(Job(Strip(a), b, sign), authenticated, slot, value);
            var back := Rewritten(Job(Strip(b), a, sign), authenticated, slot, there);
            Strip(back) == Strip(value) <==> Strip(value) != Strip(b) || Strip(a) == Strip(b)
  {
    hide Strip;
    var there := Rewritten(Job(Strip(a), b, sign), authenticated, slot, value);
    assert Strip(0) == 0 by { StripZero(); }
    if Matches(Job(Strip(a), b, sign), value) {
      RewrittenResolves(Job(Strip(a), b, sign), authenticated, slot, value);
      assert Strip(Strip(b)) == Strip(b) by { StripTwice(b); }
    }
    if Matches(Job(Strip(b), a, sign), there) {
      RewrittenResolves(Job(Strip(b), a, sign), authenticated, slot, there);
    }
  }

  lemma StripZero()
    ensures Strip(0) == 0
  {
  }

  lemma StripTwice(pointer: u64)
    ensures Strip(Strip(pointer)) == Strip(pointer)
  {
  }

  /** A replacement that is only tag bits empties raw slots, and empty slots are passed over on the way back. */
  lemma UndoNeedsAnAddress(a: u64, b: u64, sign: Signer, slot: u64, value: u64)
    requires Strip(b) == 0 && Strip(a) != 0 && Strip(value) == Strip(a)
    ensures var there := Rewritten(Job(Strip(a), b, sign), false, slot, value);
            there == 0 && Strip(Rewritten(Job(Strip(b), a, sign), false, slot, there)) != Strip(value)
  {
  }

  ghost predicate AllMapped(bytes: map<int, byte>, ranges: seq<SlotRange>) {
    forall r, k | r in ranges && 0 <= k < r.count :: r.Slot(k) < TWO_64 && Mapped(bytes, r.Slot(k), 8)
  }

  /**
   Rebinding an image from A to B and from B to A, with every store succeeding, restores what its slots
   resolve to.
   */
  lemma UndoImage(before: map<int, byte>, mid: map<int, byte>, after: map<int, byte>, ranges: seq<SlotRange>,
                  a: u64, b: u64, sign: Signer, r: SlotRange, k: nat)
    requires Rebound(before, mid, ranges, Job(Strip(a), b, sign), true)
    requires Rebound(mid, after, ranges, Job(Strip(b), a, sign), true)
    requires Disjoint(ranges) && AllMapped(before, ranges) && r in ranges && k < r.count && IsSigner(sign)
    requires Strip(b) != 0 && Strip(SlotValue(before, r.Slot(k))) != Strip(b)
    ensures Mapped(after, r.Slot(k), 8) && Strip(SlotValue(after, r.Slot(k))) == Strip(SlotValue(before, r.Slot(k)))
  {
    hide Strip, Rewritten, SlotValue, Disjoint, IsSigner;
    var slot := r.Slot(k);
    assert Mapped(before, slot, 8);
    assert AllDone(before, mid, r, Job(Strip(a), b, sign), true)
        && AllDone(mid, after, r, Job(Strip(b), a, sign), true);
    assert SlotDone(before, mid, r, k, Job(Strip(a), b, sign), true)
        && SlotDone(mid, after, r, k, Job(Strip(b), a, sign), true);
    UndoSlotExactly(a, b, sign, r.authenticated, slot, SlotValue(before, slot));
  }
}
