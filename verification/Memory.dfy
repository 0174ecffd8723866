/**
 Page protections, the thread's TPRO write window and the protected pointer store of
 RorkHookMemory.c, over a kernel that may refuse any request, together with the region queries of
 RorkHookInternal.c. One thread executes; TPRO is one bit of that thread.
 */
module Memory {
  import opened Bits
  import opened Pages
  import opened Words
  import opened Wrappers

  /** `vm_prot_t`; `copy` asks for copy-on-write in a request and is never part of an installed protection. */
  datatype Protection = Protection(read: bool, write: bool, execute: bool, copy: bool)

  const READ_WRITE_COPY := Protection(true, true, false, true)

  datatype KernReturn = Success | InvalidArgument | InvalidAddress | ProtectionFailure | NotSupported | Other(code: int)

  datatype Region = Region(start: u64, size: u64, protection: Protection)

  type PageMap = map<nat, Protection>

  function Installed(p: Protection): Protection {
    p.(copy := false)
  }

  /** The pages from `first` to `last` with their protection replaced. */
  function Protected(pages: PageMap, first: nat, last: nat, p: Protection): PageMap {
    map q | q in pages :: if first <= q <= last then Installed(p) else pages[q]
  }

  lemma ProtectedKeeps(pages: PageMap, first: nat, last: nat, p: Protection)
    ensures Protected(pages, first, last, p).Keys == pages.Keys
    ensures NoCopies(pages) ==> NoCopies(Protected(pages, first, last, p))
  {
  }

  /** The effect of the two restore requests, each of them granted or refused. */
  function PutBackEach(pages: PageMap, first: nat, last: nat, spansPages: bool, firstProtection: Protection,
                       lastProtection: Protection, firstOk: bool, lastOk: bool): PageMap
  {
    var between := if firstOk then Protected(pages, first, first, firstProtection) else pages;
    if spansPages && lastOk then Protected(between, last, last, lastProtection) else between
  }

  ghost predicate NoCopies(pages: PageMap) {
    forall q | q in pages :: !pages[q].copy
  }

  /** No page but `first` and `last` differs, and those only by having protection `p`. */
  ghost predicate OnlyTouched(before: PageMap, after: PageMap, first: nat, last: nat, p: Protection) {
    && after.Keys == before.Keys
    && forall q | q in before :: after[q] == before[q] || ((q == first || q == last) && after[q] == Installed(p))
  }

  function Changed(before: PageMap, after: PageMap, page: nat): nat {
    if page in before && page in after && before[page] == after[page] then 0 else 1
  }

  function ChangedPages(before: PageMap, after: PageMap, first: nat, last: nat): nat {
    Changed(before, after, first) + if first != last then Changed(before, after, last) else 0
  }

  ghost predicate TemporaryRemains(pages: PageMap, first: nat, last: nat, p: Protection) {
    (first in pages && pages[first] == Installed(p)) || (last in pages && pages[last] == Installed(p))
  }

  /**
   What the environment answered to one pointer store that got past its checks: whether the protection
   change was granted, whether TPRO was reported and its window opened, and whether the two restore
   requests were granted.
   */
  datatype Attempt = Attempt(granted: bool, reported: bool, windowOpen: bool, firstOk: bool, lastOk: bool)
  {
    /** Whether the library goes on to the store. */
    predicate Stores() {
      if reported then windowOpen else granted
    }

    /** Restore requests that were made and refused. */
    function Unrestored(): nat {
      if granted then (if firstOk then 0 else 1) + (if lastOk then 0 else 1) else 0
    }

    /** All requests that were refused. */
    function Refused(): nat {
      Unrestored() + if granted then 0 else 1
    }
  }

  /**
   A pointer store succeeds with the eight bytes written and every protection as before, or fails
   with the memory unchanged. The one exception is a store with `unrestored` refused restore requests:
   it fails although it wrote, and no more pages are left changed than restorations were refused.
   */
  ghost predicate Transaction(bytes: map<int, byte>, bytesAfter: map<int, byte>, pages: PageMap, pagesAfter: PageMap,
                              slot: u64, value: u64, first: nat, last: nat, p: Protection, ok: bool, unrestored: nat) {
    var written := WriteAt(bytes, slot, U64Bytes(value));
    && (ok ==> bytesAfter == written && unrestored == 0)
    && (!ok ==> bytesAfter == bytes || (bytesAfter == written && unrestored > 0))
    && (last <= first + 1 ==>
          && OnlyTouched(pages, pagesAfter, first, last, p)
          && (unrestored == 0 ==> pagesAfter == pages)
          && (unrestored > 0 ==> TemporaryRemains(pagesAfter, first, last, p))
          && ChangedPages(pages, pagesAfter, first, last) <= unrestored)
  }

  /** The memory and the protections behind an attempt, exactly. */
  ghost predicate Effect(bytes: map<int, byte>, bytesAfter: map<int, byte>, pages: PageMap, pagesAfter: PageMap,
                         slot: u64, value: u64, first: nat, last: nat, p: Protection, did: Attempt, ok: bool)
  {
    && first in pages && last in pages
    && bytesAfter == (if did.Stores() then WriteAt(bytes, slot, U64Bytes(value)) else bytes)
    && pagesAfter == (if did.granted
                      then PutBackEach(Protected(pages, first, last, p), first, last, first != last,
                                       pages[first], pages[last], did.firstOk, did.lastOk)
                      else pages)
    && ok == (did.Stores() && did.Unrestored() == 0)
    && (first == last ==> did.lastOk)
  }

  /**
   When the store itself faults: TPRO is reported, the request was refused, and some page that TPRO does
   not gate is not writable as it stands; or TPRO is enforced but not reported, the request was granted,
   and some page is gated.
   */
  ghost predicate StoreFaults(did: Attempt, enforced: bool, gated: set<nat>, pages: PageMap, first: nat, last: nat) {
    || (did.reported && did.windowOpen && !did.granted
        && exists q | first <= q <= last :: q !in gated && !(q in pages && pages[q].write))
    || (enforced && !did.reported && did.granted && exists q | first <= q <= last :: q in gated)
  }

  /**
   How an attempt ends: with its effect, if the store does not fault; otherwise with the process gone,
   the slot as it was, and the protection change, if granted, still in place.
   */
  ghost predicate Outcome(enforced: bool, gated: set<nat>, bytes: map<int, byte>, bytesAfter: map<int, byte>,
                          pages: PageMap, pagesAfter: PageMap, slot: u64, value: u64, first: nat, last: nat,
                          p: Protection, did: Attempt, ok: bool, alive: bool, refusals: int)
  {
    && (alive <==> !StoreFaults(did, enforced, gated, pages, first, last))
    && (alive ==> Effect(bytes, bytesAfter, pages, pagesAfter, slot, value, first, last, p, did, ok)
                  && refusals == did.Refused())
    && (!alive ==>
          && bytesAfter == bytes && pagesAfter == (if did.granted then Protected(pages, first, last, p) else pages)
          && refusals == if did.granted then 0 else 1)
  }

  lemma FaultOutcome(enforced: bool, gated: set<nat>, bytes: map<int, byte>, pages: PageMap, pagesAfter: PageMap,
                     slot: u64, value: u64, first: nat, last: nat, p: Protection, did: Attempt, ok: bool, refusals: int)
    requires StoreFaults(did, enforced, gated, pages, first, last)
    requires pagesAfter == if did.granted then Protected(pages, first, last, p) else pages
    requires refusals == if did.granted then 0 else 1
    ensures Outcome(enforced, gated, bytes, bytes, pages, pagesAfter, slot, value, first, last, p, did, ok, false,
                    refusals)
  {
  }

  lemma RefusedOutcome(enforced: bool, gated: set<nat>, bytes: map<int, byte>, bytesAfter: map<int, byte>,
                       pages: PageMap, slot: u64, value: u64, first: nat, last: nat, p: Protection, did: Attempt)
    requires !did.granted && did.lastOk && first in pages && last in pages
             && !StoreFaults(did, enforced, gated, pages, first, last)
    requires bytesAfter == if did.Stores() then WriteAt(bytes, slot, U64Bytes(value)) else bytes
    ensures Outcome(enforced, gated, bytes, bytesAfter, pages, pages, slot, value, first, last, p, did, did.Stores(),
                    true, 1)
  {
  }

  lemma GrantedOutcome(enforced: bool, gated: set<nat>, bytes: map<int, byte>, bytesAfter: map<int, byte>,
                       pages: PageMap, slot: u64, value: u64, first: nat, last: nat, p: Protection, did: Attempt,
                       ok: bool)
    requires did.granted && first in pages && last in pages && !StoreFaults(did, enforced, gated, pages, first, last)
    requires bytesAfter == if did.Stores() then WriteAt(bytes, slot, U64Bytes(value)) else bytes
    requires ok == (did.Stores() && did.Unrestored() == 0) && (first == last ==> did.lastOk)
    ensures Outcome(enforced, gated, bytes, bytesAfter, pages,
                    PutBackEach(Protected(pages, first, last, p), first, last, first != last, pages[first], pages[last],
                                did.firstOk, did.lastOk),
                    slot, value, first, last, p, did, ok, true, did.Refused())
  {
    hide PutBackEach;
  }

  /**
   What can be answered: nothing is reported without enforcement, and all of it is reported where the
   window was open, the configuration is known or the hardware obeys, in which case the window opens too.
   */
  predicate Possible(did: Attempt, enforced: bool, wasOpen: bool, configurationKnown: bool, obeyed: bool) {
    && (did.reported ==> enforced)
    && (wasOpen || configurationKnown || obeyed ==> did.reported == enforced)
    && (did.windowOpen ==> did.reported)
    && (did.reported && (wasOpen || obeyed) ==> did.windowOpen)
  }

  lemma SamePossible(did: Attempt, other: Attempt, enforced: bool, wasOpen: bool, configurationKnown: bool,
                     obeyed: bool)
    requires did.reported == other.reported && did.windowOpen == other.windowOpen
    ensures Possible(did, enforced, wasOpen, configurationKnown, obeyed)
            == Possible(other, enforced, wasOpen, configurationKnown, obeyed)
  {
  }

  /** The library stores to an ordinary read-only page on the strength of an open window alone. */
  lemma OrdinaryPageFaults()
    ensures var (did, readOnly) := (Attempt(false, true, true, true, true), Protection(true, false, false, false));
            && Possible(did, true, false, true, true) && did.Stores()
            && StoreFaults(did, true, {}, map[1 := readOnly], 1, 1)
  {
    var pages: PageMap := map[1 := Protection(true, false, false, false)];
    assert 1 <= 1 <= 1 && 1 !in {} && !pages[1].write;
  }

  /**
   Where the configuration is unknown and the probe is not obeyed, it stores to a gated page with the
   window closed.
   */
  lemma UnseenEnforcementFaults()
    ensures var (did, readOnly) := (Attempt(true, false, false, true, true), Protection(true, false, false, false));
            && Possible(did, true, false, false, false) && did.Stores()
            && StoreFaults(did, true, {1}, map[1 := readOnly], 1, 1)
  {
    assert 1 <= 1 <= 1 && 1 in {1};
  }

  /**
   What a caller can know beforehand: every page is gated or writable, and enforcement does not go unseen
   where it matters.
   */
  ghost predicate Foreseeable(gated: set<nat>, pages: PageMap, first: nat, last: nat, wasOpen: bool,
                              configurationKnown: bool) {
    && (forall q | first <= q <= last :: q in gated || (q in pages && pages[q].write))
    && (wasOpen || configurationKnown || forall q | first <= q <= last :: q !in gated)
  }

  /**
   Whatever may be answered, no store faults, exactly if TPRO is not enforced or the two causes are ruled
   out beforehand.
   */
  lemma NeverFaultsExactly(enforced: bool, gated: set<nat>, pages: PageMap, first: nat, last: nat, wasOpen: bool,
                           configurationKnown: bool)
    ensures (forall did: Attempt, obeyed ::
               Possible(did, enforced, wasOpen, configurationKnown, obeyed) && did.Stores() ==>
               !StoreFaults(did, enforced, gated, pages, first, last))
            <==> !enforced || Foreseeable(gated, pages, first, last, wasOpen, configurationKnown)
  {
    var refused, unseen := Attempt(false, true, true, true, true), Attempt(true, false, false, true, true);
    assert enforced ==> Possible(refused, enforced, wasOpen, configurationKnown, true) && refused.Stores();
    assert !wasOpen && !configurationKnown ==>
             Possible(unseen, enforced, wasOpen, configurationKnown, false) && unseen.Stores();
  }

  /** With at most two pages touched, what is not put back is what was refused. */
  lemma PutBackEachEffect(pages: PageMap, first: nat, last: nat, p: Protection, firstOk: bool, lastOk: bool)
    requires first in pages && last in pages && first <= last <= first + 1 && NoCopies(pages)
    ensures var after := PutBackEach(Protected(pages, first, last, p), first, last, first != last,
                                     pages[first], pages[last], firstOk, lastOk);
            && OnlyTouched(pages, after, first, last, p)
            && (firstOk && (first == last || lastOk) ==> after == pages)
            && ChangedPages(pages, after, first, last) <= (if firstOk then 0 else 1) + (if lastOk then 0 else 1)
            && (!firstOk ==> after[first] == Installed(p))
            && (first != last && !lastOk ==> after[last] == Installed(p))
  {
  }

  /** What an attempt leaves behind is a transaction. */
  lemma EffectIsTransaction(bytes: map<int, byte>, bytesAfter: map<int, byte>, pages: PageMap, pagesAfter: PageMap,
                            slot: u64, value: u64, first: nat, last: nat, p: Protection, did: Attempt, ok: bool)
    requires Effect(bytes, bytesAfter, pages, pagesAfter, slot, value, first, last, p, did, ok)
    requires first <= last && NoCopies(pages)
    ensures Transaction(bytes, bytesAfter, pages, pagesAfter, slot, value, first, last, p, ok, did.Unrestored())
  {
    hide PutBackEach, WriteAt, Protected, NoCopies;
    if did.granted && last <= first + 1 {
      PutBackEachEffect(pages, first, last, p, did.firstOk, did.lastOk);
    }
  }

  lemma ProtectedTouches(pages: PageMap, first: nat, last: nat, p: Protection)
    requires first <= last <= first + 1
    ensures OnlyTouched(pages, Protected(pages, first, last, p), first, last, p)
  {
  }

  /** Both pages put back, the range is restored exactly if every page between them already had `p`. */
  lemma PutBackRestores(pages: PageMap, first: nat, last: nat, p: Protection)
    requires first in pages && last in pages && NoCopies(pages)
    ensures PutBackEach(Protected(pages, first, last, p), first, last, first != last, pages[first], pages[last], true,
                        true) == pages
            <==> forall q | q in pages && first < q < last :: pages[q] == Installed(p)
  {
    var after := PutBackEach(Protected(pages, first, last, p), first, last, first != last, pages[first], pages[last],
                             true, true);
    if after == pages {
      forall q | q in pages && first < q < last ensures pages[q] == Installed(p) {
        assert after[q] == Installed(p);
      }
    }
  }

  /** The pointer slot touches at most two pages wherever it lies, exactly if pages hold eight bytes. */
  lemma AtMostTwoPages(pageSize: nat)
    requires IsPowerOfTwo(pageSize)
    ensures pageSize >= 8 <==> forall slot: nat :: PageOf(slot + 7, pageSize) <= PageOf(slot, pageSize) + 1
  {
    if pageSize >= 8 {
      forall slot: nat ensures PageOf(slot + 7, pageSize) <= PageOf(slot, pageSize) + 1 {
        NextPage(slot, pageSize);
      }
    } else {
      assert pageSize == 1 || pageSize == 2 || pageSize == 4 by { SmallPowers(pageSize); }
      PageUnique(3, pageSize, 3 / pageSize, 3 % pageSize);
      PageUnique(10, pageSize, 10 / pageSize, 10 % pageSize);
      assert PageOf(3 + 7, pageSize) > PageOf(3, pageSize) + 1;
    }
  }

  lemma SmallPowers(n: nat)
    requires IsPowerOfTwo(n) && n < 8
    ensures n == 1 || n == 2 || n == 4
  {
    AndUnfold(n, n - 1);
    AndUnfold(n / 2, (n - 1) / 2);
    AndUnfold(n / 4, (n - 1) / 4);
  }

  lemma NextPage(slot: nat, pageSize: nat)
    requires pageSize >= 8
    ensures PageOf(slot, pageSize) <= PageOf(slot + 7, pageSize) <= PageOf(slot, pageSize) + 1
  {
    PageMonotone(slot, slot + 7, pageSize);
    PageBounds(slot, pageSize);
    PageBounds(slot + 7, pageSize);
    if PageOf(slot + 7, pageSize) > PageOf(slot, pageSize) + 1 {
      Times(pageSize, PageOf(slot + 7, pageSize), PageOf(slot, pageSize) + 1);
    }
  }

  /** With smaller pages a store can leave a middle page with its temporary protection. */
  lemma SmallPagesStayWritable()
    ensures var (r, w) := (Protection(true, false, false, false), Protection(true, true, false, true));
            var pages: PageMap := map[1 := r, 2 := r, 3 := r];
            && PageOf(7, 4) == 1 && PageOf(7 + 7, 4) == 3
            && PutBackEach(Protected(pages, 1, 3, w), 1, 3, true, r, r, true, true)[2].write
  {
  }

  /** Memory is mapped page by page, short of the last address. */
  ghost predicate MappedByPages(addresses: set<int>, pages: set<nat>, pageSize: nat) {
    && (forall a | a in addresses :: 0 <= a < TWO_64 - 1)
    && (forall a: nat :: a in addresses <==> PageOf(a, pageSize) in pages)
  }

  // ---- pure decisions ----

  predicate ProtectedPointerWriteIsAvailable(result: KernReturn, supportsTPRO: bool, windowOpened: bool) {
    if supportsTPRO then windowOpened else result == Success
  }

  predicate ProcessUsesTPRO(hardware: bool, configurationKnown: bool, configurationEnables: bool,
                            probeSucceeded: bool) {
    if !hardware then false
    else if configurationKnown then configurationEnables
    else probeSucceeded
  }

  /**
   One process, as seen by one thread. The ghost fields record what the environment answered and are
   read by no operation. A store that the hardware does not permit kills the process: then `alive` is
   false, and what follows in the code does not happen.
   */
  class Machine {
    const pageSize: u64
    /** The comm page advertises both TPRO register values. */
    const hardware: bool
    /** The process configuration can be asked for. */
    const configurationKnown: bool
    /** The kernel enforces TPRO on this process. */
    const enforced: bool
    /** The pages that TPRO gates where it is enforced. */
    const gated: set<nat>

    var bytes: map<int, byte>
    var pages: PageMap
    var tproOpen: bool
    var alive: bool

    /** The kernel's codes for the protection requests it refused, oldest first. */
    ghost var refusals: seq<KernReturn>
    /** Writes of the TPRO enable value that an enforcing process's hardware did not obey. */
    ghost var unopened: nat
    /** Region queries for a mapped address not answered with the whole uniform stretch from there on. */
    ghost var shortAnswers: nat
    /** Stores attempted while the thread's write window was closed. */
    ghost var bareStores: nat

    constructor (pageSize: u64, hardware: bool, configurationKnown: bool, enforced: bool, gated: set<nat>,
                 bytes: map<int, byte>, pages: PageMap)
      requires MappedByPages(bytes.Keys, pages.Keys, pageSize)
      requires NoCopies(pages) && (enforced ==> hardware)
      ensures Valid() && alive && !tproOpen && this.bytes == bytes && this.pages == pages
    {
      this.pageSize, this.hardware, this.configurationKnown := pageSize, hardware, configurationKnown;
      this.enforced, this.gated := enforced, gated;
      this.bytes, this.pages, this.tproOpen, this.alive := bytes, pages, false, true;
      this.refusals, this.unopened, this.shortAnswers, this.bareStores := [], 0, 0, 0;
    }

    /** A process without TPRO has no window to open. */
    ghost predicate Valid()
      reads this`bytes, this`pages, this`tproOpen
    {
      && MappedByPages(bytes.Keys, pages.Keys, pageSize)
      && NoCopies(pages)
      && (enforced ==> hardware)
      && (tproOpen ==> enforced)
    }

    /** The environment did all it could. */
    twostate predicate Cooperated()
      reads this
    {
      |refusals| == |old(refusals)| && unopened == old(unopened) && shortAnswers == old(shortAnswers)
    }

    twostate predicate HistoryGrows()
      reads this
    {
      && |refusals| >= |old(refusals)| && unopened >= old(unopened) && shortAnswers >= old(shortAnswers)
      && bareStores >= old(bareStores)
    }

    ghost predicate Readable(a: nat)
      reads this`pages
    {
      PageOf(a, pageSize) in pages && pages[PageOf(a, pageSize)].read
    }

    // ---- the kernel's region query ----

    /** The region is mapped throughout with one protection and ends at page boundaries. */
    predicate Truthful(r: Region)
      reads this`pages
    {
      && r.size > 0 && r.start + r.size <= TWO_64
      && (r.start > 0 ==> PageOf(r.start - 1, pageSize) < PageOf(r.start, pageSize))
      && PageOf(r.start + r.size - 1, pageSize) < PageOf(r.start + r.size, pageSize)
      && forall a: nat | r.start <= a < r.start + r.size ::
           PageOf(a, pageSize) in pages && pages[PageOf(a, pageSize)] == r.protection
    }

    /** All pages from that of `a` to that of `b` are mapped with one protection. */
    ghost predicate Uniform(a: nat, b: nat)
      reads this`pages
    {
      forall q | PageOf(a, pageSize) <= q <= PageOf(b, pageSize) ::
        q in pages && PageOf(a, pageSize) in pages && pages[q] == pages[PageOf(a, pageSize)]
    }

    /** The kernel may report any region, more finely divided than need be, or none. */
    method VmRegion(address: u64) returns (r: Option<Region>)
      modifies this`shortAnswers
      ensures shortAnswers >= old(shortAnswers)
      ensures r.Some? ==> Truthful(r.value)
      ensures PageOf(address, pageSize) in pages && shortAnswers == old(shortAnswers) ==>
                && r.Some? && r.value.start <= address < r.value.start + r.value.size
                && forall b: nat | address <= b && Uniform(address, b) :: b < r.value.start + r.value.size
    {
      var answers: bool, start: u64, size: u64, protection: Protection := *, *, *, *;
      if answers && Truthful(Region(start, size, protection)) {
        r := Some(Region(start, size, protection));
      } else {
        r := None;
      }
      if PageOf(address, pageSize) in pages
         && (r.None? || !(r.value.start <= address < r.value.start + r.value.size)
             || exists b: nat :: address <= b && Uniform(address, b) && b >= r.value.start + r.value.size) {
        shortAnswers := shortAnswers + 1;
      }
    }

    /** The region that holds `address`, refused when its end wraps around. */
    method QueryRegion(address: u64) returns (r: Option<Region>)
      modifies this`shortAnswers
      ensures shortAnswers >= old(shortAnswers)
      ensures r.Some? ==> Truthful(r.value) && r.value.start <= address < r.value.start + r.value.size < TWO_64
      ensures address == 0 ==> r.None?
      ensures Valid() && address != 0 && PageOf(address, pageSize) in pages && shortAnswers == old(shortAnswers) ==>
                && r.Some?
                && forall b: nat | address <= b && Uniform(address, b) :: b < r.value.start + r.value.size
    {
      hide PageOf, Uniform;
      if address == 0 { return None; }
      r := VmRegion(address);
      if r.None? { return None; }
      var regionStart := r.value.start;
      var regionEnd := (regionStart + r.value.size) % TWO_64;
      assert Valid() ==> regionStart + r.value.size < TWO_64 by { EndsBelowTop(r.value); }
      if regionEnd < regionStart || address < regionStart || address >= regionEnd {
        return None;
      }
    }

    lemma EndsBelowTop(r: Region)
      requires Truthful(r)
      ensures Valid() ==> r.start + r.size < TWO_64
    {
      var last := r.start + r.size - 1;
      assert PageOf(last, pageSize) in pages;
    }

    /** A region is uniform wherever one looks. */
    lemma RegionUniform(r: Region, a: nat, b: nat)
      requires Truthful(r) && r.start <= a <= b < r.start + r.size
      ensures Uniform(a, b)
    {
      forall q | PageOf(a, pageSize) <= q <= PageOf(b, pageSize)
        ensures q in pages && PageOf(a, pageSize) in pages && pages[q] == pages[PageOf(a, pageSize)]
      {
        var x := OnPageBetween(a, b, q);
        assert PageOf(x, pageSize) in pages && pages[PageOf(x, pageSize)] == r.protection;
      }
    }

    lemma UniformBefore(a: nat, b: nat, c: nat)
      requires Uniform(a, c) && a <= b <= c
      ensures Uniform(a, b)
    {
      PageMonotone(b, c, pageSize);
    }

    lemma OnPageBetween(a: nat, b: nat, q: nat) returns (x: nat)
      requires a <= b && PageOf(a, pageSize) <= q <= PageOf(b, pageSize)
      ensures a <= x <= b && PageOf(x, pageSize) == q
    {
      x := a;
      if PageOf(a, pageSize) < q {
        x := pageSize * q;
        PageBounds(a, pageSize);
        PageBounds(b, pageSize);
        Times(pageSize, q, PageOf(a, pageSize));
        if q < PageOf(b, pageSize) { Times(pageSize, PageOf(b, pageSize), q); }
        PageUnique(x, pageSize, q, 0);
      }
    }

    method MemoryProtection(address: u64) returns (protection: Option<Protection>)
      modifies this`shortAnswers
      ensures shortAnswers >= old(shortAnswers)
      ensures protection.Some? ==>
                address != 0 && PageOf(address, pageSize) in pages
                && protection.value == pages[PageOf(address, pageSize)]
      ensures Valid() && address != 0 && PageOf(address, pageSize) in pages && shortAnswers == old(shortAnswers) ==>
                protection.Some?
    {
      var r := QueryRegion(address);
      protection := if r.None? then None else Some(r.value.protection);
    }

    /** The readable rest of the region that holds `address`. */
    method ReadableMemoryLength(address: u64) returns (length: u64)
      modifies this`shortAnswers
      ensures shortAnswers >= old(shortAnswers)
      ensures address + length < TWO_64
      ensures length > 0 ==> address != 0
      ensures forall a: nat | address <= a < address + length :: Readable(a)
      ensures length > 0 ==> Uniform(address, address + length - 1)
      ensures Valid() && address != 0 && Readable(address) && shortAnswers == old(shortAnswers) ==>
                forall b: nat | address <= b && Uniform(address, b) :: b < address + length
    {
      hide PageOf, Uniform;
      length := 0;
      var r := QueryRegion(address);
      if r.None? || !r.value.protection.read { return; }
      var regionStart := r.value.start;
      var regionEnd := (regionStart + r.value.size) % TWO_64;
      if regionStart <= address < regionEnd {
        length := regionEnd - address;
        RegionUniform(r.value, address, regionEnd - 1);
      }
    }

    method MemoryIsReadable(address: u64, length: nat) returns (readable: bool)
      modifies this`shortAnswers
      ensures shortAnswers >= old(shortAnswers)
      ensures readable ==> length > 0 && address != 0 && address + length < TWO_64
      ensures readable ==>
                Uniform(address, address + length - 1) && forall a: nat | address <= a < address + length :: Readable(a)
      ensures Valid() && address != 0 && Readable(address) && shortAnswers == old(shortAnswers) ==>
                length > 0 && Uniform(address, address + length - 1) ==> readable
    {
      if length == 0 { return false; }
      var available := ReadableMemoryLength(address);
      readable := available >= length;
      if readable { UniformBefore(address, address + length - 1, address + available - 1); }
    }

    // ---- changing protections ----

    ghost predicate AllMapped(address: nat, size: nat)
      requires size > 0
      reads this`pages
    {
      forall q | PageOf(address, pageSize) <= q <= PageOf(address + size - 1, pageSize) :: q in pages
    }

    /** The kernel rounds the range out to pages and may refuse; a refused request changes nothing. */
    method VmProtect(address: u64, size: u64, protection: Protection) returns (result: KernReturn)
      requires size > 0
      modifies this`pages, this`refusals
      ensures old(Valid()) ==> Valid()
      ensures result == Success ==> old(AllMapped(address, size))
      ensures pages == if result == Success
                       then Protected(old(pages), PageOf(address, pageSize), PageOf(address + size - 1, pageSize),
                                      protection)
                       else old(pages)
      ensures refusals == old(refusals) + if result == Success then [] else [result]
    {
      var first, last := PageOf(address, pageSize), PageOf(address + size - 1, pageSize);
      result := *;
      ProtectedKeeps(pages, first, last, protection);
      if result == Success && forall q | first <= q <= last :: q in pages {
        pages := Protected(pages, first, last, protection);
      } else {
        if result == Success { result := InvalidAddress; }
        refusals := refusals + [result];
      }
    }

    method ProtectMemory(address: u64, size: u64, protection: Protection) returns (result: KernReturn)
      modifies this`pages, this`refusals
      ensures old(Valid()) ==> Valid()
      ensures result == Success ==> address != 0 && size > 0 && old(AllMapped(address, size))
      ensures pages == if result == Success
                       then Protected(old(pages), PageOf(address, pageSize), PageOf(address + size - 1, pageSize),
                                      protection)
                       else old(pages)
      ensures refusals == old(refusals) + if result == Success || address == 0 || size == 0 then [] else [result]
      ensures address == 0 || size == 0 ==> result == InvalidArgument
    {
      if address == 0 || size == 0 { return InvalidArgument; }
      result := VmProtect(address, size, protection);
    }

    // ---- TPRO ----

    /** Writing the enable value may fail to open the window; writing the disable value closes it. */
    method WriteThreadTPROState(enable: bool)
      requires Valid()
      modifies this`tproOpen, this`unopened
      ensures unopened >= old(unopened)
      ensures !enable ==> !tproOpen
      ensures tproOpen ==> enforced
      ensures enable && enforced && unopened == old(unopened) ==> tproOpen
    {
      if !enable {
        tproOpen := false;
      } else {
        tproOpen := *;
        tproOpen := tproOpen && enforced;
        if enforced && !tproOpen { unopened := unopened + 1; }
      }
    }

    /** An open window is evidence enough; otherwise one is opened for a moment and closed again. */
    method ProbeProcessTPRO() returns (confirmed: bool)
      requires Valid()
      modifies this`tproOpen, this`unopened
      ensures tproOpen == old(tproOpen) && unopened >= old(unopened)
      ensures confirmed ==> enforced
      ensures old(tproOpen) ==> confirmed
      ensures unopened == old(unopened) ==> confirmed == enforced
    {
      if tproOpen { return true; }
      WriteThreadTPROState(true);
      confirmed := tproOpen;
      WriteThreadTPROState(false);
    }

    /** The answer never overstates enforcement, and is exact where the configuration is known. */
    method SupportsTPRO() returns (supports: bool)
      requires Valid()
      modifies this`tproOpen, this`unopened
      ensures tproOpen == old(tproOpen) && unopened >= old(unopened)
      ensures supports ==> enforced
      ensures tproOpen || configurationKnown || unopened == old(unopened) ==> supports == enforced
    {
      if !hardware { return false; }
      if configurationKnown {
        supports := ProcessUsesTPRO(hardware, true, enforced, false);
      } else {
        var confirmed := ProbeProcessTPRO();
        supports := ProcessUsesTPRO(hardware, false, false, confirmed);
      }
    }

    method ThreadCanWriteTPRO() returns (can: bool)
      requires Valid()
      modifies this`tproOpen, this`unopened
      ensures tproOpen == old(tproOpen) && unopened >= old(unopened)
      ensures can == tproOpen
    {
      can := SupportsTPRO();
      can := can && tproOpen;
    }

    method BeginThreadTPROWrite()
      requires Valid()
      modifies this`tproOpen, this`unopened
      ensures unopened >= old(unopened)
      ensures tproOpen ==> enforced
      ensures enforced && unopened == old(unopened) ==> tproOpen
    {
      var supports := SupportsTPRO();
      if supports { WriteThreadTPROState(true); }
    }

    /** The window is closed on every path, although the guard itself may probe. */
    method EndThreadTPROWrite()
      requires Valid()
      modifies this`tproOpen, this`unopened
      ensures !tproOpen && unopened >= old(unopened)
    {
      var supports := SupportsTPRO();
      if supports { WriteThreadTPROState(false); }
    }

    /** Opens a window unless the caller already has one; `restore` asks for the matching close. */
    method AllowTPROWrites() returns (allowed: bool, restore: bool)
      requires Valid()
      modifies this`tproOpen, this`unopened
      ensures unopened >= old(unopened)
      ensures allowed ==> tproOpen && enforced
      ensures restore ==> allowed && !old(tproOpen)
      ensures !restore ==> tproOpen == old(tproOpen)
      ensures enforced && (old(tproOpen) || unopened == old(unopened)) ==> allowed
    {
      allowed, restore := false, false;
      var supports := SupportsTPRO();
      if !supports { return; }
      var open := ThreadCanWriteTPRO();
      if open { return true, false; }
      BeginThreadTPROWrite();
      open := ThreadCanWriteTPRO();
      if !open {
        EndThreadTPROWrite();
        return;
      }
      return true, true;
    }

    // ---- stores ----

    /**
     The hardware lets a store through to a gated page if the window is open, and to another if its
     protection says so.
     */
    predicate Permits(q: nat, open: bool)
      reads this`pages
    {
      if enforced && q in gated then open else q in pages && pages[q].write
    }

    /** Every page under a nonempty range permits the store. */
    predicate PermitsRange(address: nat, length: nat, open: bool)
      requires length > 0
      reads this`pages
    {
      forall q | PageOf(address, pageSize) <= q <= PageOf(address + length - 1, pageSize) :: Permits(q, open)
    }

    /** One store instruction sequence: it writes the bytes, or the process faults. */
    method Store(address: u64, data: seq<byte>)
      requires alive && |data| > 0 && Mapped(bytes, address, |data|)
      modifies this`bytes, this`alive, this`bareStores
      ensures alive == old(PermitsRange(address, |data|, tproOpen))
      ensures bytes == if alive then WriteAt(old(bytes), address, data) else old(bytes)
      ensures bareStores == old(bareStores) + if tproOpen then 0 else 1
    {
      if !tproOpen { bareStores := bareStores + 1; }
      if PermitsRange(address, |data|, tproOpen) {
        bytes := WriteAt(bytes, address, data);
      } else {
        alive := false;
      }
    }

    ghost predicate PageStart(address: nat, page: nat) {
      address > 0 && pageSize > 0 && address == pageSize * page
    }

    lemma WholePage(address: nat, page: nat)
      requires PageStart(address, page)
      ensures PageOf(address, pageSize) == page == PageOf(address + pageSize - 1, pageSize)
    {
      PageUnique(address, pageSize, page, 0);
      PageUnique(address + pageSize - 1, pageSize, page, pageSize - 1);
    }

    /** Both pages are attempted: each page left unrestored accounts for a refusal of its own. */
    method RestorePointerPageProtections(firstPage: u64, lastPage: u64, spansPages: bool,
                                         firstProtection: Protection, lastProtection: Protection, ghost first: nat,
                                         ghost last: nat)
      returns (restored: bool, ghost firstOk: bool, ghost lastOk: bool)
      requires PageStart(firstPage, first) && PageStart(lastPage, last) && first in pages && last in pages
      modifies this`pages, this`refusals
      ensures restored == (firstOk && lastOk)
      ensures pages == PutBackEach(old(pages), first, last, spansPages, firstProtection, lastProtection, firstOk,
                                   lastOk)
      ensures |refusals| == |old(refusals)| + (if firstOk then 0 else 1) + (if lastOk then 0 else 1)
      ensures !spansPages ==> lastOk
      ensures old(Valid()) ==> Valid()
    {
      WholePage(firstPage, first);
      WholePage(lastPage, last);
      var firstResult := ProtectMemory(firstPage, pageSize, firstProtection);
      var lastResult := Success;
      if spansPages {
        lastResult := ProtectMemory(lastPage, pageSize, lastProtection);
      }
      firstOk, lastOk := firstResult == Success, lastResult == Success;
      restored := firstResult == Success && lastResult == Success;
    }

    // ---- the protected pointer store ----

    function FirstPage(slot: nat): nat {
      PageOf(slot, pageSize)
    }

    function LastPage(slot: nat): nat {
      PageOf(slot + 7, pageSize)
    }

    /**
     What a request must satisfy for a cooperative kernel to carry it out. A slot touches more than two pages only
     if they are smaller than it is; then all but the last have to be alike.
     */
    ghost predicate Storable(slot: u64, protection: Protection)
      reads this`pages
    {
      && slot + 7 < TWO_64 && protection.write && IsPowerOfTwo(pageSize) && FirstPage(slot) > 0
      && Readable(slot) && Readable(slot + 7)
      && forall q | FirstPage(slot) < q < LastPage(slot) :: q in pages && pages[q] == pages[FirstPage(slot)]
    }

    lemma SlotGeometry(slot: u64)
      requires IsPowerOfTwo(pageSize) && slot + 7 < TWO_64
      ensures var first, last := RoundDown(slot, pageSize), RoundDown(slot + 7, pageSize);
              && first == pageSize * FirstPage(slot) <= slot && last == pageSize * LastPage(slot) <= slot + 7
              && PageOf(first, pageSize) == FirstPage(slot) && PageOf(last, pageSize) == LastPage(slot)
              && (first == last <==> FirstPage(slot) == LastPage(slot)) && first <= last
              && (first != last ==> slot < last)
              && PageOf(last + pageSize - 1, pageSize) == LastPage(slot)
              && FirstPage(slot) <= LastPage(slot)
    {
      var f, l := FirstPage(slot), LastPage(slot);
      RoundDownIs(slot, pageSize);
      RoundDownIs(slot + 7, pageSize);
      PageUnique(pageSize * f, pageSize, f, 0);
      PageUnique(pageSize * l, pageSize, l, 0);
      PageUnique(pageSize * l + pageSize - 1, pageSize, l, pageSize - 1);
      PageMonotone(slot, slot + 7, pageSize);
      PageBounds(slot, pageSize);
      if f < l { Times(pageSize, l, f); }
    }

    /** The size handed to the kernel fits, and covers the slot's pages exactly. */
    lemma ProtectRange(firstPage: u64, first: nat, lastPage: u64, last: nat)
      requires PageStart(firstPage, first) && PageStart(lastPage, last) && first <= last
      ensures 0 < firstPage <= lastPage && 0 < pageSize && lastPage - firstPage + pageSize < TWO_64
      ensures PageOf(firstPage, pageSize) == first
      ensures PageOf(firstPage + (lastPage - firstPage + pageSize) - 1, pageSize) == last
    {
      Times(pageSize, first, 0);
      if first < last { Times(pageSize, last, first); }
      WholePage(firstPage, first);
      WholePage(lastPage, last);
    }

    /** The first piece of a slot that spans pages ends one page before the last. */
    lemma SplitSlot(slot: u64, lastPage: nat)
      requires FirstPage(slot) < LastPage(slot) && lastPage == pageSize * LastPage(slot) && slot < lastPage
      ensures PageOf(lastPage - 1, pageSize) == LastPage(slot) - 1
    {
      PageUnique(lastPage - 1, pageSize, LastPage(slot) - 1, pageSize - 1);
    }

    /** What the two pieces of a slot ask of its pages. */
    lemma PiecesUniform(slot: u64, lastPage: nat)
      requires FirstPage(slot) < LastPage(slot) && lastPage == pageSize * LastPage(slot) && slot < lastPage <= slot + 7
      requires PageOf(lastPage, pageSize) == LastPage(slot)
      ensures Readable(slot) ==>
                (Uniform(slot, lastPage - 1) <==>
                 forall q | FirstPage(slot) < q < LastPage(slot) :: q in pages && pages[q] == pages[FirstPage(slot)])
      ensures Readable(slot + 7) ==> Uniform(lastPage, slot + 7)
    {
      SplitSlot(slot, lastPage);
    }

    lemma PieceUniform(slot: u64)
      requires FirstPage(slot) == LastPage(slot) && Readable(slot)
      ensures Uniform(slot, slot + 7)
    {
    }

    lemma NullPage()
      ensures PageOf(0, pageSize) == 0
    {
    }

    lemma ReadableAlike(a: nat, b: nat)
      requires PageOf(a, pageSize) == PageOf(b, pageSize)
      ensures Readable(a) <==> Readable(b)
    {
    }

    lemma ReadableSlot(slot: u64)
      requires Valid() && forall a: nat | slot <= a < slot + 8 :: Readable(a)
      ensures Mapped(bytes, slot, 8) && Readable(slot) && Readable(slot + 7)
      ensures FirstPage(slot) in pages && LastPage(slot) in pages
    {
      forall a | slot <= a < slot + 8 ensures a in bytes { assert Readable(a); }
      assert Readable(slot + 7);
    }

    /** Whether the store would fault, given what was answered so far. */
    lemma FaultsExactly(before: PageMap, first: nat, last: nat, p: Protection, did: Attempt)
      requires did.Stores() && (did.windowOpen ==> did.reported) && (did.reported ==> enforced) && p.write
      requires did.granted ==> forall q | first <= q <= last :: q in before
      requires pages == if did.granted then Protected(before, first, last, p) else before
      ensures (forall q | first <= q <= last :: Permits(q, did.reported))
              <==> !StoreFaults(did, enforced, gated, before, first, last)
    {
      if did.granted {
        forall q | first <= q <= last ensures q in pages && pages[q].write { GrantedPage(before, first, last, p, q); }
      }
      if !StoreFaults(did, enforced, gated, before, first, last) {
        forall q | first <= q <= last ensures Permits(q, did.reported) {
        }
      } else if did.reported && !did.granted {
        var q :| first <= q <= last && q !in gated && !(q in before && before[q].write);
        assert !Permits(q, did.reported);
      } else {
        var q :| first <= q <= last && q in gated;
        assert !Permits(q, did.reported);
      }
    }

    lemma GrantedPage(before: PageMap, first: nat, last: nat, p: Protection, q: nat)
      requires p.write && first <= q <= last && q in before
      ensures q in Protected(before, first, last, p) && Protected(before, first, last, p)[q].write
    {
    }

    /**
     The store itself, inside a write window when TPRO is reported. If it does not fault, the window is
     as before afterwards.
     */
    method WriteInWindow(slot: u64, value: u64, result: KernReturn)
      returns (writeCompleted: bool, ghost reported: bool, ghost windowOpen: bool)
      requires Valid() && alive && Mapped(bytes, slot, 8)
      modifies this`bytes, this`tproOpen, this`unopened, this`bareStores, this`alive
      ensures Valid() && unopened >= old(unopened)
      ensures Possible(Attempt(result == Success, reported, windowOpen, true, true), enforced, old(tproOpen),
                       configurationKnown, unopened == old(unopened))
      ensures writeCompleted == if reported then windowOpen else result == Success
      ensures alive == (writeCompleted ==> old(PermitsRange(slot, 8, reported)))
      ensures bytes == if writeCompleted && alive then WriteAt(old(bytes), slot, U64Bytes(value)) else old(bytes)
      ensures bareStores == old(bareStores) + if writeCompleted && !reported then 1 else 0
      ensures alive ==> tproOpen == old(tproOpen)
    {
      hide PageOf, WriteAt, Mapped, MappedByPages, PermitsRange;
      var supportsTPRO := SupportsTPRO();
      var windowOpened, restoreReadOnly := false, false;
      if supportsTPRO {
        windowOpened, restoreReadOnly := AllowTPROWrites();
      }
      writeCompleted := ProtectedPointerWriteIsAvailable(result, supportsTPRO, windowOpened);
      reported, windowOpen := supportsTPRO, windowOpened;
      if writeCompleted {
        assert tproOpen == reported;
        Store(slot, U64Bytes(value));
        if !alive { return; }
      }
      if restoreReadOnly {
        EndThreadTPROWrite();
      }
    }

    /** The pages as they are when the store is reached, and the answers so far, decide whether it faults. */
    lemma StoreDecided(before: PageMap, first: nat, last: nat, p: Protection, did: Attempt, slot: u64)
      requires did.Stores() && (did.windowOpen ==> did.reported) && (did.reported ==> enforced) && p.write
      requires did.granted ==> forall q | first <= q <= last :: q in before
      requires pages == if did.granted then Protected(before, first, last, p) else before
      requires first == FirstPage(slot) && last == LastPage(slot)
      ensures PermitsRange(slot, 8, did.reported) <==> !StoreFaults(did, enforced, gated, before, first, last)
    {
      hide Protected, StoreFaults, PageOf;
      FaultsExactly(before, first, last, p, did);
    }

    lemma NoStoreNoFault(did: Attempt, before: PageMap, first: nat, last: nat)
      requires !did.Stores()
      ensures !StoreFaults(did, enforced, gated, before, first, last)
    {
    }

    lemma SameFaults(did: Attempt, other: Attempt, before: PageMap, first: nat, last: nat)
      requires did.granted == other.granted && did.reported == other.reported && did.windowOpen == other.windowOpen
      ensures StoreFaults(did, enforced, gated, before, first, last)
              == StoreFaults(other, enforced, gated, before, first, last)
    {
    }

    /** A granted attempt that did not fault and has put back what it could. */
    lemma Ended(before: map<int, byte>, pagesBefore: PageMap, slot: u64, value: u64, first: nat, last: nat,
                p: Protection, stored: Attempt, did: Attempt, ok: bool)
      requires stored.granted && did == stored.(firstOk := did.firstOk, lastOk := did.lastOk)
      requires first in pagesBefore && last in pagesBefore
      requires !StoreFaults(stored, enforced, gated, pagesBefore, first, last)
      requires bytes == if stored.Stores() then WriteAt(before, slot, U64Bytes(value)) else before
      requires ok == (stored.Stores() && did.Unrestored() == 0) && (first == last ==> did.lastOk)
      requires pages == PutBackEach(Protected(pagesBefore, first, last, p), first, last, first != last,
                                    pagesBefore[first], pagesBefore[last], did.firstOk, did.lastOk)
      ensures Outcome(enforced, gated, before, bytes, pagesBefore, pages, slot, value, first, last, p, did, ok, true,
                      did.Unrestored())
    {
      hide PutBackEach, StoreFaults, WriteAt, Outcome;
      SameFaults(stored, did, pagesBefore, first, last);
      GrantedOutcome(enforced, gated, before, bytes, pagesBefore, slot, value, first, last, p, did, ok);
    }

    /** The store, and whether it faults in terms of the protections before the request. */
    method WriteDecided(slot: u64, value: u64, result: KernReturn, ghost before: PageMap, ghost first: nat,
                        ghost last: nat, ghost p: Protection)
      returns (writeCompleted: bool, ghost did: Attempt)
      requires Valid() && alive && Mapped(bytes, slot, 8) && p.write && first == FirstPage(slot)
               && last == LastPage(slot)
      requires result == Success ==> forall q | first <= q <= last :: q in before
      requires pages == if result == Success then Protected(before, first, last, p) else before
      modifies this`bytes, this`tproOpen, this`unopened, this`bareStores, this`alive
      ensures Valid() && unopened >= old(unopened)
      ensures did.granted == (result == Success) && did.firstOk && did.lastOk && writeCompleted == did.Stores()
      ensures Possible(did, enforced, old(tproOpen), configurationKnown, unopened == old(unopened))
      ensures alive <==> !StoreFaults(did, enforced, gated, before, first, last)
      ensures bytes == if did.Stores() && alive then WriteAt(old(bytes), slot, U64Bytes(value)) else old(bytes)
      ensures alive ==> tproOpen == old(tproOpen)
      ensures bareStores == old(bareStores) + if did.granted && !did.reported then 1 else 0
    {
      hide PageOf, Protected, WriteAt, StoreFaults, Valid, Mapped, Permits, PermitsRange;
      ghost var reported, windowOpen;
      writeCompleted, reported, windowOpen := WriteInWindow(slot, value, result);
      did := Attempt(result == Success, reported, windowOpen, true, true);
      if writeCompleted {
        StoreDecided(before, first, last, p, did, slot);
      } else {
        NoStoreNoFault(did, before, first, last);
      }
    }

    /** How a granted request ends once the store has not faulted. */
    method PutBack(firstPage: u64, lastPage: u64, firstOriginal: Protection, lastOriginal: Protection,
                   writeCompleted: bool, ghost first: nat, ghost last: nat, ghost before: PageMap, ghost p: Protection,
                   ghost did: Attempt)
      returns (ok: bool, ghost ended: Attempt)
      requires Valid() && PageStart(firstPage, first) && PageStart(lastPage, last)
               && (firstPage == lastPage <==> first == last)
      requires first in before && last in before && firstOriginal == before[first] && lastOriginal == before[last]
      requires pages == Protected(before, first, last, p) && did.granted && writeCompleted == did.Stores()
      modifies this`pages, this`refusals
      ensures Valid() && ended == did.(firstOk := ended.firstOk, lastOk := ended.lastOk)
      ensures pages == PutBackEach(Protected(before, first, last, p), first, last, first != last, before[first],
                                   before[last], ended.firstOk, ended.lastOk)
      ensures ok == (did.Stores() && ended.Unrestored() == 0) && (first == last ==> ended.lastOk)
      ensures |refusals| == |old(refusals)| + ended.Unrestored()
    {
      hide PageOf, PutBackEach, Protected, Valid, PageStart;
      ProtectedKeeps(before, first, last, p);
      ghost var firstOk, lastOk;
      var restored;
      restored, firstOk, lastOk := RestorePointerPageProtections(
        firstPage, lastPage, firstPage != lastPage, firstOriginal, lastOriginal, first, last);
      ok, ended := writeCompleted && restored, did.(firstOk := firstOk, lastOk := lastOk);
    }

    /** From the protection change to its undoing, once both pages and their protections are known. */
    method StoreOnPages(slot: u64, value: u64, protection: Protection, firstPage: u64, lastPage: u64,
                        firstOriginal: Protection, lastOriginal: Protection, ghost first: nat, ghost last: nat)
      returns (ok: bool, ghost did: Attempt)
      requires Valid() && alive && Mapped(bytes, slot, 8) && protection.write
      requires first == FirstPage(slot) && last == LastPage(slot) && first <= last
               && (firstPage == lastPage <==> first == last)
      requires PageStart(firstPage, first) && PageStart(lastPage, last)
      requires first in pages && pages[first] == firstOriginal && last in pages && pages[last] == lastOriginal
      modifies this`bytes, this`pages, this`tproOpen, this`alive, this`refusals, this`unopened, this`bareStores
      ensures Valid() && unopened >= old(unopened)
      ensures Possible(did, enforced, old(tproOpen), configurationKnown, unopened == old(unopened))
      ensures Outcome(enforced, gated, old(bytes), bytes, old(pages), pages, slot, value, first, last, protection, did,
                      ok, alive, |refusals| - |old(refusals)|)
      ensures alive ==> tproOpen == old(tproOpen)
      ensures bareStores == old(bareStores) + if did.granted && !did.reported then 1 else 0
    {
      hide PageOf, PutBackEach, Protected, WriteAt, StoreFaults, Valid, Mapped, PageStart, Outcome, Possible,
           MappedByPages;
      ProtectRange(firstPage, first, lastPage, last);
      var protectSize := lastPage - firstPage + pageSize;
      var result := ProtectMemory(firstPage, protectSize, protection);
      assert |refusals| == |old(refusals)| + if result == Success then 0 else 1;
      var writeCompleted;
      writeCompleted, did := WriteDecided(slot, value, result, old(pages), first, last, protection);
      ok := writeCompleted;
      if !alive {
        FaultOutcome(enforced, gated, bytes, old(pages), pages, slot, value, first, last, protection, did, ok,
                     |refusals| - |old(refusals)|);
        return;
      }
      if result != Success {
        RefusedOutcome(enforced, gated, old(bytes), bytes, pages, slot, value, first, last, protection, did);
        return;
      }
      ghost var stored := did;
      ok, did := PutBack(firstPage, lastPage, firstOriginal, lastOriginal, writeCompleted, first, last, old(pages),
                         protection, stored);
      SamePossible(stored, did, enforced, old(tproOpen), configurationKnown, unopened == old(unopened));
      Ended(old(bytes), old(pages), slot, value, first, last, protection, stored, did, ok);
    }

    /** The attempt, as a transaction and, under a cooperative environment, a success. */
    method Attempted(slot: u64, value: u64, protection: Protection, firstPage: u64, lastPage: u64,
                     firstOriginal: Protection, lastOriginal: Protection)
      returns (ok: bool, ghost did: Option<Attempt>)
      requires Valid() && alive && Mapped(bytes, slot, 8) && protection.write
      requires FirstPage(slot) <= LastPage(slot) && (firstPage == lastPage <==> FirstPage(slot) == LastPage(slot))
      requires PageStart(firstPage, FirstPage(slot)) && PageStart(lastPage, LastPage(slot))
      requires FirstPage(slot) in pages && pages[FirstPage(slot)] == firstOriginal
      requires LastPage(slot) in pages && pages[LastPage(slot)] == lastOriginal
      modifies this`bytes, this`pages, this`tproOpen, this`alive, this`refusals, this`unopened, this`bareStores
      ensures Valid() && HistoryGrows() && did.Some?
      ensures Possible(did.value, enforced, old(tproOpen), configurationKnown, unopened == old(unopened))
      ensures Outcome(enforced, gated, old(bytes), bytes, old(pages), pages, slot, value, FirstPage(slot),
                      LastPage(slot), protection, did.value, ok, alive, |refusals| - |old(refusals)|)
      ensures bareStores == old(bareStores) + if did.value.granted && !did.value.reported then 1 else 0
      ensures alive ==>
                && Transaction(old(bytes), bytes, old(pages), pages, slot, value, FirstPage(slot), LastPage(slot),
                               protection, ok, did.value.Unrestored())
                && tproOpen == old(tproOpen)
      ensures Cooperated() ==> alive && ok
    {
      hide PageOf, WriteAt, Transaction, Mapped, PageStart, Protected, PutBackEach;
      assert NoCopies(pages);
      hide Valid, NoCopies;
      ghost var attempt;
      ok, attempt := StoreOnPages(slot, value, protection, firstPage, lastPage, firstOriginal, lastOriginal,
                                  FirstPage(slot), LastPage(slot));
      did := Some(attempt);
      if alive {
        EffectIsTransaction(old(bytes), bytes, old(pages), pages, slot, value, FirstPage(slot), LastPage(slot),
                            protection, attempt, ok);
      }
    }

    /**
     The protected pointer store, whatever the kernel and the hardware answer. A request that fails a
     check changes nothing. One that passes them all is attempted: unless the store faults, the attempt
     is a transaction that leaves the write window as it was; and a store is made with the window closed
     exactly if the request was granted and TPRO was not reported. A cooperative environment carries out
     exactly the storable requests.
     */
    method StoreProtectedPointer(slot: u64, value: u64, protection: Protection)
      returns (ok: bool, ghost did: Option<Attempt>)
      requires Valid() && alive
      modifies this
      ensures Valid() && HistoryGrows()
      ensures did.None? ==> !ok && alive && bytes == old(bytes) && pages == old(pages) && tproOpen == old(tproOpen)
                            && |refusals| == |old(refusals)| && bareStores == old(bareStores)
      ensures did.Some? ==>
                && old(Storable(slot, protection))
                && Possible(did.value, enforced, old(tproOpen), configurationKnown, unopened == old(unopened))
                && Outcome(enforced, gated, old(bytes), bytes, old(pages), pages, slot, value, FirstPage(slot),
                           LastPage(slot), protection, did.value, ok, alive, |refusals| - |old(refusals)|)
                && bareStores == old(bareStores) + (if did.value.granted && !did.value.reported then 1 else 0)
      ensures did.Some? && alive ==>
                && Transaction(old(bytes), bytes, old(pages), pages, slot, value, FirstPage(slot), LastPage(slot),
                               protection, ok, did.value.Unrestored())
                && tproOpen == old(tproOpen)
      ensures Cooperated() ==> alive && (ok <==> old(Storable(slot, protection)))
    {
      hide PageOf, RoundDown, And, WriteAt, Valid, Transaction, Mapped, Readable, Uniform, Outcome, Effect, StoreFaults;
      ok, did := false, None;
      if slot == 0 || !protection.write {
        assert !Storable(slot, protection) by { NullPage(); }
        return;
      }
      if !IsPowerOfTwo(pageSize) { return; }
      var slotEnd := (slot + 7) % TWO_64;
      if slotEnd < slot { return; }

      var firstPage, lastPage := RoundDown(slot, pageSize), RoundDown(slotEnd, pageSize);
      SlotGeometry(slot);
      if firstPage != lastPage {
        PiecesUniform(slot, lastPage);
      } else if Readable(slot) {
        PieceUniform(slot);
      }
      ReadableAlike(slot, firstPage);
      ReadableAlike(slot + 7, lastPage);
      var spansPages := firstPage != lastPage;
      var firstPageBytes := if spansPages then lastPage - slot else 8;
      var lastPageBytes := 8 - firstPageBytes;
      var readable := MemoryIsReadable(slot, firstPageBytes);
      if !readable { return; }
      if spansPages {
        readable := MemoryIsReadable(lastPage, lastPageBytes);
        if !readable { return; }
      }
      ReadableSlot(slot);

      var firstOriginal := MemoryProtection(firstPage);
      if firstOriginal.None? { return; }
      var lastOriginal := firstOriginal;
      if spansPages {
        lastOriginal := MemoryProtection(lastPage);
        if lastOriginal.None? { return; }
      }
      ok, did := Attempted(slot, value, protection, firstPage, lastPage, firstOriginal.value, lastOriginal.value);
    }
  }
}
