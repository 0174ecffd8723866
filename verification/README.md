# RorkHook, modelled and verified in Dafny

RorkHook patches running code on Apple arm64 systems: it rebinds symbol-pointer slots of loaded
images, process-wide and for images yet to come, detours functions, finds private symbols in loaded
images, in files and in the dyld shared cache, and writes pointers into protected memory. This project
models that logic and proves what it promises. Every source path below is in the RorkHook repository.

| module | what it models |
|---|---|
| `Registry`, `RegistrySafety`, `RegistryValues`, `RegistryTheorems` | the global rebind protocol as an interleaved step system, its invariants, and the theorems over all runs |
| `RegistryRuns`, `RegistryRaces`, `LoaderLock` | runs written out: a registration with a filter, and a race that a no-op registration wins; and dyld's loader lock laid over the step system |
| `SlotAlgebra` | sequences of rebinds as maps on slot values |
| `Rebind`, `RebindImages`, `RebindOrder` | the scan that rewrites one image's slots in memory, what it does in terms of the image's sections, and sequences of such scans |
| `Memory`, `Pages` | pages, protections, the thread's TPRO window and the protected pointer store |
| `PageRace` | protected pointer stores of several threads to one page |
| `Detour`, `Pointers` | the emitted jump, its execution, and the patching of a function |
| `A64`, `Arm64`, `Bits` | an interpreter and assembler for the instructions involved (Arm Architecture Reference Manual for A-profile, DDI 0487, section C6.2), the library's mask-and-shift helpers, and the laws of masks and shifts |
| `LoadCommands`, `SymbolTables`, `Symbols`, `SymbolsAgree` | Mach-O load commands, nlist tables, the live and the file symbol resolver, and their agreement |
| `Images`, `ImageWriter` | what load commands stand for, how they are written and read back, and an encoder for images with symbols |
| `SharedCache`, `CacheEncoding`, `CacheWriter`, `Layout` | the shared-cache resolver, what bytes hold a cache, and an encoder for every layout |
| `Words`, `Wrappers`, `Runs` | bytes, machine words, memory as a map from addresses to bytes, optional results, runs of a step relation |

## How to read the model

**The registry.** A state holds the list nodes, the head, every call with its program counter, the
once token, the images dyld has loaded with their slots, and the scans under way. One `Step` is one
atomic action of one actor: allocating, loading the head, linking, the weak compare-and-exchange
(which may fail spuriously), waiting at or running the once block, counting, one turn of the
enumeration, dyld loading an image, one turn of the callback's list walk, reading one slot, storing one
slot (which may be refused). Any number of calls and images interleave arbitrarily. The model assumes
sequential consistency, no image unload and pure filters, so a filter is the set of headers it accepts.
Nodes are never freed, so a node is named by the call that allocated it. Fields documented as history
variables are read by no step. The environment is a little freer than dyld: the call in the once block may schedule the callback for any of
the loaded images, before or after it installs the callback and in any order, and theorems speak of images
whose callback has finished or which the enumeration counted.

The theorems about slot values ask that an image's eligible rewrites be `SlotAlgebra.Compatible`: one replacement
for one replacee, and no replacement rewritten further. Where rebinds run one after another, registrations of a
function as its own replacement do not matter and can be left out of that condition, which is then exact
(`SlotAlgebra.OrderIrrelevantIff`). Where they race they do matter: `RegistryRaces.StaleNoOpUndoes` is a run in which
the late store of such a registration takes another rebind back. Under races too the condition is exact: rewrites
that are not compatible cannot all take effect (`SlotAlgebra.CompatibleExactly`, `RegistryTheorems.AllTakeEffectExactly`).

**The loader lock.** In `Registry` a step waits only for what this code waits for: the once block. `LoaderLock` adds
dyld's recursive loader lock. A load holds it until the image's callback is over; installing the callback holds it while
the loaded images are visited, and the visits follow the installation. All callbacks run on the thread that holds the
lock. A registration may begin on that thread: in a filter that the callback or a call there is asking, or in what dyld
runs for the image besides this callback. It suspends whatever the thread was doing until it returns, and a further one may
suspend it in turn. Forgetting the lock leaves a run of `Registry` (`LoaderLock.Projected`), so all theorems carry over.

The thread that holds the lock is stuck exactly if it is wedged: the call it is working on waits for a once block that is
running. A wedged thread keeps the lock for ever, and unless there is one, whatever is to be finished can go on. What
decides is the once token at the moment a registration begins under the lock. Once the block is over, it is safe. While the
block is running, the registration never succeeds: it fails before the once block or wedges its thread, as a filter does that
registers while the once block visits an image. Before the block has started it may go either way, and both ways
are reachable.

**The machine.** `Memory.Machine` is one process seen by one thread: mapped bytes, the protection of
every page, the TPRO bit, whether the process is still alive, and constants that say what the hardware and the kernel
support and which pages TPRO gates. The kernel may refuse any request and may report any truthful region, however
finely divided; a refused protection change changes nothing, which the source assumes at
`Sources/RorkHook/RorkHookMemory.c:306-310`. Writing the TPRO enable value may fail to open the window; in a process
without TPRO it never does. Four history variables, read by no operation, record what happened: `refusals` lists
the kernel's codes for refused protection requests, oldest first, `unopened` counts writes of the enable value that were not
obeyed, `shortAnswers` region queries answered with less than the whole uniform stretch, and `bareStores` stores attempted
with the window closed. A cooperative environment (`Cooperated`) leaves the first three as they were.

`Store` is the store instruction, and the hardware decides about it: where TPRO is enforced, a gated page lets it through
exactly if the window is open; any other page exactly if its protection allows writing. Otherwise the process faults: `alive`
becomes false and nothing that follows in the code happens. Nothing about the environment is assumed in order to store.

**When a pointer store faults.** The code takes an open window or a granted request as sufficient, and either may not
be. `Memory.StoreFaults` is the exact condition, in terms of the answers and of the pages before the request: TPRO is
reported, the request was refused, and some page that TPRO does not gate is not writable as it stands; or TPRO is
enforced and not reported, the request was granted, and some page is gated. The first case is that of a read-only page
outside TPRO (`Memory.OrdinaryPageFaults`); the second needs an unknown configuration, a closed window and a probe that
was not obeyed (`Memory.UnseenEnforcementFaults`). Where TPRO is enforced, a store is
made with the window closed exactly if the request was granted and TPRO not reported, which needs the same. A detour opens no window, so it faults exactly at a gated page behind a closed window.
A caller can rule both cases out beforehand: `Memory.NeverFaultsExactly` says when no answer at all makes the store fault.

**Stores that race.** `Machine` is one thread. Two threads that store to slots on one page, as the registering threads and the
callbacks of the registry may, do not exclude each other, and what one puts back is not what the other relies on. `PageRace`
models their four actions on the page, with every request granted. One may read the protection that the other put there
for a moment and leave it there for good, although both report success (`PageRace.LeftWritable`); one may close
the page before the other has stored, which then faults (`PageRace.ClosedTooSoon`). Which orders of two stores are
harmless is characterised exactly, and stores that do not overlap are safe in any number.

**Small pages.** The page-restoring argument needs at most two touched pages, while the code only tests for a
power of two. The contracts therefore speak of `last <= first + 1`; `Memory.AtMostTwoPages` proves that this holds
for every slot exactly when pages hold eight bytes, and `Memory.SmallPagesStayWritable` shows a four-byte page
size leaving a middle page writable.

**Images and caches.** Byte strings are also described by what they stand for, apart from the code that reads them. `Images`
writes load commands for segments with sections, symbol tables and foreign commands, in any order and number; an
executable's `__PAGEZERO` is a segment without file content. A file begins with them and holds anything else behind.
`CacheWriter` writes caches in every layout with arbitrary bytes in the rest of the header, before every table, and
behind the local-symbol region, where a code signature would be. `SharedCache.Denotes` states the answer to a cache lookup in
the words of the two files alone, and `LoadCommands.CommandsExactly` the load commands in those of the image.

**Results.** A lookup that returns NULL is `None`. The code cannot tell a symbol at address zero from a failure; the
model can, and its callers' view is the model's with `Some(0)` read as NULL.

**Where the code and its comments differ.** The shared-cache resolver chooses the image table by whether the header
words at offsets 448 and 452 are both nonzero, not by the header's length. A legacy cache round-trips only if one of
those words is zero or both are the table's own: `CacheWriter.ImageTableExactly` gives the exact condition and
`CacheWriter.ZeroWordNeeded` shows it is needed. The ADRP pair decoders accept register number 31, where ADRP writes nowhere:
`Arm64.ADRPThenADD`, `Arm64.ADRPThenLDR` and `Arm64.ADRPThenLDUR` prove that the decoded sum is the register's value or the
address read for every machine state exactly below register 31. `Sources/RorkHook/include/RorkHookMemory.h:80` asks callers to pair the TPRO window with a protection
change on read-only targets, while the pointer store goes on with the window alone when that change was refused.

## Model

| member | source | states |
|---|---|---|
| RegistrySafety.InvStep | Sources/RorkHook/RorkHookRebind.c:235-311 | every step of every actor keeps the invariant that ties list, calls, once token, callbacks, scans and history together, and only extends what was there |
| RegistrySafety.NoReuse | Sources/RorkHook/RorkHookRebind.c:284-293 | no ABA: a head equal to the expected one means that nothing was published since it was read |
| RegistryTheorems.RunInvariant | Sources/RorkHook/RorkHookRebind.c:249-310 | the invariant holds in every state of every run from the empty registry |
| RegistryTheorems.RunExtends | Sources/RorkHook/RorkHookRebind.c:200-211 | along a run, published entries, their fields and the loaded images are never taken back or altered |
| RegistryTheorems.Coverage | Sources/RorkHook/RorkHookRebind.c:249-310 | once a registration has returned true, its entry has been applied to an image that it counted or whose callback has finished exactly if the image is not its source and there is no filter or the filter accepts the image |
| RegistryTheorems.NeverAppliedToExcluded | Sources/RorkHook/RorkHookRebind.c:221-233 | in no reachable state has an entry been applied to its source image or to a rejected image |
| RegistryTheorems.QuiescentCoverage | Sources/RorkHook/RorkHookRebind.c:299-309 | with nothing under way, the entry of every successful registration has been applied to exactly those loaded images that are not its source and that its filter, if there is one, accepts |
| RegistryRuns.FilterHonoured | Sources/RorkHook/RorkHookRebind.c:221-246 | a reachable state at rest: a registration of 1 as 2 whose filter accepts images 9 and 10 has rewritten the slots of image 9, which it counted, and of image 10, which was loaded later, and has left image 8 alone |
| RegistryTheorems.FailsExactly | Sources/RorkHook/RorkHookRebind.c:255-282 | a call fails exactly if it names no replacee, no replacement or one that no image defines, or if its allocation fails; otherwise what it was called with is what is registered |
| RegistryTheorems.EligibleRewritesAre | Sources/RorkHook/RorkHookRebind.c:221-233 | the eligible rewrites of an image are those published by calls whose source it is not and whose filter, if there is one, accepts it |
| RegistryTheorems.ListRefinesHistory | Sources/RorkHook/RorkHookRebind.c:241-246 | the walk from the head terminates and meets every published entry once, newest first: the list is the reversed append-only history |
| RegistryTheorems.SnapshotIsSuffix | Sources/RorkHook/RorkHookRebind.c:241-246 | a head read at one time still lists the same entries in every later state, and they are the tail of the later list |
| RegistryTheorems.LostExchangesAreOthersPushes | Sources/RorkHook/RorkHookRebind.c:284-293 | a call loses the exchange, spurious failures aside, at most once for each entry that others publish during it |
| RegistryValues.ValuesStep | Sources/RorkHook/RorkHookRebind.c:95-129 | with compatible eligible rewrites, every step keeps the relation between an image's slots, what dyld bound, and the scans applied or under way |
| RegistryTheorems.RegistrationTakesEffect | Sources/RorkHook/RorkHookRebind.c:249-310 | after a successful return, in every covered image that is not the source and that the filter, if there is one, accepts, with compatible rewrites, the slots bound to the replacee hold the replacement and none shows the replacee, unless it is its own replacement or a store was refused, even while other scans race |
| RegistryTheorems.AllTakeEffectExactly | Sources/RorkHook/RorkHookRebind.c:237-309 | at rest, in an image that binds a slot to each eligible replacee, all eligible registrations have taken effect at all slots exactly if their rewrites are compatible, whatever raced |
| RegistryTheorems.QuiescentSlots | Sources/RorkHook/RorkHookRebind.c:237-309 | at rest every slot holds what its image's eligible entries make of the value dyld bound, whoever applied them, in whatever order and how often |
| RegistryTheorems.LoadOrderIsInvisible | Sources/RorkHook/RorkHookRebind.c:237-309 | at rest, images loaded before and after registrations that have the same eligible compatible entries hold equal slots |
| RegistryTheorems.NeverStuck | Sources/RorkHook/RorkHookRebind.c:284-309 | in every reachable state with something under way some guard of the protocol lets an actor move, the loader lock aside |
| RegistryRaces.StaleNoOpUndoes | Sources/RorkHook/RorkHookRebind.c:95-129 | compatibility is needed where scans race: a reachable state at rest in which a registration of 1 as 1 has taken back that of 1 as 2, with no store refused |
| LoaderLock.Projected | Sources/RorkHook/RorkHookRebind.c:200-211 | the loader lock only restricts the registry: every run under it is a run of the step system |
| LoaderLock.LockStep | Sources/RorkHook/RorkHookRebind.c:298-303 | every move keeps the lock's invariant: callbacks under way belong to the load that holds the lock or to a once block on its thread, the owner of an installed once block is on that thread, and the calls suspended there are unreturned and distinct |
| LoaderLock.HolderStuckExactly | Sources/RorkHook/RorkHookRebind.c:284-309 | in every reachable state, the thread that holds the loader lock can go on exactly unless the call it is working on waits for a running once block |
| LoaderLock.ProgressUnlessWedged | Sources/RorkHook/RorkHookRebind.c:284-309 | in every reachable state with something to finish and no wedged holder, some thread under way can go on |
| LoaderLock.WedgedForever | Sources/RorkHook/RorkHookRebind.c:298-303 | a wedged thread stays wedged in every later state, with the same lock, the same suspended calls and the same once block |
| LoaderLock.BegunWhileRunningNeverSucceeds | Sources/RorkHook/RorkHookRebind.c:298-303 | a registration that begins under the lock while the once block runs has at no later time succeeded: it failed before the once block, or holds up its thread there with the once block as it was |
| LoaderLock.SafeAfterOnce | Docs/Safety.md:11-14 | if every registration under the lock begins after the once block is over, no reachable state is wedged and whatever is to be finished can go on |
| LoaderLock.BegunBeforeGoesEitherWay | Sources/RorkHook/RorkHookRebind.c:298-303 | from one reachable state with the once block not started, a registration begun under the lock can both return true and wedge its thread |
| LoaderLock.RegisteringFilterWedges | Sources/RorkHook/include/RorkHookRebind.h:36-38 | a filter that registers while the once block visits an image wedges its own thread in the middle of the callback's walk |
| SlotAlgebra.CommuteIff | Sources/RorkHook/RorkHookRebind.c:95-129 | the exact condition under which two rebinds commute on every slot value |
| SlotAlgebra.OrderAndMultiplicityIrrelevant | Sources/RorkHook/RorkHookRebind.c:237-309 | two sequences of the same rebinds, each used at least once, give every slot the same value, if those that change something are compatible |
| SlotAlgebra.OrderIrrelevantIff | Sources/RorkHook/RorkHookRebind.c:237-309 | for every set of rebinds, order and multiplicity are irrelevant exactly if those that change something have distinct replacees and no replacement that is a replacee |
| SlotAlgebra.CompatibleExactly | Sources/RorkHook/RorkHookRebind.c:95-129 | a set of rewrites can all take effect at once, whatever a slot was bound to, exactly if they are compatible |
| SlotAlgebra.DuplicateReplaceesDiverge | Sources/RorkHook/RorkHookRebind.c:241-246 | two replacements for one replacee: registration order and newest first give different slots |
| SlotAlgebra.ChainedRebindsDiverge | Sources/RorkHook/RorkHookRebind.c:241-246 | a chain A to B, B to C: registration order and newest first give different slots |
| SlotAlgebra.UndoIff | Sources/RorkHook/RorkHookRebind.c:95-129 | A to B and then B to A is the identity on a raw slot value exactly if it was not B |
| Rebind.RebindSlot | Sources/RorkHook/RorkHookRebind.c:95-129 | one slot is stored to with the right value, or nothing changes: because it is NULL or resolves elsewhere, or because the store failed or faulted; no page but its own changes, none at all unless a request was refused, and without TPRO nothing faults |
| Rebind.RebindRange | Sources/RorkHook/RorkHookRebind.c:95-130 | a scan changes only its section; each slot is rewritten or left alone, and rewritten exactly if it matches when the environment cooperates; a store that fails does not end the scan: each matching slot left alone stands for an uncooperative answer of its own; a page is as before, or was left with the temporary protection and holds a slot, and all are as before if no request was refused |
| Rebind.RebindSection | Sources/RorkHook/RorkHookRebind.c:60-130 | the same for a section, which is skipped when its data is missing, empty, misshapen or unreadable; if no query is answered short, only other uncooperative answers leave matching slots alone, one each |
| Rebind.RebindImageLoadCommand | Sources/RorkHook/RorkHookRebind.c:132-176 | the same for the lazy and non-lazy pointer sections of a segment command whose section records fit |
| Rebind.Compose | Sources/RorkHook/RorkHookRebind.c:166-174 | rebinding some sections and then others is the pointwise rebinding of all of them, provided their slots are disjoint |
| Rebind.RebindSymbolInImage | Sources/RorkHook/RorkHookRebind.c:179-196 | rebinding an image is a pointwise map over all slots of its pointer sections; no byte outside them changes, and no page that holds none of their slots |
| RebindImages.RangesAre | Sources/RorkHook/RorkHookRebind.c:60-176 | in any image that begins with given commands, the slots scanned are those of the lazy and non-lazy pointer sections, in order, at the data that the process has for the segment and section name, with those of `__auth_got` to be signed |
| RebindImages.CooperativeSections | Sources/RorkHook/RorkHookRebind.c:77-89 | every store can succeed exactly if it can in each pointer section that the process has data for |
| RebindImages.SectionsRebound | Sources/RorkHook/RorkHookRebind.c:95-129 | with every store succeeding, in each pointer section a slot that resolved to the replacee holds the replacement, in `__auth_got` signed for the slot, and any other slot is as before |
| RebindImages.OthersUntouched | Sources/RorkHook/RorkHookRebind.c:132-176 | bytes outside the data of lazy and non-lazy pointer sections are as before, whatever the environment answers |
| Rebind.RewrittenResolves | Sources/RorkHook/RorkHookRebind.c:110-125 | the new value strips to the replacement, whether raw or signed for its own slot |
| Rebind.UndoSlotExactly | Sources/RorkHook/RorkHookRebind.c:95-129 | A to B and back restores what a slot resolves to exactly unless it resolved to B before |
| Rebind.UndoNeedsAnAddress | Sources/RorkHook/RorkHookRebind.c:97-99 | a replacement that strips to NULL is the exception: emptied slots are skipped on the way back |
| Rebind.UndoImage | Sources/RorkHook/RorkHookRebind.c:166-196 | two fully granted rebinds of an image, A to B and B to A, restore what every slot resolves to if none resolved to B |
| RebindOrder.SlotRefines | Sources/RorkHook/RorkHookRebind.c:95-129 | on what a slot resolves to, rewriting the slot is the slot algebra's rewrite |
| RebindOrder.ChainApplies | Sources/RorkHook/RorkHookRebind.c:241-246 | a sequence of granted rebinds of one image computes the sequence of rewrites on every slot |
| RebindOrder.OrderDoesNotShow | Sources/RorkHook/RorkHookRebind.c:237-309 | in memory too, any order and multiplicity of the same rebinds leaves every slot resolving alike, if those that change something are compatible |
| Memory.Machine.QueryRegion | Sources/RorkHook/RorkHookInternal.c:204-251 | a reported region holds the address, does not wrap, and has the protection stated; the null address has none |
| Memory.Machine.MemoryProtection | Sources/RorkHook/RorkHookInternal.c:255-258 | the protection returned is that of the address's page |
| Memory.Machine.ReadableMemoryLength | Sources/RorkHook/RorkHookInternal.c:261-278 | every byte within the length is readable and of one protection, and a cooperative kernel reports the whole uniform stretch |
| Memory.Machine.MemoryIsReadable | Sources/RorkHook/RorkHookInternal.c:281-283 | a positive answer means a nonempty range of readable bytes of one protection that does not wrap |
| Memory.Machine.ProtectMemory | Sources/RorkHook/RorkHookMemory.c:115-137 | a granted change covers exactly the pages of the range, a refused one changes nothing, and an ill-formed one is an invalid argument that does not reach the kernel |
| Memory.Machine.ProbeProcessTPRO | Sources/RorkHook/RorkHookMemory.c:97-110 | the probe leaves the thread bit as it was, never claims TPRO falsely, and takes an open window as evidence |
| Memory.Machine.SupportsTPRO | Sources/RorkHook/RorkHookMemory.c:323-351 | never overstates enforcement; exact with a known configuration, an open window or a cooperative probe; the thread bit is unchanged |
| Memory.Machine.ThreadCanWriteTPRO | Sources/RorkHook/RorkHookMemory.c:354-360 | answers exactly whether the window is open, although it may open and close it to find out |
| Memory.Machine.BeginThreadTPROWrite | Sources/RorkHook/RorkHookMemory.c:363-372 | opens the window where TPRO is enforced and the hardware obeys, and only there |
| Memory.Machine.EndThreadTPROWrite | Sources/RorkHook/RorkHookMemory.c:375-384 | the window is closed on every path |
| Memory.Machine.AllowTPROWrites | Sources/RorkHook/RorkHookMemory.c:157-178 | success means an open window; a close is owed exactly if this call opened it; failure leaves the bit as it was |
| Memory.Machine.RestorePointerPageProtections | Sources/RorkHook/RorkHookMemory.c:211-230 | both pages are attempted: each page left unrestored accounts for a refused request of its own |
| Memory.PutBackEachEffect | Sources/RorkHook/RorkHookMemory.c:211-230 | with at most two pages, exactly the pages whose restoration was refused keep the temporary protection |
| Memory.PutBackRestores | Sources/RorkHook/RorkHookMemory.c:312-319 | restoring first and last page restores the whole range exactly if the pages between already had the temporary protection |
| Memory.AtMostTwoPages | Sources/RorkHook/RorkHookMemory.c:239-258 | for a power-of-two page size, every slot touches at most two pages exactly if pages hold eight bytes |
| Memory.SmallPagesStayWritable | Sources/RorkHook/RorkHookMemory.c:239-258 | with four-byte pages a store can leave a middle page writable |
| Pages.PowerOfTwoIff | Sources/RorkHook/RorkHookMemory.c:239-242 | the bit test accepts exactly the powers of two |
| Pages.RoundDownIs | Sources/RorkHook/RorkHookMemory.c:251-253 | masking off the low bits gives the start of the page |
| Memory.Machine.SlotGeometry | Sources/RorkHook/RorkHookMemory.c:244-264 | the masked addresses are the starts of the slot's first and last page, and they differ exactly if the slot crosses a page |
| Memory.Machine.WriteInWindow | Sources/RorkHook/RorkHookMemory.c:283-304 | the eight bytes are written or nothing is; the store is made exactly on an open window where TPRO was reported and on a granted request where it was not; it faults exactly if the hardware forbids it; the window is as before |
| Memory.Machine.FaultsExactly | Sources/RorkHook/RorkHookMemory.c:283-300 | the hardware lets the store through exactly if the answers and the earlier protections are not one of the two faulting cases |
| Memory.Machine.WriteDecided | Sources/RorkHook/RorkHookMemory.c:266-304 | the process survives the store exactly outside those two cases, which the pages before the request decide |
| Memory.OrdinaryPageFaults | Sources/RorkHook/RorkHookMemory.c:283-300 | an input on which the code faults: a read-only page outside TPRO, the request refused, the window open |
| Memory.UnseenEnforcementFaults | Sources/RorkHook/RorkHookMemory.c:323-351 | the other: a gated page, the request granted, the configuration unknown and the probe not obeyed |
| Memory.NeverFaultsExactly | Sources/RorkHook/RorkHookMemory.c:266-300 | no answer of kernel and hardware makes the store fault exactly if TPRO is not enforced, or every touched page is gated or writable and either enforcement cannot go unseen or no page is gated |
| Memory.EffectIsTransaction | Sources/RorkHook/RorkHookMemory.c:306-319 | what a store and its two restore requests leave behind is the transaction, with the refused restorations counted |
| Memory.Machine.StoreProtectedPointer | Sources/RorkHook/RorkHookMemory.c:233-320 | the transaction: success means the value is in place and every protection is restored; failure leaves memory unchanged unless a restoration was refused, and no more pages changed than restorations were refused; the store faults exactly in the two cases above; it is made with the window closed exactly if the request was granted and TPRO not reported; nothing but the slot and its pages is touched; the window is balanced; a cooperative environment carries out exactly the storable requests, for every page size |
| PageRace.AloneIsSafe | Sources/RorkHook/RorkHookMemory.c:267-319 | any number of threads with any number of stores to one page, none overlapping another: nothing faults, and at rest the page has its own protection |
| PageRace.TwoStoresExactly | Sources/RorkHook/RorkHookMemory.c:267-319 | for every interleaving of two stores to one page, both succeed and the page ends as it was exactly if the actions come in a harmless order |
| PageRace.ApartIsHarmless | Sources/RorkHook/RorkHookMemory.c:267-319 | two stores that do not overlap come in a harmless order |
| PageRace.LeftWritable | Sources/RorkHook/RorkHookMemory.c:267-319 | an interleaving that leaves a read-only page writable although both stores report success, gated or not |
| PageRace.ClosedTooSoon | Sources/RorkHook/RorkHookMemory.c:267-319 | an interleaving in which one thread restores the page before the other has stored, which then faults |
| Detour.MOVKEncoded | Sources/RorkHook/RorkHookFunction.c:16-27 | the MOVK encoder emits the instruction with that register, immediate and halfword |
| Detour.BREncoded | Sources/RorkHook/RorkHookFunction.c:30-35 | the BR encoder emits the branch to that register |
| Detour.BuildAbsoluteJump | Sources/RorkHook/RorkHookFunction.c:45-82 | writes the five-word jump to the stripped destination exactly if the arguments are accepted, and otherwise nothing |
| Detour.JumpReaches | Sources/RorkHook/RorkHookFunction.c:61-75 | from any register state, executing the five words leads to the target and changes only x16 and the program counter |
| Detour.Install | Sources/RorkHook/RorkHookFunction.c:132-165 | a refused request ends it with the kernel's code; the process faults exactly at a gated page behind a closed window; otherwise the jump is written, or the code bytes are as before, also when protecting the page fails after the write, and the page stays changed only if both attempts to restore it were refused; the result is the first refusal's code |
| Detour.ReplaceFunctionWithSize | Sources/RorkHook/RorkHookFunction.c:90-169 | unacceptable arguments are INVALID_ARGUMENT, unreadable bytes INVALID_ADDRESS, a page that is not executable PROTECTION_FAILURE, and otherwise the result is the first refusal's own code or, without one, success, unless a query was answered short; success means every run from the target arrives at the replacement and the page has its protection back; every failure leaves the code bytes as before, and the page changed only after two refused attempts to restore it; a cooperative kernel patches exactly the patchable functions that no closed gate protects |
| Detour.AcceptableExactly | Sources/RorkHook/RorkHookFunction.c:90-115 | the arguments accepted are nonnull, at least twenty patchable bytes, and an aligned stripped target whose twenty bytes lie in one page |
| Detour.ReplaceFunction | Sources/RorkHook/RorkHookFunction.c:173-178 | all of this, result codes included, for the legacy entry point, which assumes room for the whole jump |
| A64.DecodeEncode | Sources/RorkHook/RorkHookFunction.c:16-35 | decoding an assembled instruction gives it back |
| A64.EncodeDecode | Sources/RorkHook/RorkHookArm64.c:48-185 | every word that decodes is the assembly of what it decodes to |
| Arm64.AddSignedOffset | Sources/RorkHook/RorkHookArm64.c:8-31 | the exact sum, exactly when it is an address, for every offset down to the least |
| Arm64.SignExtendReadsSigned | Sources/RorkHook/RorkHookArm64.c:34-45 | mask, flip and subtract read the low bits as two's complement, for every width from 1 to 64 |
| Arm64.SignExtendExact | Sources/RorkHook/RorkHookArm64.c:34-45 | the result lies in the signed range of the width and is congruent to the value |
| Arm64.SignExtendUnique | Sources/RorkHook/RorkHookArm64.c:34-45 | no other integer in that range is congruent to the value |
| Arm64.ShortExtension | Sources/RorkHook/RorkHookArm64.c:58-66 | immediates of up to 26 bits stay small enough to be scaled by 4 or 4096 |
| Arm64.ADRPDecoded | Sources/RorkHook/RorkHookArm64.c:48-72 | succeeds exactly on ADRP words whose page does not wrap, with the page the instruction computes |
| Arm64.ADDDecoded | Sources/RorkHook/RorkHookArm64.c:75-92 | succeeds exactly on 64-bit ADD immediate words from and to the register, with the offset the instruction adds |
| Arm64.LDRDecoded | Sources/RorkHook/RorkHookArm64.c:95-121 | both unsigned-offset decoders succeed exactly on those loads, with eight times the immediate |
| Arm64.LDRPreIndexDecoded | Sources/RorkHook/RorkHookArm64.c:124-133 | succeeds exactly on pre-indexed loads, with the signed immediate |
| Arm64.LDURDecoded | Sources/RorkHook/RorkHookArm64.c:136-150 | succeeds exactly on unscaled loads from the register, with the signed immediate |
| Arm64.MOVZDecoded | Sources/RorkHook/RorkHookArm64.c:153-163 | succeeds exactly on 64-bit MOVZ words, with the value the instruction moves |
| Arm64.BranchFollowed | Sources/RorkHook/RorkHookArm64.c:166-185 | follows exactly unconditional branches whose target does not wrap |
| Arm64.ADRPThenADD | Sources/RorkHook/RorkHookArm64.c:48-92 | executing the pair leaves page plus offset, modulo 2^64, in the register it names in every machine state exactly below register 31 |
| Arm64.ADRPThenLDR | Sources/RorkHook/RorkHookArm64.c:48-109 | page plus offset, modulo 2^64, is the address the load reads in every machine state exactly below register 31 |
| Arm64.ADRPThenLDUR | Sources/RorkHook/RorkHookArm64.c:48-150 | the same for the unscaled load and its signed offset |
| Arm64.BranchExecutes | Sources/RorkHook/RorkHookArm64.c:166-185 | the followed address is the next program counter |
| Arm64.MOVZExecutes | Sources/RorkHook/RorkHookArm64.c:153-163 | the decoded value is what the register holds after execution |
| LoadCommands.SplitExactly | Sources/RorkHook/RorkHookInternal.c:37-58 | the parser cuts a table into that many commands exactly if it can be cut, and in only one way |
| LoadCommands.CommandsExactly | Sources/RorkHook/RorkHookInternal.c:22-65 | in the words of the image: its commands are these exactly if the header is there with its magic number and the announced bytes are the announced number of commands in a row, each at least eight bytes long, a multiple of eight and as long as it says |
| LoadCommands.ValidateLoadCommands | Sources/RorkHook/RorkHookInternal.c:22-65 | accepts exactly the images whose table splits into the announced number of aligned commands that fill the announced size |
| LoadCommands.ForEachLoadCommandWithSize | Sources/RorkHook/RorkHookInternal.c:68-91 | delivers nothing from an invalid table, and the commands of its split from a valid one |
| LoadCommands.DeliveryIsPrefix | Sources/RorkHook/RorkHookInternal.c:81-90 | delivery visits a prefix of the split in order, which ends at the visitor's first refusal or at the end |
| LoadCommands.AddressDifference | Sources/RorkHook/RorkHookInternal.c:112-137 | the exact difference, exactly when it is a signed 64-bit integer, including the least |
| LoadCommands.ApplySlide | Sources/RorkHook/RorkHookSymbols.c:165-187 | the exact sum, exactly when it is an address |
| LoadCommands.SlideRoundTrip | Sources/RorkHook/RorkHookSymbols.c:165-187 | computing and applying a slide are inverse in both directions |
| LoadCommands.SlideDelivered | Sources/RorkHook/RorkHookInternal.c:140-173 | the visitor ends with the slide of the first segment that maps the header, if that is representable; `Images.SlideIs` says which segment that is |
| LoadCommands.ImageSlide | Sources/RorkHook/RorkHookInternal.c:176-201 | resolves exactly if the table is valid and that segment's slide exists, and then returns it |
| Images.CommandsAre | Sources/RorkHook/RorkHookInternal.c:22-91 | the load commands read from any file that begins with given commands are those, each with the fields it was written with |
| Images.SlideIs | Sources/RorkHook/RorkHookInternal.c:140-173 | the slide is the distance of the header from the address of the first segment with the start of the file as nonempty content, so that `__PAGEZERO` does not count, exactly if it is a signed 64-bit integer |
| SymbolTables.StringEqualsExactly | Sources/RorkHook/RorkHookSharedCache.c:97-117 | the bounded comparison holds exactly if the bytes spell the name and then end, within bounds |
| SymbolTables.SectionBits | Sources/RorkHook/RorkHookSymbols.c:140-143 | the type test asks for all three type bits |
| SymbolTables.FindSymbolEntry | Sources/RorkHook/RorkHookSymbols.c:121-162 | returns the first section symbol whose nonzero string offset spells the name, or none if there is none |
| Symbols.FindSymtab | Sources/RorkHook/RorkHookSymbols.c:15-72 | the last symbol table and the last link-edit segment win |
| Images.TablesAre | Sources/RorkHook/RorkHookSymbols.c:15-72 | among given commands, those used are the last symbol table and the last segment named `__LINKEDIT` |
| Symbols.FileRangeInSegment | Sources/RorkHook/RorkHookSymbols.c:100-118 | succeeds exactly if the segment's file content backs the whole range |
| Symbols.TranslateDelivered | Sources/RorkHook/RorkHookSymbols.c:272-302 | the visitor ends with the file offset in the first segment that backs the address |
| Images.TranslateIs | Sources/RorkHook/RorkHookSymbols.c:272-302 | the file keeps the byte for an address in the first segment that has the address in memory and content for it, at the same distance from the segment's start |
| Symbols.FileLookupExactly | Sources/RorkHook/RorkHookSymbols.c:305-362 | over all byte strings, an offset is found exactly if the last symbol table fits, its first matching entry is this one and the first backing segment keeps its byte there, inside the file |
| Symbols.FindSymbolInFileImageWithSize | Sources/RorkHook/RorkHookSymbols.c:305-362 | computes that lookup, reading only inside the given length |
| Symbols.LiveLookupExactly | Sources/RorkHook/RorkHookSymbols.c:190-262 | in every process, an address is found exactly if both tables of the last symbol table are content of the last link-edit segment and readable where the first segment with the header as content says it was moved, the first matching entry is this one and the address is its value moved likewise |
| Symbols.FindSymbol | Sources/RorkHook/RorkHookSymbols.c:190-262 | computes the live lookup: tables inside the slid link-edit segment and readable, first matching entry, slid value |
| SymbolsAgree.SameCommands | Sources/RorkHook/RorkHookSymbols.c:190-200 | the load commands read from a loaded image are those of its file |
| SymbolsAgree.SameEntry | Sources/RorkHook/RorkHookSymbols.c:212-254 | the tables found through the link-edit segment in memory are those at the file offsets |
| SymbolsAgree.UniqueTranslation | Sources/RorkHook/RorkHookSymbols.c:272-302 | without overlapping segments the first backing segment is the only one |
| SymbolsAgree.ResolversAgree | Sources/RorkHook/RorkHookSymbols.c:190-362 | successful live and file lookups of one image pick the same entry, and the address is where memory keeps the file's byte at the offset |
| SymbolsAgree.LookupCommutesWithRelocation | Sources/RorkHook/RorkHookSymbols.c:190-262 | moving an image moves the address a lookup finds by the same amount |
| ImageWriter.FileFinds | Sources/RorkHook/RorkHookSymbols.c:305-362 | in any file that begins with given commands and holds the tables that the last symbol table announces, the first symbol with the name is found where the first segment backing its address keeps the byte, exactly if there is one and the byte is in the file |
| ImageWriter.LiveFinds | Sources/RorkHook/RorkHookSymbols.c:190-262 | in any process where an image begins with given commands and its link-edit segment is readable where the image was moved, the first symbol with the name is found at its value moved by the header's distance from the base, exactly if that is an address |
| ImageWriter.FileRoundTrip | Sources/RorkHook/RorkHookSymbols.c:305-362 | encoding any image with a symbol table, with or without `__PAGEZERO` in front and whatever foreign commands and contents it has, and looking a symbol up in the file gives its first occurrence's distance from the base, exactly if that lies in the file |
| ImageWriter.LiveRoundTrip | Sources/RorkHook/RorkHookSymbols.c:190-262 | the same image loaded at any header address with a representable slide gives the symbol's value moved by the header's distance from the base |
| ImageWriter.IsLoaded | Sources/RorkHook/RorkHookInternal.c:158-171 | a process that holds the encoded file at the header meets the agreement theorem's idea of a loaded image, and its slide is the header's distance from the base |
| SharedCache.DataAt | Sources/RorkHook/RorkHookSharedCache.c:42-53 | a position exactly if the whole range lies inside the view |
| SharedCache.IndexedOffset | Sources/RorkHook/RorkHookSharedCache.c:58-77 | the exact element offset, exactly if it fits 64 bits |
| SharedCache.ReadRecord | Sources/RorkHook/RorkHookSharedCache.c:80-94 | the bytes of the record, exactly if they lie inside the view |
| SharedCache.FindImage | Sources/RorkHook/RorkHookSharedCache.c:303-326 | the first image whose path string is the path |
| SharedCache.FindLocalSymbol | Sources/RorkHook/RorkHookSharedCache.c:428-460 | the first section symbol with the name in the image's nlist range |
| SharedCache.FindSharedCacheSymbolInData | Sources/RorkHook/RorkHookSharedCache.c:251-462 | on every pair of byte strings, computes the lookup and reads only in bounds |
| SharedCache.LookupExactly | Sources/RorkHook/RorkHookSharedCache.c:251-462 | an address is returned exactly if the words of the two files denote it: the image words at 448 and 452 or else 24 and 28, the region that the words at 72 and 80 cut out, whatever is behind it, first image with the path, first section symbol with the name in its stretch, value plus slide representable, every table in bounds |
| CacheEncoding.HeldCacheIsFound | Sources/RorkHook/RorkHookSharedCache.c:251-462 | any bytes that hold an abstract cache are looked up to the abstract answer, in every layout |
| CacheWriter.RoundTrip | Sources/RorkHook/RorkHookSharedCache.c:283-426 | encoding any cache whose numbers fit their fields as modern or legacy, with 32-bit or 64-bit entries, inline or sidecar symbols, sized or not, with any bytes around and between its tables and behind its symbols, and looking up gives the abstract answer |
| CacheWriter.ImageTableExactly | Sources/RorkHook/RorkHookSharedCache.c:283-291 | the encoded image table is taken up exactly if the layout is modern, a spare header word is zero, or the spare words are the table's own |
| CacheWriter.LegacyTableMissed | Sources/RorkHook/RorkHookSharedCache.c:283-301 | a legacy cache with two nonzero spare words that name no table inside the file answers nothing |
| CacheWriter.ZeroWordNeeded | Sources/RorkHook/RorkHookSharedCache.c:283-301 | every legacy cache that answers at all has spare words behind which the answer is lost, as long as a table of the size that can be announced does not fit the file |

## Left out

- Cache path discovery, environment variables, file mapping and the choice of the sidecar file: file-system plumbing; the two byte strings are inputs.
- `RorkHookSharedCacheSlide`, `dladdr`, `getsectiondata` and dyld's image list: calls into the system; their results are inputs.
- `RorkHookSignPointerIfExecutable` on the results of lookups: the lookups return raw addresses.
- Pointer-authentication cryptography: a pointer is an address below 2^47 with tag bits above; all that is known of signing is that stripping recovers the address. Builds without pointer authentication are the case of untagged pointers, except that a replacement is then stored as given.
- Registry: a replacee or replacement that is nonzero but strips to zero is not distinguished from NULL there; `Rebind` keeps the distinction.
- Weak memory ordering, image unloading, filters whose answer changes, and running code while it is being patched: excluded by assumption or by the documented contract.
- Cache flushes, instruction-cache maintenance and the copy-on-write effect of protection changes: invisible in one address space that holds one copy of every byte.
- PageRace: every request is granted, because what a refusal leaves behind is the subject of `Memory`; the bytes are left out, because a store writes one slot, and stores that race on one slot are the subject of `Registry`.
- Machine: a store that faults is taken to have written nothing, although one that crosses a page boundary may fault halfway; the result of an operation during which the process faulted means nothing.
- LoaderLock: a registration that begins in a filter asked by a thread that does not hold the lock is taken to run on a thread of its own, which matters to nobody because the once block is then over; the visits of one once block may interleave, although dyld makes them one after another; loads nested in loads, and the locks that counting images and reading their headers take for a moment inside dyld, are not modelled; other locks that a filter might wait for are excluded by the documented contract.
- Null output pointers and null arguments of the byte-level helpers: the model passes values and returns options; null arguments of the entry points are modelled where they change the result.
- LoadCommands.ForEachLoadCommandWithSize: the visitor is a function on its context, because a visitor that altered the table itself is excluded by the contract; the rebind visitor, which changes memory, is the loop of `Rebind.RebindSymbolInImage` over the same split.
- RebindSymbolInImage: that each matching slot left alone stands for an uncooperative answer is stated section by section, because a page left with the temporary protection can make a later section that shares it fail its check as a whole; the load commands are a value read from the header, so a slot that overlaps the load commands is not modelled; sections whose data overlap are covered only by the frame and not by the pointwise claim.
- `Registry` models what a slot resolves to and one store per slot; `RebindOrder.SlotRefines` is the link to the slots in memory, and protections do not appear in the step system; what concurrent stores do to them is `PageRace`, page by page.
- `RorkHookFindSymbolInFileImage` and `RorkHookForEachLoadCommand`: they pass the readable length on to the functions modelled here.
- FindSymbolInFileImageWithSize: the check that the given length is readable is not repeated, because the file image is a byte string of that length.
- Non-LP64 and non-arm64 branches, version probes, scripts and the test harness: no hard property.
