/**
 Mach-O load commands as in RorkHookInternal.c: validation of the table, delivery to a visitor, and
 the slide of a loaded image. An image is the byte sequence that starts at its header.
 */
module LoadCommands {
  import opened Layout
  import opened Words
  import opened Wrappers

  const MH_MAGIC_64: u32 := 0xfeed_facf
  const LC_SEGMENT_64: u32 := 0x19
  const HEADER_SIZE := 32
  const COMMAND_SIZE := 8
  const SEGMENT_SIZE := 72

  type Command = seq<byte>

  // ---- the table ----

  /** A command carries its own length, at least eight bytes and a multiple of eight. */
  predicate IsCommand(c: Command) {
    |c| >= COMMAND_SIZE && |c| % 8 == 0 && U32At(c, 4) == |c|
  }

  ghost predicate Splits(table: seq<byte>, n: nat, cs: seq<Command>) {
    |cs| == n && (forall c | c in cs :: IsCommand(c)) && Flatten(cs) == table
  }

  /** The way to cut `table` into `n` commands. */
  function Split(table: seq<byte>, n: nat): (cs: Option<seq<Command>>)
    decreases n
  {
    if n == 0 then
      if table == [] then Some([]) else None
    else if |table| < COMMAND_SIZE then None
    else
      var size: nat := U32At(table, 4);
      if size < COMMAND_SIZE || size % 8 != 0 || size > |table| then None
      else
        match Split(table[size..], n - 1)
        case None => None
        case Some(rest) => Some([table[..size]] + rest)
  }

  lemma {:induction false} SplitSound(table: seq<byte>, n: nat)
    requires Split(table, n).Some?
    ensures Splits(table, n, Split(table, n).value)
    decreases n
  {
    if n > 0 {
      var size: nat := U32At(table, 4);
      SplitSound(table[size..], n - 1);
      U32AtSlice(table, 0, size, 4);
      assert table[..size] + table[size..] == table;
    }
  }

  lemma {:induction false} SplitComplete(table: seq<byte>, n: nat, cs: seq<Command>)
    requires Splits(table, n, cs)
    ensures Split(table, n) == Some(cs)
    decreases n
  {
    if n == 0 {
      assert cs == [];
    } else {
      var c, rest := cs[0], Flatten(cs[1..]);
      assert IsCommand(c) by { assert c in cs; }
      assert table == c + rest;
      U32AtSlice(table, 0, |c|, 4);
      assert table[..|c|] == table[0..|c|] == c && table[|c|..] == rest;
      SplitComplete(rest, n - 1, cs[1..]);
      assert [c] + cs[1..] == cs;
    }
  }

  /** The parser finds the split exactly when there is one, and there is never more than one. */
  lemma SplitExactly(table: seq<byte>, n: nat, cs: seq<Command>)
    ensures Split(table, n) == Some(cs) <==> Splits(table, n, cs)
  {
    if Split(table, n) == Some(cs) { SplitSound(table, n); }
    if Splits(table, n, cs) { SplitComplete(table, n, cs); }
  }

  lemma {:induction false} SplitBound(table: seq<byte>, n: nat)
    requires Split(table, n).Some?
    ensures COMMAND_SIZE * n <= |table|
    decreases n
  {
    if n > 0 {
      var size: nat := U32At(table, 4);
      SplitBound(table[size..], n - 1);
    }
  }

  /** The checks on one command before its bytes are skipped. */
  predicate Passes(table: seq<byte>, consumed: nat)
    requires consumed <= |table|
  {
    && |table| - consumed >= COMMAND_SIZE
    && var size := U32At(table, consumed + 4); size >= COMMAND_SIZE && size % 8 == 0 && size <= |table| - consumed
  }

  /** Cutting the rest of the table is cutting one command that passes, and then what follows it. */
  lemma SplitStep(table: seq<byte>, consumed: nat, n: nat)
    requires consumed <= |table| && n > 0
    ensures var rest := Split(table[consumed..], n);
            if !Passes(table, consumed) then rest == None
            else
              var size: nat := U32At(table, consumed + 4);
              match Split(table[consumed + size..], n - 1)
              case None => rest == None
              case Some(cs) => rest == Some([table[consumed..consumed + size]] + cs)
  {
    if |table| - consumed >= COMMAND_SIZE {
      U32AtSlice(table, consumed, |table|, 4);
      if Passes(table, consumed) {
        var size: nat := U32At(table, consumed + 4);
        assert table[consumed..][..size] == table[consumed..consumed + size];
        assert table[consumed..][size..] == table[consumed + size..];
      }
    }
  }

  // ---- the image header ----

  predicate HeaderFits(image: seq<byte>) {
    && |image| >= HEADER_SIZE && U32At(image, 0) == MH_MAGIC_64
    && U32At(image, 20) <= |image| - HEADER_SIZE
  }

  function NumCommands(image: seq<byte>): u32
    requires HeaderFits(image)
  {
    U32At(image, 16)
  }

  function Table(image: seq<byte>): seq<byte>
    requires HeaderFits(image)
  {
    image[HEADER_SIZE..HEADER_SIZE + U32At(image, 20)]
  }

  /** The load commands of an image, if it has a valid table. */
  function Commands(image: seq<byte>): Option<seq<Command>> {
    if HeaderFits(image) then Split(Table(image), NumCommands(image)) else None
  }

  /** Validation accepts exactly the images whose table splits into the announced number of commands. */
  lemma ValidExactly(image: seq<byte>)
    ensures Commands(image).Some? <==> HeaderFits(image) && exists cs :: Splits(Table(image), NumCommands(image), cs)
  {
    hide Split, Splits, Table, NumCommands;
    if Commands(image).Some? {
      SplitExactly(Table(image), NumCommands(image), Commands(image).value);
    }
    if HeaderFits(image) {
      forall cs
        ensures Split(Table(image), NumCommands(image)) == Some(cs) <==> Splits(Table(image), NumCommands(image), cs)
      {
        SplitExactly(Table(image), NumCommands(image), cs);
      }
    }
  }

  /**
   In the words of the image: the header is there with its magic number, and the announced bytes behind it are the
   announced number of commands, one after another, each at least as long as its own header, aligned, and as long
   as it says. There is never more than one such list.
   */
  lemma CommandsExactly(image: seq<byte>, cs: seq<Command>)
    ensures Commands(image) == Some(cs) <==>
            && |image| >= 32 && U32At(image, 0) == 0xfeed_facf && 32 + U32At(image, 20) <= |image|
            && |cs| == U32At(image, 16) && Flatten(cs) == image[32..32 + U32At(image, 20)]
            && forall c | c in cs :: |c| >= 8 && |c| % 8 == 0 && U32At(c, 4) == |c|
  {
    hide Split, U32At;
    if HeaderFits(image) { SplitExactly(Table(image), NumCommands(image), cs); }
  }

  method ValidateLoadCommands(image: seq<byte>) returns (valid: bool)
    ensures valid <==> HeaderFits(image) && exists cs :: Splits(Table(image), NumCommands(image), cs)
    ensures valid <==> Commands(image).Some?
  {
    hide Split, Splits, U32At;
    ValidExactly(image);
    if |image| < HEADER_SIZE { return false; }
    var ncmds, sizeofcmds := U32At(image, 16), U32At(image, 20);
    if U32At(image, 0) != MH_MAGIC_64 || sizeofcmds > |image| - HEADER_SIZE { return false; }
    var table := image[HEADER_SIZE..HEADER_SIZE + sizeofcmds];
    if ncmds > sizeofcmds / COMMAND_SIZE {
      if Split(table, ncmds).Some? { SplitBound(table, ncmds); }
      return false;
    }
    valid := CheckTable(table, ncmds);
  }

  /** The loop of the validation. */
  method CheckTable(table: seq<byte>, ncmds: u32) returns (valid: bool)
    ensures valid <==> Split(table, ncmds).Some?
  {
    hide U32At;
    var consumed, index := 0, 0;
    assert table[0..] == table;
    while index < ncmds
      invariant 0 <= index <= ncmds && 0 <= consumed <= |table|
      invariant Split(table, ncmds).Some? <==> Split(table[consumed..], ncmds - index).Some?
    {
      SplitStep(table, consumed, ncmds - index);
      var remaining := |table| - consumed;
      if remaining < COMMAND_SIZE { return false; }
      var cmdsize := U32At(table, consumed + 4);
      if cmdsize < COMMAND_SIZE || cmdsize % 8 != 0 || cmdsize > remaining { return false; }
      consumed := consumed + cmdsize;
      index := index + 1;
    }
    valid := consumed == |table|;
  }

  // ---- delivery ----

  /** A visitor takes the context and one command to the next context and whether to go on. */
  type Visitor<!C> = (C, Command, nat) -> (C, bool)

  /** The context after delivering the commands from number `k` on. */
  function Deliver<C>(cs: seq<Command>, visitor: Visitor<C>, context: C, k: nat): C
    requires k <= |cs|
    decreases |cs| - k
  {
    if k == |cs| then context
    else
      var (next, goOn) := visitor(context, cs[k], k);
      if goOn then Deliver(cs, visitor, next, k + 1) else next
  }

  /** The context after visiting the first `n` commands, whatever the visitor answers. */
  function Visit<C>(cs: seq<Command>, visitor: Visitor<C>, context: C, n: nat): C
    requires n <= |cs|
  {
    if n == 0 then context else visitor(Visit(cs, visitor, context, n - 1), cs[n - 1], n - 1).0
  }

  /** The answer to command number `k` when all commands before it were visited. */
  function Verdict<C>(cs: seq<Command>, visitor: Visitor<C>, context: C, k: nat): bool
    requires k < |cs|
  {
    visitor(Visit(cs, visitor, context, k), cs[k], k).1
  }

  lemma {:induction false} DeliverFrom<C>(cs: seq<Command>, visitor: Visitor<C>, context: C, k: nat) returns (n: nat)
    requires k <= |cs| && forall j | 0 <= j < k :: Verdict(cs, visitor, context, j)
    ensures k <= n <= |cs| && Deliver(cs, visitor, Visit(cs, visitor, context, k), k) == Visit(cs, visitor, context, n)
    ensures forall j | 0 <= j < n - 1 :: Verdict(cs, visitor, context, j)
    ensures n < |cs| ==> n > 0 && !Verdict(cs, visitor, context, n - 1)
    decreases |cs| - k
  {
    if k == |cs| {
      n := k;
    } else if Verdict(cs, visitor, context, k) {
      n := DeliverFrom(cs, visitor, context, k + 1);
    } else {
      n := k + 1;
    }
  }

  /** Delivery visits a prefix of the commands in order, which ends at the first refusal or at the end. */
  lemma DeliveryIsPrefix<C>(cs: seq<Command>, visitor: Visitor<C>, context: C) returns (n: nat)
    ensures n <= |cs| && Deliver(cs, visitor, context, 0) == Visit(cs, visitor, context, n)
    ensures forall j | 0 <= j < n - 1 :: Verdict(cs, visitor, context, j)
    ensures n < |cs| ==> n > 0 && !Verdict(cs, visitor, context, n - 1)
  {
    n := DeliverFrom(cs, visitor, context, 0);
  }

  lemma DeliverStep<C>(cs: seq<Command>, visitor: Visitor<C>, context: C, k: nat)
    requires k < |cs|
    ensures var (next, goOn) := visitor(context, cs[k], k);
            Deliver(cs, visitor, context, k) == if goOn then Deliver(cs, visitor, next, k + 1) else next
  {
  }

  lemma DeliverEnd<C>(cs: seq<Command>, visitor: Visitor<C>, context: C)
    ensures Deliver(cs, visitor, context, |cs|) == context
  {
  }

  lemma SplitLength(table: seq<byte>, n: nat)
    requires Split(table, n).Some?
    ensures |Split(table, n).value| == n
  {
    SplitSound(table, n);
  }

  /** Nothing is delivered from an invalid table. The visitor leaves the table's bytes alone. */
  method ForEachLoadCommandWithSize<C>(image: seq<byte>, visitor: Visitor<C>, context: C)
    returns (valid: bool, after: C)
    ensures valid <==> Commands(image).Some?
    ensures after == if Commands(image).Some? then Deliver(Commands(image).value, visitor, context, 0) else context
  {
    hide Split, Deliver, U32At;
    after := context;
    valid := ValidateLoadCommands(image);
    if !valid { return; }
    var ncmds, table := NumCommands(image), Table(image);
    ghost var cs := Commands(image).value;
    SplitLength(table, ncmds);
    var consumed, index := 0, 0;
    assert table[0..] == table && cs[0..] == cs;
    while index < ncmds
      invariant 0 <= index <= ncmds && 0 <= consumed <= |table|
      invariant Split(table[consumed..], ncmds - index) == Some(cs[index..])
      invariant Deliver(cs, visitor, after, index) == Deliver(cs, visitor, context, 0)
    {
      SplitStep(table, consumed, ncmds - index);
      var cmdsize := U32At(table, consumed + 4);
      var command := table[consumed..consumed + cmdsize];
      assert command == cs[index..][0] == cs[index];
      assert cs[index..][1..] == cs[index + 1..];
      DeliverStep(cs, visitor, after, index);
      var (next, goOn) := visitor(after, command, index);
      after := next;
      if !goOn { return; }
      consumed := consumed + cmdsize;
      index := index + 1;
    }
    DeliverEnd(cs, visitor, after);
  }

  // ---- segments and the slide ----

  predicate IsSegment(c: Command) {
    |c| >= SEGMENT_SIZE && U32At(c, 0) == LC_SEGMENT_64
  }

  function VmAddress(c: Command): u64 requires IsSegment(c) { U64At(c, 24) }

  function VmSize(c: Command): u64 requires IsSegment(c) { U64At(c, 32) }

  function FileOffset(c: Command): u64 requires IsSegment(c) { U64At(c, 40) }

  function FileSize(c: Command): u64 requires IsSegment(c) { U64At(c, 48) }

  /** `left - right` when it fits a signed 64-bit integer, which reaches one further down than up. */
  function AddressDifference(left: u64, right: u64): (difference: Option<i64>)
    ensures difference
            == if -0x8000_0000_0000_0000 <= left - right < 0x8000_0000_0000_0000 then Some(left - right) else None
  {
    if left >= right then
      var difference: int := left - right;
      if difference > 0x7fff_ffff_ffff_ffff then None else Some(difference)
    else
      var magnitude: int := right - left;
      var minimumMagnitude := 0x7fff_ffff_ffff_ffff + 1;
      if magnitude > minimumMagnitude then None
      else if magnitude == minimumMagnitude then Some(-0x8000_0000_0000_0000)
      else Some(-magnitude)
  }

  /** `address + slide` when it is an address; the magnitude of the least slide is formed without negating it. */
  function ApplySlide(address: u64, slide: i64): (result: Option<u64>)
    ensures result == if 0 <= address + slide < TWO_64 then Some(address + slide) else None
  {
    if slide < 0 then
      var magnitude: int := -(slide + 1) + 1;
      if address < magnitude then None else Some(address - magnitude)
    else if address > TWO_64 - 1 - slide then None
    else Some(address + slide)
  }

  /** The slide between two addresses takes one to the other, and nothing else is that slide. */
  lemma SlideRoundTrip(header: u64, vmaddr: u64, slide: i64)
    ensures AddressDifference(header, vmaddr) == Some(slide) <==> ApplySlide(vmaddr, slide) == Some(header)
  {
  }

  /** The segment whose file bytes contain the header: `__PAGEZERO` has no file content. */
  predicate MapsHeader(c: Command) {
    IsSegment(c) && FileOffset(c) == 0 && FileSize(c) != 0
  }

  datatype SlideContext = SlideContext(header: u64, slide: i64, found: bool)

  function ImageSlideLoadCommand(context: SlideContext, c: Command, index: nat): (SlideContext, bool) {
    if !IsSegment(c) then (context, true)
    else if FileOffset(c) == 0 && FileSize(c) != 0 then
      match AddressDifference(context.header, VmAddress(c))
      case None => (context, false)
      case Some(slide) => (context.(slide := slide, found := true), false)
    else (context, true)
  }

  /** The first command that satisfies `p`. */
  function FirstOf(cs: seq<Command>, p: Command -> bool): (c: Option<Command>)
    ensures c.Some? ==> c.value in cs && p(c.value)
    ensures c.None? ==> forall d | d in cs :: !p(d)
  {
    if cs == [] then None else if p(cs[0]) then Some(cs[0]) else FirstOf(cs[1..], p)
  }

  /** The first in the order of the table. */
  ghost predicate IsFirst(cs: seq<Command>, p: Command -> bool, i: nat) {
    i < |cs| && p(cs[i]) && forall j | 0 <= j < i :: !p(cs[j])
  }

  lemma {:induction false} FirstOfFound(cs: seq<Command>, p: Command -> bool) returns (i: nat)
    requires FirstOf(cs, p).Some?
    ensures IsFirst(cs, p, i) && cs[i] == FirstOf(cs, p).value
  {
    if p(cs[0]) {
      i := 0;
    } else {
      var k := FirstOfFound(cs[1..], p);
      i := k + 1;
      forall j | 0 <= j < i ensures !p(cs[j]) { if j > 0 { assert !p(cs[1..][j - 1]); } }
    }
  }

  lemma {:induction false} FirstOfIs(cs: seq<Command>, p: Command -> bool, i: nat)
    requires IsFirst(cs, p, i)
    ensures FirstOf(cs, p) == Some(cs[i])
  {
    if i > 0 {
      assert !p(cs[0]);
      forall j | 0 <= j < i - 1 ensures !p(cs[1..][j]) { assert !p(cs[j + 1]); }
      FirstOfIs(cs[1..], p, i - 1);
    }
  }

  /** The slide of an image whose header lies at `header`: where the first segment that maps it was moved. */
  function SlideOf(cs: seq<Command>, header: u64): Option<i64> {
    match FirstOf(cs, MapsHeader)
    case None => None
    case Some(c) => AddressDifference(header, VmAddress(c))
  }

  lemma {:induction false} SlideDelivered(cs: seq<Command>, context: SlideContext, k: nat)
    requires k <= |cs| && !context.found
    ensures var after := Deliver(cs, ImageSlideLoadCommand, context, k);
            var slide := SlideOf(cs[k..], context.header);
            after.found == slide.Some? && (after.found ==> after.slide == slide.value)
    decreases |cs| - k
  {
    if k < |cs| {
      assert cs[k..][1..] == cs[k + 1..];
      if !MapsHeader(cs[k]) { SlideDelivered(cs, context, k + 1); }
    }
  }

  /** Resolves the slide of the image at `header`, for executables and libraries alike. */
  method ImageSlide(header: u64, image: seq<byte>) returns (slide: i64, resolved: bool)
    ensures resolved <==> header != 0 && Commands(image).Some? && SlideOf(Commands(image).value, header).Some?
    ensures slide == if resolved then SlideOf(Commands(image).value, header).value else 0
  {
    if header == 0 { return 0, false; }
    var context := SlideContext(header, 0, false);
    var valid, after := ForEachLoadCommandWithSize(image, ImageSlideLoadCommand, context);
    if Commands(image).Some? {
      SlideDelivered(Commands(image).value, context, 0);
      assert Commands(image).value[0..] == Commands(image).value;
    }
    if valid && after.found { return after.slide, true; }
    return 0, false;
  }
}
