/**
 One registered rebind as a map on slot values, and what sequences of such maps compute.
 The add-image callback applies the registry newest first, a registering thread applies its own
 entry once, and several threads may apply the same entry to the same image. Slot values here are
 raw addresses: pointer-authentication decoration has already been stripped.
 */
module SlotAlgebra {

  datatype Rewrite = Rewrite(replacee: nat, replacement: nat)

  /** What one rebind does to one slot value. */
  function RewriteSlot(e: Rewrite, value: nat): nat {
    if value == e.replacee then e.replacement else value
  }

  /** Applies the rewrites of `es` from left to right. */
  function ApplyAll(es: seq<Rewrite>, value: nat): nat {
    if es == [] then value else ApplyAll(es[1..], RewriteSlot(es[0], value))
  }

  /** A rewrite of a value to itself. */
  predicate NoOp(e: Rewrite) {
    e.replacee == e.replacement
  }

  function Effective(es: set<Rewrite>): set<Rewrite> {
    set e | e in es && !NoOp(e)
  }

  /**
   Rewrites that cannot disturb each other: one replacee has one replacement, and what is written is
   replaced by nothing else.
   */
  predicate Compatible(es: set<Rewrite>) {
    forall e, f | e in es && f in es ::
      && (e.replacee == f.replacee ==> e.replacement == f.replacement)
      && (e.replacement == f.replacee ==> NoOp(f))
  }

  function Elements(es: seq<Rewrite>): set<Rewrite> {
    set e | e in es
  }

  /** `result` is what a set of compatible rewrites makes of `value`, whatever their order. */
  ghost predicate Resolves(es: set<Rewrite>, value: nat, result: nat) {
    if exists e :: e in es && e.replacee == value
    then exists e :: e in es && e.replacee == value && e.replacement == result
    else result == value
  }

  /** A slot that was bound to `original` shows the rewrite: bound to the replacee, it holds the replacement. */
  predicate TakesEffect(e: Rewrite, original: nat, value: nat) {
    (original == e.replacee ==> value == e.replacement) && (!NoOp(e) ==> value != e.replacee)
  }

  /** Both can only take effect at a slot bound to the first one's replacee if they are compatible. */
  lemma BothTakeEffect(e: Rewrite, f: Rewrite, value: nat)
    requires TakesEffect(e, e.replacee, value) && TakesEffect(f, e.replacee, value)
    ensures (e.replacee == f.replacee ==> e.replacement == f.replacement) && (e.replacement == f.replacee ==> NoOp(f))
  {
  }

  predicate AllTakeEffect(es: set<Rewrite>, original: nat, value: nat) {
    forall e | e in es :: TakesEffect(e, original, value)
  }

  ghost predicate CanAllTakeEffect(es: set<Rewrite>, original: nat) {
    exists value: nat :: AllTakeEffect(es, original, value)
  }

  /** All of a set can take effect everywhere at once exactly if they are compatible. */
  lemma CompatibleExactly(es: set<Rewrite>)
    ensures Compatible(es) <==> forall original: nat :: CanAllTakeEffect(es, original)
  {
    if Compatible(es) {
      forall original: nat ensures CanAllTakeEffect(es, original) {
        if e :| e in es && e.replacee == original {
          assert AllTakeEffect(es, original, e.replacement);
        } else {
          assert AllTakeEffect(es, original, original);
        }
      }
    }
    if forall original: nat :: CanAllTakeEffect(es, original) {
      forall e, f | e in es && f in es
        ensures (e.replacee == f.replacee ==> e.replacement == f.replacement)
                && (e.replacement == f.replacee ==> NoOp(f))
      {
        assert CanAllTakeEffect(es, e.replacee);
        var value: nat :| AllTakeEffect(es, e.replacee, value);
        BothTakeEffect(e, f, value);
      }
    }
  }

  /** Two rewrites commute on every slot value exactly under this condition on their fields. */
  lemma CommuteIff(e: Rewrite, f: Rewrite)
    ensures (forall v: nat :: RewriteSlot(e, RewriteSlot(f, v)) == RewriteSlot(f, RewriteSlot(e, v)))
            <==> || e.replacee == e.replacement
                 || f.replacee == f.replacement
                 || e == f
                 || (e.replacee != f.replacee && e.replacement != f.replacee && f.replacement != e.replacee)
  {
    if forall v: nat :: RewriteSlot(e, RewriteSlot(f, v)) == RewriteSlot(f, RewriteSlot(e, v)) {
      assert RewriteSlot(e, RewriteSlot(f, e.replacee)) == RewriteSlot(f, RewriteSlot(e, e.replacee));
      assert RewriteSlot(e, RewriteSlot(f, f.replacee)) == RewriteSlot(f, RewriteSlot(e, f.replacee));
    }
  }

  /** A compatible sequence computes the order-free meaning of its set of rewrites. */
  lemma {:induction false} ApplyAllResolves(es: seq<Rewrite>, value: nat)
    requires Compatible(Elements(es))
    ensures Resolves(Elements(es), value, ApplyAll(es, value))
  {
    if es != [] {
      var rest := es[1..];
      assert forall e :: e in rest ==> e in es;
      assert forall e :: e in es ==> e == es[0] || e in rest;
      assert Elements(rest) <= Elements(es);
      assert es[0] in Elements(es);
      ApplyAllResolves(rest, RewriteSlot(es[0], value));
      if exists e :: e in Elements(rest) && e.replacee == RewriteSlot(es[0], value) {
        var e :| e in Elements(rest) && e.replacee == RewriteSlot(es[0], value) && e.replacement == ApplyAll(es, value);
        assert e in Elements(es);
        assert value == es[0].replacee ==> NoOp(e) && es[0].replacement == ApplyAll(es, value);
      } else if value == es[0].replacee {
        assert ApplyAll(es, value) == es[0].replacement;
      }
    }
  }

  function WithoutNoOps(es: seq<Rewrite>): seq<Rewrite> {
    if es == [] then [] else (if NoOp(es[0]) then [] else [es[0]]) + WithoutNoOps(es[1..])
  }

  /** No-ops can be dropped from a sequence. */
  lemma {:induction false} NoOpsDropped(es: seq<Rewrite>, value: nat)
    ensures ApplyAll(WithoutNoOps(es), value) == ApplyAll(es, value)
    ensures Elements(WithoutNoOps(es)) == Effective(Elements(es))
  {
    if es != [] {
      NoOpsDropped(es[1..], RewriteSlot(es[0], value));
      assert Elements(es) == {es[0]} + Elements(es[1..]);
      var rest := WithoutNoOps(es[1..]);
      if !NoOp(es[0]) {
        assert ([es[0]] + rest)[1..] == rest;
        assert Elements([es[0]] + rest) == {es[0]} + Elements(rest);
      } else {
        assert [] + rest == rest;
      }
    }
  }

  /**
   Order and multiplicity are irrelevant: two sequences of the same rewrites, each used at least once,
   leave every slot equal, if those that are not no-ops are compatible.
   */
  lemma OrderAndMultiplicityIrrelevant(es: seq<Rewrite>, fs: seq<Rewrite>, value: nat)
    requires Elements(es) == Elements(fs) && Compatible(Effective(Elements(es)))
    ensures ApplyAll(es, value) == ApplyAll(fs, value)
  {
    NoOpsDropped(es, value);
    NoOpsDropped(fs, value);
    ApplyAllResolves(WithoutNoOps(es), value);
    ApplyAllResolves(WithoutNoOps(fs), value);
  }

  lemma {:induction false} ApplyAllConcat(es: seq<Rewrite>, fs: seq<Rewrite>, value: nat)
    ensures ApplyAll(es + fs, value) == ApplyAll(fs, ApplyAll(es, value))
  {
    if es == [] {
      assert es + fs == fs;
    } else {
      assert (es + fs)[1..] == es[1..] + fs;
      ApplyAllConcat(es[1..], fs, RewriteSlot(es[0], value));
    }
  }

  /** A value that no rewrite in the sequence replaces is left alone. */
  lemma {:induction false} ApplyAllFixed(es: seq<Rewrite>, value: nat)
    requires forall e :: e in es ==> e.replacee != value
    ensures ApplyAll(es, value) == value
  {
    if es != [] {
      ApplyAllFixed(es[1..], value);
    }
  }

  /** Every finite set of rewrites can be listed. */
  lemma {:induction false} Listing(es: set<Rewrite>) returns (list: seq<Rewrite>)
    ensures Elements(list) == es
    decreases es
  {
    if es == {} {
      list := [];
    } else {
      var e :| e in es;
      var rest := Listing(es - {e});
      list := [e] + rest;
      assert Elements(list) == {e} + Elements(rest);
    }
  }

  /** Every way of using all of `es`, in any order and with any repetition, gives the same slots. */
  ghost predicate OrderIrrelevant(es: set<Rewrite>) {
    forall list, other, value: nat | Elements(list) == es && Elements(other) == es ::
      ApplyAll(list, value) == ApplyAll(other, value)
  }

  lemma DuplicatesAreOrderSensitive(es: set<Rewrite>, e: Rewrite, f: Rewrite)
    requires forall g :: g in es ==> g.replacee != g.replacement
    requires e in es && f in es && e.replacee == f.replacee && e.replacement != f.replacement
    ensures !OrderIrrelevant(es)
  {
    var a := e.replacee;
    var others := Listing(set g | g in es && g.replacee != a);
    var same := Listing(set g | g in es && g.replacee == a);
    forall g | g in others ensures g.replacee != a { assert g in Elements(others); }
    forall g | g in same ensures g.replacee == a { assert g in Elements(same); }
    forall g | g in {e, f} ensures ApplyAll(others + ([g] + same), a) == g.replacement
                           ensures Elements(others + ([g] + same)) == es
    {
      ApplyAllConcat(others, [g] + same, a);
      ApplyAllFixed(others, a);
      ApplyAllFixed(same, g.replacement);
      assert forall h :: h in others + ([g] + same) <==> h in Elements(others) || h == g || h in Elements(same);
    }
    assert ApplyAll(others + ([e] + same), a) != ApplyAll(others + ([f] + same), a);
  }

  lemma ChainsAreOrderSensitive(es: set<Rewrite>, e: Rewrite, f: Rewrite)
    requires forall g :: g in es ==> g.replacee != g.replacement
    requires forall g, h | g in es && h in es && g.replacee == h.replacee :: g == h
    requires e in es && f in es && e.replacement == f.replacee
    ensures !OrderIrrelevant(es)
  {
    var a := e.replacee;
    var others := Listing(es - {e});
    forall g | g in others ensures g.replacee != a { assert g in Elements(others); }
    ApplyAllFixed(others, a);
    ApplyAllConcat(others, [e], a);
    ApplyAllConcat(others + [e], [f], a);
    assert forall h :: h in others + [e] <==> h in Elements(others) || h == e;
    assert Elements(others + [e]) == es;
    assert forall h :: h in others + [e] + [f] <==> h in Elements(others) || h == e || h == f;
    assert Elements(others + [e] + [f]) == es;
    assert ApplyAll(others + [e], a) != ApplyAll(others + [e] + [f], a);
  }

  lemma EffectiveOrderIrrelevantIff(es: set<Rewrite>)
    requires forall e :: e in es ==> !NoOp(e)
    ensures OrderIrrelevant(es) <==> Compatible(es)
  {
    if Compatible(es) {
      assert Effective(es) == es;
      forall list, other, value: nat | Elements(list) == es && Elements(other) == es
        ensures ApplyAll(list, value) == ApplyAll(other, value)
      {
        OrderAndMultiplicityIrrelevant(list, other, value);
      }
    } else if exists e, f :: e in es && f in es && e.replacee == f.replacee && e.replacement != f.replacement {
      var e, f :| e in es && f in es && e.replacee == f.replacee && e.replacement != f.replacement;
      DuplicatesAreOrderSensitive(es, e, f);
    } else {
      var e, f :| e in es && f in es && e.replacement == f.replacee;
      ChainsAreOrderSensitive(es, e, f);
    }
  }

  /** No-ops make no difference to whether order matters. */
  lemma NoOpsDoNotMatter(es: set<Rewrite>)
    ensures OrderIrrelevant(es) <==> OrderIrrelevant(Effective(es))
  {
    if OrderIrrelevant(Effective(es)) {
      forall list, other, value: nat | Elements(list) == es && Elements(other) == es
        ensures ApplyAll(list, value) == ApplyAll(other, value)
      {
        NoOpsDropped(list, value);
        NoOpsDropped(other, value);
      }
    }
    if OrderIrrelevant(es) {
      var idle := Listing(es - Effective(es));
      forall list, other, value: nat | Elements(list) == Effective(es) && Elements(other) == Effective(es)
        ensures ApplyAll(list, value) == ApplyAll(other, value)
      {
        Padded(es, list, idle, value);
        Padded(es, other, idle, value);
      }
    }
  }

  lemma Padded(es: set<Rewrite>, list: seq<Rewrite>, idle: seq<Rewrite>, value: nat)
    requires Elements(list) == Effective(es) && Elements(idle) == es - Effective(es)
    ensures Elements(list + idle) == es && ApplyAll(list + idle, value) == ApplyAll(list, value)
  {
    assert forall e :: e in list + idle <==> e in Elements(list) || e in Elements(idle);
    ApplyAllConcat(list, idle, value);
    forall e | e in idle ensures NoOp(e) { assert e in Elements(idle); }
    IdleChangesNothing(idle, ApplyAll(list, value));
  }

  lemma {:induction false} IdleChangesNothing(idle: seq<Rewrite>, value: nat)
    requires forall e | e in idle :: NoOp(e)
    ensures ApplyAll(idle, value) == value
  {
    if idle != [] {
      assert idle[0] in idle;
      IdleChangesNothing(idle[1..], value);
    }
  }

  /** The condition is exact: compatibility of the rewrites that change something is sufficient and necessary. */
  lemma OrderIrrelevantIff(es: set<Rewrite>)
    ensures OrderIrrelevant(es) <==> Compatible(Effective(es))
  {
    NoOpsDoNotMatter(es);
    EffectiveOrderIrrelevantIff(Effective(es));
  }

  /** Without the first half of `Compatible`: newest-first and registration order disagree. */
  lemma DuplicateReplaceesDiverge(a: nat, b: nat, c: nat)
    requires a != b && a != c && b != c
    ensures var registered := [Rewrite(a, b), Rewrite(a, c)];
            var newestFirst := [Rewrite(a, c), Rewrite(a, b)];
            && Elements(registered) == Elements(newestFirst)
            && ApplyAll(registered, a) == b
            && ApplyAll(newestFirst, a) == c
  {
    assert ApplyAll([Rewrite(a, c)], b) == b;
    assert ApplyAll([Rewrite(a, b)], c) == c;
  }

  /** Without the second half: a chain reaches its end in one order and stops halfway in the other. */
  lemma ChainedRebindsDiverge(a: nat, b: nat, c: nat)
    requires a != b && a != c && b != c
    ensures var registered := [Rewrite(a, b), Rewrite(b, c)];
            var newestFirst := [Rewrite(b, c), Rewrite(a, b)];
            && Elements(registered) == Elements(newestFirst)
            && ApplyAll(registered, a) == c
            && ApplyAll(newestFirst, a) == b
  {
    assert ApplyAll([Rewrite(b, c)], b) == c;
    assert ApplyAll([Rewrite(a, b)], a) == b;
  }

  /** Rebinding back undoes a rebind on exactly the values that were not already the replacement. */
  lemma UndoIff(a: nat, b: nat, value: nat)
    ensures ApplyAll([Rewrite(a, b), Rewrite(b, a)], value) == value <==> (value != b || a == b)
  {
    assert ApplyAll([Rewrite(b, a)], RewriteSlot(Rewrite(a, b), value))
        == RewriteSlot(Rewrite(b, a), RewriteSlot(Rewrite(a, b), value));
  }
}
