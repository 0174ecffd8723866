/** Laying records out one behind another, and finding them again. */
module Layout {
  import opened Words

  function Flatten<T>(parts: seq<seq<T>>): seq<T> {
    if parts == [] then [] else parts[0] + Flatten(parts[1..])
  }

  /** Where part `i` starts, or where the last part ends. */
  function Offset<T>(parts: seq<seq<T>>, i: nat): nat
    requires i <= |parts|
  {
    if i == 0 then 0 else |parts[0]| + Offset(parts[1..], i - 1)
  }

  /** `part` is what `whole` holds at `at`. */
  predicate Holds<T(==)>(whole: seq<T>, at: nat, part: seq<T>) {
    at + |part| <= |whole| && whole[at..at + |part|] == part
  }

  lemma {:induction false} PartAt<T>(parts: seq<seq<T>>, i: nat)
    requires i < |parts|
    ensures Holds(Flatten(parts), Offset(parts, i), parts[i])
    ensures Offset(parts, i + 1) == Offset(parts, i) + |parts[i]|
    decreases i
  {
    if i == 0 {
      assert Offset(parts[1..], 0) == 0;
    } else {
      PartAt(parts[1..], i - 1);
      var rest, at := Flatten(parts[1..]), Offset(parts[1..], i - 1);
      assert (parts[0] + rest)[|parts[0]| + at..|parts[0]| + at + |parts[i]|] == rest[at..at + |parts[i]|];
    }
  }

  lemma {:induction false} FlattenLength<T>(parts: seq<seq<T>>)
    ensures |Flatten(parts)| == Offset(parts, |parts|)
  {
    if parts != [] { FlattenLength(parts[1..]); }
  }

  /** Parts of one size are an array. */
  lemma {:induction false} OffsetFixed<T>(parts: seq<seq<T>>, size: nat, i: nat)
    requires i <= |parts| && forall p | p in parts :: |p| == size
    ensures Offset(parts, i) == size * i
    decreases i
  {
    if i > 0 {
      OffsetFixed(parts[1..], size, i - 1);
      assert parts[0] in parts;
      assert size * i == size + size * (i - 1);
    }
  }

  lemma HoldsWithin<T>(whole: seq<T>, at: nat, part: seq<T>, inner: nat, sub: seq<T>)
    requires Holds(whole, at, part) && Holds(part, inner, sub)
    ensures Holds(whole, at + inner, sub)
  {
    forall k | 0 <= k < |sub| ensures whole[at + inner + k] == sub[k] {
      assert part[inner + k] == part[inner..inner + |sub|][k];
      assert whole[at + (inner + k)] == whole[at..at + |part|][inner + k];
    }
  }

  lemma WordWithin(whole: seq<byte>, at: nat, part: seq<byte>, offset: nat)
    requires Holds(whole, at, part)
    ensures offset + 4 <= |part| ==> U32At(whole, at + offset) == U32At(part, offset)
    ensures offset + 8 <= |part| ==> U64At(whole, at + offset) == U64At(part, offset)
  {
    if offset + 4 <= |part| { U32AtSlice(whole, at, at + |part|, offset); }
    if offset + 8 <= |part| { U64AtSlice(whole, at, at + |part|, offset); }
  }

  /** A 32-bit field; larger numbers lose their high bits. */
  function Word(n: nat): (bytes: seq<byte>)
    ensures |bytes| == 4
  {
    U32Bytes(n % TWO_32)
  }

  lemma WordHeld(whole: seq<byte>, at: nat, n: nat)
    requires Holds(whole, at, Word(n)) && n < TWO_32
    ensures U32At(whole, at) == n
  {
    WordWithin(whole, at, Word(n), 0);
  }

  /** A 64-bit field; larger numbers lose their high bits. */
  function Long(n: nat): (bytes: seq<byte>)
    ensures |bytes| == 8
  {
    U64Bytes(n % TWO_64)
  }

  function Zeros(n: nat): (bytes: seq<byte>)
    ensures |bytes| == n
  {
    seq(n, _ => 0)
  }

  lemma LongHeld(whole: seq<byte>, at: nat, n: nat)
    requires Holds(whole, at, Long(n)) && n < TWO_64
    ensures U64At(whole, at) == n
  {
    WordWithin(whole, at, Long(n), 0);
  }
}
