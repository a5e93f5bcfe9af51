/** Which heap strings the eviction loop of `add_to_history` releases.
    Each history slot owns a string duplicated with `strdup`; strings are
    identified here by an abstract handle. The loop, as written, runs
    `free(slot[i-1]); slot[i-1] = slot[i];` for i = 1 .. n-1, so at every
    step it frees the string that slot i-1 still owns, which step i-1 had
    already copied into slot i-2. */
module Eviction {

  /** An abstract handle for one heap-allocated command string. */
  type Handle = nat

  /** No string is owned by two slots. */
  predicate Distinct(h: seq<Handle>)
  {
    forall i, j :: 0 <= i < j < |h| ==> h[i] != h[j]
  }

  /** The eviction loop as written, from step `i` on: returns the slots
      and the handles passed to `free`, in order. */
  function ShiftAsWritten(a: seq<Handle>, i: nat, freed: seq<Handle>): (r: (seq<Handle>, seq<Handle>))
    requires 1 <= i
    ensures |r.0| == |a|
    decreases |a| - i
  {
    if i >= |a| then (a, freed)
    else ShiftAsWritten(a[i - 1 := a[i]], i + 1, freed + [a[i - 1]])
  }

  /** Mid-loop state: slots before i-1 are shifted, the rest untouched,
      and every original handle before i-1 has been freed. */
  lemma {:induction false} ShiftAsWrittenFrom(h: seq<Handle>, a: seq<Handle>, i: nat, freed: seq<Handle>)
    requires 1 <= i <= |h| == |a|
    requires forall k :: 0 <= k < i - 1 ==> a[k] == h[k + 1]
    requires forall k :: i - 1 <= k < |h| ==> a[k] == h[k]
    requires freed == h[..i - 1]
    ensures ShiftAsWritten(a, i, freed).0 == h[1..] + [h[|h| - 1]]
    ensures ShiftAsWritten(a, i, freed).1 == h[..|h| - 1]
    decreases |h| - i
  {
    if i < |a| {
      assert h[..i] == h[..i - 1] + [h[i - 1]];
      ShiftAsWrittenFrom(h, a[i - 1 := a[i]], i + 1, freed + [a[i - 1]]);
    } else {
      assert a == h[1..] + [h[|h| - 1]];
    }
  }

  /** As written, evicting from a full history frees every string except
      the newest, so slots 0 .. n-3 keep strings that were freed: the
      listing then reads freed memory and the next eviction frees them
      again. */
  lemma EvictionFreesRetainedAsWritten(h: seq<Handle>)
    requires |h| >= 3
    ensures var (slots, freed) := ShiftAsWritten(h, 1, []);
            forall k :: 0 <= k < |h| - 2 ==> slots[k] in freed
  {
    ShiftAsWrittenFrom(h, h, 1, []);
    var (slots, freed) := ShiftAsWritten(h, 1, []);
    forall k | 0 <= k < |h| - 2
      ensures slots[k] in freed
    {
      assert slots[k] == h[k + 1] == freed[k + 1];
    }
  }

  /** The shift alone (no `free`), from step `i` on; it moves slots the
      same way whatever they hold, so it is stated for any slot type. */
  function ShiftOnly<T>(a: seq<T>, i: nat): (r: seq<T>)
    requires 1 <= i
    ensures |r| == |a|
    decreases |a| - i
  {
    if i >= |a| then a else ShiftOnly(a[i - 1 := a[i]], i + 1)
  }

  /** Mid-loop state of the shift alone. */
  lemma {:induction false} ShiftOnlyFrom<T>(h: seq<T>, a: seq<T>, i: nat)
    requires 1 <= i <= |h| == |a|
    requires forall k :: 0 <= k < i - 1 ==> a[k] == h[k + 1]
    requires forall k :: i - 1 <= k < |h| ==> a[k] == h[k]
    ensures ShiftOnly(a, i) == h[1..] + [h[|h| - 1]]
    decreases |h| - i
  {
    if i < |a| {
      ShiftOnlyFrom(h, a[i - 1 := a[i]], i + 1);
    } else {
      assert a == h[1..] + [h[|h| - 1]];
    }
  }

  /** The corrected eviction: free the oldest string once, then shift.
      Returns the slots and the handles freed. */
  function EvictCorrected(h: seq<Handle>): (r: (seq<Handle>, seq<Handle>))
    requires h != []
    ensures |r.0| == |h|
  {
    (ShiftOnly(h, 1), [h[0]])
  }

  /** With the correction exactly the oldest string is freed, the others
      move one slot towards the front, and no slot that stays in use
      (all but the last, which the new entry overwrites) owns a freed
      string. */
  lemma EvictCorrectedFreesOnlyOldest(h: seq<Handle>)
    requires h != [] && Distinct(h)
    ensures EvictCorrected(h).1 == [h[0]]
    ensures EvictCorrected(h).0[..|h| - 1] == h[1..]
    ensures forall k :: 0 <= k < |h| - 1 ==> EvictCorrected(h).0[k] !in EvictCorrected(h).1
  {
    ShiftOnlyFrom(h, h, 1);
    var slots := EvictCorrected(h).0;
    assert slots[..|h| - 1] == h[1..];
    forall k | 0 <= k < |h| - 1
      ensures slots[k] != h[0]
    {
      assert slots[k] == h[k + 1];
    }
  }
}
