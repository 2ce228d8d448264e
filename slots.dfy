/** The slot allocator of XPlaneUDP.cpp: a growable bit-vector, one bit per
    register slot (`true` = occupied), searched first-fit from slot 0 and
    grown by exactly the requested length when no free run is long enough. */
module Slots {

  datatype Option<T> = None | Some(value: T)

  /** Every bit of the window [s, s + len) is clear. */
  predicate Free(space: seq<bool>, s: nat, len: nat)
    requires s + len <= |space|
  {
    forall k :: s <= k < s + len ==> !space[k]
  }

  /** A run of `len` free slots starts at s. */
  predicate Fits(space: seq<bool>, len: nat, s: nat) {
    s + len <= |space| && Free(space, s, len)
  }

  /** Reference definition of first fit: the least start at or after `from`
      of a free window, if any. */
  function FirstFit(space: seq<bool>, len: nat, from: nat): Option<nat>
    decreases |space| - from
  {
    if from + len > |space| then None
    else if Free(space, from, len) then Some(from)
    else FirstFit(space, len, from + 1)
  }

  /** FirstFit finds a free window and no earlier one, or reports that there is none. */
  lemma {:induction false} FirstFitIsFirst(space: seq<bool>, len: nat, from: nat)
    ensures FirstFit(space, len, from).Some? ==>
              var s := FirstFit(space, len, from).value;
              from <= s && Fits(space, len, s) && forall t :: from <= t < s ==> !Fits(space, len, t)
    ensures FirstFit(space, len, from).None? ==> forall t :: from <= t ==> !Fits(space, len, t)
    decreases |space| - from
  {
    if from + len <= |space| && !Free(space, from, len) {
      FirstFitIsFirst(space, len, from + 1);
    }
  }

  /** When nothing fits before b, the search from 0 ends where the search from b does. */
  lemma {:induction false} FirstFitSkips(space: seq<bool>, len: nat, b: nat)
    requires forall t :: 0 <= t < b ==> !Fits(space, len, t)
    ensures FirstFit(space, len, 0) == FirstFit(space, len, b)
  {
    if b > 0 {
      FirstFitSkips(space, len, b - 1);
      assert !Fits(space, len, b - 1);
    }
  }

  /** The scan loop of `findSpace`: `count` free bits seen in a row, the run
      starting at `start`; it stops as soon as the run reaches `length`.
      It agrees with the reference first fit. */
  method ScanFree(space: seq<bool>, length: nat) returns (found: bool, start: nat)
    requires length >= 1
    ensures found <==> FirstFit(space, length, 0).Some?
    ensures found ==> FirstFit(space, length, 0) == Some(start)
  {
    start := 0;
    var count: nat := 0;
    var i := 0;
    while i < |space|
      invariant 0 <= count <= i <= |space|
      invariant count < length
      invariant count > 0 ==> start == i - count
      invariant Free(space, i - count, count)
      invariant forall t :: 0 <= t < i - count ==> !Fits(space, length, t)
    {
      if !space[i] {
        if count == 0 {
          start := i;
        }
        count := count + 1;
        if count >= length {
          assert Fits(space, length, start);
          FirstFitSkips(space, length, start);
          return true, start;
        }
      } else {
        forall t | i - count <= t <= i
          ensures !Fits(space, length, t)
        {
          if t + length <= |space| {
            assert t <= i < t + length && space[i];
          }
        }
        count := 0;
      }
      i := i + 1;
    }
    FirstFitSkips(space, length, i - count);
    return false, start;
  }

  /** `dynamic_bitset::set(pos, len, b)`: the `len` bits from `pos` become b. */
  function Fill(space: seq<bool>, pos: nat, len: nat, b: bool): (r: seq<bool>)
    requires pos + len <= |space|
    ensures |r| == |space|
    ensures forall k :: 0 <= k < |r| ==> r[k] == if pos <= k < pos + len then b else space[k]
  {
    space[..pos] + seq(len, _ => b) + space[pos + len..]
  }

  /** The start `findSpace` returns: the first free window, or the old end. */
  function Allocation(space: seq<bool>, length: nat): nat
  {
    match FirstFit(space, length, 0)
    case Some(s) => s
    case None => |space|
  }

  /** The bit-vector after `findSpace`: the first free window marked occupied,
      or `length` occupied bits appended. */
  function Claimed(space: seq<bool>, length: nat): (r: seq<bool>)
    ensures Allocation(space, length) + length <= |r|
  {
    FirstFitIsFirst(space, length, 0);
    match FirstFit(space, length, 0)
    case Some(s) => Fill(space, s, length, true)
    case None => space + seq(length, _ => true)
  }

  /** When some window fits, `findSpace` takes the least one and does not grow. */
  lemma ClaimReusesFirstFit(space: seq<bool>, length: nat, s: nat)
    requires Fits(space, length, s)
    ensures Fits(space, length, Allocation(space, length))
    ensures Allocation(space, length) <= s
    ensures |Claimed(space, length)| == |space|
  {
    FirstFitIsFirst(space, length, 0);
  }

  /** When no window fits, `findSpace` appends exactly `length` occupied bits,
      keeps the old ones and returns the old size. */
  lemma ClaimGrows(space: seq<bool>, length: nat)
    requires forall t :: !Fits(space, length, t)
    ensures Allocation(space, length) == |space|
    ensures |Claimed(space, length)| == |space| + length
    ensures Claimed(space, length)[..|space|] == space
    ensures forall k :: |space| <= k < |space| + length ==> Claimed(space, length)[k]
  {
    FirstFitIsFirst(space, length, 0);
  }

  /** What any `findSpace` does: the window it returns was free (or new), is
      occupied afterwards, and every other bit keeps its value. */
  lemma ClaimWindow(space: seq<bool>, length: nat)
    ensures var a, c := Allocation(space, length), Claimed(space, length);
            |space| <= |c| && a + length <= |c|
            && (forall k :: a <= k < a + length && k < |space| ==> !space[k])
            && (forall k :: a <= k < a + length ==> c[k])
            && (forall k :: 0 <= k < |space| && !(a <= k < a + length) ==> c[k] == space[k])
            && (|c| > |space| ==> a == |space| && |c| == |space| + length)
  {
    FirstFitIsFirst(space, length, 0);
  }

  /** Claim, release, claim again: when the first claim reused a free window,
      or the vector was empty or ended in an occupied bit, the second claim
      returns the same start. */
  lemma {:induction false} ReleaseThenClaimSameStart(space: seq<bool>, length: nat)
    requires length >= 1
    requires FirstFit(space, length, 0).Some? || space == [] || space[|space| - 1]
    ensures var a := Allocation(space, length);
            var released := Fill(Claimed(space, length), a, length, false);
            Allocation(released, length) == a
  {
    FirstFitIsFirst(space, length, 0);
    ClaimWindow(space, length);
    var a := Allocation(space, length);
    var released := Fill(Claimed(space, length), a, length, false);
    if FirstFit(space, length, 0).Some? {
      assert released == space;
    } else {
      assert |released| == |space| + length;
      forall t | 0 <= t < a
        ensures !Fits(released, length, t)
      {
        if t + length <= |released| {
          if t + length <= |space| {
            assert !Fits(space, length, t);
            var k :| t <= k < t + length && space[k];
            assert released[k];
          } else {
            assert released[|space| - 1];
          }
        }
      }
      assert Fits(released, length, a);
      FirstFitSkips(released, length, a);
    }
  }

  /** After a growth, when the old vector ended in a free bit, the released
      run merges with it and the next claim starts earlier than before.
      With `ReleaseThenClaimSameStart` this settles when release-then-claim
      returns the same start. */
  lemma ReleaseAfterGrowthMovesStart(space: seq<bool>, length: nat)
    requires length >= 1 && FirstFit(space, length, 0).None?
    requires space != [] && !space[|space| - 1]
    ensures Allocation(space, length) == |space|
    ensures Allocation(Fill(Claimed(space, length), |space|, length, false), length) < |space|
  {
    FirstFitIsFirst(space, length, 0);
    ClaimWindow(space, length);
    var released := Fill(Claimed(space, length), |space|, length, false);
    assert Fits(released, length, |space| - 1);
    FirstFitIsFirst(released, length, 0);
  }

  /** The reuse path as written in XPlaneUDP.cpp:268:
      `space.set(start, start + length, true)` passes `start + length` where
      `dynamic_bitset::set` expects a length, so it marks the bits
      [start, 2 * start + length). The call is only defined when that end
      is within the vector. */
  function SetAsWritten(space: seq<bool>, start: nat, length: nat): (r: seq<bool>)
    requires 2 * start + length <= |space|
  {
    Fill(space, start, start + length, true)
  }

  /** As written, a reuse at start > 0 also marks `start` slots past the
      claimed window, which then stay occupied with no owner. */
  lemma SetAsWrittenOverclaims(space: seq<bool>, start: nat, length: nat)
    requires 0 < start && 2 * start + length <= |space|
    ensures SetAsWritten(space, start, length)[start + length]
    ensures Fill(space, start, length, true)[start + length] == space[start + length]
  {
  }

  /** A concrete case: slot 0 taken, slots 1 and 2 free; claiming one slot
      reuses slot 1 and, as written, also takes slot 2. */
  lemma SetAsWrittenExample()
    ensures Allocation([true, false, false], 1) == 1
    ensures SetAsWritten([true, false, false], 1, 1) == [true, true, true]
    ensures Claimed([true, false, false], 1) == [true, true, false]
  {
    assert [true, false, false][0];
    assert Free([true, false, false], 1, 1);
  }

  /** The register bank after growth to at least n cells; new cells are 0. */
  function Grown(values: seq<nat>, n: nat): (r: seq<nat>)
  {
    if |values| >= n then values else values + seq(n - |values|, _ => 0)
  }

  /** `extendSpace` as written in XPlaneUDP.cpp:284: the bound
      `space.size() - values.size()` is re-read while `values` grows and `i`
      counts up, so only half the deficit (rounded up) is appended. */
  method ExtendSpaceAsWritten(spaceSize: nat, values: seq<nat>) returns (r: seq<nat>)
    requires |values| <= spaceSize
    ensures |r| == |values| + (spaceSize - |values| + 1) / 2
    ensures r[..|values|] == values
    ensures forall k :: |values| <= k < |r| ==> r[k] == 0
  {
    r := values;
    var i := 0;
    while i < spaceSize - |r|
      invariant |r| == |values| + i
      invariant 2 * i <= spaceSize - |values| + 1
      invariant r[..|values|] == values
      invariant forall k :: |values| <= k < |r| ==> r[k] == 0
      decreases spaceSize - |r| - i
    {
      r := r + [0];
      i := i + 1;
    }
  }

  /** A two-slot growth (the first two-element array registration) leaves the
      register bank one cell short of the bit-vector. */
  method ExtendSpaceAsWrittenExample() returns (spaceSize: nat, valuesSize: nat)
    ensures spaceSize == 2 && valuesSize == 1
  {
    var r := ExtendSpaceAsWritten(2, []);
    return 2, |r|;
  }
}
