/**
 * Model of smartcore.py: the lookup that maps a time in seconds to a frame
 * index of the world camera, given the array of reference timestamps that
 * the module loads once at import time (WORLD_TIMESTAMPS).
 *
 * The loaded array is a parameter here (loading the file is I/O); a failed
 * load is `None`. The lookup is `np.searchsorted(WORLD_TIMESTAMPS, t)` with
 * its default side, the LEFT insertion point: the number of timestamps that
 * lie strictly before `t`.
 */
module FrameLookup {
  import opened Wrappers

  /** The reference timestamps are in ascending order, as np.searchsorted assumes. */
  predicate Sorted(s: seq<real>) {
    forall i, j :: 0 <= i < j < |s| ==> s[i] <= s[j]
  }

  /** The number of timestamps strictly below `t` (the specification of the search). */
  function CountBelow(s: seq<real>, t: real): (n: nat)
    ensures n <= |s|
  {
    if s == [] then 0 else (if s[0] < t then 1 else 0) + CountBelow(s[1..], t)
  }

  /** On ascending timestamps the count below `t` is the left insertion point:
      everything before it is below `t`, everything from it on is at least `t`. */
  lemma {:induction false} CountBelowPartitions(s: seq<real>, t: real)
    requires Sorted(s)
    ensures forall i :: 0 <= i < CountBelow(s, t) ==> s[i] < t
    ensures forall i :: CountBelow(s, t) <= i < |s| ==> t <= s[i]
  {
    if s != [] {
      var rest := s[1..];
      assert Sorted(rest);
      CountBelowPartitions(rest, t);
      if t <= s[0] {
        // every later timestamp is at least s[0], so none of them is below t
        assert forall i :: 0 <= i < |rest| ==> t <= rest[i];
      }
    }
  }

  /** Any index that splits the timestamps into "below t" and "at least t" is
      the count below `t`; the split point is unique. */
  lemma {:induction false} PartitionIsCountBelow(s: seq<real>, t: real, k: nat)
    requires k <= |s|
    requires forall i :: 0 <= i < k ==> s[i] < t
    requires forall i :: k <= i < |s| ==> t <= s[i]
    ensures k == CountBelow(s, t)
  {
    if s != [] {
      if k == 0 {
        PartitionIsCountBelow(s[1..], t, 0);
      } else {
        PartitionIsCountBelow(s[1..], t, k - 1);
      }
    }
  }

  /** `buscar_frame`: `None` when the timestamp array was not loaded or the
      time is missing; otherwise the left insertion point of the time. An
      array that is present but empty gives index 0. */
  function FrameFor(timestamps: Option<seq<real>>, t: Option<real>): (r: Option<nat>)
    requires timestamps.Some? ==> Sorted(timestamps.value)
    ensures r.None? <==> timestamps.None? || t.None?
    ensures r.Some? ==> r.value <= |timestamps.value|
    ensures r.Some? ==> forall i :: 0 <= i < r.value ==> timestamps.value[i] < t.value
    ensures r.Some? ==> forall i :: r.value <= i < |timestamps.value| ==> t.value <= timestamps.value[i]
  {
    match timestamps
    case None => None
    case Some(s) =>
      match t
      case None => None
      case Some(x) =>
        CountBelowPartitions(s, x);
        Some(CountBelow(s, x))
  }

  /** The search that np.searchsorted performs: a binary search for the left
      insertion point, reading the timestamps and changing nothing. */
  method SearchFrame(timestamps: Option<seq<real>>, t: Option<real>) returns (r: Option<nat>)
    requires timestamps.Some? ==> Sorted(timestamps.value)
    ensures r == FrameFor(timestamps, t)
  {
    if timestamps.None? || t.None? {
      return None;
    }
    var s, x := timestamps.value, t.value;
    var lo, hi := 0, |s|;
    while lo < hi
      invariant 0 <= lo <= hi <= |s|
      invariant forall i :: 0 <= i < lo ==> s[i] < x
      invariant forall i :: hi <= i < |s| ==> x <= s[i]
    {
      var mid := lo + (hi - lo) / 2;
      if s[mid] < x {
        lo := mid + 1;
      } else {
        hi := mid;
      }
    }
    PartitionIsCountBelow(s, x, lo);
    r := Some(lo);
  }

  /** Counting the timestamps below a later time never gives fewer. */
  lemma {:induction false} CountBelowMonotone(s: seq<real>, t1: real, t2: real)
    requires t1 <= t2
    ensures CountBelow(s, t1) <= CountBelow(s, t2)
  {
    if s != [] {
      CountBelowMonotone(s[1..], t1, t2);
    }
  }

  /** For a fixed array, the frame index never decreases as time advances. */
  lemma FrameForMonotone(timestamps: Option<seq<real>>, t1: real, t2: real)
    requires timestamps.Some? ==> Sorted(timestamps.value)
    requires t1 <= t2
    ensures FrameFor(timestamps, Some(t1)).None? <==> FrameFor(timestamps, Some(t2)).None?
    ensures FrameFor(timestamps, Some(t1)).Some? ==>
      FrameFor(timestamps, Some(t1)).value <= FrameFor(timestamps, Some(t2)).value
  {
    if timestamps.Some? {
      CountBelowMonotone(timestamps.value, t1, t2);
    }
  }

  /** Times outside the recorded range are not extrapolated: a time at or before
      the first timestamp maps to 0, a time after the last to the array length,
      and an empty array maps every time to 0. */
  lemma FrameForEdges(s: seq<real>, t: real)
    requires Sorted(s)
    ensures s == [] ==> FrameFor(Some(s), Some(t)) == Some(0)
    ensures s != [] && t <= s[0] ==> FrameFor(Some(s), Some(t)) == Some(0)
    ensures s != [] && s[|s| - 1] < t ==> FrameFor(Some(s), Some(t)) == Some(|s|)
  {
  }

  /** A time equal to a recorded timestamp maps to that value's first occurrence. */
  lemma FrameForFirstOccurrence(s: seq<real>, k: nat)
    requires Sorted(s)
    requires k < |s|
    ensures FrameFor(Some(s), Some(s[k])).Some?
    ensures FrameFor(Some(s), Some(s[k])).value <= k
    ensures s[FrameFor(Some(s), Some(s[k])).value] == s[k]
    ensures forall j :: 0 <= j < FrameFor(Some(s), Some(s[k])).value ==> s[j] != s[k]
  {
  }
}
