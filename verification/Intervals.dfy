/** Global data regions of a library as seen by the leak checker: the library's segments, with every
    memory region that is a stack or was not mapped by a trusted caller cut out of them.
 */
module Intervals {

  datatype Interval = Interval(ptr: nat, size: nat) {
    ghost function End(): nat { ptr + size }
    ghost predicate Has(a: nat) { ptr <= a < End() }
  }

  datatype Region = Region(start: nat, end: nat, isStack: bool, caller: nat) {
    ghost predicate Has(a: nat) { start <= a < end }
  }

  /** A range of trusted callers. */
  datatype Range = Range(start: nat, end: nat) {
    ghost predicate Inside(a: nat) { start < a < end }
  }

  ghost predicate Covered(list: seq<Interval>, a: nat) {
    exists i :: 0 <= i < |list| && list[i].Has(a)
  }

  ghost predicate Proper(list: seq<Interval>) {
    && (forall i | 0 <= i < |list| :: list[i].size > 0)
    && (forall i, j | 0 <= i < j < |list| :: Apart(list[i], list[j]))
  }

  ghost predicate Apart(a: Interval, b: Interval) { a.End() <= b.ptr || b.End() <= a.ptr }

  ghost predicate Within(list: seq<Interval>, i: Interval) {
    forall k | 0 <= k < |list| :: i.ptr <= list[k].ptr && list[k].End() <= i.End()
  }

  lemma CoveredAppend(list: seq<Interval>, more: seq<Interval>, a: nat)
    ensures Covered(list + more, a) <==> Covered(list, a) || Covered(more, a)
  {
    if Covered(list, a) {
      var i :| 0 <= i < |list| && list[i].Has(a);
      assert (list + more)[i].Has(a);
    }
    if Covered(more, a) {
      var i :| 0 <= i < |more| && more[i].Has(a);
      assert (list + more)[|list| + i].Has(a);
    }
  }

  // ----- Which regions are subtracted

  /** Ranges as an ordered map keeps them, by their ends. */
  ghost predicate Keyed(ranges: seq<Range>) {
    forall i, j | 0 <= i < j < |ranges| :: ranges[i].end < ranges[j].end
  }

  ghost function EndBefore(ranges: seq<Range>, i: nat): nat
    requires i <= |ranges|
  {
    if i == 0 then 0 else ranges[i - 1].end
  }

  /** The first range that ends after `caller`. */
  ghost predicate FirstAfter(ranges: seq<Range>, caller: nat, i: nat) {
    i < |ranges| && EndBefore(ranges, i) <= caller < ranges[i].end
  }

  /** That range contains the caller. */
  ghost predicate Special(ranges: seq<Range>, caller: nat) {
    exists i: nat :: FirstAfter(ranges, caller, i) && ranges[i].start < caller
  }

  /** Stacks, regions with no known caller, and regions whose caller is not special. With no ranges
      registered, all regions. */
  ghost predicate Selected(r: Region, ranges: seq<Range>) {
    r.isStack || r.caller == 0 || !Special(ranges, r.caller)
  }

  method Subtracts(r: Region, ranges: seq<Range>) returns (yes: bool)
    requires Keyed(ranges)
    ensures yes <==> Selected(r, ranges)
  {
    if r.isStack || r.caller == 0 { return true; }
    var i := 0;
    while i < |ranges| && ranges[i].end <= r.caller
      invariant 0 <= i <= |ranges| && forall j | 0 <= j < i :: ranges[j].end <= r.caller
    {
      i := i + 1;
    }
    if i < |ranges| {
      assert FirstAfter(ranges, r.caller, i);
      yes := !(ranges[i].start < r.caller);
    } else {
      yes := true;
    }
  }

  // ----- When looking at one range is enough

  ghost predicate Trusted(ranges: seq<Range>, caller: nat) {
    exists i :: 0 <= i < |ranges| && ranges[i].Inside(caller)
  }

  /** Some caller comes first to range `i`, which starts at or after it, although it is inside the
      later range `j`. */
  ghost predicate Hidden(ranges: seq<Range>, i: nat, j: nat)
    requires i < j < |ranges|
  {
    var low := if EndBefore(ranges, i) > ranges[j].start then EndBefore(ranges, i) else ranges[j].start + 1;
    low <= ranges[i].start && low < ranges[i].end
  }

  ghost predicate Layered(ranges: seq<Range>) {
    forall i: nat, j: nat | i < j < |ranges| :: !Hidden(ranges, i, j)
  }

  lemma {:induction false} FirstExists(ranges: seq<Range>, caller: nat, j: nat) returns (i: nat)
    requires Keyed(ranges) && j < |ranges| && caller < ranges[j].end
    ensures FirstAfter(ranges, caller, i) && i <= j
    decreases j
  {
    if j > 0 && caller < ranges[j - 1].end { i := FirstExists(ranges, caller, j - 1); } else { i := j; }
  }

  lemma FirstUnique(ranges: seq<Range>, caller: nat, i: nat, j: nat)
    requires Keyed(ranges) && FirstAfter(ranges, caller, i) && FirstAfter(ranges, caller, j)
    ensures i == j
  { }

  /** Looking only at the first range that ends after the caller gives the right answer for every
      caller if and only if no range is hidden behind an earlier one. */
  lemma OneRangeIsEnough(ranges: seq<Range>)
    requires Keyed(ranges)
    ensures (forall caller: nat :: Special(ranges, caller) <==> Trusted(ranges, caller)) <==> Layered(ranges)
  {
    if Layered(ranges) {
      forall caller: nat ensures Special(ranges, caller) <==> Trusted(ranges, caller) {
        if Trusted(ranges, caller) {
          var j :| 0 <= j < |ranges| && ranges[j].Inside(caller);
          var i := FirstExists(ranges, caller, j);
          assert i < j ==> !Hidden(ranges, i, j);
        }
      }
    } else {
      var i: nat, j: nat :| i < j < |ranges| && Hidden(ranges, i, j);
      var caller := if EndBefore(ranges, i) > ranges[j].start then EndBefore(ranges, i) else ranges[j].start + 1;
      assert FirstAfter(ranges, caller, i) && ranges[j].Inside(caller);
      forall k: nat | FirstAfter(ranges, caller, k) ensures ranges[k].start >= caller { FirstUnique(ranges, caller, i, k); }
      assert !Special(ranges, caller) && Trusted(ranges, caller);
    }
  }

  /** Ranges that do not overlap, as mappings of one process do not, hide none. */
  lemma ApartIsLayered(ranges: seq<Range>)
    requires Keyed(ranges) && forall i, j | 0 <= i < j < |ranges| :: ranges[i].end <= ranges[j].start
    ensures Layered(ranges)
  { }

  /** So for the mappings of a process, looking at one range recognises exactly the trusted callers. */
  lemma ApartTrusts(ranges: seq<Range>)
    requires Keyed(ranges) && forall i, j | 0 <= i < j < |ranges| :: ranges[i].end <= ranges[j].start
    ensures forall caller: nat :: Special(ranges, caller) <==> Trusted(ranges, caller)
  {
    ApartIsLayered(ranges);
    OneRangeIsEnough(ranges);
  }

  // ----- Cutting

  /** One interval less one region: nothing, one piece or two. */
  method Cut(i: Interval, r: Region) returns (pieces: seq<Interval>)
    requires r.start <= r.end
    ensures forall a: nat :: Covered(pieces, a) <==> i.Has(a) && !r.Has(a)
    ensures Within(pieces, i) && (i.size > 0 ==> Proper(pieces))
  {
    var start, end := i.ptr, i.ptr + i.size;
    if r.start <= start && end <= r.end {
      pieces := [];
    } else if start < r.start && r.end < end {
      var left, right := Interval(i.ptr, r.start - start), Interval(r.end, end - r.end);
      pieces := [left, right];
      forall a: nat ensures Covered(pieces, a) <==> left.Has(a) || right.Has(a) { CoveredTwo(left, right, a); }
    } else if r.end > start && r.start <= start {
      pieces := [Interval(r.end, end - r.end)];
      forall a: nat ensures Covered(pieces, a) <==> pieces[0].Has(a) { CoveredOne(pieces[0], a); }
    } else if r.start > start && r.start < end {
      pieces := [Interval(i.ptr, r.start - start)];
      forall a: nat ensures Covered(pieces, a) <==> pieces[0].Has(a) { CoveredOne(pieces[0], a); }
    } else {
      pieces := [i];
      forall a: nat ensures Covered(pieces, a) <==> i.Has(a) { CoveredOne(i, a); }
    }
  }

  lemma CoveredOne(i: Interval, a: nat)
    ensures Covered([i], a) <==> i.Has(a)
  {
    assert [i][0] == i;
  }

  lemma CoveredTwo(i: Interval, j: Interval, a: nat)
    ensures Covered([i, j], a) <==> i.Has(a) || j.Has(a)
  {
    assert [i, j][0] == i && [i, j][1] == j;
  }

  lemma ProperAppend(list: seq<Interval>, whole: seq<Interval>, pieces: seq<Interval>, k: nat)
    requires k < |whole| && Proper(whole) && Proper(list) && Proper(pieces) && Within(pieces, whole[k])
    requires forall x | 0 <= x < |list| :: Apart(list[x], whole[k])
    ensures Proper(list + pieces)
  { }

  /** One region off every interval. */
  method SubtractRegion(list: seq<Interval>, r: Region) returns (out: seq<Interval>)
    requires r.start <= r.end
    ensures forall a: nat :: Covered(out, a) <==> Covered(list, a) && !r.Has(a)
    ensures Proper(list) ==> Proper(out)
  {
    hide Covered;
    out := [];
    NoneCovered();
    for k := 0 to |list|
      invariant forall a: nat :: Covered(out, a) <==> Covered(list[..k], a) && !r.Has(a)
      invariant Proper(list) ==> Proper(out) && forall x, y | 0 <= x < |out| && k <= y < |list| :: Apart(out[x], list[y])
    {
      var pieces := Cut(list[k], r);
      assert list[..k + 1] == list[..k] + [list[k]];
      forall a: nat ensures Covered(out + pieces, a) <==> Covered(list[..k + 1], a) && !r.Has(a) {
        CoveredAppend(out, pieces, a);
        CoveredAppend(list[..k], [list[k]], a);
        CoveredOne(list[k], a);
      }
      if Proper(list) { ProperAppend(out, list, pieces, k); }
      out := out + pieces;
    }
    assert list[..|list|] == list;
  }

  lemma NoneCovered()
    ensures forall a: nat :: !Covered([], a)
  { }

  ghost predicate CutOut(regions: seq<Region>, ranges: seq<Range>, n: nat, a: nat) {
    exists k :: 0 <= k < n && k < |regions| && Selected(regions[k], ranges) && regions[k].Has(a)
  }

  /** All selected regions, one after another: what is left is exactly the original bytes that are in
      none of them, still in non-empty pieces apart from one another. */
  method Subtract(list: seq<Interval>, regions: seq<Region>, ranges: seq<Range>) returns (out: seq<Interval>)
    requires Keyed(ranges) && forall k | 0 <= k < |regions| :: regions[k].start <= regions[k].end
    ensures forall a: nat :: Covered(out, a) <==> Covered(list, a) && !CutOut(regions, ranges, |regions|, a)
    ensures Proper(list) ==> Proper(out)
  {
    hide Covered, Proper, Selected, Keyed;
    out := list;
    for n := 0 to |regions|
      invariant forall a: nat :: Covered(out, a) <==> Covered(list, a) && !CutOut(regions, ranges, n, a)
      invariant Proper(list) ==> Proper(out)
    {
      var subtract := Subtracts(regions[n], ranges);
      forall a: nat ensures CutOut(regions, ranges, n + 1, a) <==> CutOut(regions, ranges, n, a) || (subtract && regions[n].Has(a)) {
        CutOutMore(regions, ranges, n, a);
      }
      if subtract {
        out := SubtractRegion(out, regions[n]);
      }
    }
  }

  lemma CutOutMore(regions: seq<Region>, ranges: seq<Range>, n: nat, a: nat)
    requires n < |regions|
    ensures CutOut(regions, ranges, n + 1, a) <==> CutOut(regions, ranges, n, a) || (Selected(regions[n], ranges) && regions[n].Has(a))
  {
    hide Selected;
    if CutOut(regions, ranges, n + 1, a) {
      var k :| 0 <= k < n + 1 && k < |regions| && Selected(regions[k], ranges) && regions[k].Has(a);
      assert k < n ==> CutOut(regions, ranges, n, a);
    }
  }
}
