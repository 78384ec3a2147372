/**
 The parts of Python's sequence semantics that the pager code relies on:
 `range(lo, hi)`, slicing `s[i:j]` (negative bounds count from the end,
 out-of-range bounds are clipped, never an error) and indexing `s[i]`
 (negative indices count from the end, out-of-range raises IndexError).
 */
module PySeq {

  datatype Option<+T> = None | Some(value: T)

  /** Python's `list(range(lo, hi))`: the integers lo, lo+1, ..., hi-1. */
  function Range(lo: int, hi: int): (r: seq<int>)
    ensures |r| == RangeLen(lo, hi)
    ensures r != [] ==> r[0] == lo && r[|r| - 1] == hi - 1
    decreases hi - lo
  {
    if lo >= hi then [] else [lo] + Range(lo + 1, hi)
  }

  /** Length of `range(lo, hi)`. */
  function RangeLen(lo: int, hi: int): nat {
    if lo >= hi then 0 else hi - lo
  }

  /** `range(lo, hi)` holds exactly the integers lo, lo+1, ... in that order. */
  lemma {:induction false} RangeAt(lo: int, hi: int)
    ensures |Range(lo, hi)| == RangeLen(lo, hi)
    ensures forall k :: 0 <= k < |Range(lo, hi)| ==> Range(lo, hi)[k] == lo + k
    decreases hi - lo
  {
    if lo < hi {
      RangeAt(lo + 1, hi);
    }
  }

  /** Membership in `range(lo, hi)` is the half-open interval test. */
  lemma RangeMembers(lo: int, hi: int)
    ensures forall x :: x in Range(lo, hi) <==> lo <= x < hi
  {
    RangeAt(lo, hi);
    forall x | lo <= x < hi
      ensures x in Range(lo, hi)
    {
      assert Range(lo, hi)[x - lo] == x;
    }
  }

  /** A Python slice bound after normalisation: a negative bound counts from
      the end, and the result is clipped into [0, n]. */
  function SliceBound(i: int, n: nat): (b: nat)
    ensures b <= n
    ensures 0 <= i ==> b == if i <= n then i else n
    ensures i < 0 ==> b == if -i <= n then n + i else 0
  {
    var j := if i < 0 then i + n else i;
    if j < 0 then 0 else if j > n then n else j
  }

  /** Python's `s[i:j]` (step 1). It never fails. */
  function Slice<T>(s: seq<T>, i: int, j: int): (r: seq<T>)
    ensures |r| == if SliceBound(j, |s|) <= SliceBound(i, |s|) then 0
                   else SliceBound(j, |s|) - SliceBound(i, |s|)
    ensures SliceBound(i, |s|) + |r| <= |s|
    ensures 0 <= i <= j ==> |r| <= j - i
    ensures forall k :: 0 <= k < |r| ==> r[k] == s[SliceBound(i, |s|) + k]
  {
    var a, b := SliceBound(i, |s|), SliceBound(j, |s|);
    if b <= a then [] else s[a..b]
  }

  /** Python's `s[i]`: `None` stands for the IndexError Python raises. */
  function Index<T>(s: seq<T>, i: int): (r: Option<T>)
    ensures r.None? <==> !(-|s| <= i < |s|)
    ensures 0 <= i < |s| ==> r == Some(s[i])
    ensures -|s| <= i < 0 ==> r == Some(s[|s| + i])
  {
    if -|s| <= i < 0 then Some(s[|s| + i])
    else if 0 <= i < |s| then Some(s[i])
    else None
  }

  /** Slicing a range with non-negative bounds gives a range again: `range`
      objects are sliced by clipping both ends to the range's length. */
  lemma RangeSlice(lo: int, hi: int, i: int, j: int)
    requires 0 <= i && 0 <= j
    ensures var n := RangeLen(lo, hi);
      Slice(Range(lo, hi), i, j)
        == Range(lo + (if i <= n then i else n), lo + (if j <= n then j else n))
  {
    RangeAt(lo, hi);
    var n := RangeLen(lo, hi);
    var a := if i <= n then i else n;
    var b := if j <= n then j else n;
    RangeAt(lo + a, lo + b);
    var s := Slice(Range(lo, hi), i, j);
    var t := Range(lo + a, lo + b);
    assert |s| == |t|;
    forall k | 0 <= k < |s|
      ensures s[k] == t[k]
    {
    }
  }
}
