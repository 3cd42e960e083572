/** The bounded buffer of vblank stamps of `swgenlock/primary.cpp`, and the requests it answers. */
module Collector {
  import opened Wrappers

  /** The last `n` elements, or all of them when there are fewer. */
  function LastOf(s: seq<int>, n: nat): (r: seq<int>)
    ensures |r| == (if |s| < n then |s| else n)
  {
    if |s| < n then s else s[|s| - n..]
  }

  /** The buffer stays the end of the history when a stamp is added to both and the oldest makes room. */
  lemma LastOfAppend(s: seq<int>, n: nat, x: int)
    requires n > 0
    ensures LastOf(s + [x], n) == (if |LastOf(s, n)| >= n then LastOf(s, n)[1..] else LastOf(s, n)) + [x]
  {
  }

  /** The end of an end is an end of the whole. */
  lemma LastOfLast(s: seq<int>, n: nat, m: nat)
    requires m <= n
    ensures LastOf(LastOf(s, n), m) == LastOf(s, m)
  {
  }

  const MAX_TIMESTAMPS: int := 100

  class VsyncCollector {
    const maxCount: nat
    var buffer: seq<int>

    /** Every stamp ever collected. */
    ghost var history: seq<int>

    ghost predicate Valid()
      reads this
    {
      maxCount > 0 && buffer == LastOf(history, maxCount)
    }

    constructor (maxCount: nat)
      requires maxCount > 0
      ensures Valid() && this.maxCount == maxCount && history == []
    {
      this.maxCount, buffer, history := maxCount, [], [];
    }

    /** One turn of the collecting thread; without a stamp `get_vsync` has failed. */
    method Collect(ts: Option<int>)
      requires Valid()
      modifies this
      ensures Valid() && history == old(history) + (if ts.Some? then [ts.value] else [])
    {
      if ts.Some? {
        LastOfAppend(history, maxCount, ts.value);
        if |buffer| >= maxCount {
          buffer := buffer[1..];
        }
        buffer := buffer + [ts.value];
        history := history + [ts.value];
      }
    }

    /** Succeeds exactly when that many stamps are kept, with the latest ones in the order they came. */
    method GetLastVsyncs(count: nat) returns (r: Option<seq<int>>)
      requires Valid()
      ensures r.Some? <==> count <= |history| && count <= maxCount
      ensures r.Some? ==> r.value == LastOf(history, count)
    {
      if |buffer| < count {
        return None;
      }
      LastOfLast(history, maxCount, count);
      r := Some(buffer[|buffer| - count..]);
    }

    /**
     One request of a client. A primary keeps 110 stamps, so a valid
     request fails only while too few were ever collected.
     */
    method Serve(vblankCount: int) returns (r: Option<seq<int>>)
      requires Valid() && maxCount >= 100
      ensures r.Some? <==> 1 <= vblankCount <= 100 && vblankCount <= |history|
      ensures r.Some? ==> r.value == LastOf(history, vblankCount)
    {
      if vblankCount <= 0 || vblankCount > MAX_TIMESTAMPS {
        return None;
      }
      r := GetLastVsyncs(vblankCount);
    }
  }
}
