/**
 * The depth guard (walker.go:364-396).
 *
 * The Go walker keeps one `*int` counter in the context of a top-level
 * `Walk`.  The first `dive` finds no counter and creates one at 0 without
 * incrementing; later dives increment it while it is below `maxDepth` and
 * otherwise report "too deep"; `rise` decrements it while it is positive.
 * `Depth` is the counter object; `Dive` and `Rise` are the pure effects on
 * the context's view of it (`None`: no counter yet).
 */
module Depth {
  import opened Values

  const NoDepthLimit: int := -1

  /** The counter cell the context carries. */
  class DepthCounter {
    var n: int

    constructor ()
      ensures n == 0
    {
      n := 0;
    }
  }

  datatype Dived = Dived(tooDeep: bool, after: Option<int>)

  function Dive(maxDepth: int, d: Option<int>): Dived {
    if maxDepth == NoDepthLimit then Dived(false, d)
    else if d.None? then Dived(false, Some(0))
    else if d.value < maxDepth then Dived(false, Some(d.value + 1))
    else Dived(true, d)
  }

  function Rise(maxDepth: int, d: Option<int>): Option<int> {
    if maxDepth == NoDepthLimit || d.None? then d
    else if d.value > 0 then Some(d.value - 1)
    else d
  }

  /**
   * Without a limit a dive is never too deep; with `maxDepth >= 0` a counter
   * that starts within `[0, maxDepth]` stays there, and a too-deep dive
   * leaves it unchanged.
   */
  lemma DiveBounds(maxDepth: int, d: Option<int>)
    ensures maxDepth == NoDepthLimit ==> Dive(maxDepth, d) == Dived(false, d)
    ensures maxDepth >= 0 && (d.Some? ==> 0 <= d.value <= maxDepth) ==>
      var r := Dive(maxDepth, d); r.after.Some? && 0 <= r.after.value <= maxDepth
    ensures Dive(maxDepth, d).tooDeep ==> Dive(maxDepth, d).after == d
    ensures maxDepth != NoDepthLimit && d.Some? ==>
      (Dive(maxDepth, d).tooDeep <==> d.value >= maxDepth)
  {
  }

  /** `rise` never takes a non-negative counter below 0 and undoes a successful `dive`. */
  lemma DiveRiseBalance(maxDepth: int, d: Option<int>)
    requires d.Some? ==> d.value >= 0
    ensures var r := Rise(maxDepth, d); r.Some? ==> r.value >= 0
    ensures !Dive(maxDepth, d).tooDeep && d.Some? ==> Rise(maxDepth, Dive(maxDepth, d).after) == d
  {
  }
}
