/** Numeric id assignment: `Math.max(...list.map(x => x.id)) + 1`, or 1 for an empty
    list. The server's bike creation and the client's `nextId` helper both use it. */
module Ids {

  /** The largest element of a non-empty sequence of ids. */
  function Max(ids: seq<int>): (m: int)
    requires |ids| > 0
    ensures forall i :: 0 <= i < |ids| ==> ids[i] <= m
    ensures exists i :: 0 <= i < |ids| && ids[i] == m
  {
    if |ids| == 1 then ids[0]
    else
      var rest := Max(ids[1..]);
      assert forall i :: 1 <= i < |ids| ==> ids[i] == ids[1..][i - 1];
      if ids[0] >= rest then ids[0] else rest
  }

  /** The id given to a new record: 1 when there are none, else one more than the largest.
      It exceeds every id already present, so it is never a duplicate. */
  function NextId(ids: seq<int>): (r: int)
    ensures ids == [] ==> r == 1
    ensures forall i :: 0 <= i < |ids| ==> ids[i] < r
    ensures ids != [] ==> exists i :: 0 <= i < |ids| && r == ids[i] + 1
  {
    if ids == [] then 1 else Max(ids) + 1
  }
}
