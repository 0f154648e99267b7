/**
 * `Selections` of uicomponents.py: a menu cursor that moves up and down
 * through its labels, wrapping around at either end.
 */
module Selections {
  import opened Wrappers

  /** `select_up`: the previous label, the last one from the first; `None` is the `ZeroDivisionError` of an empty menu. */
  function SelectUp(selected: int, count: nat): (r: Option<int>)
    ensures r.None? <==> count == 0
    ensures r.Some? ==> 0 <= r.value < count
    ensures r.Some? && 0 < selected < count ==> r.value == selected - 1
    ensures r.Some? && selected == 0 ==> r.value == count - 1
  {
    if count == 0 then None else Some((selected - 1) % count)
  }

  /** `select_down`: the next label, the first one after the last. */
  function SelectDown(selected: int, count: nat): (r: Option<int>)
    ensures r.None? <==> count == 0
    ensures r.Some? ==> 0 <= r.value < count
    ensures r.Some? && 0 <= selected < count - 1 ==> r.value == selected + 1
    ensures r.Some? && selected == count - 1 ==> r.value == 0
  {
    if count == 0 then None else Some((selected + 1) % count)
  }

  /** Moving down then up, or up then down, returns to the selected label. */
  lemma UpDownInverse(selected: int, count: nat)
    requires 0 <= selected < count
    ensures SelectUp(SelectDown(selected, count).value, count) == Some(selected)
    ensures SelectDown(SelectUp(selected, count).value, count) == Some(selected)
  {
  }

  /** The label reached after `k` steps down. */
  function DownTimes(selected: int, count: nat, k: nat): (r: int)
    requires count > 0
    ensures 0 <= selected < count ==> 0 <= r < count
  {
    if k == 0 then selected else SelectDown(DownTimes(selected, count, k - 1), count).value
  }

  /** Within one round, `k` steps down add `k`, wrapping past the last label once. */
  lemma {:induction false} DownTimesWrap(selected: int, count: nat, k: nat)
    requires 0 <= selected < count && k <= count
    ensures DownTimes(selected, count, k) == if selected + k < count then selected + k else selected + k - count
  {
    if k > 0 {
      DownTimesWrap(selected, count, k - 1);
    }
  }

  /** `count` steps down from any label come back to it. */
  lemma FullCycle(selected: int, count: nat)
    requires 0 <= selected < count
    ensures DownTimes(selected, count, count) == selected
  {
    DownTimesWrap(selected, count, count);
  }
}
