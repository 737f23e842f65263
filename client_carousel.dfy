/** `ClientCarousel` (`frontend/app.js`): the carousel of a carousel round shows `visible`
    items at a time from a current index that wraps around at both ends. */
module ClientCarousel {
  import opened Results

  /** `getVisibleCount`: the `--visible` style value when it is a positive number, else 5. */
  function VisibleCount(v: Option<int>): (n: int)
    ensures n > 0
    ensures v.Some? && v.value > 0 ==> n == v.value
  {
    if v.Some? && v.value > 0 then v.value else 5
  }

  /** `Math.max(0, carouselItems.length - visible)`: the last index at which the frame is
      still full. */
  function MaxIndex(count: nat, visible: int): nat
    requires visible > 0
  {
    if count - visible > 0 then count - visible else 0
  }

  /** The two corrections of `updateCarouselTransform`, in its order: past the end goes
      back to the start, and before the start goes to the end. */
  function Clamp(index: int, count: nat, visible: int): (r: int)
    requires visible > 0
    ensures 0 <= r <= MaxIndex(count, visible)
    ensures 0 <= index <= MaxIndex(count, visible) ==> r == index
    ensures index > MaxIndex(count, visible) ==> r == 0
    ensures index < 0 ==> r == MaxIndex(count, visible)
  {
    var i := if index > MaxIndex(count, visible) then 0 else index;
    if i < 0 then MaxIndex(count, visible) else i
  }

  /** Stepping forward and back again, or back and forward again, returns to an index the
      carousel can show. */
  lemma PrevUndoesNext(i: int, count: nat, visible: int)
    requires visible > 0 && 0 <= i <= MaxIndex(count, visible)
    ensures Clamp(Clamp(i + 1, count, visible) - 1, count, visible) == i
    ensures Clamp(Clamp(i - 1, count, visible) + 1, count, visible) == i
  {
  }

  /** From the last full frame "next" wraps to the first, and from the first "prev" wraps
      to the last. */
  lemma WrapsAround(count: nat, visible: int)
    requires visible > 0
    ensures Clamp(MaxIndex(count, visible) + 1, count, visible) == 0
    ensures Clamp(-1, count, visible) == MaxIndex(count, visible)
  {
  }

  /** `findIndex((x) => x.is_target === true)` over the items' target flags: the first
      target's position, or -1 when there is none. */
  function FindTarget(isTarget: seq<bool>): (r: int)
    ensures -1 <= r < |isTarget|
    ensures r >= 0 ==> isTarget[r] && forall j | 0 <= j < r :: !isTarget[j]
    ensures r == -1 <==> forall j | 0 <= j < |isTarget| :: !isTarget[j]
  {
    if isTarget == [] then -1
    else if isTarget[0] then 0
    else
      var k := FindTarget(isTarget[1..]);
      if k < 0 then -1 else k + 1
  }

  /** Position `k` is among the `visible` items shown from `index`. */
  predicate InView(k: int, index: int, visible: int) {
    index <= k < index + visible
  }

  /** What `renderCarousel` leaves as the index of a finished round: it starts at the
      target, and `updateCarouselTransform` then clamps. A target within the last full frame
      is shown first; one further along sends the carousel back to the start, where it is
      in view only if it falls in the first frame. */
  lemma RenderedTargetInView(isTarget: seq<bool>, visible: int)
    requires visible > 0 && FindTarget(isTarget) >= 0
    ensures FindTarget(isTarget) <= MaxIndex(|isTarget|, visible) ==>
              Clamp(FindTarget(isTarget), |isTarget|, visible) == FindTarget(isTarget)
    ensures FindTarget(isTarget) > MaxIndex(|isTarget|, visible) ==>
              Clamp(FindTarget(isTarget), |isTarget|, visible) == 0
    ensures InView(FindTarget(isTarget), Clamp(FindTarget(isTarget), |isTarget|, visible), visible) <==>
              FindTarget(isTarget) <= MaxIndex(|isTarget|, visible) || FindTarget(isTarget) < visible
  {
  }

  /** Seven items with the target last and five in view: the finished carousel opens on
      the first five, without the target. */
  lemma LastTargetOutOfView()
    ensures FindTarget([false, false, false, false, false, false, true]) == 6
    ensures Clamp(6, 7, 5) == 0 && !InView(6, 0, 5)
  {
    assert [false, false, false, false, false, false, true][1..] == [false, false, false, false, false, true];
    assert [false, false, false, false, false, true][1..] == [false, false, false, false, true];
    assert [false, false, false, false, true][1..] == [false, false, false, true];
    assert [false, false, false, true][1..] == [false, false, true];
    assert [false, false, true][1..] == [false, true];
    assert [false, true][1..] == [true];
  }

  /** The carousel's index and the number of items it holds. */
  class Carousel {
    var index: int
    var count: nat

    constructor ()
      ensures index == 0 && count == 0
    {
      index := 0;
      count := 0;
    }

    /** `renderCarousel`, given the items' target flags: the carousel now holds those items
      and, when the round is finished, starts from the first target, before
      `updateCarouselTransform` clamps the index. */
    method Render(finished: bool, isTarget: seq<bool>, visible: Option<int>)
      modifies this
      ensures count == |isTarget|
      ensures index == Clamp(if finished && FindTarget(isTarget) >= 0 then FindTarget(isTarget) else old(index),
                             |isTarget|, VisibleCount(visible))
    {
      count := |isTarget|;
      if finished {
        var idx := FindTarget(isTarget);
        if idx >= 0 {
          index := idx;
        }
      }
      Update(visible);
    }

    /** `carouselIndex = 0`, as `startRound` does. */
    method Reset()
      modifies this
      ensures index == 0 && count == old(count)
    {
      index := 0;
    }

    /** `updateCarouselTransform`, less the pixel offset it writes to the track. */
    method Update(visible: Option<int>)
      modifies this
      ensures index == Clamp(old(index), count, VisibleCount(visible)) && count == old(count)
    {
      var v := VisibleCount(visible);
      var maxIndex := if count - v > 0 then count - v else 0;
      if index > maxIndex {
        index := 0;
      }
      if index < 0 {
        index := maxIndex;
      }
    }

    /** The "previous" button. */
    method Prev(visible: Option<int>)
      modifies this
      ensures index == Clamp(old(index) - 1, count, VisibleCount(visible)) && count == old(count)
    {
      index := index - 1;
      Update(visible);
    }

    /** The "next" button. */
    method Next(visible: Option<int>)
      modifies this
      ensures index == Clamp(old(index) + 1, count, VisibleCount(visible)) && count == old(count)
    {
      index := index + 1;
      Update(visible);
    }
  }
}
