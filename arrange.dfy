/** The art board's arrangement arithmetic: the transform record kept per
    element, alignment of a selection to its first element, and distribution
    of a selection along one axis. Bounding boxes are a snapshot taken
    through a layout function; frame records are values in a map. */
module Arrange {
  import opened Geometry
  import opened Collections

  /** The style record of one element: the transform's translate, rotation
      (degrees) and scale, and the `width` and `height` properties that
      resizing writes (absent until then). The `tx`/`ty` properties are
      aliases of the transform's translate, so they are not kept apart. */
  datatype Frame = Frame(translateX: real, translateY: real, rotate: real, scaleX: real, scaleY: real,
                         width: Option<real>, height: Option<real>)

  /** The record `newFrame` creates: no translation, no rotation, unit
      scale, no size. */
  const NewFrame: Frame := Frame(0.0, 0.0, 0.0, 1.0, 1.0, None, None)

  /** The frame map: element to transform record. */
  type FrameMap = map<ElementId, Frame>

  /** The record `getFrame` yields for an element: the stored one, or a new one. */
  function FrameOf(frames: FrameMap, e: ElementId): Frame {
    if e in frames then frames[e] else NewFrame
  }

  // ---------------------------------------------------------------------
  // Alignment
  // ---------------------------------------------------------------------

  predicate IsHorizontalAlignment(alignment: string) {
    alignment == "left" || alignment == "center" || alignment == "right"
  }

  predicate IsVerticalAlignment(alignment: string) {
    alignment == "top" || alignment == "middle" || alignment == "bottom"
  }

  /** A translation to add, per axis. */
  datatype Delta = Delta(dx: real, dy: real)

  /** The translation `setAlignment` computes for an element with box `cur`
      against the base box: it moves only along the axis of the mode, and
      moves `cur` so that the named edge or midline meets the base's. An
      unknown mode moves nothing. */
  function AlignmentDelta(alignment: string, base: Rect, cur: Rect): (d: Delta)
    ensures !IsHorizontalAlignment(alignment) ==> d.dx == 0.0
    ensures !IsVerticalAlignment(alignment) ==> d.dy == 0.0
    ensures alignment == "left" ==> cur.x + d.dx == base.x
    ensures alignment == "center" ==> cur.x + cur.width / 2.0 + d.dx == base.x + base.width / 2.0
    ensures alignment == "right" ==> cur.x + cur.width + d.dx == base.x + base.width
    ensures alignment == "top" ==> cur.y + d.dy == base.y
    ensures alignment == "middle" ==> cur.y + cur.height / 2.0 + d.dy == base.y + base.height / 2.0
    ensures alignment == "bottom" ==> cur.y + cur.height + d.dy == base.y + base.height
  {
    if alignment == "left" then Delta(base.x - cur.x, 0.0)
    else if alignment == "center" then Delta(base.x + base.width / 2.0 - (cur.x + cur.width / 2.0), 0.0)
    else if alignment == "right" then Delta(base.x - cur.x + (base.width - cur.width), 0.0)
    else if alignment == "top" then Delta(0.0, base.y - cur.y)
    else if alignment == "middle" then Delta(0.0, base.y + base.height / 2.0 - (cur.y + cur.height / 2.0))
    else if alignment == "bottom" then Delta(0.0, base.y + base.height - cur.y - cur.height)
    else Delta(0.0, 0.0)
  }

  /** Aligning is idempotent: once an element has moved by its delta, a
      second alignment against the same base computes no movement. */
  lemma AlignmentIdempotent(alignment: string, base: Rect, cur: Rect)
    ensures var d := AlignmentDelta(alignment, base, cur);
            AlignmentDelta(alignment, base, Translate(cur, d.dx, d.dy)) == Delta(0.0, 0.0)
  {
  }

  /** The record after an alignment step: each non-zero component is added to
      the translate on its axis; a zero component writes nothing. */
  function Translated(f: Frame, d: Delta): (g: Frame)
    ensures g == f.(translateX := f.translateX + d.dx, translateY := f.translateY + d.dy)
  {
    var g := if d.dx != 0.0 then f.(translateX := f.translateX + d.dx) else f;
    if d.dy != 0.0 then g.(translateY := g.translateY + d.dy) else g
  }

  /** The frame map once the alignment loop has handled positions 1 .. k-1
      of `targets`, each against the box of `targets[0]`. */
  function AlignedUpTo(frames: FrameMap, targets: seq<ElementId>, k: nat, alignment: string, layout: Layout): (r: FrameMap)
    requires 1 <= k <= |targets|
    decreases k
  {
    if k == 1 then frames
    else
      var before := AlignedUpTo(frames, targets, k - 1, alignment, layout);
      var e := targets[k - 1];
      before[e := Translated(FrameOf(before, e), AlignmentDelta(alignment, layout(targets[0]), layout(e)))]
  }

  /** The frame map after `setAlignment` on a selection of two or more. */
  function Aligned(frames: FrameMap, targets: seq<ElementId>, alignment: string, layout: Layout): (r: FrameMap)
    requires 1 <= |targets|
    ensures forall e :: e in r <==> e in frames || e in targets[1..]
  {
    AlignedUpToDomain(frames, targets, |targets|, alignment, layout);
    AlignedUpTo(frames, targets, |targets|, alignment, layout)
  }

  /** The loop prefix adds a record for exactly the targets it has passed. */
  lemma {:induction false} AlignedUpToDomain(frames: FrameMap, targets: seq<ElementId>, k: nat, alignment: string, layout: Layout)
    requires 1 <= k <= |targets|
    ensures forall e :: e in AlignedUpTo(frames, targets, k, alignment, layout) <==> e in frames || e in targets[1..k]
    decreases k
  {
    if k > 1 {
      AlignedUpToDomain(frames, targets, k - 1, alignment, layout);
      assert targets[1..k] == targets[1..k - 1] + [targets[k - 1]];
    }
  }

  lemma {:induction false} AlignedUpToEffect(frames: FrameMap, targets: seq<ElementId>, k: nat, alignment: string, layout: Layout)
    requires 1 <= k <= |targets| && NoDuplicates(targets)
    ensures var result := AlignedUpTo(frames, targets, k, alignment, layout);
            forall j :: 1 <= j < k ==>
              targets[j] in result
              && result[targets[j]] == Translated(FrameOf(frames, targets[j]),
                                                  AlignmentDelta(alignment, layout(targets[0]), layout(targets[j])))
    ensures var result := AlignedUpTo(frames, targets, k, alignment, layout);
            forall e :: e !in targets[1..k] ==> (e in result <==> e in frames) && (e in frames ==> result[e] == frames[e])
    decreases k
  {
    AlignedUpToKeeps(frames, targets, k, alignment, layout);
    if k > 1 {
      AlignedUpToEffect(frames, targets, k - 1, alignment, layout);
      var before := AlignedUpTo(frames, targets, k - 1, alignment, layout);
      var result := AlignedUpTo(frames, targets, k, alignment, layout);
      var e := targets[k - 1];
      assert e !in targets[1..k - 1];
      AlignedUpToKeeps(frames, targets, k - 1, alignment, layout);
      assert FrameOf(before, e) == FrameOf(frames, e);
      forall j | 1 <= j < k
        ensures targets[j] in result
                && result[targets[j]] == Translated(FrameOf(frames, targets[j]),
                                                    AlignmentDelta(alignment, layout(targets[0]), layout(targets[j])))
      {
        if j < k - 1 {
          assert targets[j] in targets[1..k - 1];
          assert result[targets[j]] == before[targets[j]];
        }
      }
    }
  }

  /** The loop prefix leaves every element it has not passed alone. */
  lemma {:induction false} AlignedUpToKeeps(frames: FrameMap, targets: seq<ElementId>, k: nat, alignment: string, layout: Layout)
    requires 1 <= k <= |targets|
    ensures var result := AlignedUpTo(frames, targets, k, alignment, layout);
            forall e :: e !in targets[1..k] ==> (e in result <==> e in frames) && (e in frames ==> result[e] == frames[e])
    decreases k
  {
    if k > 1 {
      AlignedUpToKeeps(frames, targets, k - 1, alignment, layout);
      assert targets[1..k] == targets[1..k - 1] + [targets[k - 1]];
    }
  }

  /** `setAlignment` on a duplicate-free selection of two or more: the base
      element's record is never touched; every other element's record moves
      by its alignment delta, only on the axis of the mode, with rotation,
      scale and size kept; elements outside the selection keep theirs. */
  lemma AlignedFrames(frames: FrameMap, targets: seq<ElementId>, alignment: string, layout: Layout)
    requires 2 <= |targets| && NoDuplicates(targets)
    ensures var result := Aligned(frames, targets, alignment, layout);
            && (targets[0] in result <==> targets[0] in frames)
            && (targets[0] in frames ==> result[targets[0]] == frames[targets[0]])
    ensures var result := Aligned(frames, targets, alignment, layout);
            forall j :: 1 <= j < |targets| ==>
              var old_ := FrameOf(frames, targets[j]);
              var d := AlignmentDelta(alignment, layout(targets[0]), layout(targets[j]));
              && targets[j] in result
              && result[targets[j]] == old_.(translateX := old_.translateX + d.dx, translateY := old_.translateY + d.dy)
              && (!IsHorizontalAlignment(alignment) ==> result[targets[j]].translateX == old_.translateX)
              && (!IsVerticalAlignment(alignment) ==> result[targets[j]].translateY == old_.translateY)
    ensures var result := Aligned(frames, targets, alignment, layout);
            forall e :: e !in targets ==> (e in result <==> e in frames) && (e in frames ==> result[e] == frames[e])
  {
    AlignedUpToEffect(frames, targets, |targets|, alignment, layout);
    assert targets[0] !in targets[1..];
    assert forall e :: e !in targets ==> e !in targets[1..];
  }

  // ---------------------------------------------------------------------
  // Distribution
  // ---------------------------------------------------------------------

  /** The sort key: the top edge (`rect.y`) when vertical, else the left edge (`rect.x`). */
  function EdgeOf(r: Rect, vertical: bool): real {
    if vertical then r.y else r.x
  }

  function SizeOf(r: Rect, vertical: bool): real {
    if vertical then r.height else r.width
  }

  /** The box's midline on the axis. */
  function MiddleOf(r: Rect, vertical: bool): real {
    EdgeOf(r, vertical) + SizeOf(r, vertical) / 2.0
  }

  function AxisTranslate(f: Frame, vertical: bool): real {
    if vertical then f.translateY else f.translateX
  }

  /** The record with its translate on the axis replaced. */
  function WithAxisTranslate(f: Frame, vertical: bool, t: real): (g: Frame)
    ensures AxisTranslate(g, vertical) == t
    ensures AxisTranslate(g, !vertical) == AxisTranslate(f, !vertical)
    ensures g.rotate == f.rotate && g.scaleX == f.scaleX && g.scaleY == f.scaleY && g.width == f.width && g.height == f.height
  {
    if vertical then f.(translateY := t) else f.(translateX := t)
  }

  function EdgeKey(layout: Layout, vertical: bool, e: ElementId): real {
    EdgeOf(layout(e), vertical)
  }

  /** Ascending by top edge (vertical) or left edge (horizontal). */
  ghost predicate SortedByEdge(s: seq<ElementId>, layout: Layout, vertical: bool) {
    forall i, j :: 0 <= i < j < |s| ==> EdgeKey(layout, vertical, s[i]) <= EdgeKey(layout, vertical, s[j])
  }

  /** `totalSpacing` as the code computes it:
      |(first edge - first size / 2) - (last edge - last size / 2)|. */
  function TotalSpacing(first: Rect, last: Rect, vertical: bool): (t: real)
    ensures 0.0 <= t
  {
    Abs(EdgeOf(first, vertical) - SizeOf(first, vertical) / 2.0
        - (EdgeOf(last, vertical) - SizeOf(last, vertical) / 2.0))
  }

  /** `averageSpacing`: the total spacing shared among the n - 1 gaps. */
  function Step(s: seq<ElementId>, layout: Layout, vertical: bool): real
    requires 3 <= |s|
  {
    TotalSpacing(layout(s[0]), layout(s[|s| - 1]), vertical) / (|s| - 1) as real
  }

  /** The n - 1 steps together cover the total spacing exactly. */
  lemma StepsCoverSpacing(s: seq<ElementId>, layout: Layout, vertical: bool)
    requires 3 <= |s|
    ensures Step(s, layout, vertical) * (|s| - 1) as real == TotalSpacing(layout(s[0]), layout(s[|s| - 1]), vertical)
  {
  }

  /** How far the interior element at sorted position `i` moves on the
      axis: -(oldDistance - step * i), where oldDistance runs from the first
      element's midline to this element's. */
  function Shift(s: seq<ElementId>, i: nat, vertical: bool, layout: Layout): real
    requires 3 <= |s| && 0 < i < |s| - 1
  {
    var oldDistance := MiddleOf(layout(s[i]), vertical) - MiddleOf(layout(s[0]), vertical);
    -(oldDistance - Step(s, layout, vertical) * i as real)
  }

  /** The move puts the element's midline at the first element's midline
      plus `step * i`. */
  lemma ShiftLandsOnStep(s: seq<ElementId>, i: nat, vertical: bool, layout: Layout)
    requires 3 <= |s| && 0 < i < |s| - 1
    ensures MiddleOf(layout(s[i]), vertical) + Shift(s, i, vertical, layout)
            == MiddleOf(layout(s[0]), vertical) + Step(s, layout, vertical) * i as real
  {
  }

  /** The record `f` of the element at sorted position `i` after its move. */
  function Moved(f: Frame, s: seq<ElementId>, i: nat, vertical: bool, layout: Layout): Frame
    requires 3 <= |s| && 0 < i < |s| - 1
  {
    WithAxisTranslate(f, vertical, AxisTranslate(f, vertical) + Shift(s, i, vertical, layout))
  }

  /** The frame map once the distribution loop has handled positions 1 .. k-1. */
  function DistributedUpTo(frames: FrameMap, s: seq<ElementId>, k: nat, vertical: bool, layout: Layout): (r: FrameMap)
    requires 3 <= |s| && 1 <= k <= |s| - 1
    decreases k
  {
    if k == 1 then frames
    else
      var before := DistributedUpTo(frames, s, k - 1, vertical, layout);
      before[s[k - 1] := Moved(FrameOf(before, s[k - 1]), s, k - 1, vertical, layout)]
  }

  /** The frame map after `distributeElements` on the sorted sequence `s`:
      nothing changes when the total spacing is zero. */
  function Distributed(frames: FrameMap, s: seq<ElementId>, vertical: bool, layout: Layout): (r: FrameMap)
    requires 3 <= |s|
    ensures forall e :: e in r <==> e in frames || (TotalSpacing(layout(s[0]), layout(s[|s| - 1]), vertical) > 0.0 && e in s[1..|s| - 1])
  {
    if TotalSpacing(layout(s[0]), layout(s[|s| - 1]), vertical) > 0.0
    then
      DistributedUpToDomain(frames, s, |s| - 1, vertical, layout);
      DistributedUpTo(frames, s, |s| - 1, vertical, layout)
    else frames
  }

  /** The loop prefix adds a record for exactly the interior elements it has passed. */
  lemma {:induction false} DistributedUpToDomain(frames: FrameMap, s: seq<ElementId>, k: nat, vertical: bool, layout: Layout)
    requires 3 <= |s| && 1 <= k <= |s| - 1
    ensures forall e :: e in DistributedUpTo(frames, s, k, vertical, layout) <==> e in frames || e in s[1..k]
    decreases k
  {
    if k > 1 {
      DistributedUpToDomain(frames, s, k - 1, vertical, layout);
      assert s[1..k] == s[1..k - 1] + [s[k - 1]];
    }
  }

  lemma {:induction false} DistributedUpToEffect(frames: FrameMap, s: seq<ElementId>, k: nat, vertical: bool, layout: Layout)
    requires 3 <= |s| && 1 <= k <= |s| - 1 && NoDuplicates(s)
    ensures var result := DistributedUpTo(frames, s, k, vertical, layout);
            forall i :: 0 < i < k ==> s[i] in result && result[s[i]] == Moved(FrameOf(frames, s[i]), s, i, vertical, layout)
    ensures var result := DistributedUpTo(frames, s, k, vertical, layout);
            forall e :: e !in s[1..k] ==> (e in result <==> e in frames) && (e in frames ==> result[e] == frames[e])
    decreases k
  {
    DistributedUpToKeeps(frames, s, k, vertical, layout);
    if k > 1 {
      DistributedUpToEffect(frames, s, k - 1, vertical, layout);
      var before := DistributedUpTo(frames, s, k - 1, vertical, layout);
      var result := DistributedUpTo(frames, s, k, vertical, layout);
      var e := s[k - 1];
      assert e !in s[1..k - 1];
      DistributedUpToKeeps(frames, s, k - 1, vertical, layout);
      assert FrameOf(before, e) == FrameOf(frames, e);
      forall i | 0 < i < k
        ensures s[i] in result && result[s[i]] == Moved(FrameOf(frames, s[i]), s, i, vertical, layout)
      {
        if i < k - 1 {
          assert s[i] in s[1..k - 1];
          assert result[s[i]] == before[s[i]];
        }
      }
    }
  }

  /** The loop prefix leaves every element it has not passed alone. */
  lemma {:induction false} DistributedUpToKeeps(frames: FrameMap, s: seq<ElementId>, k: nat, vertical: bool, layout: Layout)
    requires 3 <= |s| && 1 <= k <= |s| - 1
    ensures var result := DistributedUpTo(frames, s, k, vertical, layout);
            forall e :: e !in s[1..k] ==> (e in result <==> e in frames) && (e in frames ==> result[e] == frames[e])
    decreases k
  {
    if k > 1 {
      DistributedUpToKeeps(frames, s, k - 1, vertical, layout);
      assert s[1..k] == s[1..k - 1] + [s[k - 1]];
    }
  }

  /** `distributeElements` on a duplicate-free sorted selection of three or
      more: the first and last elements and every element outside the
      selection keep their records; with zero total spacing nothing changes;
      otherwise each interior element's midline lands at the first element's
      midline plus `step * i`, by a move on the distribution axis only. */
  lemma DistributedFrames(frames: FrameMap, s: seq<ElementId>, vertical: bool, layout: Layout)
    requires 3 <= |s| && NoDuplicates(s)
    ensures TotalSpacing(layout(s[0]), layout(s[|s| - 1]), vertical) == 0.0 ==> Distributed(frames, s, vertical, layout) == frames
    ensures var result := Distributed(frames, s, vertical, layout);
            forall e :: e !in s[1..|s| - 1] ==> (e in result <==> e in frames) && (e in frames ==> result[e] == frames[e])
    ensures var result := Distributed(frames, s, vertical, layout);
            TotalSpacing(layout(s[0]), layout(s[|s| - 1]), vertical) > 0.0 ==>
              forall i :: 0 < i < |s| - 1 ==>
                var f := FrameOf(frames, s[i]);
                && s[i] in result
                && MiddleOf(layout(s[i]), vertical) + (AxisTranslate(result[s[i]], vertical) - AxisTranslate(f, vertical))
                   == MiddleOf(layout(s[0]), vertical) + Step(s, layout, vertical) * i as real
                && result[s[i]] == WithAxisTranslate(f, vertical, AxisTranslate(result[s[i]], vertical))
  {
    if TotalSpacing(layout(s[0]), layout(s[|s| - 1]), vertical) > 0.0 {
      DistributedUpToEffect(frames, s, |s| - 1, vertical, layout);
      forall i | 0 < i < |s| - 1 {
        ShiftLandsOnStep(s, i, vertical, layout);
      }
    }
  }

  /** When the first and last elements have the same size on the axis, the
      spacing spans exactly from the first midline to the last: the interior
      midlines then divide that span into equal gaps. */
  lemma EqualEndSizesSpreadEvenly(s: seq<ElementId>, layout: Layout, vertical: bool)
    requires 3 <= |s| && SortedByEdge(s, layout, vertical)
    requires SizeOf(layout(s[0]), vertical) == SizeOf(layout(s[|s| - 1]), vertical)
    ensures MiddleOf(layout(s[0]), vertical) + Step(s, layout, vertical) * (|s| - 1) as real
            == MiddleOf(layout(s[|s| - 1]), vertical)
  {
    var n := |s| - 1;
    StepsCoverSpacing(s, layout, vertical);
    assert EdgeKey(layout, vertical, s[0]) <= EdgeKey(layout, vertical, s[n]);
  }

  /** First box at 0 with height 10, a middle one, and the last at 100 with
      height 30. */
  function UnevenLayout(e: ElementId): Rect {
    if e == 1 then Rect(0.0, 0.0, 10.0, 10.0, 0.0, 0.0, 10.0, 10.0)
    else if e == 2 then Rect(0.0, 40.0, 10.0, 20.0, 0.0, 40.0, 10.0, 60.0)
    else Rect(0.0, 100.0, 10.0, 30.0, 0.0, 100.0, 10.0, 130.0)
  }

  /** With unequal end sizes the code's spacing does not reach the last
      midline: the total spacing is 90, so the middle midline goes to
      5 + 45 = 50, not to 60, halfway between the fixed midlines 5 and 115. */
  lemma UnequalEndSizesExample()
    ensures TotalSpacing(UnevenLayout(1), UnevenLayout(3), true) == 90.0
    ensures Step([1, 2, 3], UnevenLayout, true) == 45.0
    ensures MiddleOf(UnevenLayout(1), true) + Step([1, 2, 3], UnevenLayout, true) * 2.0 != MiddleOf(UnevenLayout(3), true)
    ensures TotalSpacing(TallFirstLayout(1), TallFirstLayout(3), true) == 110.0
    ensures MiddleOf(TallFirstLayout(3), true) - MiddleOf(TallFirstLayout(1), true) == 90.0
  {
  }

  /** Boxes at 0 (height 30), 40 (height 20) and 100 (height 10). */
  function TallFirstLayout(e: ElementId): Rect {
    if e == 1 then Rect(0.0, 0.0, 10.0, 30.0, 0.0, 0.0, 10.0, 30.0)
    else if e == 2 then Rect(0.0, 40.0, 10.0, 20.0, 0.0, 40.0, 10.0, 60.0)
    else Rect(0.0, 100.0, 10.0, 10.0, 0.0, 100.0, 10.0, 110.0)
  }

  /** When the first element's edge minus half its size is not past the
      last's, the steps miss the last midline by the difference of the end
      sizes: short of it when the last element is the larger, past it when
      the first is. */
  lemma StepsMissBySizeDifference(s: seq<ElementId>, layout: Layout, vertical: bool)
    requires 3 <= |s|
    requires EdgeOf(layout(s[0]), vertical) - SizeOf(layout(s[0]), vertical) / 2.0
             <= EdgeOf(layout(s[|s| - 1]), vertical) - SizeOf(layout(s[|s| - 1]), vertical) / 2.0
    ensures MiddleOf(layout(s[0]), vertical) + Step(s, layout, vertical) * (|s| - 1) as real
            == MiddleOf(layout(s[|s| - 1]), vertical) + (SizeOf(layout(s[0]), vertical) - SizeOf(layout(s[|s| - 1]), vertical))
  {
    StepsCoverSpacing(s, layout, vertical);
  }

  /** When the first element's edge minus half its size is past the last's
      (an end pair close together with the first the smaller), the steps end
      twice the edge gap before the last midline. */
  lemma StepsMissByEdgeGap(s: seq<ElementId>, layout: Layout, vertical: bool)
    requires 3 <= |s|
    requires EdgeOf(layout(s[0]), vertical) - SizeOf(layout(s[0]), vertical) / 2.0
             > EdgeOf(layout(s[|s| - 1]), vertical) - SizeOf(layout(s[|s| - 1]), vertical) / 2.0
    ensures MiddleOf(layout(s[0]), vertical) + Step(s, layout, vertical) * (|s| - 1) as real
            == MiddleOf(layout(s[|s| - 1]), vertical) - 2.0 * (EdgeOf(layout(s[|s| - 1]), vertical) - EdgeOf(layout(s[0]), vertical))
  {
    StepsCoverSpacing(s, layout, vertical);
  }

  // ---------------------------------------------------------------------
  // Sorting the selection in place
  // ---------------------------------------------------------------------

  method Swap(a: array<ElementId>, i: nat, j: nat)
    requires i < a.Length && j < a.Length
    modifies a
    ensures a[i] == old(a[j]) && a[j] == old(a[i])
    ensures forall k :: 0 <= k < a.Length && k != i && k != j ==> a[k] == old(a[k])
    ensures multiset(a[..]) == old(multiset(a[..]))
  {
    a[i], a[j] := a[j], a[i];
  }

  /** `elements.sort((e1, e2) => rect(e1).edge - rect(e2).edge)`, in place:
      afterwards the array is ascending by edge and a permutation of what it
      held. */
  method SortByEdge(a: array<ElementId>, layout: Layout, vertical: bool)
    modifies a
    ensures SortedByEdge(a[..], layout, vertical)
    ensures multiset(a[..]) == old(multiset(a[..]))
  {
    if a.Length < 2 {
      return;
    }
    var i := 1;
    while i < a.Length
      invariant 1 <= i <= a.Length
      invariant forall p, q :: 0 <= p < q < i ==> EdgeKey(layout, vertical, a[p]) <= EdgeKey(layout, vertical, a[q])
      invariant multiset(a[..]) == old(multiset(a[..]))
    {
      var j := i;
      while 0 < j && EdgeKey(layout, vertical, a[j - 1]) > EdgeKey(layout, vertical, a[j])
        invariant 0 <= j <= i
        invariant forall p, q :: 0 <= p < q <= i && p != j && q != j ==>
                    EdgeKey(layout, vertical, a[p]) <= EdgeKey(layout, vertical, a[q])
        invariant forall q :: j < q <= i ==> EdgeKey(layout, vertical, a[j]) <= EdgeKey(layout, vertical, a[q])
        invariant multiset(a[..]) == old(multiset(a[..]))
      {
        Swap(a, j - 1, j);
        j := j - 1;
      }
      i := i + 1;
    }
  }
}
