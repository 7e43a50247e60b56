/** The art board's editing state: the frame map, the selected targets, the
    lock flag that tells the drag-select layer an element is being moved,
    and the last selection used to detect double clicks. Element boxes come
    in through a layout function; key tracking comes in as the `shiftKey`
    and `ctrlKey` fields. */
module Artboard {
  import opened Geometry
  import opened Collections
  import opened Arrange

  // ---------------------------------------------------------------------
  // Selection decisions
  // ---------------------------------------------------------------------

  /** When and what was last selected; time 0 means never. */
  datatype LastSelect = LastSelect(time: int, element: Option<ElementId>)

  const InitialLastSelect: LastSelect := LastSelect(0, None)

  /** Milliseconds within which a repeated selection counts as a double click. */
  const DoubleClickWindow: int := 250

  /** The same element (or, alike, no element) selected again, after a
      recorded selection, less than 250 ms later. */
  predicate IsDoubleClick(last: LastSelect, newTarget: Option<ElementId>, now: int) {
    last.element == newTarget && last.time != 0 && now - last.time < DoubleClickWindow
  }

  /** The record kept after a selection: a double click keeps the old one. */
  function NextLastSelect(last: LastSelect, newTarget: Option<ElementId>, now: int): (r: LastSelect)
    ensures r.element == newTarget
    ensures IsDoubleClick(last, newTarget, now) ==> r == last
    ensures !IsDoubleClick(last, newTarget, now) ==> r == LastSelect(now, newTarget)
  {
    if IsDoubleClick(last, newTarget, now) then last else LastSelect(now, newTarget)
  }

  /** A single selection at a non-zero time, followed by a selection of the
      same element less than 250 ms later, is a double click; a selection of
      a different element never is; nothing is a double click before the
      first selection is recorded. */
  lemma DoubleClickDetection(last: LastSelect, e: Option<ElementId>, other: Option<ElementId>, now1: int, now2: int)
    requires !IsDoubleClick(last, e, now1) && now1 != 0
    ensures now2 - now1 < DoubleClickWindow ==> IsDoubleClick(NextLastSelect(last, e, now1), e, now2)
    ensures now2 - now1 >= DoubleClickWindow ==> !IsDoubleClick(NextLastSelect(last, e, now1), e, now2)
    ensures other != e ==> !IsDoubleClick(NextLastSelect(last, e, now1), other, now2)
    ensures !IsDoubleClick(InitialLastSelect, e, now2)
  {
  }

  /** The target list `handleSelectChange` computes. */
  function NextTargets(targets: seq<ElementId>, newTarget: Option<ElementId>, ctrl: bool): (r: seq<ElementId>)
    ensures forall y :: y in r ==> y in targets || newTarget == Some(y)
    ensures |r| <= |targets| + 1
  {
    match newTarget
    case None => []
    case Some(e) =>
      var index := IndexOf(targets, e);
      if index == -1 then (if ctrl then targets + [e] else [e])
      else if ctrl then RemoveAt(targets, index)
      else targets
  }

  /** The selection rules: no element clears the list; with ctrl a click
      toggles the clicked element's membership and leaves every other
      element's membership alone; without ctrl an unselected element becomes
      the only target and a selected one leaves the list as it was; a
      duplicate-free list stays duplicate-free. */
  lemma SelectionUpdate(targets: seq<ElementId>, newTarget: Option<ElementId>, ctrl: bool)
    ensures newTarget.None? ==> NextTargets(targets, newTarget, ctrl) == []
    ensures newTarget.Some? && ctrl ==>
              var r := NextTargets(targets, newTarget, ctrl);
              && (NoDuplicates(targets) ==> (newTarget.value in r <==> newTarget.value !in targets))
              && (forall y :: y != newTarget.value ==> (y in r <==> y in targets))
    ensures newTarget.Some? && !ctrl && newTarget.value !in targets ==> NextTargets(targets, newTarget, ctrl) == [newTarget.value]
    ensures newTarget.Some? && !ctrl && newTarget.value in targets ==> NextTargets(targets, newTarget, ctrl) == targets
    ensures newTarget.Some? && ctrl && newTarget.value !in targets ==> NextTargets(targets, newTarget, ctrl) == targets + [newTarget.value]
    ensures NoDuplicates(targets) ==> NoDuplicates(NextTargets(targets, newTarget, ctrl))
  {
    if newTarget.Some? {
      var e := newTarget.value;
      var index := IndexOf(targets, e);
      if index != -1 && ctrl {
        RemoveAtMembership(targets, index);
      }
      if index == -1 && ctrl && NoDuplicates(targets) {
        var r := targets + [e];
        assert forall i, j :: 0 <= i < j < |r| ==> r[i] != r[j] by {
          forall i, j | 0 <= i < j < |r| ensures r[i] != r[j] {
            if j == |targets| {
              assert r[i] == targets[i];
            }
          }
        }
      }
    }
  }

  /** Ctrl-clicking an unselected element twice leaves the list as it was. */
  lemma CtrlClickTwiceRestores(targets: seq<ElementId>, e: ElementId)
    requires e !in targets
    ensures NextTargets(NextTargets(targets, Some(e), true), Some(e), true) == targets
  {
    var added := targets + [e];
    assert NextTargets(targets, Some(e), true) == added;
    IndexOfAppended(targets, e);
    assert added[..|targets|] == targets;
  }

  lemma {:induction false} IndexOfAppended(s: seq<ElementId>, e: ElementId)
    requires e !in s
    ensures IndexOf(s + [e], e) == |s|
  {
    assert (s + [e])[|s|] == e;
  }

  /** The target list `handleGroupClick` computes; None when the clicked
      element is not an element wrapper and the click is ignored. */
  function NextGroupTargets(targets: seq<ElementId>, inputTarget: ElementId, isWrapper: bool, ctrl: bool): (r: Option<seq<ElementId>>)
    ensures r.Some? <==> isWrapper
    ensures r.Some? ==> forall y :: y in r.value ==> y in targets || y == inputTarget
  {
    if !isWrapper then None
    else
      var index := IndexOf(targets, inputTarget);
      if ctrl then Some(if index == -1 then targets + [inputTarget] else RemoveAt(targets, index))
      else Some([inputTarget])
  }

  /** A group click is ignored off a wrapper; with ctrl it toggles exactly as
      a selection click does; without ctrl it always narrows the list to the
      clicked element, where a selection click on a selected element keeps
      the whole list. */
  lemma GroupClickVersusSelection(targets: seq<ElementId>, inputTarget: ElementId, isWrapper: bool, ctrl: bool)
    ensures !isWrapper <==> NextGroupTargets(targets, inputTarget, isWrapper, ctrl).None?
    ensures isWrapper && ctrl ==> NextGroupTargets(targets, inputTarget, isWrapper, ctrl) == Some(NextTargets(targets, Some(inputTarget), ctrl))
    ensures isWrapper && !ctrl ==> NextGroupTargets(targets, inputTarget, isWrapper, ctrl) == Some([inputTarget])
    ensures isWrapper && !ctrl && inputTarget in targets && |targets| > 1 ==>
              NextGroupTargets(targets, inputTarget, isWrapper, ctrl) != Some(NextTargets(targets, Some(inputTarget), ctrl))
  {
  }

  // ---------------------------------------------------------------------
  // Writes of the drag, resize and rotate handlers
  // ---------------------------------------------------------------------

  /** What one handler call writes into a record. */
  datatype FrameEdit =
    | Drag(beforeTranslate: Point, delta: Point)
    | Resize(width: real, height: real, beforeTranslate: Point)
    | Rotate(beforeDelta: real)
    | RotateInGroup(beforeRotate: real, beforeTranslate: Point)

  /** `handleDrag`'s write. Without shift both translates follow
      `beforeTranslate`; with shift only the axis of the first non-zero
      delta component does, so at most one axis changes. */
  function DragWrite(f: Frame, beforeTranslate: Point, delta: Point, shift: bool): (g: Frame)
    ensures g == f.(translateX := g.translateX, translateY := g.translateY)
    ensures !shift ==> g.translateX == beforeTranslate.x && g.translateY == beforeTranslate.y
    ensures shift ==> g.translateX == f.translateX || g.translateY == f.translateY
    ensures shift && delta.x != 0.0 ==> g.translateX == beforeTranslate.x && g.translateY == f.translateY
    ensures shift && delta.x == 0.0 && delta.y != 0.0 ==> g.translateX == f.translateX && g.translateY == beforeTranslate.y
    ensures shift && delta.x == 0.0 && delta.y == 0.0 ==> g == f
  {
    if shift then
      if delta.x != 0.0 then f.(translateX := beforeTranslate.x)
      else if delta.y != 0.0 then f.(translateY := beforeTranslate.y)
      else f
    else f.(translateX := beforeTranslate.x, translateY := beforeTranslate.y)
  }

  /** The write of one handler call. Only resizing touches the size; a
      resize writes the translate through the `tx`/`ty` aliases; only
      rotation touches the angle, and scale is never touched. */
  function Apply(f: Frame, edit: FrameEdit, shift: bool): (g: Frame)
    ensures g.scaleX == f.scaleX && g.scaleY == f.scaleY
    ensures !edit.Resize? ==> g.width == f.width && g.height == f.height
    ensures edit.Resize? ==>
              && g == f.(width := g.width, height := g.height, translateX := g.translateX, translateY := g.translateY)
              && g.width == Some(edit.width) && g.height == Some(edit.height)
              && g.translateX == edit.beforeTranslate.x && g.translateY == edit.beforeTranslate.y
    ensures edit.Drag? || edit.Resize? ==> g.rotate == f.rotate
    ensures edit.Rotate? ==> g == f.(rotate := f.rotate + edit.beforeDelta)
    ensures edit.RotateInGroup? ==>
              g == f.(rotate := edit.beforeRotate, translateX := edit.beforeTranslate.x, translateY := edit.beforeTranslate.y)
  {
    match edit
    case Drag(beforeTranslate, delta) => DragWrite(f, beforeTranslate, delta, shift)
    case Resize(width, height, beforeTranslate) =>
      f.(width := Some(width), height := Some(height), translateX := beforeTranslate.x, translateY := beforeTranslate.y)
    case Rotate(beforeDelta) => f.(rotate := f.rotate + beforeDelta)
    case RotateInGroup(beforeRotate, beforeTranslate) =>
      f.(rotate := beforeRotate, translateX := beforeTranslate.x, translateY := beforeTranslate.y)
  }

  /** `handleDragStart` hands the record's translate to the gesture as its
      start; a drag that reports that start back as `beforeTranslate`
      leaves the record as it was. */
  lemma DragFromStartKeepsFrame(f: Frame, delta: Point, shift: bool)
    ensures Apply(f, Drag(Point(f.translateX, f.translateY), delta), shift) == f
  {
  }

  /** Likewise for a group rotation seeded with the record's angle and translate. */
  lemma RotateGroupFromStartKeepsFrame(f: Frame)
    ensures Apply(f, RotateInGroup(f.rotate, Point(f.translateX, f.translateY)), false) == f
  {
  }

  /** `handleResizeStart` hands the record's translate to the gesture as its
      drag start; a resize that reports that start back only sets the size. */
  lemma ResizeFromStartKeepsPlace(f: Frame, width: real, height: real)
    ensures Apply(f, Resize(width, height, Point(f.translateX, f.translateY)), false)
            == f.(width := Some(width), height := Some(height))
  {
  }

  /** Rotation steps add up: two steps equal one step by their sum, and a
      zero step changes nothing. */
  lemma RotationsCompose(f: Frame, a: real, b: real)
    ensures Apply(Apply(f, Rotate(a), false), Rotate(b), false) == Apply(f, Rotate(a + b), false)
    ensures Apply(f, Rotate(0.0), false) == f
  {
  }

  /** One handler call of a group gesture: the element and its edit. */
  datatype TargetEdit = TargetEdit(target: ElementId, edit: FrameEdit)

  predicate DistinctTargets(events: seq<TargetEdit>) {
    forall i, j :: 0 <= i < j < |events| ==> events[i].target != events[j].target
  }

  /** The frame map after a group handler has applied `events` in order. */
  function AppliedAll(frames: FrameMap, events: seq<TargetEdit>, shift: bool): (r: FrameMap)
    ensures frames.Keys <= r.Keys
    decreases |events|
  {
    if events == [] then frames
    else
      var before := AppliedAll(frames, events[..|events| - 1], shift);
      var last := events[|events| - 1];
      before[last.target := Apply(FrameOf(before, last.target), last.edit, shift)]
  }

  /** A group gesture adds a record for exactly the elements it names. */
  lemma {:induction false} AppliedAllDomain(frames: FrameMap, events: seq<TargetEdit>, shift: bool)
    ensures forall e :: e in AppliedAll(frames, events, shift) <==> e in frames || exists i :: 0 <= i < |events| && events[i].target == e
    decreases |events|
  {
    if events != [] {
      var n := |events| - 1;
      AppliedAllDomain(frames, events[..n], shift);
      forall i | 0 <= i < n
        ensures events[..n][i] == events[i]
      {
      }
    }
  }

  /** With distinct targets, a group gesture gives each target its own
      single-element write, applied to its own record, and leaves every
      other element's record alone. */
  lemma {:induction false} AppliedAllEffect(frames: FrameMap, events: seq<TargetEdit>, shift: bool)
    requires DistinctTargets(events)
    ensures forall i :: 0 <= i < |events| ==>
              && events[i].target in AppliedAll(frames, events, shift)
              && AppliedAll(frames, events, shift)[events[i].target]
                 == Apply(FrameOf(frames, events[i].target), events[i].edit, shift)
    ensures forall e :: (forall i :: 0 <= i < |events| ==> events[i].target != e) ==>
              && (e in AppliedAll(frames, events, shift) <==> e in frames)
              && (e in frames ==> AppliedAll(frames, events, shift)[e] == frames[e])
    decreases |events|
  {
    if events != [] {
      var n := |events| - 1;
      var prefix := events[..n];
      assert DistinctTargets(prefix);
      AppliedAllEffect(frames, prefix, shift);
      var last := events[n];
      assert forall i :: 0 <= i < n ==> prefix[i].target != last.target;
      assert FrameOf(AppliedAll(frames, prefix, shift), last.target) == FrameOf(frames, last.target);
      forall i | 0 <= i < n
        ensures events[i].target != last.target && events[i] == prefix[i]
      {
      }
    }
  }

  /** A group rotation's start value per element: angle and translate. */
  datatype GroupRotateStart = GroupRotateStart(rotate: real, translate: Point)

  // ---------------------------------------------------------------------
  // The component
  // ---------------------------------------------------------------------

  class ArtBoard {
    var frameMap: FrameMap
    var target: seq<ElementId>
    var hasElementResizing: bool
    var shiftKey: bool
    var ctrlKey: bool
    var lastSelectElement: LastSelect

    /** The target list never holds an element twice: the selection handlers
        keep it so, and alignment and distribution rely on it. */
    predicate Valid()
      reads this
    {
      NoDuplicates(target)
    }

    constructor()
      ensures Valid()
      ensures frameMap == map[] && target == [] && !hasElementResizing
      ensures !shiftKey && !ctrlKey && lastSelectElement == InitialLastSelect
    {
      frameMap := map[];
      target := [];
      hasElementResizing := false;
      shiftKey := false;
      ctrlKey := false;
      lastSelectElement := InitialLastSelect;
    }

    /** `newFrame`: stores a fresh record for `e` and returns it. */
    method NewFrameFor(e: ElementId) returns (f: Frame)
      modifies this`frameMap
      ensures f == NewFrame
      ensures frameMap == old(frameMap)[e := NewFrame]
    {
      f := NewFrame;
      frameMap := frameMap[e := f];
    }

    /** `getFrame`: the stored record, or a fresh one stored on the way; no
        other entry changes. */
    method GetFrame(e: ElementId) returns (f: Frame)
      modifies this`frameMap
      ensures f == FrameOf(old(frameMap), e)
      ensures e in frameMap && frameMap[e] == f
      ensures e in old(frameMap) ==> frameMap == old(frameMap)
      ensures e !in old(frameMap) ==> f == NewFrame && frameMap == old(frameMap)[e := NewFrame]
    {
      if e in frameMap {
        f := frameMap[e];
      } else {
        f := NewFrameFor(e);
      }
    }

    method LockSelector()
      modifies this`hasElementResizing
      ensures hasElementResizing
    {
      hasElementResizing := true;
    }

    method UnLockSelector()
      modifies this`hasElementResizing
      ensures !hasElementResizing
    {
      hasElementResizing := false;
    }

    /** `handleSelectChange` at time `now`: reports a double click, records
        the selection unless it was one, and updates the target list. */
    method HandleSelectChange(newTarget: Option<ElementId>, now: int) returns (doubleClick: bool)
      modifies this`lastSelectElement, this`target
      ensures doubleClick == IsDoubleClick(old(lastSelectElement), newTarget, now)
      ensures lastSelectElement == NextLastSelect(old(lastSelectElement), newTarget, now)
      ensures target == NextTargets(old(target), newTarget, ctrlKey)
      ensures old(Valid()) ==> Valid()
    {
      SelectionUpdate(target, newTarget, ctrlKey);
      doubleClick := IsDoubleClick(lastSelectElement, newTarget, now);
      if !doubleClick {
        lastSelectElement := LastSelect(now, newTarget);
      }
      var nextState := target;
      if newTarget.Some? {
        var index := IndexOf(nextState, newTarget.value);
        if index == -1 {
          if ctrlKey {
            nextState := nextState + [newTarget.value];
          } else {
            nextState := [newTarget.value];
          }
        } else if ctrlKey {
          nextState := RemoveAt(nextState, index);
        }
      } else {
        nextState := [];
      }
      target := nextState;
    }

    /** `handleMultipleSelectChange`: the drag-selected elements become the targets. */
    method HandleMultipleSelectChange(elements: seq<ElementId>)
      modifies this`target
      ensures target == elements
      ensures Valid() <==> NoDuplicates(elements)
    {
      target := elements;
    }

    /** `handleGroupClick` on `inputTarget` among the group's `targets`. */
    method HandleGroupClick(inputTarget: ElementId, isWrapper: bool, targets: seq<ElementId>)
      modifies this`target
      ensures !isWrapper ==> target == old(target)
      ensures isWrapper ==> Some(target) == NextGroupTargets(targets, inputTarget, isWrapper, ctrlKey)
      ensures !isWrapper && old(Valid()) ==> Valid()
      ensures isWrapper && NoDuplicates(targets) ==> Valid()
    {
      if !isWrapper {
        return;
      }
      GroupClickVersusSelection(targets, inputTarget, isWrapper, ctrlKey);
      SelectionUpdate(targets, Some(inputTarget), ctrlKey);
      var index := IndexOf(targets, inputTarget);
      var nextTargets := targets;
      if ctrlKey {
        if index == -1 {
          nextTargets := nextTargets + [inputTarget];
        } else {
          nextTargets := RemoveAt(nextTargets, index);
        }
      } else {
        nextTargets := [inputTarget];
      }
      target := nextTargets;
    }

    /** `handleDragStart`: locks, and hands back the record's translate. */
    method HandleDragStart(e: ElementId) returns (start: Point)
      modifies this`hasElementResizing, this`frameMap
      ensures hasElementResizing
      ensures start == Point(FrameOf(old(frameMap), e).translateX, FrameOf(old(frameMap), e).translateY)
      ensures frameMap == old(frameMap)[e := FrameOf(old(frameMap), e)]
    {
      LockSelector();
      var f := GetFrame(e);
      start := Point(f.translateX, f.translateY);
    }

    /** Applies one handler's write to `e`'s record (creating it if need be). */
    method ApplyEdit(e: ElementId, edit: FrameEdit)
      modifies this`frameMap
      ensures frameMap == old(frameMap)[e := Apply(FrameOf(old(frameMap), e), edit, shiftKey)]
    {
      var f := GetFrame(e);
      frameMap := frameMap[e := Apply(f, edit, shiftKey)];
    }

    /** `handleDrag`. */
    method HandleDrag(e: ElementId, beforeTranslate: Point, delta: Point)
      modifies this`frameMap
      ensures frameMap == old(frameMap)[e := DragWrite(FrameOf(old(frameMap), e), beforeTranslate, delta, shiftKey)]
    {
      ApplyEdit(e, Drag(beforeTranslate, delta));
    }

    /** `handleDragEnd`, `handleResizeEnd`, `handleRotateEnd`, and the group
        variants: unlock (the tooltip is not modelled). */
    method HandleGestureEnd()
      modifies this`hasElementResizing
      ensures !hasElementResizing
    {
      UnLockSelector();
    }

    /** `handleResizeStart`: locks, and hands back the translate read through
        the `tx`/`ty` aliases. */
    method HandleResizeStart(e: ElementId) returns (start: Point)
      modifies this`hasElementResizing, this`frameMap
      ensures hasElementResizing
      ensures start == Point(FrameOf(old(frameMap), e).translateX, FrameOf(old(frameMap), e).translateY)
      ensures frameMap == old(frameMap)[e := FrameOf(old(frameMap), e)]
    {
      LockSelector();
      var f := GetFrame(e);
      start := Point(f.translateX, f.translateY);
    }

    /** `handleResize`. */
    method HandleResize(e: ElementId, width: real, height: real, beforeTranslate: Point)
      modifies this`frameMap
      ensures var f := FrameOf(old(frameMap), e);
              frameMap == old(frameMap)[e := f.(width := Some(width), height := Some(height),
                                                 translateX := beforeTranslate.x, translateY := beforeTranslate.y)]
    {
      ApplyEdit(e, Resize(width, height, beforeTranslate));
    }

    /** `handleRotateStart`: locks, and hands back the record's angle. */
    method HandleRotateStart(e: ElementId) returns (start: real)
      modifies this`hasElementResizing, this`frameMap
      ensures hasElementResizing
      ensures start == FrameOf(old(frameMap), e).rotate
      ensures frameMap == old(frameMap)[e := FrameOf(old(frameMap), e)]
    {
      LockSelector();
      var f := GetFrame(e);
      start := f.rotate;
    }

    /** `handleRotate`: the angle grows by `beforeDelta`. */
    method HandleRotate(e: ElementId, beforeDelta: real)
      modifies this`frameMap
      ensures var f := FrameOf(old(frameMap), e);
              frameMap == old(frameMap)[e := f.(rotate := f.rotate + beforeDelta)]
    {
      ApplyEdit(e, Rotate(beforeDelta));
    }

    /** `handleDragGroupStart`: locks and starts a drag on every element. */
    method HandleDragGroupStart(targets: seq<ElementId>) returns (starts: seq<Point>)
      modifies this`hasElementResizing, this`frameMap
      ensures hasElementResizing
      ensures |starts| == |targets|
      ensures forall e :: e in old(frameMap) ==> e in frameMap && frameMap[e] == old(frameMap)[e]
      ensures forall i :: 0 <= i < |targets| ==>
                starts[i] == Point(FrameOf(old(frameMap), targets[i]).translateX, FrameOf(old(frameMap), targets[i]).translateY)
      ensures forall e :: e in frameMap <==> e in old(frameMap) || e in targets
      ensures forall e :: e in frameMap ==> frameMap[e] == FrameOf(old(frameMap), e)
    {
      LockSelector();
      starts := [];
      for i := 0 to |targets|
        invariant hasElementResizing
        invariant |starts| == i
        invariant forall j :: 0 <= j < i ==>
                    starts[j] == Point(FrameOf(old(frameMap), targets[j]).translateX, FrameOf(old(frameMap), targets[j]).translateY)
        invariant forall e :: e in frameMap <==> e in old(frameMap) || e in targets[..i]
        invariant forall e :: e in frameMap ==> frameMap[e] == FrameOf(old(frameMap), e)
      {
        var start := HandleDragStart(targets[i]);
        starts := starts + [start];
        assert targets[..i + 1] == targets[..i] + [targets[i]];
      }
      assert targets[..|targets|] == targets;
    }

    /** Applies a group gesture's writes in order. */
    method ApplyAll(events: seq<TargetEdit>)
      modifies this`frameMap
      ensures frameMap == AppliedAll(old(frameMap), events, shiftKey)
    {
      for i := 0 to |events|
        invariant frameMap == AppliedAll(old(frameMap), events[..i], shiftKey)
      {
        ApplyEdit(events[i].target, events[i].edit);
        assert events[..i + 1][..i] == events[..i];
      }
      assert events[..|events|] == events;
    }

    /** `handleDragGroup`: `handleDrag` for every element, in order. */
    method HandleDragGroup(events: seq<TargetEdit>)
      requires forall i :: 0 <= i < |events| ==> events[i].edit.Drag?
      modifies this`frameMap
      ensures frameMap == AppliedAll(old(frameMap), events, shiftKey)
    {
      ApplyAll(events);
    }

    /** `handleResizeGroupStart`: locks and starts a resize on every element. */
    method HandleResizeGroupStart(targets: seq<ElementId>) returns (starts: seq<Point>)
      modifies this`hasElementResizing, this`frameMap
      ensures hasElementResizing
      ensures |starts| == |targets|
      ensures forall i :: 0 <= i < |targets| ==>
                starts[i] == Point(FrameOf(old(frameMap), targets[i]).translateX, FrameOf(old(frameMap), targets[i]).translateY)
      ensures forall e :: e in frameMap <==> e in old(frameMap) || e in targets
      ensures forall e :: e in frameMap ==> frameMap[e] == FrameOf(old(frameMap), e)
    {
      LockSelector();
      starts := [];
      for i := 0 to |targets|
        invariant hasElementResizing
        invariant |starts| == i
        invariant forall j :: 0 <= j < i ==>
                    starts[j] == Point(FrameOf(old(frameMap), targets[j]).translateX, FrameOf(old(frameMap), targets[j]).translateY)
        invariant forall e :: e in frameMap <==> e in old(frameMap) || e in targets[..i]
        invariant forall e :: e in frameMap ==> frameMap[e] == FrameOf(old(frameMap), e)
      {
        var start := HandleResizeStart(targets[i]);
        starts := starts + [start];
        assert targets[..i + 1] == targets[..i] + [targets[i]];
      }
      assert targets[..|targets|] == targets;
    }

    /** `handleResizeGroup`: `handleResize` for every element, in order. */
    method HandleResizeGroup(events: seq<TargetEdit>)
      requires forall i :: 0 <= i < |events| ==> events[i].edit.Resize?
      modifies this`frameMap
      ensures frameMap == AppliedAll(old(frameMap), events, shiftKey)
    {
      ApplyAll(events);
    }

    /** `handleRotateGroupStart`: locks and hands back every element's angle
        and translate. */
    method HandleRotateGroupStart(targets: seq<ElementId>) returns (starts: seq<GroupRotateStart>)
      modifies this`hasElementResizing, this`frameMap
      ensures hasElementResizing
      ensures |starts| == |targets|
      ensures forall i :: 0 <= i < |targets| ==>
                var f := FrameOf(old(frameMap), targets[i]);
                starts[i] == GroupRotateStart(f.rotate, Point(f.translateX, f.translateY))
      ensures forall e :: e in frameMap <==> e in old(frameMap) || e in targets
      ensures forall e :: e in frameMap ==> frameMap[e] == FrameOf(old(frameMap), e)
    {
      LockSelector();
      starts := [];
      for i := 0 to |targets|
        invariant hasElementResizing
        invariant |starts| == i
        invariant forall j :: 0 <= j < i ==>
                    var f := FrameOf(old(frameMap), targets[j]);
                    starts[j] == GroupRotateStart(f.rotate, Point(f.translateX, f.translateY))
        invariant forall e :: e in frameMap <==> e in old(frameMap) || e in targets[..i]
        invariant forall e :: e in frameMap ==> frameMap[e] == FrameOf(old(frameMap), e)
      {
        var f := GetFrame(targets[i]);
        starts := starts + [GroupRotateStart(f.rotate, Point(f.translateX, f.translateY))];
        assert targets[..i + 1] == targets[..i] + [targets[i]];
      }
      assert targets[..|targets|] == targets;
    }

    /** `handleRotateGroup`: every element takes the angle and translate the
        gesture reports for it. */
    method HandleRotateGroup(events: seq<TargetEdit>)
      requires forall i :: 0 <= i < |events| ==> events[i].edit.RotateInGroup?
      modifies this`frameMap
      ensures frameMap == AppliedAll(old(frameMap), events, shiftKey)
    {
      ApplyAll(events);
    }

    /** `setAlignment`: with two or more targets every target after the
        first moves by its alignment delta against the first; with exactly
        one the "align to art board" alert is raised and nothing moves. */
    method SetAlignment(alignment: string, layout: Layout) returns (alertShown: bool)
      modifies this`frameMap
      ensures alertShown <==> |target| == 1
      ensures |target| <= 1 ==> frameMap == old(frameMap)
      ensures |target| > 1 ==> frameMap == Aligned(old(frameMap), target, alignment, layout)
      ensures Valid() && |target| > 1 ==>
                && FrameOf(frameMap, target[0]) == FrameOf(old(frameMap), target[0])
                && forall j :: 1 <= j < |target| ==>
                     target[j] in frameMap
                     && frameMap[target[j]]
                        == Translated(FrameOf(old(frameMap), target[j]), AlignmentDelta(alignment, layout(target[0]), layout(target[j])))
    {
      alertShown := false;
      if |target| > 0 {
        if |target| > 1 {
          var baseRect := layout(target[0]);
          for i := 1 to |target|
            invariant frameMap == AlignedUpTo(old(frameMap), target, i, alignment, layout)
          {
            var currentRect := layout(target[i]);
            var f := GetFrame(target[i]);
            var d := AlignmentDelta(alignment, baseRect, currentRect);
            frameMap := frameMap[target[i] := Translated(f, d)];
          }
          if Valid() {
            AlignedFrames(old(frameMap), target, alignment, layout);
          }
        } else {
          alertShown := true;
        }
      }
    }

    /** `distributeElements` on the array `elements`: with more than two
        elements and a known direction it sorts the array in place by edge
        and moves the interior elements; otherwise nothing changes. */
    method DistributeElements(elements: array<ElementId>, distribution: string, layout: Layout)
      modifies this`frameMap, elements
      ensures multiset(elements[..]) == old(multiset(elements[..]))
      ensures (distribution == "vertical" || distribution == "horizontal") && elements.Length > 2 ==>
                && SortedByEdge(elements[..], layout, distribution == "vertical")
                && frameMap == Distributed(old(frameMap), elements[..], distribution == "vertical", layout)
      ensures !((distribution == "vertical" || distribution == "horizontal") && elements.Length > 2) ==>
                elements[..] == old(elements[..]) && frameMap == old(frameMap)
    {
      if elements.Length <= 2 || !(distribution == "vertical" || distribution == "horizontal") {
        return;
      }
      var vertical := distribution == "vertical";
      SortByEdge(elements, layout, vertical);
      SpreadSorted(elements[..], vertical, layout);
    }

    /** The part of `distributeElements` after the sort: with a positive
        total spacing, moves each interior element of the sorted `s`. */
    method SpreadSorted(s: seq<ElementId>, vertical: bool, layout: Layout)
      requires 3 <= |s|
      modifies this`frameMap
      ensures frameMap == Distributed(old(frameMap), s, vertical, layout)
    {
      var n := |s|;
      var firstRect := layout(s[0]);
      var firstMiddle := MiddleOf(firstRect, vertical);
      var lastRect := layout(s[n - 1]);
      var totalSpacing := TotalSpacing(firstRect, lastRect, vertical);
      if totalSpacing > 0.0 {
        var averageSpacing := totalSpacing / (n - 1) as real;
        assert averageSpacing == Step(s, layout, vertical);
        for i := 1 to n - 1
          invariant frameMap == DistributedUpTo(old(frameMap), s, i, vertical, layout)
        {
          var currentRect := layout(s[i]);
          var oldDistance := MiddleOf(currentRect, vertical) - firstMiddle;
          var f := GetFrame(s[i]);
          var moved := AxisTranslate(f, vertical) - (oldDistance - averageSpacing * i as real);
          assert moved == AxisTranslate(f, vertical) + Shift(s, i, vertical, layout);
          frameMap := frameMap[s[i] := WithAxisTranslate(f, vertical, moved)];
        }
      }
    }

    /** `setDistribution`: distributes the live target list, which the sort
        reorders in place, so the targets end up sorted by edge. */
    method SetDistribution(distribution: string, layout: Layout)
      modifies this`frameMap, this`target
      ensures multiset(target) == multiset(old(target))
      ensures (distribution == "vertical" || distribution == "horizontal") && |target| > 2 ==>
                && SortedByEdge(target, layout, distribution == "vertical")
                && frameMap == Distributed(old(frameMap), target, distribution == "vertical", layout)
      ensures !((distribution == "vertical" || distribution == "horizontal") && |target| > 2) ==>
                target == old(target) && frameMap == old(frameMap)
      ensures old(Valid()) ==> Valid()
      ensures old(Valid()) && (distribution == "vertical" || distribution == "horizontal") && |target| > 2 ==>
                && FrameOf(frameMap, target[0]) == FrameOf(old(frameMap), target[0])
                && FrameOf(frameMap, target[|target| - 1]) == FrameOf(old(frameMap), target[|target| - 1])
    {
      var elements := new ElementId[|target|];
      forall i | 0 <= i < elements.Length {
        elements[i] := target[i];
      }
      assert elements[..] == target;
      ghost var before := target;
      DistributeElements(elements, distribution, layout);
      target := elements[..];
      PermutationKeepsNoDuplicates(before, target);
      if NoDuplicates(target) && (distribution == "vertical" || distribution == "horizontal") && |target| > 2 {
        DistributedFrames(old(frameMap), target, distribution == "vertical", layout);
        assert target[0] !in target[1..|target| - 1];
        assert target[|target| - 1] !in target[1..|target| - 1];
      }
    }
  }
}
