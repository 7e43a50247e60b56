/** The drag-area selector (`ReactDragSelectable`): turns a pointer drag over
    a container into a selector rectangle and picks the on-screen elements
    that the rectangle encloses (window selection) or crosses (crossing
    selection). The DOM is replaced by inputs: events, scroll offsets and a
    layout function from element id to bounding box. */
module DragSelect {
  import opened Geometry
  import opened Collections

  /** The corner a drag started from. `Left…` is a drag towards +x, `…Down`
      a drag towards +y. */
  datatype Direction = LeftUp | LeftDown | RightUp | RightDown
  {
    /** A drag from right to left selects what the rectangle crosses; a drag
        from left to right only what it encloses. */
    predicate IsCrossing() {
      this == RightUp || this == RightDown
    }
  }

  /** The selector rectangle in container coordinates, with its direction. */
  datatype SelectorPosition = SelectorPosition(x: real, y: real, w: real, h: real, direction: Direction)

  /** What the component reads from a mouse event. `which` and `button` are
      absent on events that lack the property; `targetSelectable` says
      whether the target carries the selectable class. */
  datatype MouseEvent = MouseEvent(
    pageX: real, pageY: real, clientX: real, clientY: real,
    buttons: int, which: Option<int>, button: Option<int>,
    target: ElementId, targetSelectable: bool)

  /** The drag container: absent, the document, or an element with its
      bounding box and its own scroll offsets. */
  datatype Container =
    | NoContainer
    | DocumentContainer
    | ElementContainer(box: Rect, scrollTop: real, scrollLeft: real)

  /** Scroll state of the page: `document.body`, `document.documentElement`
      and the window's page offsets. */
  datatype DocumentState = DocumentState(
    bodyScrollTop: real, bodyScrollLeft: real,
    rootScrollTop: real, rootScrollLeft: real,
    pageXOffset: real, pageYOffset: real)

  /** The document's client size and the window's inner size. */
  datatype Viewport = Viewport(clientWidth: real, clientHeight: real, innerWidth: real, innerHeight: real)

  /** The properties the art board passes down. */
  datatype Props = Props(container: Container, locked: bool)

  /** JavaScript `a || b` on numbers: `a` unless it is zero. */
  function OrElse(a: real, b: real): real {
    if a != 0.0 then a else b
  }

  // ---------------------------------------------------------------------
  // Direction and selector rectangle
  // ---------------------------------------------------------------------

  /** The direction tag depends on the raw cursor displacement only:
      `Left` exactly when x grew, `Down` exactly when y grew. */
  function DragDirection(initial: Point, current: Point): (d: Direction)
    ensures (d == LeftUp || d == LeftDown) <==> current.x - initial.x > 0.0
    ensures (d == LeftDown || d == RightDown) <==> current.y - initial.y > 0.0
  {
    var horizontal := current.x - initial.x > 0.0;
    var vertical := current.y - initial.y > 0.0;
    if horizontal then (if vertical then LeftDown else LeftUp)
    else (if vertical then RightDown else RightUp)
  }

  /** `[start, start + size]` has exactly the endpoints `a` and `b`. */
  predicate Spans(start: real, size: real, a: real, b: real) {
    (start == a && start + size == b) || (start == b && start + size == a)
  }

  /** The rectangle `_getPosition` derives from the anchor, the scroll at drag
      start, the current cursor and the current scroll. On each axis it runs
      between the scroll-adjusted anchor and the scroll-adjusted cursor,
      whichever comes first, so its size is never negative. */
  function SelectorAt(initialCursor: Point, initialScroll: Point, cursor: Point, scroll: Point): (p: SelectorPosition)
    ensures 0.0 <= p.w && 0.0 <= p.h
    ensures Spans(p.x, p.w, initialCursor.x + initialScroll.x, cursor.x + scroll.x)
    ensures Spans(p.y, p.h, initialCursor.y + initialScroll.y, cursor.y + scroll.y)
    ensures p.direction == DragDirection(initialCursor, cursor)
  {
    var scrollAmount := Point(scroll.x - initialScroll.x, scroll.y - initialScroll.y);
    var isAboveX := cursor.x > initialCursor.x - scrollAmount.x;
    var isAboveY := cursor.y > initialCursor.y - scrollAmount.y;
    SelectorPosition(
      if isAboveX then initialCursor.x + initialScroll.x else cursor.x + scroll.x,
      if isAboveY then initialCursor.y + initialScroll.y else cursor.y + scroll.y,
      if isAboveX then cursor.x - initialCursor.x + scrollAmount.x
      else initialCursor.x - cursor.x - scrollAmount.x,
      if isAboveY then cursor.y - initialCursor.y + scrollAmount.y
      else initialCursor.y - cursor.y - scrollAmount.y,
      DragDirection(initialCursor, cursor))
  }

  /** The zero-size rectangle `getStartingPositions` places at the anchor. */
  function StartingSelector(initialCursor: Point, initialScroll: Point): (p: SelectorPosition)
    ensures p.w == 0.0 && p.h == 0.0
    ensures p.x == initialCursor.x + initialScroll.x && p.y == initialCursor.y + initialScroll.y
  {
    SelectorPosition(initialCursor.x + initialScroll.x, initialCursor.y + initialScroll.y, 0.0, 0.0, LeftUp)
  }

  /** Without movement and with unchanged scroll, `_getPosition` reproduces
      the starting rectangle; only the tag differs (`RightUp`, not `LeftUp`). */
  lemma NoMovementReproducesStart(initialCursor: Point, initialScroll: Point)
    ensures SelectorAt(initialCursor, initialScroll, initialCursor, initialScroll)
         == StartingSelector(initialCursor, initialScroll).(direction := RightUp)
  {
  }

  // ---------------------------------------------------------------------
  // Cursor position and scroll
  // ---------------------------------------------------------------------

  /** `getScroll()` without an area: the body's offset when positive, else
      the root element's. */
  function DocumentScroll(doc: DocumentState): (s: Point)
    ensures doc.bodyScrollTop > 0.0 ==> s.y == doc.bodyScrollTop
    ensures doc.bodyScrollTop <= 0.0 ==> s.y == doc.rootScrollTop
    ensures doc.bodyScrollLeft > 0.0 ==> s.x == doc.bodyScrollLeft
    ensures doc.bodyScrollLeft <= 0.0 ==> s.x == doc.rootScrollLeft
  {
    Point(if doc.bodyScrollLeft > 0.0 then doc.bodyScrollLeft else doc.rootScrollLeft,
          if doc.bodyScrollTop > 0.0 then doc.bodyScrollTop else doc.rootScrollTop)
  }

  /** `getScroll(area)`: an element container's own offset when it is not
      negative; otherwise (no container, the document, or a negative offset)
      the document's scroll. */
  function Scroll(area: Container, doc: DocumentState): (s: Point)
    ensures area.ElementContainer? && area.scrollTop >= 0.0 ==> s.y == area.scrollTop
    ensures area.ElementContainer? && area.scrollLeft >= 0.0 ==> s.x == area.scrollLeft
    ensures !(area.ElementContainer? && area.scrollTop >= 0.0) ==> s.y == DocumentScroll(doc).y
    ensures !(area.ElementContainer? && area.scrollLeft >= 0.0) ==> s.x == DocumentScroll(doc).x
  {
    var body := DocumentScroll(doc);
    Point(if area.ElementContainer? && area.scrollLeft >= 0.0 then area.scrollLeft else body.x,
          if area.ElementContainer? && area.scrollTop >= 0.0 then area.scrollTop else body.y)
  }

  /** With non-negative page offsets, the scroll the selector uses is never negative. */
  lemma ScrollNotNegative(area: Container, doc: DocumentState)
    requires 0.0 <= doc.rootScrollTop && 0.0 <= doc.rootScrollLeft
    ensures 0.0 <= Scroll(area, doc).x && 0.0 <= Scroll(area, doc).y
  {
  }

  /** The origin `getAreaRect` gives the area: the document (also standing in
      for a missing container) sits at 0,0, an element at its box's corner. */
  function AreaOrigin(area: Container): (o: Point)
    ensures area.ElementContainer? ==> o.x == area.box.left && o.y == area.box.top
    ensures !area.ElementContainer? ==> o == Point(0.0, 0.0)
  {
    match area
    case ElementContainer(box, _, _) => Point(box.left, box.top)
    case _ => Point(0.0, 0.0)
  }

  /** `_getCursorPos`: the page position (`pageX || clientX`) made relative to
      the area's origin and the document scroll, shifted by the container
      offset and divided by the zoom. Undoing those steps gives back the
      page position. */
  function CursorPos(ev: MouseEvent, area: Container, doc: DocumentState, containerOffset: Point, zoom: real): (p: Point)
    requires zoom > 0.0
    ensures p.x * zoom + AreaOrigin(area).x + DocumentScroll(doc).x - containerOffset.x == OrElse(ev.pageX, ev.clientX)
    ensures p.y * zoom + AreaOrigin(area).y + DocumentScroll(doc).y - containerOffset.y == OrElse(ev.pageY, ev.clientY)
  {
    var origin := AreaOrigin(area);
    var docScroll := DocumentScroll(doc);
    Point((OrElse(ev.pageX, ev.clientX) - origin.x - docScroll.x + containerOffset.x) / zoom,
          (OrElse(ev.pageY, ev.clientY) - origin.y - docScroll.y + containerOffset.y) / zoom)
  }

  // ---------------------------------------------------------------------
  // Mouse buttons and edges
  // ---------------------------------------------------------------------

  /** `isRightClick`: `which === 3` when the event has `which`, otherwise
      `button === 2` when it has `button`, otherwise not a right click. */
  function IsRightClick(ev: MouseEvent): (r: bool)
    ensures ev.which.Some? ==> (r <==> ev.which.value == 3)
    ensures ev.which.None? && ev.button.Some? ==> (r <==> ev.button.value == 2)
    ensures ev.which.None? && ev.button.None? ==> !r
  {
    match ev.which
    case Some(w) => w == 3
    case None =>
      match ev.button
      case Some(b) => b == 2
      case None => false
  }

  /** The argument `handleClick` hands to `onSelectChange`: nothing at all for
      a right click; otherwise the target when it is selectable, else null. */
  function ClickSelection(ev: MouseEvent): (c: Option<Option<ElementId>>)
    ensures c.None? <==> IsRightClick(ev)
    ensures c.Some? ==> (c.value == Some(ev.target) <==> ev.targetSelectable)
    ensures c.Some? && !ev.targetSelectable ==> c.value == None
  {
    if IsRightClick(ev) then None
    else Some(if ev.targetSelectable then Some(ev.target) else None)
  }

  datatype Edge = TopEdge | BottomEdge | RightEdge | LeftEdge

  /** `min(size / 10, 30)`. */
  function Tolerance(size: real): (t: real)
    ensures t <= 30.0 && t <= size / 10.0
    ensures t == 30.0 || t == size / 10.0
  {
    if size / 10.0 < 30.0 then size / 10.0 else 30.0
  }

  /** The size `getAreaRect(document)` reports: the client size when
      positive, else the window's inner size. */
  function ViewportSize(view: Viewport): (size: Point)
    ensures size.x == (if view.clientWidth > 0.0 then view.clientWidth else view.innerWidth)
    ensures size.y == (if view.clientHeight > 0.0 then view.clientHeight else view.innerHeight)
    ensures size.x > 0.0 <==> view.clientWidth > 0.0 || view.innerWidth > 0.0
    ensures size.y > 0.0 <==> view.clientHeight > 0.0 || view.innerHeight > 0.0
  {
    Point(if view.clientWidth > 0.0 then view.clientWidth else view.innerWidth,
          if view.clientHeight > 0.0 then view.clientHeight else view.innerHeight)
  }

  /** `isCursorNearEdge`: the first of top, bottom, right, left whose band of
      width `Tolerance` holds the cursor, or none. */
  function IsCursorNearEdge(cursor: Point, view: Viewport): (e: Option<Edge>)
    ensures var size := ViewportSize(view);
            var tx := Tolerance(size.x);
            var ty := Tolerance(size.y);
            && (e == Some(TopEdge) <==> cursor.y < ty)
            && (e == Some(BottomEdge) <==> !(cursor.y < ty) && size.y - cursor.y < ty)
            && (e == Some(RightEdge) <==> !(cursor.y < ty) && !(size.y - cursor.y < ty) && size.x - cursor.x < tx)
            && (e == Some(LeftEdge) <==> !(cursor.y < ty) && !(size.y - cursor.y < ty) && !(size.x - cursor.x < tx) && cursor.x < tx)
  {
    var size := ViewportSize(view);
    var tx := Tolerance(size.x);
    var ty := Tolerance(size.y);
    if cursor.y < ty then Some(TopEdge)
    else if size.y - cursor.y < ty then Some(BottomEdge)
    else if size.x - cursor.x < tx then Some(RightEdge)
    else if cursor.x < tx then Some(LeftEdge)
    else None
  }

  /** A cursor at least 30 pixels inside every edge is near none of them. */
  lemma InteriorIsNearNoEdge(cursor: Point, view: Viewport)
    requires var size := ViewportSize(view);
             30.0 <= cursor.x <= size.x - 30.0 && 30.0 <= cursor.y <= size.y - 30.0
    ensures IsCursorNearEdge(cursor, view) == None
  {
  }

  // ---------------------------------------------------------------------
  // Elements in the selector rectangle
  // ---------------------------------------------------------------------

  /** The page scroll `getElementsInArea` adds to every box:
      `pageXOffset || documentElement.scrollLeft` and its vertical analogue. */
  function PageOffset(doc: DocumentState): (offset: Point)
    ensures doc.pageXOffset != 0.0 ==> offset.x == doc.pageXOffset
    ensures doc.pageXOffset == 0.0 ==> offset.x == doc.rootScrollLeft
    ensures doc.pageYOffset != 0.0 ==> offset.y == doc.pageYOffset
    ensures doc.pageYOffset == 0.0 ==> offset.y == doc.rootScrollTop
  {
    Point(OrElse(doc.pageXOffset, doc.rootScrollLeft), OrElse(doc.pageYOffset, doc.rootScrollTop))
  }

  /** Every one of left, top, width, height, right and bottom is non-zero
      (a zero value marks an element that was not measured). */
  predicate Measured(b: Rect) {
    b.left != 0.0 && b.top != 0.0 && b.width != 0.0 && b.height != 0.0 && b.right != 0.0 && b.bottom != 0.0
  }

  /** Crossing rule: the box is not entirely beside, above or below the rectangle. */
  predicate Crosses(b: Rect, sel: SelectorPosition) {
    !(b.left > sel.x + sel.w || b.right < sel.x || b.top > sel.y + sel.h || b.bottom < sel.y)
  }

  /** Window rule: the box lies strictly inside the rectangle. */
  predicate Encloses(sel: SelectorPosition, b: Rect) {
    && b.left > sel.x && b.left + b.width < sel.x + sel.w
    && b.top > sel.y && b.top + b.height < sel.y + sel.h
  }

  /** Whether `getElementsInArea` keeps an element with this box: measured,
      and, once shifted by the page scroll, crossed or enclosed depending on
      the drag direction. */
  predicate InArea(sel: SelectorPosition, b: Rect, scroll: Point)
    ensures InArea(sel, b, scroll) ==> Measured(b)
    ensures b.Valid() && InArea(sel, b, scroll) ==> Crosses(Translate(b, scroll.x, scroll.y), sel)
  {
    && Measured(b)
    && var shifted := Translate(b, scroll.x, scroll.y);
       if sel.direction.IsCrossing() then Crosses(shifted, sel) else Encloses(sel, shifted)
  }

  /** `getElementsInArea`: the on-screen elements the rectangle selects, as an
      order-preserving subsequence; unmeasured elements are never returned. */
  function ElementsInArea(sel: SelectorPosition, elements: seq<ElementId>, layout: Layout, scroll: Point): (r: seq<ElementId>)
    ensures SubsequenceOf(r, elements)
    ensures forall e :: e in r <==> e in elements && InArea(sel, layout(e), scroll)
    ensures forall e :: e in r ==> Measured(layout(e))
    ensures NoDuplicates(elements) ==> NoDuplicates(r)
  {
    if elements == [] then []
    else
      var rest := ElementsInArea(sel, elements[1..], layout, scroll);
      if InArea(sel, layout(elements[0]), scroll) then
        assert ([elements[0]] + rest)[1..] == rest;
        assert NoDuplicates(elements) ==> NoDuplicates(elements[1..]) && elements[0] !in rest;
        [elements[0]] + rest
      else rest
  }

  /** For boxes of laid-out elements, a window match is also a crossing match:
      whatever a left-to-right drag selects, the same rectangle dragged from
      right to left selects too. */
  lemma WindowSelectionWithinCrossing(sel: SelectorPosition, elements: seq<ElementId>, layout: Layout, scroll: Point)
    requires !sel.direction.IsCrossing()
    requires forall e :: e in elements ==> layout(e).Valid()
    ensures forall e :: e in ElementsInArea(sel, elements, layout, scroll) ==>
              e in ElementsInArea(sel.(direction := RightDown), elements, layout, scroll)
  {
  }

  /** A rectangle of zero width or height encloses no laid-out box. */
  lemma ZeroAreaEnclosesNothing(sel: SelectorPosition, b: Rect, scroll: Point)
    requires !sel.direction.IsCrossing() && (sel.w == 0.0 || sel.h == 0.0)
    requires b.Valid()
    ensures !InArea(sel, b, scroll)
  {
    assert Translate(b, scroll.x, scroll.y).Valid();
  }

  /** A rectangle of zero width or height window-selects nothing. */
  lemma {:induction false} ZeroAreaWindowSelectsNothing(sel: SelectorPosition, elements: seq<ElementId>, layout: Layout, scroll: Point)
    requires !sel.direction.IsCrossing() && (sel.w == 0.0 || sel.h == 0.0)
    requires forall e :: e in elements ==> layout(e).Valid()
    ensures ElementsInArea(sel, elements, layout, scroll) == []
  {
    if elements != [] {
      var first := elements[0];
      assert first in elements;
      ZeroAreaEnclosesNothing(sel, layout(first), scroll);
      ZeroAreaWindowSelectsNothing(sel, elements[1..], layout, scroll);
    }
  }

  // ---------------------------------------------------------------------
  // The intersection observer's list of on-screen elements
  // ---------------------------------------------------------------------

  /** One intersection-observer entry. */
  datatype IntersectionEntry = IntersectionEntry(target: ElementId, isIntersecting: bool)

  /** The on-screen list after one entry: an intersecting target is appended
      when absent; a non-intersecting one is filtered out. */
  function AfterEntry(visible: seq<ElementId>, entry: IntersectionEntry): (r: seq<ElementId>)
    ensures entry.isIntersecting ==> entry.target in r && (entry.target in visible ==> r == visible)
    ensures entry.isIntersecting && entry.target !in visible ==> r == visible + [entry.target]
    ensures !entry.isIntersecting ==> entry.target !in r && SubsequenceOf(r, visible)
    ensures forall e :: e != entry.target ==> (e in r <==> e in visible)
  {
    if entry.isIntersecting then
      (if entry.target in visible then visible else visible + [entry.target])
    else RemoveAll(visible, entry.target)
  }

  /** The on-screen list after the observer callback has run over `entries` in order. */
  function AfterEntries(visible: seq<ElementId>, entries: seq<IntersectionEntry>): (r: seq<ElementId>)
    ensures forall e :: e in r ==> e in visible || exists i :: 0 <= i < |entries| && entries[i].target == e && entries[i].isIntersecting
    decreases |entries|
  {
    if entries == [] then visible
    else AfterEntry(AfterEntries(visible, entries[..|entries| - 1]), entries[|entries| - 1])
  }

  /** The observer keeps the list free of duplicates, and an element no entry
      mentions keeps its membership. */
  lemma {:induction false} AfterEntriesKeepsList(visible: seq<ElementId>, entries: seq<IntersectionEntry>)
    ensures NoDuplicates(visible) ==> NoDuplicates(AfterEntries(visible, entries))
    ensures forall e :: (forall k :: 0 <= k < |entries| ==> entries[k].target != e) ==>
              (e in AfterEntries(visible, entries) <==> e in visible)
    decreases |entries|
  {
    if entries != [] {
      var init := entries[..|entries| - 1];
      var last := entries[|entries| - 1];
      AfterEntriesKeepsList(visible, init);
      var before := AfterEntries(visible, init);
      if NoDuplicates(before) && last.isIntersecting && last.target !in before {
        var r := before + [last.target];
        forall i, j | 0 <= i < j < |r| ensures r[i] != r[j] {
          if j == |before| { assert r[i] in before; }
        }
      }
      forall e | forall k :: 0 <= k < |entries| ==> entries[k].target != e
        ensures e in AfterEntries(visible, entries) <==> e in visible
      {
        assert forall k :: 0 <= k < |init| ==> init[k] == entries[k];
        assert e != last.target;
      }
    }
  }

  /** Each element's last entry in a batch decides whether it is on screen
      afterwards, whatever entries for other elements follow it. */
  lemma LastEntryDecides(visible: seq<ElementId>, entries: seq<IntersectionEntry>, k: nat)
    requires k < |entries|
    requires forall j :: k < j < |entries| ==> entries[j].target != entries[k].target
    ensures entries[k].target in AfterEntries(visible, entries) <==> entries[k].isIntersecting
  {
    var prefix, suffix := entries[..k + 1], entries[k + 1..];
    assert entries == prefix + suffix;
    AfterEntriesAppend(visible, prefix, suffix);
    assert prefix[..k] == entries[..k];
    AfterEntriesKeepsList(AfterEntries(visible, prefix), suffix);
    forall j | 0 <= j < |suffix|
      ensures suffix[j].target != entries[k].target
    {
      assert suffix[j] == entries[k + 1 + j];
    }
  }

  /** Applying two batches of entries one after the other is applying them as one batch. */
  lemma {:induction false} AfterEntriesAppend(visible: seq<ElementId>, a: seq<IntersectionEntry>, b: seq<IntersectionEntry>)
    ensures AfterEntries(visible, a + b) == AfterEntries(AfterEntries(visible, a), b)
    decreases |b|
  {
    if b == [] {
      assert a + b == a;
    } else {
      AfterEntriesAppend(visible, a, b[..|b| - 1]);
      assert (a + b)[..|a + b| - 1] == a + b[..|b| - 1];
      assert (a + b)[|a + b| - 1] == b[|b| - 1];
    }
  }

  // ---------------------------------------------------------------------
  // The component's state machine
  // ---------------------------------------------------------------------

  /** The selector element's inline style and drag class. */
  datatype SelectorStyle = SelectorStyle(left: real, top: real, width: real, height: real,
                                         shown: bool, dragClass: Option<Direction>)

  class DragSelectable {
    var initialCursorPos: Point
    var initialScroll: Point
    var newCursorPos: Point
    var previousCursorPos: Point
    var containerLeft: real
    var containerTop: real
    var onScreenElements: seq<ElementId>
    var selector: SelectorStyle
    /** Container listeners: `_startUp` on mousedown, `_handleMove` on
        mousemove, `_end` on mouseup. */
    var startUpListening: bool
    var moveListening: bool
    var endListening: bool
    /** The zoom factor; it is never changed. */
    const zoom: real := 1.0

    /** The on-screen list never holds an element twice. */
    predicate Valid()
      reads this
    {
      NoDuplicates(onScreenElements)
    }

    constructor ()
      ensures initialCursorPos == initialScroll == newCursorPos == previousCursorPos == Point(0.0, 0.0)
      ensures containerLeft == 0.0 && containerTop == 0.0
      ensures onScreenElements == [] && Valid()
      ensures selector == SelectorStyle(0.0, 0.0, 0.0, 0.0, false, None)
      ensures !startUpListening && !moveListening && !endListening
    {
      initialCursorPos, initialScroll := Point(0.0, 0.0), Point(0.0, 0.0);
      newCursorPos, previousCursorPos := Point(0.0, 0.0), Point(0.0, 0.0);
      containerLeft, containerTop := 0.0, 0.0;
      onScreenElements := [];
      selector := SelectorStyle(0.0, 0.0, 0.0, 0.0, false, None);
      startUpListening, moveListening, endListening := false, false, false;
    }

    /** `_getCursorPos` with this component's container offset and zoom. */
    function CursorOf(ev: MouseEvent, area: Container, doc: DocumentState): Point
      reads this
    {
      CursorPos(ev, area, doc, Point(containerLeft, containerTop), zoom)
    }

    /** `getStartingPositions`: anchors the drag at the cursor, remembers the
        scroll, and puts a zero-size selector at the anchor. */
    method GetStartingPositions(ev: MouseEvent, props: Props, doc: DocumentState)
      modifies this`initialCursorPos, this`newCursorPos, this`initialScroll, this`selector
      ensures initialCursorPos == CursorOf(ev, props.container, doc)
      ensures newCursorPos == initialCursorPos
      ensures initialScroll == Scroll(props.container, doc)
      ensures var start := StartingSelector(initialCursorPos, initialScroll);
              selector == old(selector).(left := start.x, top := start.y, width := 0.0, height := 0.0)
    {
      initialCursorPos := CursorOf(ev, props.container, doc);
      newCursorPos := initialCursorPos;
      initialScroll := Scroll(props.container, doc);
      var start := StartingSelector(initialCursorPos, initialScroll);
      selector := selector.(left := start.x, top := start.y, width := start.w, height := start.h);
    }

    /** `startUp`: ignored while locked or for a right click; otherwise anchors
        the drag and, when there is a container, swaps the mousedown listener
        for the move and end listeners. */
    method StartUp(ev: MouseEvent, props: Props, doc: DocumentState)
      modifies this`initialCursorPos, this`newCursorPos, this`initialScroll, this`selector
      modifies this`startUpListening, this`moveListening, this`endListening
      ensures props.locked || IsRightClick(ev) ==>
                unchanged(this`initialCursorPos, this`newCursorPos, this`initialScroll, this`selector)
                && unchanged(this`startUpListening, this`moveListening, this`endListening)
      ensures !props.locked && !IsRightClick(ev) ==>
                && initialCursorPos == newCursorPos == CursorOf(ev, props.container, doc)
                && initialScroll == Scroll(props.container, doc)
                && selector == old(selector).(left := initialCursorPos.x + initialScroll.x,
                                              top := initialCursorPos.y + initialScroll.y,
                                              width := 0.0, height := 0.0)
                && (props.container != NoContainer ==> !startUpListening && moveListening && endListening)
                && (props.container == NoContainer ==>
                      unchanged(this`startUpListening, this`moveListening, this`endListening))
    {
      if props.locked || IsRightClick(ev) {
        return;
      }
      GetStartingPositions(ev, props, doc);
      if props.container != NoContainer {
        startUpListening, moveListening, endListening := false, true, true;
      }
    }

    /** `handleMouseDown`: does nothing while locked; with only the primary
        button down it reports the click selection and starts a drag;
        otherwise it ends the drag. The result is the `onSelectChange`
        argument, if that callback is called. */
    method HandleMouseDown(ev: MouseEvent, props: Props, doc: DocumentState)
      returns (selectChange: Option<Option<ElementId>>)
      modifies this`initialCursorPos, this`newCursorPos, this`initialScroll, this`selector
      modifies this`startUpListening, this`moveListening, this`endListening, this`previousCursorPos
      ensures props.locked ==> selectChange == None
      ensures props.locked ==>
                unchanged(this`initialCursorPos, this`newCursorPos, this`initialScroll, this`selector)
                && unchanged(this`startUpListening, this`moveListening, this`endListening, this`previousCursorPos)
      ensures !props.locked && ev.buttons == 1 ==>
                selectChange == ClickSelection(ev) && previousCursorPos == old(previousCursorPos)
      ensures !props.locked && ev.buttons == 1 && IsRightClick(ev) ==>
                unchanged(this`initialCursorPos, this`newCursorPos, this`initialScroll, this`selector)
                && unchanged(this`startUpListening, this`moveListening, this`endListening)
      ensures !props.locked && ev.buttons == 1 && !IsRightClick(ev) ==>
                && initialCursorPos == newCursorPos == CursorOf(ev, props.container, doc)
                && initialScroll == Scroll(props.container, doc)
                && selector == old(selector).(left := initialCursorPos.x + initialScroll.x,
                                              top := initialCursorPos.y + initialScroll.y,
                                              width := 0.0, height := 0.0)
                && (props.container != NoContainer ==> !startUpListening && moveListening && endListening)
                && (props.container == NoContainer ==>
                      unchanged(this`startUpListening, this`moveListening, this`endListening))
      ensures !props.locked && ev.buttons != 1 ==>
                && selectChange == None
                && selector == SelectorStyle(0.0, 0.0, 0.0, 0.0, false, old(selector).dragClass)
                && unchanged(this`initialCursorPos, this`newCursorPos, this`initialScroll)
                && (props.container != NoContainer ==>
                      previousCursorPos == CursorOf(ev, props.container, doc)
                      && startUpListening && !moveListening && !endListening)
                && (props.container == NoContainer ==>
                      unchanged(this`previousCursorPos, this`startUpListening, this`moveListening, this`endListening))
    {
      selectChange := None;
      if props.locked {
        return;
      }
      if ev.buttons == 1 {
        selectChange := ClickSelection(ev);
        StartUp(ev, props, doc);
      } else {
        Reset(ev, props, doc);
      }
    }

    /** `_getPosition`: records the cursor and derives the selector rectangle. */
    method GetPosition(ev: MouseEvent, props: Props, doc: DocumentState) returns (pos: SelectorPosition)
      modifies this`newCursorPos
      ensures newCursorPos == CursorOf(ev, props.container, doc)
      ensures pos == SelectorAt(initialCursorPos, initialScroll, newCursorPos, Scroll(props.container, doc))
    {
      var cursor := CursorOf(ev, props.container, doc);
      var scroll := Scroll(props.container, doc);
      newCursorPos := cursor;
      pos := SelectorAt(initialCursorPos, initialScroll, cursor, scroll);
    }

    /** `handleMove`: with only the primary button down, recomputes the
        rectangle, shows the selector there and reports the elements in it
        (the `onMultipleSelectChange` argument); otherwise does nothing. */
    method HandleMove(ev: MouseEvent, props: Props, doc: DocumentState, layout: Layout)
      returns (selection: Option<seq<ElementId>>)
      modifies this`newCursorPos, this`selector
      ensures ev.buttons != 1 ==> selection == None && unchanged(this`newCursorPos, this`selector)
      ensures ev.buttons == 1 ==>
                var pos := SelectorAt(initialCursorPos, initialScroll, newCursorPos, Scroll(props.container, doc));
                && newCursorPos == CursorOf(ev, props.container, doc)
                && selection == Some(ElementsInArea(pos, onScreenElements, layout, PageOffset(doc)))
                && selector == SelectorStyle(pos.x, pos.y, pos.w, pos.h, true, Some(pos.direction))
      ensures Valid() && selection.Some? ==> NoDuplicates(selection.value)
    {
      selection := None;
      if ev.buttons == 1 {
        var pos := GetPosition(ev, props, doc);
        selection := Some(ElementsInArea(pos, onScreenElements, layout, PageOffset(doc)));
        selector := SelectorStyle(pos.x, pos.y, pos.w, pos.h, true, Some(pos.direction));
      }
    }

    /** `reset` (the `_end` handler): with a container, records the cursor and
        swaps the move and end listeners back for the mousedown one; then
        hides the selector and zeroes its box. */
    method Reset(ev: MouseEvent, props: Props, doc: DocumentState)
      modifies this`previousCursorPos, this`startUpListening, this`moveListening, this`endListening, this`selector
      ensures props.container != NoContainer ==>
                previousCursorPos == CursorOf(ev, props.container, doc)
                && startUpListening && !moveListening && !endListening
      ensures props.container == NoContainer ==>
                unchanged(this`previousCursorPos, this`startUpListening, this`moveListening, this`endListening)
      ensures selector == SelectorStyle(0.0, 0.0, 0.0, 0.0, false, old(selector).dragClass)
    {
      if props.container != NoContainer {
        previousCursorPos := CursorOf(ev, props.container, doc);
        endListening, moveListening, startUpListening := false, false, true;
      }
      selector := SelectorStyle(0.0, 0.0, 0.0, 0.0, false, selector.dragClass);
    }

    /** The intersection-observer callback: applies the entries in order. */
    method ObserveEntries(entries: seq<IntersectionEntry>)
      modifies this`onScreenElements
      ensures onScreenElements == AfterEntries(old(onScreenElements), entries)
      ensures old(Valid()) ==> Valid()
    {
      AfterEntriesKeepsList(onScreenElements, entries);
      for i := 0 to |entries|
        invariant onScreenElements == AfterEntries(old(onScreenElements), entries[..i])
      {
        assert entries[..i + 1][..i] == entries[..i];
        var entry := entries[i];
        if entry.isIntersecting {
          if IndexOf(onScreenElements, entry.target) == -1 {
            onScreenElements := onScreenElements + [entry.target];
          }
        } else {
          onScreenElements := RemoveAll(onScreenElements, entry.target);
        }
      }
      assert entries[..|entries|] == entries;
    }
  }
}
