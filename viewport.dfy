/**
 * The interaction state of gol.c: the `Context` record that `HandleInputs`
 * updates from SDL events, and the rectangle the surface is drawn into.
 *
 * `Handle` says what one event does to the mutable fields of the context;
 * `HandleAll` folds it over the events pending in one frame. The class
 * `Context` keeps the same fields and its methods are proved to follow these
 * functions; the lemmas state the behaviour of each event and of sequences
 * of events.
 */
module Viewport {

  /** SDL_Point. */
  datatype Point = Point(x: int, y: int)

  /** SDL_Rect: origin and size, in window pixels. */
  datatype Rect = Rect(x: int, y: int, w: int, h: int)

  /** The keys HandleInputs distinguishes. */
  datatype Key = Escape | Space | OtherKey

  /** The mouse buttons HandleInputs distinguishes. */
  datatype Button = Left | Middle | OtherButton

  /**
   * The SDL events, reduced to what HandleInputs reads of them: the key of a
   * key release, the pointer position of a motion or button press, the button
   * of a press or release, and the vertical amount of a wheel event.
   */
  datatype Event =
    | Quit
    | KeyUp(key: Key)
    | MouseMotion(pos: Point)
    | MouseButtonUp(button: Button)
    | MouseButtonDown(button: Button, pos: Point)
    | MouseWheel(y: int)
    | OtherEvent

  /** The fields of `Context` that HandleInputs writes. */
  datatype View = View(
    quit: bool,
    isRunning: bool,
    rect: Rect,
    clickOffset: Point,
    inRect: bool,
    leftMouseButtonDown: bool)

  /**
   * The fields of `Context` that HandleInputs only reads: the home size the
   * middle button restores, and the effect of one zoom step on a side length.
   * `zoomIn(n)` stands for the `int` that multiplying `n` by the float
   * `zoom_factor` is truncated to, `zoomOut(n)` for the one dividing gives.
   */
  datatype Settings = Settings(rectStartW: int, rectStartH: int, zoomIn: int -> int, zoomOut: int -> int)

  /** SDL_PointInRect: `p` lies in the half-open rectangle `r`. */
  predicate PointInRect(p: Point, r: Rect)
    ensures PointInRect(p, r) <==> 0 <= p.x - r.x < r.w && 0 <= p.y - r.y < r.h
    ensures PointInRect(p, r) ==> r.w > 0 && r.h > 0
  {
    p.x >= r.x && p.x < r.x + r.w && p.y >= r.y && p.y < r.y + r.h
  }

  /**
   * One pass of HandleInputs' switch: the context after `e`. A window close or
   * an Escape release asks to quit; a Space release toggles the simulation; a
   * motion drags the rectangle while a press that landed inside it is held; a
   * left release ends the drag; a middle release restores the home size; a
   * left press records whether it landed in the rectangle and where; the wheel
   * zooms in when its vertical amount is positive and out otherwise.
   */
  function Handle(v: View, e: Event, s: Settings): (r: View)
    ensures r.quit <==> v.quit || e == Quit || e == KeyUp(Escape)
    ensures r.isRunning <==> (v.isRunning != (e == KeyUp(Space)))
    ensures r.rect.x != v.rect.x || r.rect.y != v.rect.y ==>
      e.MouseMotion? && v.leftMouseButtonDown && v.inRect
    ensures r.rect.w != v.rect.w || r.rect.h != v.rect.h ==>
      e.MouseWheel? || e == MouseButtonUp(Middle)
    ensures r.clickOffset != v.clickOffset ==>
      e.MouseButtonDown? && e.button == Left && PointInRect(e.pos, v.rect)
    ensures r.inRect ==> v.inRect || (e.MouseButtonDown? && e.button == Left && PointInRect(e.pos, v.rect))
    ensures r.leftMouseButtonDown ==> v.leftMouseButtonDown || (e.MouseButtonDown? && e.button == Left)
    ensures r.inRect != v.inRect || r.leftMouseButtonDown != v.leftMouseButtonDown ==>
      IsLeftPress(e) || e == MouseButtonUp(Left)
  {
    match e
    case Quit => v.(quit := true)
    case KeyUp(key) =>
      (match key
       case Escape => v.(quit := true)
       case Space => v.(isRunning := !v.isRunning)
       case OtherKey => v)
    case MouseMotion(pos) =>
      if v.leftMouseButtonDown && v.inRect then
        v.(rect := v.rect.(x := pos.x - v.clickOffset.x, y := pos.y - v.clickOffset.y))
      else
        v
    case MouseButtonUp(button) =>
      (match button
       case Left => v.(leftMouseButtonDown := false, inRect := false)
       case Middle => v.(rect := v.rect.(w := s.rectStartW, h := s.rectStartH))
       case OtherButton => v)
    case MouseButtonDown(button, pos) =>
      if button == Left then
        if PointInRect(pos, v.rect) then
          v.(leftMouseButtonDown := true,
             clickOffset := Point(pos.x - v.rect.x, pos.y - v.rect.y),
             inRect := true)
        else
          v.(leftMouseButtonDown := true, inRect := false)
      else
        v
    case MouseWheel(y) =>
      if y > 0 then
        v.(rect := v.rect.(w := s.zoomIn(v.rect.w), h := s.zoomIn(v.rect.h)))
      else
        v.(rect := v.rect.(w := s.zoomOut(v.rect.w), h := s.zoomOut(v.rect.h)))
    case OtherEvent => v
  }

  /** The context after the pending events, handled in the order they are polled. */
  function HandleAll(v: View, es: seq<Event>, s: Settings): (r: View)
    ensures es == [] ==> r == v
    ensures es != [] ==> r == Handle(HandleAll(v, es[..|es| - 1], s), es[|es| - 1], s)
    decreases |es|
  {
    if es == [] then v
    else
      assert es[..|es| - 1] != [] ==> es[..|es| - 1][1..] == es[1..][..|es| - 2];
      HandleAll(Handle(v, es[0], s), es[1..], s)
  }

  /**
   * The events HandleInputs' switch has no case for: releases of keys other
   * than Escape and Space, presses of buttons other than the left one,
   * releases of buttons other than the left and middle ones, and every other
   * event type.
   */
  predicate Ignored(e: Event)
  {
    e == KeyUp(OtherKey) || e == MouseButtonUp(OtherButton) ||
    (e.MouseButtonDown? && e.button != Left) || e == OtherEvent
  }

  /** An ignored event leaves the whole context as it was. */
  lemma IgnoredEventsChangeNothing(v: View, e: Event, s: Settings)
    requires Ignored(e)
    ensures Handle(v, e, s) == v
  {
  }

  /** A window close or an Escape release sets `quit` and leaves everything else as it was. */
  lemma QuitRequests(v: View, e: Event, s: Settings)
    requires e == Quit || e == KeyUp(Escape)
    ensures Handle(v, e, s) == v.(quit := true)
  {
  }

  /** A Space release toggles `is_running` and leaves everything else as it was. */
  lemma SpaceToggles(v: View, s: Settings)
    ensures Handle(v, KeyUp(Space), s) == v.(isRunning := !v.isRunning)
  {
  }

  /**
   * A left press inside the rectangle starts a drag and records the pointer's
   * offset from the rectangle's origin; the rectangle itself does not move.
   */
  lemma LeftPressInside(v: View, p: Point, s: Settings)
    requires PointInRect(p, v.rect)
    ensures var r := Handle(v, MouseButtonDown(Left, p), s);
      r.leftMouseButtonDown && r.inRect &&
      r.clickOffset == Point(p.x - v.rect.x, p.y - v.rect.y) &&
      r.rect == v.rect && r.quit == v.quit && r.isRunning == v.isRunning
  {
  }

  /** A left press outside the rectangle marks the button down but not in the rectangle. */
  lemma LeftPressOutside(v: View, p: Point, s: Settings)
    requires !PointInRect(p, v.rect)
    ensures Handle(v, MouseButtonDown(Left, p), s) == v.(leftMouseButtonDown := true, inRect := false)
  {
  }

  /**
   * A motion moves the rectangle's origin to the pointer minus the recorded
   * offset exactly when the left button is down and the press landed in the
   * rectangle; otherwise nothing changes. The size never changes.
   */
  lemma MotionDrags(v: View, p: Point, s: Settings)
    ensures var r := Handle(v, MouseMotion(p), s);
      if v.leftMouseButtonDown && v.inRect then
        r == v.(rect := Rect(p.x - v.clickOffset.x, p.y - v.clickOffset.y, v.rect.w, v.rect.h))
      else
        r == v
  {
  }

  /** A left release ends any drag: both flags are cleared, nothing else changes. */
  lemma LeftRelease(v: View, s: Settings)
    ensures Handle(v, MouseButtonUp(Left), s) == v.(leftMouseButtonDown := false, inRect := false)
  {
  }

  /** A middle release restores the home size and keeps the origin. */
  lemma MiddleReleaseResetsSize(v: View, s: Settings)
    ensures Handle(v, MouseButtonUp(Middle), s) ==
      v.(rect := Rect(v.rect.x, v.rect.y, s.rectStartW, s.rectStartH))
  {
  }

  /** A wheel event changes only the rectangle's width and height. */
  lemma WheelChangesOnlySize(v: View, y: int, s: Settings)
    ensures var r := Handle(v, MouseWheel(y), s);
      r == v.(rect := Rect(v.rect.x, v.rect.y, r.rect.w, r.rect.h))
  {
  }

  /**
   * Pressing inside the rectangle and then moving the pointer drags the
   * rectangle along: its origin moves by exactly the pointer's displacement.
   */
  lemma DragFollowsPointer(v: View, p: Point, q: Point, s: Settings)
    requires PointInRect(p, v.rect)
    ensures var r := HandleAll(v, [MouseButtonDown(Left, p), MouseMotion(q)], s);
      r.rect == Rect(v.rect.x + (q.x - p.x), v.rect.y + (q.y - p.y), v.rect.w, v.rect.h)
  {
    var es := [MouseButtonDown(Left, p), MouseMotion(q)];
    var once := Handle(v, es[0], s);
    assert es[1..] == [MouseMotion(q)];
    assert HandleAll(v, es, s) == HandleAll(once, [MouseMotion(q)], s);
    assert [MouseMotion(q)][1..] == [];
    assert HandleAll(once, [MouseMotion(q)], s) == Handle(once, MouseMotion(q), s);
  }

  /** Two Space releases bring `is_running` back to where it was. */
  lemma SpaceTwiceRestores(v: View, s: Settings)
    ensures HandleAll(v, [KeyUp(Space), KeyUp(Space)], s).isRunning == v.isRunning
  {
    assert [KeyUp(Space), KeyUp(Space)][1..] == [KeyUp(Space)];
  }

  /** `quit` is never cleared: once requested, it survives any further events. */
  lemma {:induction false} QuitIsFinal(v: View, es: seq<Event>, s: Settings)
    decreases |es|
    requires v.quit
    ensures HandleAll(v, es, s).quit
  {
    if es != [] {
      QuitIsFinal(Handle(v, es[0], s), es[1..], s);
    }
  }

  /** `e` is a press of the left button. */
  predicate IsLeftPress(e: Event)
  {
    e.MouseButtonDown? && e.button == Left
  }

  /**
   * A drag only engages when a left press lands inside the rectangle: when no
   * drag is under way (`in_rect` clear, e.g. after a press outside the
   * rectangle), events other than left presses never move the rectangle.
   */
  lemma {:induction false} NoDragWithoutPressInside(v: View, es: seq<Event>, s: Settings)
    decreases |es|
    requires !v.inRect
    requires forall i :: 0 <= i < |es| ==> !IsLeftPress(es[i])
    ensures !HandleAll(v, es, s).inRect
    ensures HandleAll(v, es, s).rect.x == v.rect.x && HandleAll(v, es, s).rect.y == v.rect.y
  {
    if es != [] {
      assert !IsLeftPress(es[0]);
      NoDragWithoutPressInside(Handle(v, es[0], s), es[1..], s);
    }
  }

  /** A left press outside the rectangle followed by pointer motion does not move the rectangle. */
  lemma PressOutsideThenMoveKeepsOrigin(v: View, p: Point, moves: seq<Point>, s: Settings)
    requires !PointInRect(p, v.rect)
    ensures var es := [MouseButtonDown(Left, p)] + seq(|moves|, i requires 0 <= i < |moves| => MouseMotion(moves[i]));
      HandleAll(v, es, s).rect == v.rect
  {
    var ms := seq(|moves|, i requires 0 <= i < |moves| => MouseMotion(moves[i]));
    var es := [MouseButtonDown(Left, p)] + ms;
    assert es[1..] == ms;
    var once := Handle(v, MouseButtonDown(Left, p), s);
    assert once.rect == v.rect && !once.inRect;
    NoDragWithoutPressInside(once, ms, s);
    SizeKeptWithoutZoom(once, ms, s);
  }

  /** The event neither zooms nor restores the home size. */
  predicate KeepsSize(e: Event)
  {
    !e.MouseWheel? && e != MouseButtonUp(Middle)
  }

  /** Only wheel events and middle releases change the rectangle's size. */
  lemma {:induction false} SizeKeptWithoutZoom(v: View, es: seq<Event>, s: Settings)
    decreases |es|
    requires forall i :: 0 <= i < |es| ==> KeepsSize(es[i])
    ensures HandleAll(v, es, s).rect.w == v.rect.w && HandleAll(v, es, s).rect.h == v.rect.h
  {
    if es != [] {
      assert KeepsSize(es[0]);
      SizeKeptWithoutZoom(Handle(v, es[0], s), es[1..], s);
    }
  }

  /**
   * The `Context` of gol.c, without the SDL_Event buffer HandleInputs polls
   * into and with the frame delay kept only as a constant.
   */
  class Context {
    var quit: bool
    var isRunning: bool
    var rect: Rect
    var clickOffset: Point
    var inRect: bool
    var leftMouseButtonDown: bool
    const delayMs: nat
    const rectStartW: int
    const rectStartH: int
    const zoomIn: int -> int
    const zoomOut: int -> int

    /** The fields HandleInputs writes, as a value. */
    function State(): (v: View)
      reads this
    {
      View(quit, isRunning, rect, clickOffset, inRect, leftMouseButtonDown)
    }

    /** The fields HandleInputs only reads. */
    function Config(): (s: Settings)
    {
      Settings(rectStartW, rectStartH, zoomIn, zoomOut)
    }

    /**
     * The context `main` sets up for a `w`×`h` image: not quitting, not
     * running, the rectangle at the origin with the image's size (which is
     * also the home size), no drag, a 20 ms frame delay.
     */
    constructor (w: int, h: int, zoomIn: int -> int, zoomOut: int -> int)
      ensures State() == View(false, false, Rect(0, 0, w, h), Point(0, 0), false, false)
      ensures Config() == Settings(w, h, zoomIn, zoomOut)
      ensures delayMs == 20
    {
      quit := false;
      isRunning := false;
      rect := Rect(0, 0, w, h);
      clickOffset := Point(0, 0);
      inRect := false;
      leftMouseButtonDown := false;
      delayMs := 20;
      rectStartW := w;
      rectStartH := h;
      this.zoomIn := zoomIn;
      this.zoomOut := zoomOut;
    }

    /** One pass of HandleInputs' switch, on the event just polled. */
    method HandleEvent(e: Event)
      modifies this
      ensures State() == Handle(old(State()), e, Config())
    {
      match e {
        case Quit =>
          quit := true;
        case KeyUp(key) =>
          match key {
            case Escape => quit := true;
            case Space => isRunning := !isRunning;
            case OtherKey =>
          }
        case MouseMotion(pos) =>
          if leftMouseButtonDown && inRect {
            rect := rect.(x := pos.x - clickOffset.x, y := pos.y - clickOffset.y);
          }
        case MouseButtonUp(button) =>
          match button {
            case Left =>
              leftMouseButtonDown := false;
              inRect := false;
            case Middle =>
              rect := rect.(w := rectStartW, h := rectStartH);
            case OtherButton =>
          }
        case MouseButtonDown(button, pos) =>
          match button {
            case Left =>
              leftMouseButtonDown := true;
              if PointInRect(pos, rect) {
                clickOffset := Point(pos.x - rect.x, pos.y - rect.y);
                inRect := true;
              } else {
                inRect := false;
              }
            case Middle =>
            case OtherButton =>
          }
        case MouseWheel(y) =>
          if y > 0 {
            rect := rect.(w := zoomIn(rect.w), h := zoomIn(rect.h));
          } else {
            rect := rect.(w := zoomOut(rect.w), h := zoomOut(rect.h));
          }
        case OtherEvent =>
      }
    }

    /**
     * HandleInputs: handle every pending event, in the order SDL_PollEvent
     * delivers them (`events` stands for the queue it drains).
     */
    method HandleInputs(events: seq<Event>)
      modifies this
      ensures State() == HandleAll(old(State()), events, Config())
    {
      var i := 0;
      while i < |events|
        invariant 0 <= i <= |events|
        invariant HandleAll(State(), events[i..], Config()) == HandleAll(old(State()), events, Config())
      {
        assert events[i..][1..] == events[i + 1..];
        HandleEvent(events[i]);
        i := i + 1;
      }
    }
  }
}
