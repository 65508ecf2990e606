/**
 * The selection UI (src/statis_ui.rs): the `Statis` application state and
 * its message-driven `update`, the canvas program that turns mouse events
 * into messages, and the drag rectangle the canvas draws.
 *
 * `iced::Point` coordinates are `f32`; only `min`, `max`, subtraction and
 * `abs` are applied to them, so they are modelled as integers.
 */
module StatisUi {
  import opened Wrappers

  datatype Point = Point(x: int, y: int)

  /** The application's messages. */
  datatype Message =
    | CaptureFullScreen
    | MousePressed(p: Point)
    | MouseMoved(p: Point)
    | MouseReleased(p: Point)

  /** The window effects `update` hands back to the runtime, as opaque tags. */
  datatype WindowAction = Resize(width: int, height: int) | MoveTo(position: Point)

  /** A `Task<Message>`: nothing, or a batch of window effects. */
  datatype Task = NoTask | Batch(actions: seq<WindowAction>)

  /** The task that grows the window over the 1920x1080 screen for selecting. */
  const EnterSelection: Task := Batch([Resize(1920, 1080), MoveTo(Point(0, 0))])

  /** The task that puts the small button window back at the top of the screen. */
  const RestoreWindow: Task := Batch([Resize(400, 80), MoveTo(Point(760, 0))])

  /** A normalized rectangle: top-left corner and a non-negative extent. */
  datatype Selection = Selection(x: int, y: int, width: int, height: int)

  function Min(a: int, b: int): int { if a <= b then a else b }
  function Max(a: int, b: int): int { if a <= b then b else a }
  function Abs(a: int): int { if a < 0 then -a else a }

  // ---------------------------------------------------------------------------
  // Rectangle normalization
  // ---------------------------------------------------------------------------

  /**
   * The region `update` reports when a drag from `start` ends at `end`:
   * corner at the minima, extent `max - min`. Its edges are exactly the two
   * endpoints' coordinates, whichever way the drag went.
   */
  function SelectedRegion(start: Point, end: Point): (r: Selection)
    ensures r.width >= 0 && r.height >= 0
    ensures {r.x, r.x + r.width} == {start.x, end.x}
    ensures {r.y, r.y + r.height} == {start.y, end.y}
  {
    var x1, y1 := Min(start.x, end.x), Min(start.y, end.y);
    var x2, y2 := Max(start.x, end.x), Max(start.y, end.y);
    Selection(x1, y1, x2 - x1, y2 - y1)
  }

  /** Normalization does not depend on the direction of the drag. */
  lemma SelectedRegionSymmetric(a: Point, b: Point)
    ensures SelectedRegion(a, b) == SelectedRegion(b, a)
  {
  }

  /** A selection is empty exactly when the endpoints share a row or a column. */
  lemma SelectedRegionEmpty(a: Point, b: Point)
    ensures SelectedRegion(a, b).width == 0 <==> a.x == b.x
    ensures SelectedRegion(a, b).height == 0 <==> a.y == b.y
  {
  }

  // ---------------------------------------------------------------------------
  // The application state and its update
  // ---------------------------------------------------------------------------

  /** The three fields of `Statis`, as a value. */
  datatype StatisState = StatisState(selecting: bool, start: Option<Point>, current: Option<Point>) {
    /**
     * The fields' invariant: a drag sets both endpoints together, and a drag
     * only exists in selection mode.
     */
    predicate Valid() {
      (start.Some? <==> current.Some?) && (start.Some? ==> selecting)
    }
  }

  /** The state `new` starts in: not selecting, no drag. */
  const Idle: StatisState := StatisState(false, None, None)

  /**
   * What one message does: the next state, the task returned, and the
   * region printed as "Selected region" (when a drag ends).
   */
  datatype Transition = Transition(next: StatisState, task: Task, selected: Option<Selection>)

  /** The effect of `Statis::update(message)` on state `s`. */
  function Step(s: StatisState, message: Message): (t: Transition)
    ensures s.Valid() ==> t.next.Valid()
    ensures t.selected.Some? <==> message.MouseReleased? && s.selecting && s.start.Some?
    ensures t.selected.Some? ==> t.next == Idle && t.task == RestoreWindow
    ensures t.task == NoTask <==> !message.CaptureFullScreen? && t.selected.None?
  {
    match message
    case CaptureFullScreen =>
      Transition(s.(selecting := true), EnterSelection, None)
    case MousePressed(p) =>
      if s.selecting then Transition(s.(start := Some(p), current := Some(p)), NoTask, None)
      else Transition(s, NoTask, None)
    case MouseMoved(p) =>
      if s.selecting && s.start.Some? then Transition(s.(current := Some(p)), NoTask, None)
      else Transition(s, NoTask, None)
    case MouseReleased(p) =>
      if s.selecting && s.start.Some? then
        Transition(Idle, RestoreWindow, Some(SelectedRegion(s.start.value, p)))
      else Transition(s, NoTask, None)
  }

  /** Entering selection mode keeps any drag endpoints as they were. */
  lemma CaptureFullScreenStep(s: StatisState)
    ensures Step(s, CaptureFullScreen).next ==
      StatisState(true, s.start, s.current)
  {
  }

  /**
   * A press in selection mode starts a drag at the press, replacing any drag
   * in progress; outside selection mode it changes nothing.
   */
  lemma MousePressedStep(s: StatisState, p: Point)
    ensures s.selecting ==> Step(s, MousePressed(p)).next == StatisState(true, Some(p), Some(p))
    ensures !s.selecting ==> Step(s, MousePressed(p)).next == s
  {
  }

  /** A move changes only `current`, and only during a drag. */
  lemma MouseMovedStep(s: StatisState, p: Point)
    ensures Step(s, MouseMoved(p)).next.selecting == s.selecting
    ensures Step(s, MouseMoved(p)).next.start == s.start
    ensures Step(s, MouseMoved(p)).next.current ==
      if s.selecting && s.start.Some? then Some(p) else s.current
  {
  }

  /**
   * A release during a drag reports the normalized region and goes back to
   * idle, even when the region is empty; any other release changes nothing.
   */
  lemma MouseReleasedStep(s: StatisState, p: Point)
    ensures var t := Step(s, MouseReleased(p));
      if s.selecting && s.start.Some? then
        t.next == Idle && t.selected == Some(SelectedRegion(s.start.value, p))
      else
        t.next == s && t.selected == None
  {
  }

  /** The state after feeding `messages` one at a time, from `s`. */
  function Run(s: StatisState, messages: seq<Message>): StatisState
    decreases |messages|
  {
    if messages == [] then s else Run(Step(s, messages[0]).next, messages[1..])
  }

  /** Every state the application reaches from `new` satisfies the invariant. */
  lemma {:induction false} RunPreservesValid(s: StatisState, messages: seq<Message>)
    requires s.Valid()
    ensures Run(s, messages).Valid()
    decreases |messages|
  {
    if messages != [] {
      RunPreservesValid(Step(s, messages[0]).next, messages[1..]);
    }
  }

  /**
   * A drag from (100, 200) to (500, 600) reports the 400x400 region at
   * (100, 200) and ends selection mode.
   */
  lemma DragScenario()
    ensures var s := Run(Idle, [CaptureFullScreen, MousePressed(Point(100, 200)), MouseMoved(Point(500, 600))]);
      s == StatisState(true, Some(Point(100, 200)), Some(Point(500, 600))) &&
      Step(s, MouseReleased(Point(500, 600))) ==
        Transition(Idle, RestoreWindow, Some(Selection(100, 200, 400, 400)))
  {
  }

  /** A release where the press was still reports an empty region and ends selection mode. */
  lemma ZeroAreaScenario(p: Point)
    ensures var s := Run(Idle, [CaptureFullScreen, MousePressed(p)]);
      Step(s, MouseReleased(p)) == Transition(Idle, RestoreWindow, Some(Selection(p.x, p.y, 0, 0)))
  {
    var entered := Step(Idle, CaptureFullScreen).next;
    var pressed := Step(entered, MousePressed(p)).next;
    assert Run(Idle, [CaptureFullScreen, MousePressed(p)]) == Run(entered, [MousePressed(p)]);
    assert Run(entered, [MousePressed(p)]) == Run(pressed, []);
  }

  /** `Statis`: the application object the runtime updates in place. */
  class Statis {
    var selecting: bool
    var start: Option<Point>
    var current: Option<Point>

    function State(): StatisState
      reads this
    {
      StatisState(selecting, start, current)
    }

    constructor ()
      ensures State() == Idle
    {
      selecting := false;
      start := None;
      current := None;
    }

    /** `Statis::new`: a fresh idle application and no initial task. */
    static method New() returns (app: Statis, task: Task)
      ensures fresh(app)
      ensures app.State() == Idle && app.State().Valid()
      ensures task == NoTask
    {
      app := new Statis();
      task := NoTask;
    }

    /**
     * `Statis::update`: applies one message to the fields in place, returns
     * the task, and gives back the region a finished drag selected.
     */
    method Update(message: Message) returns (task: Task, selected: Option<Selection>)
      modifies this
      ensures Transition(State(), task, selected) == Step(old(State()), message)
      ensures old(State()).Valid() ==> State().Valid()
    {
      selected := None;
      match message {
        case CaptureFullScreen =>
          selecting := true;
          task := EnterSelection;
        case MousePressed(p) =>
          if selecting {
            start := Some(p);
            current := Some(p);
          }
          task := NoTask;
        case MouseMoved(p) =>
          if selecting && start.Some? {
            current := Some(p);
          }
          task := NoTask;
        case MouseReleased(p) =>
          task := NoTask;
          if selecting {
            if start.Some? {
              var s := start.value;
              var x1 := Min(s.x, p.x);
              var y1 := Min(s.y, p.y);
              var x2 := Max(s.x, p.x);
              var y2 := Max(s.y, p.y);
              selected := Some(Selection(x1, y1, x2 - x1, y2 - y1));
              selecting := false;
              start := None;
              current := None;
              task := RestoreWindow;
            }
          }
      }
    }
  }

  // ---------------------------------------------------------------------------
  // The canvas program
  // ---------------------------------------------------------------------------

  datatype MouseButton = Left | Right | Middle | Back | Forward | Other(code: int)

  datatype MouseEvent =
    | CursorEntered
    | CursorLeft
    | CursorMoved(position: Point)
    | ButtonPressed(button: MouseButton)
    | ButtonReleased(button: MouseButton)
    | WheelScrolled

  /** A canvas event; only mouse events carry anything the program reads. */
  datatype Event = Mouse(mouse: MouseEvent) | Touch | Keyboard

  datatype EventStatus = Ignored | Captured

  /** The canvas that draws the drag, holding a copy of the two endpoints. */
  datatype SelectionProgram = SelectionProgram(start: Option<Point>, current: Option<Point>) {

    /**
     * `SelectionProgram::update`: maps a canvas event to a message.
     * `cursorInBounds` is `cursor.position_in(bounds)`: the cursor position
     * relative to the canvas when it lies inside, `None` otherwise.
     */
    function Update(event: Event, cursorInBounds: Option<Point>): (r: (EventStatus, Option<Message>))
      ensures r.0 == Captured <==> r.1.Some?
      ensures r.1.Some? ==> !r.1.value.CaptureFullScreen?
      ensures (r.1.Some? && r.1.value.MousePressed?) <==>
        event == Mouse(ButtonPressed(Left)) && cursorInBounds.Some?
      ensures (r.1.Some? && r.1.value.MouseReleased?) <==>
        event == Mouse(ButtonReleased(Left)) && cursorInBounds.Some?
      ensures (r.1.Some? && r.1.value.MouseMoved?) <==> event.Mouse? && event.mouse.CursorMoved?
      ensures r.1.Some? && !r.1.value.MouseMoved? ==> r.1.value.p == cursorInBounds.value
      ensures r.1.Some? && r.1.value.MouseMoved? ==> r.1.value.p == event.mouse.position
    {
      match event
      case Mouse(ButtonPressed(Left)) =>
        if cursorInBounds.Some? then (Captured, Some(MousePressed(cursorInBounds.value)))
        else (Ignored, None)
      case Mouse(CursorMoved(position)) =>
        (Captured, Some(MouseMoved(position)))
      case Mouse(ButtonReleased(Left)) =>
        if cursorInBounds.Some? then (Captured, Some(MouseReleased(cursorInBounds.value)))
        else (Ignored, None)
      case _ =>
        (Ignored, None)
    }

    /**
     * The rectangle `draw` fills and strokes: corner at the minima, extent
     * `|end - start|`, present only when both endpoints are. It is the very
     * region `Statis::update` reports for the same two endpoints.
     */
    function DrawnRect(): (r: Option<Selection>)
      ensures r.Some? <==> start.Some? && current.Some?
      ensures r.Some? ==> r.value == SelectedRegion(start.value, current.value)
    {
      if start.Some? && current.Some? then
        var s, e := start.value, current.value;
        Some(Selection(Min(s.x, e.x), Min(s.y, e.y), Abs(e.x - s.x), Abs(e.y - s.y)))
      else None
    }
  }

  /**
   * During a drag of a valid state, the canvas built from it draws the region
   * a release at the current point would report.
   */
  lemma DrawMatchesRelease(s: StatisState)
    requires s.Valid() && s.start.Some?
    ensures SelectionProgram(s.start, s.current).DrawnRect() ==
      Step(s, MouseReleased(s.current.value)).selected
  {
  }
}
