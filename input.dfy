// 2048ai/inputManager.ts: the event registry of `KeyboardInputManager` and the handlers
// that turn swipes and key presses into `move` and `restart` events. A callback is an
// opaque identifier; emitting an event yields the calls made, in order, and what the
// callbacks then do is outside this model.

module Input {
  import opened Common
  import opened Tiles
  import opened MoveRules

  type Callback = nat

  /** `EventData`: `undefined` or a direction 0..3. */
  type EventData = Option<int>

  /** One call `callback(data)` made by `emit`. */
  datatype Call = Call(callback: Callback, data: EventData)

  /** The callbacks registered for `event`, none when it has no list yet. */
  function CallbacksOf(events: map<string, seq<Callback>>, event: string): seq<Callback> {
    if event in events then events[event] else []
  }

  /** What `emit(event, data)` calls: every registered callback, in registration order. */
  function Emitted(events: map<string, seq<Callback>>, event: string, data: EventData): (calls: seq<Call>)
    ensures |calls| == |CallbacksOf(events, event)|
    ensures forall k :: 0 <= k < |calls| ==> calls[k] == Call(CallbacksOf(events, event)[k], data)
  {
    seq(|CallbacksOf(events, event)|, k requires 0 <= k < |CallbacksOf(events, event)| =>
      Call(CallbacksOf(events, event)[k], data))
  }

  /** The registry after `on(event, callback)`. */
  function Register(events: map<string, seq<Callback>>, event: string, callback: Callback): map<string, seq<Callback>> {
    events[event := CallbacksOf(events, event) + [callback]]
  }

  /** After `on(event, callback)`, emitting `event` makes the calls it made before and
    * then calls `callback`; every other event emits as before. */
  lemma EmitAfterRegister(events: map<string, seq<Callback>>, event: string, callback: Callback, other: string, data: EventData)
    ensures Emitted(Register(events, event, callback), event, data) == Emitted(events, event, data) + [Call(callback, data)]
    ensures other != event ==> Emitted(Register(events, event, callback), other, data) == Emitted(events, other, data)
  {
    var after := Emitted(Register(events, event, callback), event, data);
    assert after == Emitted(events, event, data) + [Call(callback, data)];
  }

  /** An event nobody registered for calls nothing. */
  lemma EmitUnknown(events: map<string, seq<Callback>>, event: string, data: EventData)
    requires event !in events
    ensures Emitted(events, event, data) == []
  {
  }

  /** `KeyboardInputManager`. The four buttons it binds are page elements and are left
    * out; their handlers are `KeepPlaying` and `Restart`. */
  class KeyboardInputManager {
    var events: map<string, seq<Callback>>

    constructor ()
      ensures events == map[]
    {
      events := map[];
    }

    /** `on(event, callback)`: appends `callback` to the event's list, creating the list
      * on first use. */
    method On(event: string, callback: Callback)
      modifies this
      ensures events == Register(old(events), event, callback)
      ensures CallbacksOf(events, event) == CallbacksOf(old(events), event) + [callback]
      ensures forall e :: e != event ==> CallbacksOf(events, e) == CallbacksOf(old(events), e)
    {
      if event !in events {
        events := events[event := []];
      }
      events := events[event := events[event] + [callback]];
    }

    /** `emit(event, data)`: the `forEach` over the event's callbacks. */
    method Emit(event: string, data: EventData) returns (calls: seq<Call>)
      ensures calls == Emitted(events, event, data)
    {
      calls := [];
      if event in events {
        var callbacks := events[event];
        for k := 0 to |callbacks|
          invariant calls == Emitted(events, event, data)[..k]
        {
          calls := calls + [Call(callbacks[k], data)];
        }
      }
    }

    /** The handler of the keep-playing button. */
    method KeepPlaying() returns (calls: seq<Call>)
      ensures calls == Emitted(events, "keepPlaying", None)
    {
      calls := Emit("keepPlaying", None);
    }

    /** The handler of the restart and retry buttons. */
    method Restart() returns (calls: seq<Call>)
      ensures calls == Emitted(events, "restart", None)
    {
      calls := Emit("restart", None);
    }
  }

  // ---------------------------------------------------------------------------------
  // Touch

  /** A touch point's client coordinates, in whole pixels. */
  datatype Point = Point(clientX: int, clientY: int)

  /** `handleTouchStart`: nothing for a multi-finger touch, else where the first touch
    * starts. A `touchstart` event always carries the touch that started. */
  function TouchStart(touches: seq<Point>, targetTouches: seq<Point>): (r: Option<Point>)
    requires |touches| >= 1
    ensures r.None? <==> |touches| > 1 || |targetTouches| > 1
    ensures r.Some? ==> r.value == touches[0]
  {
    if |touches| > 1 || |targetTouches| > 1 then None else Some(touches[0])
  }

  function Abs(a: int): int {
    if a < 0 then -a else a
  }

  /** The swipe of `handleTouchEnd`: none unless it is longer than 10 pixels on some
    * axis; horizontal when it is strictly wider than tall (1 right, 3 left), else
    * vertical (2 down, 0 up). */
  function Swipe(dx: int, dy: int): (r: Option<int>)
    ensures r.Some? <==> Abs(dx) > 10 || Abs(dy) > 10
    ensures r.Some? ==> 0 <= r.value < 4
    ensures r.Some? ==> (r.value % 2 == 1 <==> Abs(dx) > Abs(dy))
  {
    var absDx, absDy := Abs(dx), Abs(dy);
    if (if absDx > absDy then absDx else absDy) > 10 then
      Some(if absDx > absDy then (if dx > 0 then 1 else 3) else if dy > 0 then 2 else 0)
    else None
  }

  /** How far the displacement (dx, dy) goes along a direction's unit vector. */
  function Along(dx: int, dy: int, v: Position): int {
    dx * v.x + dy * v.y
  }

  /** A swipe is read as the direction of the game whose vector the finger moved
    * furthest along, and the finger did move that way. */
  lemma SwipeFollowsFinger(dx: int, dy: int)
    requires Swipe(dx, dy).Some?
    ensures Along(dx, dy, Vector(Swipe(dx, dy).value)) > 0
    ensures forall e :: 0 <= e < 4 ==> Along(dx, dy, Vector(e)) <= Along(dx, dy, Vector(Swipe(dx, dy).value))
  {
    var d := Swipe(dx, dy).value;
    forall e | 0 <= e < 4
      ensures Along(dx, dy, Vector(e)) <= Along(dx, dy, Vector(d))
    {
      assert e == 0 || e == 1 || e == 2 || e == 3;
    }
  }

  /** `handleTouchEnd`: while any finger is still down nothing happens; otherwise the
    * swipe from the start point to the lifted touch, if any, is emitted as a move. */
  method TouchEnd(touches: nat, targetTouches: nat, lifted: Point, start: Point, im: KeyboardInputManager)
    returns (calls: seq<Call>)
    ensures touches > 0 || targetTouches > 0 ==> calls == []
    ensures touches == 0 && targetTouches == 0 ==>
      var swipe := Swipe(lifted.clientX - start.clientX, lifted.clientY - start.clientY);
      calls == if swipe.Some? then Emitted(im.events, "move", swipe) else []
  {
    calls := [];
    if touches > 0 || targetTouches > 0 {
      return;
    }
    var dx := lifted.clientX - start.clientX;
    var dy := lifted.clientY - start.clientY;
    var absDx := Abs(dx);
    var absDy := Abs(dy);
    if (if absDx > absDy then absDx else absDy) > 10 {
      var direction := if absDx > absDy then (if dx > 0 then 1 else 3) else if dy > 0 then 2 else 0;
      calls := im.Emit("move", Some(direction));
    }
  }

  // ---------------------------------------------------------------------------------
  // Keys

  /** A `keydown` event: its `key` value and the four modifier flags. */
  datatype KeyEvent = KeyEvent(key: string, altKey: bool, ctrlKey: bool, metaKey: bool, shiftKey: bool)

  predicate Modified(e: KeyEvent) {
    e.altKey || e.ctrlKey || e.metaKey || e.shiftKey
  }

  /** The key table as written: the Vim entries are keyed by the key codes 75, 76, 74
    * and 72, which are never the `key` of an event. */
  function KeyMapAsWritten(key: string): (r: Option<int>) {
    match key
    case "ArrowUp" => Some(0)
    case "ArrowRight" => Some(1)
    case "ArrowDown" => Some(2)
    case "ArrowLeft" => Some(3)
    case "75" => Some(0)
    case "76" => Some(1)
    case "74" => Some(2)
    case "72" => Some(3)
    case "w" => Some(0)
    case "d" => Some(1)
    case "s" => Some(2)
    case "a" => Some(3)
    case _ => None
  }

  /** The key table with the Vim keys under the keys they are codes of: K up, L right,
    * J down, H left. */
  function KeyMap(key: string): (r: Option<int>)
    ensures r.Some? ==> 0 <= r.value < 4
    ensures r == Some(0) <==> key in {"ArrowUp", "k", "w"}
    ensures r == Some(1) <==> key in {"ArrowRight", "l", "d"}
    ensures r == Some(2) <==> key in {"ArrowDown", "j", "s"}
    ensures r == Some(3) <==> key in {"ArrowLeft", "h", "a"}
  {
    match key
    case "ArrowUp" => Some(0)
    case "ArrowRight" => Some(1)
    case "ArrowDown" => Some(2)
    case "ArrowLeft" => Some(3)
    case "k" => Some(0)
    case "l" => Some(1)
    case "j" => Some(2)
    case "h" => Some(3)
    case "w" => Some(0)
    case "d" => Some(1)
    case "s" => Some(2)
    case "a" => Some(3)
    case _ => None
  }

  /** Pressing K, L, J or H does nothing as written, while the intended table maps the
    * four keys to up, right, down and left. */
  lemma VimKeysUnmapped()
    ensures forall key :: key in ["k", "l", "j", "h"] ==> KeyMapAsWritten(key).None?
    ensures KeyMap("k") == Some(0) && KeyMap("l") == Some(1) && KeyMap("j") == Some(2) && KeyMap("h") == Some(3)
  {
  }

  /** What `handleKeyDown` did: whether it called `preventDefault`, the callback calls
    * it caused, and whether it threw. */
  datatype KeyOutcome = KeyOutcome(prevented: bool, calls: seq<Call>, threw: bool)

  /** `handleKeyDown` as written. For R it runs `restart` with `this` bound to the global
    * `self`, which has no `emit`: the handler prevents the default and then throws. */
  function KeyDownAsWritten(e: KeyEvent, events: map<string, seq<Callback>>): (r: KeyOutcome) {
    var mapped := KeyMapAsWritten(e.key);
    var moved := !Modified(e) && mapped.Some?;
    var calls := if moved then Emitted(events, "move", mapped) else [];
    if !Modified(e) && (e.key == "R" || e.key == "r") then KeyOutcome(true, calls, true)
    else KeyOutcome(moved, calls, false)
  }

  /** Pressing R throws before any restart callback is called. */
  lemma RestartKeyThrows(events: map<string, seq<Callback>>)
    ensures var r := KeyDownAsWritten(KeyEvent("r", false, false, false, false), events);
      r.threw && r.calls == []
  {
  }

  /** `handleKeyDown(event, inputManager)` as written: without a modifier, a key of the
    * table as written prevents the default and emits its move, and R or r prevents the
    * default and throws; with a modifier nothing happens. */
  method HandleKeyDown(e: KeyEvent, im: KeyboardInputManager) returns (r: KeyOutcome)
    ensures r == KeyDownAsWritten(e, im.events)
    ensures r.threw <==> !Modified(e) && (e.key == "R" || e.key == "r")
    ensures Modified(e) ==> r == KeyOutcome(false, [], false)
    ensures !Modified(e) && KeyMapAsWritten(e.key).Some? ==>
      r.prevented && r.calls == Emitted(im.events, "move", KeyMapAsWritten(e.key))
    ensures KeyMapAsWritten(e.key).None? ==> r.calls == []
  {
    var modifiers := e.altKey || e.ctrlKey || e.metaKey || e.shiftKey;
    var mapped := KeyMapAsWritten(e.key);
    r := KeyOutcome(false, [], false);
    if !modifiers {
      if mapped.Some? {
        var calls := im.Emit("move", mapped);
        r := KeyOutcome(true, calls, false);
      }
    }
    if !modifiers && (e.key == "R" || e.key == "r") {
      // `restart.call(self, event)`: `event.preventDefault()` runs, then `self.emit`
      // is not a function.
      r := KeyOutcome(true, r.calls, true);
    }
  }

  /** `handleKeyDown(event, inputManager)` with the Vim keys keyed as intended and R
    * restarting through the manager: without a modifier, a mapped key emits its move
    * and R or r emits `restart`; with a modifier nothing happens. */
  method HandleKeyDownIntended(e: KeyEvent, im: KeyboardInputManager) returns (r: KeyOutcome)
    ensures !r.threw
    ensures Modified(e) ==> r == KeyOutcome(false, [], false)
    ensures !Modified(e) && KeyMap(e.key).Some? ==>
      r == KeyOutcome(true, Emitted(im.events, "move", KeyMap(e.key)), false)
    ensures !Modified(e) && (e.key == "R" || e.key == "r") ==>
      r == KeyOutcome(true, Emitted(im.events, "restart", None), false)
    ensures KeyMap(e.key).None? && e.key != "R" && e.key != "r" ==> r == KeyOutcome(false, [], false)
  {
    var modifiers := e.altKey || e.ctrlKey || e.metaKey || e.shiftKey;
    var mapped := KeyMap(e.key);
    r := KeyOutcome(false, [], false);
    if !modifiers {
      if mapped.Some? {
        var calls := im.Emit("move", mapped);
        r := KeyOutcome(true, calls, false);
      }
    }
    if !modifiers && (e.key == "R" || e.key == "r") {
      var calls := im.Restart();
      r := KeyOutcome(true, r.calls + calls, false);
    }
  }
}
