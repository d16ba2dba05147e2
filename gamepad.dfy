/**
 * `XboxGamepad` (Source/View/HID/xboxGamepad.cpp): the gamepad keeps, per button, whether the
 * button is up or down and the handlers to call when it goes down or comes up.  Each poll
 * compares the button bits of the new reading with those of the previous one; a button whose
 * bit changed switches state and fires its handler.
 *
 * Handlers are foreign callbacks: each is an opaque identifier, and a poll returns the
 * handlers it fires instead of calling them.
 */
module Gamepads {
  import opened Wrappers

  /** An `unsigned int`: a button is named by its bit. */
  newtype uint32 = b: int | 0 <= b < 0x1_0000_0000

  /** The identity of a handler the application registered. */
  type Handler = nat

  datatype KeyState = Up | Down

  /** `StateAndHandlers`; an empty `std::function` is `None`. */
  datatype StateAndHandlers = StateAndHandlers(state: KeyState, onButtonDown: Option<Handler>, onButtonUp: Option<Handler>)

  /** What `buttonMap[targetButton]` inserts for a button that is not there yet. */
  const DefaultEntry: StateAndHandlers := StateAndHandlers(Up, None, None)

  /** `MaxStickValue`, the largest `int16_t`. */
  const MaxStickValue: int := 32767
  /** `MaxTriggerValue`, declared as the largest `int8_t`. */
  const MaxTriggerValue: int := 127

  /** The XInput button bits the map starts with. */
  const GamepadA: uint32 := 0x1000
  const GamepadB: uint32 := 0x2000
  const GamepadX: uint32 := 0x4000
  const GamepadY: uint32 := 0x8000
  const LeftShoulder: uint32 := 0x0100
  const RightShoulder: uint32 := 0x0200
  const LeftThumb: uint32 := 0x0040
  const RightThumb: uint32 := 0x0080
  const Back: uint32 := 0x0020
  const Start: uint32 := 0x0010
  const DPadUp: uint32 := 0x0001
  const DPadDown: uint32 := 0x0002
  const DPadLeft: uint32 := 0x0004
  const DPadRight: uint32 := 0x0008

  const InitialButtons: set<uint32> := {GamepadA, GamepadB, GamepadX, GamepadY, LeftShoulder, RightShoulder,
    LeftThumb, RightThumb, Back, Start, DPadUp, DPadDown, DPadLeft, DPadRight}

  /** The signal `Update` emits when the pad appears or goes away. */
  datatype ConnectionChange = Connected | Disconnected | NoChange

  /** Whether a reading of the 16 button bits has the target button's bit set. */
  predicate IsPressed(buttons: bv16, targetButton: uint32)
  {
    (buttons as bv32) & (targetButton as bv32) != 0
  }

  // ---------------------------------------------------------------------------------
  // The edge rule, as functions
  // ---------------------------------------------------------------------------------

  /** The button's entry after one poll: a rising edge makes it Down, a falling edge Up. */
  function ButtonAfter(entry: StateAndHandlers, targetButton: uint32, currentState: bv16, previousState: bv16): (r: StateAndHandlers)
    ensures r.onButtonDown == entry.onButtonDown && r.onButtonUp == entry.onButtonUp
    ensures IsPressed(currentState, targetButton) != IsPressed(previousState, targetButton) ==>
      (r.state == Down <==> IsPressed(currentState, targetButton))
    ensures IsPressed(currentState, targetButton) == IsPressed(previousState, targetButton) ==> r == entry
  {
    var isButtonDown := IsPressed(currentState, targetButton);
    var wasButtonDown := IsPressed(previousState, targetButton);
    if isButtonDown && !wasButtonDown then entry.(state := Down)
    else if !isButtonDown && wasButtonDown then entry.(state := Up)
    else entry
  }

  /** The handler one poll fires for the button: its down handler on a rising edge, its up handler on a falling one. */
  function HandlerFired(entry: StateAndHandlers, targetButton: uint32, currentState: bv16, previousState: bv16): (r: Option<Handler>)
    ensures r.Some? ==> IsPressed(currentState, targetButton) != IsPressed(previousState, targetButton)
    ensures r.Some? && IsPressed(currentState, targetButton) ==> r == entry.onButtonDown
    ensures r.Some? && !IsPressed(currentState, targetButton) ==> r == entry.onButtonUp
    ensures IsPressed(currentState, targetButton) && !IsPressed(previousState, targetButton) && entry.onButtonDown.Some? ==> r.Some?
    ensures !IsPressed(currentState, targetButton) && IsPressed(previousState, targetButton) && entry.onButtonUp.Some? ==> r.Some?
  {
    var isButtonDown := IsPressed(currentState, targetButton);
    var wasButtonDown := IsPressed(previousState, targetButton);
    if isButtonDown && !wasButtonDown then entry.onButtonDown
    else if !isButtonDown && wasButtonDown then entry.onButtonUp
    else None
  }

  /** The whole map after one poll. */
  function AllButtonsAfter(buttonMap: map<uint32, StateAndHandlers>, currentState: bv16, previousState: bv16): map<uint32, StateAndHandlers>
  {
    map b | b in buttonMap :: ButtonAfter(buttonMap[b], b, currentState, previousState)
  }

  /** The handlers one poll fires, keyed by their button. */
  function AllHandlersFired(buttonMap: map<uint32, StateAndHandlers>, currentState: bv16, previousState: bv16): map<uint32, Handler>
  {
    map b | b in buttonMap && HandlerFired(buttonMap[b], b, currentState, previousState).Some? ::
      HandlerFired(buttonMap[b], b, currentState, previousState).value
  }

  /** `buttonMap` restricted to the given buttons. */
  function Restricted<V>(m: map<uint32, V>, buttons: set<uint32>): map<uint32, V>
  {
    map b | b in m && b in buttons :: m[b]
  }

  /** Handling one more button adds exactly its fired handler, if any. */
  lemma FiredOneMore(original: map<uint32, StateAndHandlers>, handled: set<uint32>, b: uint32, currentState: bv16, previousState: bv16)
    requires b in original && b !in handled
    ensures var fired := AllHandlersFired(Restricted(original, handled), currentState, previousState);
      var handler := HandlerFired(original[b], b, currentState, previousState);
      AllHandlersFired(Restricted(original, handled + {b}), currentState, previousState)
        == if handler.Some? then fired[b := handler.value] else fired
  {
    assert Restricted(original, handled + {b}) == Restricted(original, handled)[b := original[b]];
  }

  /** Mid-poll: the buttons in `handled` hold their entry after the poll, the others their old one. */
  function PartlyUpdated(original: map<uint32, StateAndHandlers>, handled: set<uint32>, currentState: bv16, previousState: bv16): map<uint32, StateAndHandlers>
  {
    map b | b in original :: if b in handled then ButtonAfter(original[b], b, currentState, previousState) else original[b]
  }

  /** Updating one more button in place extends the updated part by that button. */
  lemma UpdatedOneMore(original: map<uint32, StateAndHandlers>, handled: set<uint32>, b: uint32, currentState: bv16, previousState: bv16)
    requires b in original && b !in handled
    ensures var partly := PartlyUpdated(original, handled, currentState, previousState);
      b in partly && partly[b] == original[b] &&
      PartlyUpdated(original, handled + {b}, currentState, previousState)
        == partly[b := ButtonAfter(original[b], b, currentState, previousState)]
  {
  }

  /** Once every button is handled, the map is the map after the poll. */
  lemma EveryButtonUpdated(original: map<uint32, StateAndHandlers>, currentState: bv16, previousState: bv16)
    ensures PartlyUpdated(original, original.Keys, currentState, previousState)
      == AllButtonsAfter(original, currentState, previousState)
    ensures PartlyUpdated(original, {}, currentState, previousState) == original
  {
  }

  /** Every button's recorded state agrees with its bit in the reading. */
  ghost predicate Tracks(buttonMap: map<uint32, StateAndHandlers>, buttons: bv16)
  {
    forall b :: b in buttonMap ==> (buttonMap[b].state == Down <==> IsPressed(buttons, b))
  }

  /**
   * Polling keeps the map in step with the pad: when the states matched the previous reading,
   * after the poll they match the current one.
   */
  lemma {:induction false} PollingKeepsTrack(buttonMap: map<uint32, StateAndHandlers>, currentState: bv16, previousState: bv16)
    requires Tracks(buttonMap, previousState)
    ensures Tracks(AllButtonsAfter(buttonMap, currentState, previousState), currentState)
  {
    var after := AllButtonsAfter(buttonMap, currentState, previousState);
    forall b | b in after
      ensures after[b].state == Down <==> IsPressed(currentState, b)
    {
      assert after[b] == ButtonAfter(buttonMap[b], b, currentState, previousState);
      assert buttonMap[b].state == Down <==> IsPressed(previousState, b);
    }
  }

  /** With all buttons up and no bits set, the map starts in step with the pad. */
  lemma InitialMapTracks(buttonMap: map<uint32, StateAndHandlers>)
    requires forall b :: b in buttonMap ==> buttonMap[b].state == Up
    ensures Tracks(buttonMap, 0)
  {
  }

  /** Whether a button is down according to a map; a button not in the map is up. */
  function IsDownIn(buttonMap: map<uint32, StateAndHandlers>, button: uint32): (r: bool)
    ensures r ==> button in buttonMap
    ensures button in buttonMap ==> (r <==> buttonMap[button].state == Down)
  {
    button in buttonMap && buttonMap[button].state == Down
  }

  /** The value the dead-zone and threshold setters store: the request, capped at the maximum. */
  function Capped(value: int, maximum: int): (r: int)
    ensures r <= value && r <= maximum
    ensures r == value || r == maximum
  {
    if value <= maximum then value else maximum
  }

  class XboxGamepad {
    var buttonMap: map<uint32, StateAndHandlers>
    var leftStickDeadZone: int
    var rightStickDeadZone: int
    var triggerThreshold: int
    /** `m_isPreviousControllerConnected`: whether the last poll found the pad. */
    var wasConnected: bool
    /** The button bits of `m_previousState`. */
    var previousButtons: bv16

    /** Every known button up, dead zones and threshold at their maximum, no pad seen yet. */
    constructor()
      ensures Tracks(buttonMap, previousButtons)
      ensures !wasConnected && previousButtons == 0
      ensures buttonMap.Keys == InitialButtons
      ensures forall b :: b in buttonMap ==> buttonMap[b] == StateAndHandlers(Up, None, None)
      ensures leftStickDeadZone == MaxStickValue && rightStickDeadZone == MaxStickValue
      ensures triggerThreshold == MaxTriggerValue
    {
      buttonMap := map b | b in InitialButtons :: StateAndHandlers(Up, None, None);
      leftStickDeadZone := MaxStickValue;
      rightStickDeadZone := MaxStickValue;
      triggerThreshold := MaxTriggerValue;
      wasConnected := false;
      previousButtons := 0;
    }

    /** `IsButtonDown`: the recorded state of the button; false for a button not in the map. */
    function IsButtonDown(button: uint32): (r: bool)
      reads this
      ensures button !in buttonMap ==> !r
      ensures button in buttonMap ==> (r <==> buttonMap[button].state == Down)
    {
      IsDownIn(buttonMap, button)
    }

    /**
     * `UpdateSingleButton`: applies the edge rule to one button (inserting a default entry when
     * the button is missing) and returns the handler it fires, if any.
     */
    method UpdateSingleButton(targetButton: uint32, currentState: bv16, previousState: bv16) returns (fired: Option<Handler>)
      modifies this`buttonMap
      ensures var entry := if targetButton in old(buttonMap) then old(buttonMap)[targetButton] else DefaultEntry;
        && buttonMap == old(buttonMap)[targetButton := ButtonAfter(entry, targetButton, currentState, previousState)]
        && fired == HandlerFired(entry, targetButton, currentState, previousState)
      ensures IsButtonDown(targetButton) ==
        (if IsPressed(currentState, targetButton) != IsPressed(previousState, targetButton)
         then IsPressed(currentState, targetButton)
         else old(IsButtonDown(targetButton)))
    {
      var stateAndHandler := if targetButton in buttonMap then buttonMap[targetButton] else DefaultEntry;
      fired := None;
      var isButtonDown := IsPressed(currentState, targetButton);
      if isButtonDown && !IsPressed(previousState, targetButton) {
        stateAndHandler := stateAndHandler.(state := Down);
        fired := stateAndHandler.onButtonDown;
      } else if !isButtonDown && IsPressed(previousState, targetButton) {
        stateAndHandler := stateAndHandler.(state := Up);
        fired := stateAndHandler.onButtonUp;
      }
      buttonMap := buttonMap[targetButton := stateAndHandler];
    }

    /**
     * `UpdateAllButtons`: the edge rule once for each button already in the map.  The set of
     * buttons is unchanged, each entry is updated from its own old entry, and the handlers
     * fired are those of the buttons whose bit changed.
     */
    method UpdateAllButtons(currentState: bv16, previousState: bv16) returns (fired: map<uint32, Handler>)
      modifies this`buttonMap
      ensures buttonMap == AllButtonsAfter(old(buttonMap), currentState, previousState)
      ensures fired == AllHandlersFired(old(buttonMap), currentState, previousState)
    {
      ghost var original := buttonMap;
      var remaining := buttonMap.Keys;
      ghost var handled: set<uint32> := {};
      fired := map[];
      EveryButtonUpdated(original, currentState, previousState);
      while remaining != {}
        invariant handled + remaining == original.Keys && handled !! remaining
        invariant buttonMap == PartlyUpdated(original, handled, currentState, previousState)
        invariant fired == AllHandlersFired(Restricted(original, handled), currentState, previousState)
        decreases remaining
      {
        var b :| b in remaining;
        UpdatedOneMore(original, handled, b, currentState, previousState);
        FiredOneMore(original, handled, b, currentState, previousState);
        assert b in buttonMap && buttonMap[b] == original[b];
        var handler := UpdateSingleButton(b, currentState, previousState);
        if handler.Some? {
          fired := fired[b := handler.value];
        }
        remaining := remaining - {b};
        handled := handled + {b};
      }
      assert Restricted(original, handled) == original;
    }

    /**
     * The button half of `Update`.  `reading` is what XInput reports: `None` when no pad
     * answers, otherwise the pad's button bits.  A change of connection is reported; with a
     * pad present every button is updated against the previous reading, which the new one
     * then replaces.  Buttons stay in step with the pad from poll to poll.
     */
    method Update(reading: Option<bv16>) returns (change: ConnectionChange, fired: map<uint32, Handler>)
      modifies this`buttonMap, this`wasConnected, this`previousButtons
      ensures change == (if !old(wasConnected) && reading.Some? then Connected
                         else if old(wasConnected) && reading.None? then Disconnected
                         else NoChange)
      ensures wasConnected == reading.Some?
      ensures reading.None? ==> buttonMap == old(buttonMap) && previousButtons == old(previousButtons) && fired == map[]
      ensures reading.Some? ==>
        && buttonMap == AllButtonsAfter(old(buttonMap), reading.value, old(previousButtons))
        && fired == AllHandlersFired(old(buttonMap), reading.value, old(previousButtons))
        && previousButtons == reading.value
      ensures old(Tracks(buttonMap, previousButtons)) ==> Tracks(buttonMap, previousButtons)
    {
      var isConnected := reading.Some?;
      change := NoChange;
      if !wasConnected && isConnected {
        change := Connected;
      } else if wasConnected && !isConnected {
        change := Disconnected;
      }
      wasConnected := isConnected;
      fired := map[];
      if !isConnected {
        return;
      }
      ghost var before := buttonMap;
      ghost var tracked := Tracks(buttonMap, previousButtons);
      fired := UpdateAllButtons(reading.value, previousButtons);
      if tracked {
        PollingKeepsTrack(before, reading.value, previousButtons);
      }
      previousButtons := reading.value;
    }

    /** `SetDownHandler`: the button's down handler is replaced; its state and up handler are kept. */
    method SetDownHandler(targetButton: uint32, handler: Option<Handler>)
      modifies this`buttonMap
      ensures var entry := if targetButton in old(buttonMap) then old(buttonMap)[targetButton] else DefaultEntry;
        buttonMap == old(buttonMap)[targetButton := entry.(onButtonDown := handler)]
      ensures IsButtonDown(targetButton) == old(IsButtonDown(targetButton))
    {
      var entry := if targetButton in buttonMap then buttonMap[targetButton] else DefaultEntry;
      buttonMap := buttonMap[targetButton := entry.(onButtonDown := handler)];
    }

    /** `SetUpHandler`: the button's up handler is replaced; its state and down handler are kept. */
    method SetUpHandler(targetButton: uint32, handler: Option<Handler>)
      modifies this`buttonMap
      ensures var entry := if targetButton in old(buttonMap) then old(buttonMap)[targetButton] else DefaultEntry;
        buttonMap == old(buttonMap)[targetButton := entry.(onButtonUp := handler)]
      ensures IsButtonDown(targetButton) == old(IsButtonDown(targetButton))
    {
      var entry := if targetButton in buttonMap then buttonMap[targetButton] else DefaultEntry;
      buttonMap := buttonMap[targetButton := entry.(onButtonUp := handler)];
    }

    method SetLeftStickDeadZone(newDeadZone: int)
      modifies this`leftStickDeadZone
      ensures leftStickDeadZone == Capped(newDeadZone, MaxStickValue)
    {
      leftStickDeadZone := if newDeadZone <= MaxStickValue then newDeadZone else MaxStickValue;
    }

    method SetRightStickDeadZone(newDeadZone: int)
      modifies this`rightStickDeadZone
      ensures rightStickDeadZone == Capped(newDeadZone, MaxStickValue)
    {
      rightStickDeadZone := if newDeadZone <= MaxStickValue then newDeadZone else MaxStickValue;
    }

    method SetTriggerThreshold(newThreshold: int)
      modifies this`triggerThreshold
      ensures triggerThreshold == Capped(newThreshold, MaxTriggerValue)
    {
      triggerThreshold := if newThreshold <= MaxTriggerValue then newThreshold else MaxTriggerValue;
    }
  }

  /**
   * A press and its release seen by two polls: the first poll fires the down handler and
   * leaves the button down, the second fires the up handler and leaves it up.
   */
  lemma PressThenRelease(entry: StateAndHandlers, targetButton: uint32, pressed: bv16, released: bv16)
    requires IsPressed(pressed, targetButton) && !IsPressed(released, targetButton)
    ensures var afterPress := ButtonAfter(entry, targetButton, pressed, released);
      && afterPress.state == Down
      && HandlerFired(entry, targetButton, pressed, released) == entry.onButtonDown
      && ButtonAfter(afterPress, targetButton, released, pressed).state == Up
      && HandlerFired(afterPress, targetButton, released, pressed) == entry.onButtonUp
  {
  }
}
