# PIN-entry focus navigator

A Dafny model of the focus navigation in `keyboard.js`. That script runs on a page that has a fixed, ordered row of
single-character PIN inputs (`.pin-digit`) inside a container (`#pin-container`). It decides which input gets focus
in these cases:

- a tap on the container, on an input inside it, or on the "Tap here to open keyboard" helper button, which picks the
  first empty slot;
- input that fills a slot, which advances focus (on mobile);
- Backspace on an empty slot, which moves back;
- ArrowLeft and ArrowRight, which move one slot with bounds checks;
- `pageshow`, which focuses the first slot (on mobile, then the first empty slot).

Without the DOM and the timers, this is a small deterministic state machine:

- `PinSlots` (`pin_slots.dfy`) holds the row of slot values and the first-empty-slot scan. It has a pure definition
  and a method with the script's loop.
- `InputKind` (`input_kind.dfy`) holds the input-type fix. Any type other than `text` or `tel` becomes `tel`.
- `PinNavigator` (`pin_navigator.dfy`) holds the state and the transitions. The state is a `Pad`: slot values, slot
  types, the shared `maxLength`, and the focused slot, if any. Each event is one `Step`, and a session is a `Run` of
  steps. `isMobile` is a parameter because the script detects the device by user agent and window size. Tap handlers,
  the helper button and the input auto-advance exist only on the mobile path. The keydown handler exists on every
  device.
- `PinProperties` (`pin_properties.dfy`) holds lemmas across events. They cover bounds, values left alone by
  navigation, the per-key moves and their no-op cases, arrow round trips, and whole sessions of typing or key
  presses.

Modelling decisions:

- Key presses and input go to the focused slot, as the DOM delivers them. So the `index` each per-slot handler closes
  over is the focused slot. Before any handler or the user gives focus, no slot has focus (`None`), and key presses and
  input change nothing.
- The container's click handler runs for every click that bubbles up from inside the container. That includes the
  user's clicks on the inputs and on the helper button, which is appended inside the container. It also includes the
  `click()` calls the script makes on a slot: in `touchstart` (keyboard.js:60), in `touchend` (keyboard.js:185),
  after an input advances (keyboard.js:72), and on page show (keyboard.js:219). Each of these runs the first-empty
  scan and focuses its result. So on mobile:
  - a tap on a slot ends on the first empty slot, not on the slot that was touched;
  - a tap on the helper button ends where a tap on the container does;
  - an input that advances ends on the first empty slot of the new row. That is the next slot only when every slot
    before it is filled and it is empty. In a fully filled row it is slot 0;
  - page show ends on the first empty slot rather than on slot 0.
- Every handler that focuses through `setTimeout`, or through repeated focus/blur/click calls, is modelled by the
  focus that holds once its timers have fired, with the bubbled re-scan above included.
- Off mobile, a click on the container's own area, which takes no focus, blurs the focused slot, so afterwards no slot
  has focus. The helper button exists only on mobile, so a helper tap is an event only there (`Fits`).
- Backspace on a non-empty slot: the keydown handler does nothing, and the browser's deletion then arrives as an
  `Input` event with the shorter value.
- `maxLength` is an `int`, because an input without a `maxlength` attribute reports -1, and no value's length equals
  that. Then focus never advances.

Facts about the code that the model keeps:

- When every slot is filled, the scan returns slot 0, not the last slot (keyboard.js:18, keyboard.js:118).
- Auto-advance happens only when the new value is exactly `maxLength` long (keyboard.js:68), and only on mobile, where
  the handler is installed (keyboard.js:84-85).
- The code raises no invalid-index or invalid-character errors. Handlers exist only for slots that exist, and a typed
  value is stored as the browser delivers it. Indices of tapped slots are therefore required to be in range (`Fits`).
- Slot types are the values the DOM reports for `type`: a lower-case keyword, and "text" when the attribute is
  missing or unknown.

## Model

| member | source | states |
|---|---|---|
| PinSlots.FirstEmpty | keyboard.js:118-124 | the result is the least index of an empty slot. When every slot is filled it is 0, not the last index. With at least one slot it is a valid index |
| PinSlots.ScanFirstEmpty | keyboard.js:18-24 | the container handler's loop, with `focusIndex` starting at 0 and a `break` at the first empty slot, finds the least empty slot, or 0 when all are filled. It agrees with `FirstEmpty` |
| PinSlots.FirstEmptyUnique | keyboard.js:19-24 | whenever slot k is empty and every slot before it is filled, the scan returns exactly k |
| PinSlots.FirstEmptyDependsOnEmptiness | keyboard.js:19-23 | the scan only tests `!value`: two rows with the same empty slots get the same focus target |
| InputKind.NormaliseType | keyboard.js:49-51 | any type other than "text"/"tel" becomes "tel", and "text" and "tel" are kept. The result is always "text" or "tel" |
| InputKind.NormaliseTypeIdempotent | keyboard.js:49-51 | normalising a type twice gives what normalising once gives |
| InputKind.SetUpTypes | keyboard.js:47-51 | on mobile every slot ends with type "text" or "tel", friendly types are kept and others become "tel". Off mobile the types are untouched |
| InputKind.SetUpTypesIdempotent | keyboard.js:47-51 | running the type fix over the row twice changes nothing more than running it once |
| PinNavigator.Attach | keyboard.js:4-11 | handlers are attached exactly when at least one slot and the container exist. The resulting pad is valid, keeps the given values and maxLength, and has no slot focused. On mobile a "text" or "tel" type is kept and any other becomes "tel"; off mobile the types are untouched |
| PinNavigator.TapFocus | keyboard.js:16-27 | on mobile, a container click focuses a valid slot: the first empty one, or slot 0 when all are filled. Off mobile no handler runs and focus is unchanged |
| PinNavigator.InputFocus | keyboard.js:67-75 | after input at slot i, focus stays at i unless on mobile the value's length equals maxLength and i is not the last slot. Then the click on slot i+1 bubbles to the container, and focus settles on the first empty slot of the new row, or slot 0 when all are filled |
| PinNavigator.KeyFocus | keyboard.js:192-209 | Backspace moves back exactly when i > 0 and the slot is empty. ArrowLeft moves back exactly when i > 0. ArrowRight moves on exactly when a next slot exists. A key that does not move leaves focus at i, and other keys do nothing. Focus moves at most one slot and stays in range |
| PinNavigator.Step | keyboard.js:16-222 | every event the page can deliver keeps the pad valid: focus in range, and row length, types and maxLength fixed. Only input writes a value, and only the focused slot's. Input and keys with no slot focused change nothing |
| PinNavigator.Run | keyboard.js:16-222 | a whole session of events keeps the pad valid, with the same row length, types and maxLength |
| PinProperties.TapLandsOnFirstEmpty | keyboard.js:16-27 | on mobile, a tap on the container, the helper button or any slot ends on the first empty slot, or slot 0 when all are filled, whatever had focus |
| PinProperties.DesktopTap | keyboard.js:84-85 | off mobile, no helper tap exists. A container tap leaves no slot focused and changes no value, and a slot tap focuses exactly that slot |
| PinProperties.TapIdempotent | keyboard.js:116-124 | a second tap right after the first leaves the pad as the first left it |
| PinProperties.InputAdvance | keyboard.js:67-75 | input at slot i stores the text in slot i only. Without an advance (off mobile, the wrong length, or the last slot) focus stays at i. With one, focus lands on the first empty slot of the new row, which is i+1 exactly when slots 0..i are filled and slot i+1 is empty |
| PinProperties.TypeIntoFilledRow | keyboard.js:67-75 | on mobile, in a fully filled row, a maxLength-long input into any slot but the last sends focus back to slot 0 |
| PinProperties.TypeFrom | keyboard.js:67-75 | on mobile, with maxLength at least 1 and the slots after i empty, typing maxLength-long texts into slots i, i+1, ... from focus i stores each text in its slot and ends on the last slot |
| PinProperties.TypePin | keyboard.js:67-75 | on mobile, entering a whole PIN from slot 0 into a row whose later slots are empty yields exactly the typed values and focus on the last slot |
| PinProperties.DesktopTypingKeepsFocus | keyboard.js:84-85 | off mobile, any amount of typing never moves focus |
| PinProperties.BackspaceMovesBack | keyboard.js:195-197 | Backspace at slot i moves to i-1 exactly when i > 0 and the slot is empty. Otherwise it is a no-op. Values are never changed |
| PinProperties.ArrowRightMoves | keyboard.js:200-203 | ArrowRight moves from i to i+1 when i < n-1 and is a no-op at the last slot |
| PinProperties.ArrowLeftMoves | keyboard.js:204-207 | ArrowLeft moves from i to i-1 when i > 0 and is a no-op at slot 0 |
| PinProperties.ArrowRoundTrip | keyboard.js:200-207 | ArrowRight then ArrowLeft restores the pad from any i < n-1, and ArrowLeft then ArrowRight restores it from any i > 0 |
| PinProperties.OtherKeysIgnored | keyboard.js:193-208 | a key other than Backspace, ArrowLeft and ArrowRight leaves the pad unchanged |
| PinProperties.ArrowRightPresses | keyboard.js:200-203 | k ArrowRight presses from i reach min(i+k, n-1) and change no value |
| PinProperties.ArrowLeftPresses | keyboard.js:204-207 | k ArrowLeft presses from i reach max(i-k, 0) and change no value |
| PinProperties.BackspaceOverEmptySlots | keyboard.js:195-197 | over empty slots 0..i, k Backspace presses from i reach max(i-k, 0) and change no value |
| PinProperties.PageShowFocus | keyboard.js:212-222 | page show changes nothing while the container is hidden. Otherwise it focuses slot 0 off mobile. On mobile it acts as a tap on slot 0 and lands on the first empty slot, or slot 0 when all are filled. An empty first slot ends up focused on either device |
| PinProperties.NavigationKeepsValues | keyboard.js:193-208 | any session of taps, keys and page shows leaves every slot value unchanged, with focus on an existing slot when any slot has it |

## Left out

- The whole background-music and decoration script (`music-control.js`). It covers audio, volume, modals and timers,
  and has no navigation logic.
- The `setTimeout` delays and repeated focus/blur/click cycles (keyboard.js:31-43, 70-73, 142-146, 183-186, 213-222).
  They are browser workarounds. Each event is modelled by the focus it settles on once they have run, with the
  bubbled re-scan of every `click()` included. Events that arrive while a timer is still pending are not modelled.
- Mobile detection by user agent, `ontouchstart` and window width (keyboard.js:80-82). `isMobile` is a parameter.
- Whether the container is displayed (keyboard.js:214) is a parameter of the page-show event. The PIN page's other
  scripts hide it.
- The resize handler (keyboard.js:163-177). It is layout based on a floating-point ratio, not navigation.
- Styling, animation, the helper button's creation, the helper text and the temporary hidden input on iOS
  (keyboard.js:53-54, 88-160). They are DOM-only. The hidden input holds focus only until the button's click bubbles
  to the container's handler, which refocuses the first empty slot.
- Native browser focus moves that the script does not handle, such as Tab, or a blur by clicking outside the
  container. Neither is an event of the model. An `autofocus` attribute is not modelled either, so the model starts
  with no slot focused.
- `maxLength` is one value shared by all slots. The script reads each input's own `maxLength`. The page gives every
  `.pin-digit` the same one.
- Value lengths are counted in characters. JavaScript counts UTF-16 code units, which agree for the digits a PIN holds.
- The browser's own enforcement of `maxlength` on typed text. Any text may arrive as input.
- InputKind.NormaliseType: takes a type as the DOM reports it. The DOM's own folding of the `type` attribute into a
  lower-case keyword, with "text" for a missing or unknown one, is not modelled.
