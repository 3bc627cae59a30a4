/**
 The PIN-entry focus navigator of keyboard.js as a state machine. Its state is
 the row of slot values, the slots' input types, the shared `maxLength` and
 which slot (if any) holds focus; every DOM event the script listens to is one
 transition. Delays before a focus call and repeated focus/blur/click cycles
 are collapsed: a transition yields the focus that holds once the script's
 timers have fired. Every `click()` the script calls on a slot bubbles up to
 the container, whose click handler (on mobile) then focuses the first empty
 slot; the transitions below include that re-scan wherever the script clicks.
 */
module PinNavigator {
  import opened PinSlots
  import opened InputKind

  datatype Option<T> = None | Some(value: T)

  /** `maxLength` is an `int` because an input without a `maxlength`
      attribute reports -1, which no value's length equals. */
  datatype Pad = Pad(values: seq<string>, types: seq<string>, maxLength: int, focus: Option<nat>)

  /** At least one slot (the guard at set-up), one type per slot, and focus,
      when some slot has it, on an existing slot. */
  predicate Valid(p: Pad) {
    && |p.values| > 0
    && |p.types| == |p.values|
    && (p.focus.Some? ==> p.focus.value < |p.values|)
  }

  /** What the user or the browser does. Key presses and typed text go to the
      focused slot, as the DOM delivers them. */
  datatype Event =
    | ContainerTap            // a click inside the PIN container, off the slots and the button
    | HelperTap               // the "Tap here to open keyboard" button
    | SlotTap(slot: nat)      // a touch or click on one slot
    | Input(text: string)     // the focused slot's value becomes `text`
    | KeyDown(key: string)    // a key press, named as the DOM's `KeyboardEvent.key`
    | PageShow(containerShown: bool)

  /** An event the page can deliver to a row of `n` slots: taps land on
      existing slots, and the helper button exists only on the mobile path. */
  predicate Fits(isMobile: bool, e: Event, n: nat) {
    && (e.SlotTap? ==> e.slot < n)
    && (e.HelperTap? ==> isMobile)
  }

  /** Set-up on DOMContentLoaded: nothing is attached when no slot or no
      container is found; otherwise no slot has focus yet and, on the mobile
      path, every slot's type has been normalised. */
  function Attach(values: seq<string>, types: seq<string>, maxLength: int, hasContainer: bool, isMobile: bool)
    : (r: Option<Pad>)
    requires |types| == |values|
    ensures r.Some? <==> |values| > 0 && hasContainer
    ensures r.Some? ==> Valid(r.value)
    ensures r.Some? ==> r.value.values == values && r.value.maxLength == maxLength && r.value.focus == None
    ensures r.Some? && isMobile ==> forall i :: 0 <= i < |values| ==> IsKeyboardFriendly(r.value.types[i])
    ensures r.Some? && isMobile ==> forall i :: 0 <= i < |values| ==>
              IsKeyboardFriendly(types[i]) ==> r.value.types[i] == types[i]
    ensures r.Some? && isMobile ==> forall i :: 0 <= i < |values| ==>
              !IsKeyboardFriendly(types[i]) ==> r.value.types[i] == "tel"
    ensures r.Some? && !isMobile ==> r.value.types == types
  {
    if |values| == 0 || !hasContainer then None
    else Some(Pad(values, SetUpTypes(types, isMobile), maxLength, None))
  }

  /** The click handler on the container (and the helper button's, which runs
      the same scan): focus the first empty slot. Both exist only on mobile. */
  function TapFocus(isMobile: bool, p: Pad): (f: Option<nat>)
    requires Valid(p)
    ensures !isMobile ==> f == p.focus
    ensures isMobile ==> f.Some? && f.value < |p.values|
    ensures isMobile && !AllFilled(p.values) ==> IsFirstEmpty(p.values, f.value)
    ensures isMobile && AllFilled(p.values) ==> f == Some(0)
  {
    if isMobile then Some(FirstEmpty(p.values)) else p.focus
  }

  /** Whether the input handler of slot `index` moves on: it is installed
      only on mobile, and fires when the new value has exactly `maxLength`
      characters and a next slot exists. */
  predicate Advances(isMobile: bool, maxLength: int, n: nat, index: nat, value: string) {
    isMobile && |value| == maxLength && index + 1 < n
  }

  /** The focus after input into slot `index`, `typed` being the pad with the
      new value stored. When the handler advances it focuses and clicks the
      next slot; the click bubbles to the container, which moves focus to the
      first empty slot of the new row (slot 0 when all are filled). */
  function InputFocus(isMobile: bool, typed: Pad, index: nat): (f: Option<nat>)
    requires Valid(typed) && index < |typed.values|
    ensures f.Some? && f.value < |typed.values|
    ensures !Advances(isMobile, typed.maxLength, |typed.values|, index, typed.values[index]) ==> f == Some(index)
    ensures Advances(isMobile, typed.maxLength, |typed.values|, index, typed.values[index]) ==>
              (!AllFilled(typed.values) ==> IsFirstEmpty(typed.values, f.value))
              && (AllFilled(typed.values) ==> f == Some(0))
  {
    if Advances(isMobile, typed.maxLength, |typed.values|, index, typed.values[index]) then
      TapFocus(isMobile, typed.(focus := Some(index + 1)))
    else
      Some(index)
  }

  /** The keydown handler of slot `index` (every device): Backspace on an
      empty slot and ArrowLeft move back, ArrowRight moves on, each only when
      a slot exists on that side; any other key leaves focus alone. */
  function KeyFocus(key: string, n: nat, index: nat, value: string): (next: nat)
    requires index < n
    ensures next < n
    ensures key == "Backspace" ==> (next + 1 == index <==> index > 0 && IsEmpty(value))
    ensures key == "ArrowLeft" ==> (next + 1 == index <==> index > 0)
    ensures key == "ArrowRight" ==> (next == index + 1 <==> index + 1 < n)
    ensures next == index || next + 1 == index || next == index + 1
    ensures key == "Backspace" || key == "ArrowLeft" ==> next <= index
    ensures key == "ArrowRight" ==> next >= index
    ensures key != "Backspace" && key != "ArrowLeft" && key != "ArrowRight" ==> next == index
  {
    var afterBackspace := if key == "Backspace" && index > 0 && IsEmpty(value) then index - 1 else index;
    var afterRight := if key == "ArrowRight" && index < n - 1 then index + 1 else afterBackspace;
    if key == "ArrowLeft" && index > 0 then index - 1 else afterRight
  }

  /** One event. Only `Input` writes a value, and only the focused slot's;
      every other event moves focus at most. */
  function Step(isMobile: bool, p: Pad, e: Event): (q: Pad)
    requires Valid(p) && Fits(isMobile, e, |p.values|)
    ensures Valid(q)
    ensures |q.values| == |p.values| && q.types == p.types && q.maxLength == p.maxLength
    ensures !e.Input? ==> q.values == p.values
    ensures e.Input? && p.focus.Some? ==> q.values == p.values[p.focus.value := e.text]
    ensures (e.Input? || e.KeyDown?) && p.focus.None? ==> q == p
  {
    match e
    case ContainerTap =>
      // pressing a part of the page that takes no focus blurs the focused
      // slot; on mobile the container's handler then focuses a slot
      var blurred := p.(focus := None);
      blurred.(focus := TapFocus(isMobile, blurred))
    case HelperTap =>
      // the button sits inside the container: its handler runs, then the
      // click bubbles up to the container's
      var pressed := p.(focus := TapFocus(isMobile, p));
      pressed.(focus := TapFocus(isMobile, pressed))
    case SlotTap(i) =>
      // the browser focuses the touched slot, then the click bubbles up to
      // the container
      var touched := p.(focus := Some(i));
      touched.(focus := TapFocus(isMobile, touched))
    case Input(text) =>
      (match p.focus
       case None => p
       case Some(i) =>
         var typed := p.(values := p.values[i := text]);
         typed.(focus := InputFocus(isMobile, typed, i)))
    case KeyDown(key) =>
      (match p.focus
       case None => p
       case Some(i) => p.(focus := Some(KeyFocus(key, |p.values|, i, p.values[i]))))
    case PageShow(shown) =>
      if !shown then p
      else
        // the handler focuses slot 0 and, on mobile, clicks it; the click
        // bubbles to the container
        var first := p.(focus := Some(0));
        first.(focus := TapFocus(isMobile, first))
  }

  /** A whole session: the events in the order they arrive. */
  function Run(isMobile: bool, p: Pad, es: seq<Event>): (q: Pad)
    requires Valid(p)
    requires forall k :: 0 <= k < |es| ==> Fits(isMobile, es[k], |p.values|)
    ensures Valid(q)
    ensures |q.values| == |p.values| && q.types == p.types && q.maxLength == p.maxLength
    decreases |es|
  {
    if |es| == 0 then p else Run(isMobile, Step(isMobile, p, es[0]), es[1..])
  }

  /** Typing `texts` one after the other, each as one input event. */
  function Typing(texts: seq<string>): (es: seq<Event>)
    ensures |es| == |texts|
    ensures forall k :: 0 <= k < |es| ==> es[k] == Input(texts[k])
  {
    if |texts| == 0 then [] else [Input(texts[0])] + Typing(texts[1..])
  }

  /** Pressing `key` `count` times. */
  function Presses(key: string, count: nat): (es: seq<Event>)
    ensures |es| == count
    ensures forall k :: 0 <= k < |es| ==> es[k] == KeyDown(key)
  {
    if count == 0 then [] else [KeyDown(key)] + Presses(key, count - 1)
  }
}
