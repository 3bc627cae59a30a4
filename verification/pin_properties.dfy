/**
 What the navigator promises across events: focus stays on a slot, moving
 focus never rewrites a value, the per-key moves and their boundaries, and
 what whole sessions of typing or key presses end in.
 */
module PinProperties {
  import opened PinSlots
  import opened PinNavigator

  /** Events of a session the page can deliver to a row of `n` slots. */
  predicate AllFit(isMobile: bool, es: seq<Event>, n: nat) {
    forall k :: 0 <= k < |es| ==> Fits(isMobile, es[k], n)
  }

  // ---------------------------------------------------------------------------
  // Taps

  /** On mobile every tap (the container, the helper button, or a slot, whose
      click bubbles to the container) ends on the first empty slot, and on
      slot 0 once all are filled, whatever slot had focus before. */
  lemma TapLandsOnFirstEmpty(p: Pad, e: Event)
    requires Valid(p) && Fits(true, e, |p.values|)
    requires e.ContainerTap? || e.HelperTap? || e.SlotTap?
    ensures Step(true, p, e).focus.Some?
    ensures !AllFilled(p.values) ==> IsFirstEmpty(p.values, Step(true, p, e).focus.value)
    ensures AllFilled(p.values) ==> Step(true, p, e).focus == Some(0)
  {
  }

  /** Away from mobile the tap handlers and the helper button do not exist: a
      tap on the container only takes focus away from the slots, and a tap on
      a slot focuses exactly that slot. */
  lemma DesktopTap(p: Pad, e: Event)
    requires Valid(p) && Fits(false, e, |p.values|)
    ensures !e.HelperTap?
    ensures e.ContainerTap? ==> Step(false, p, e) == p.(focus := None)
    ensures e.SlotTap? ==> Step(false, p, e) == p.(focus := Some(e.slot))
  {
  }

  /** A second tap right after the first moves focus nowhere new. */
  lemma TapIdempotent(isMobile: bool, p: Pad, e: Event)
    requires Valid(p) && Fits(isMobile, e, |p.values|)
    requires e.ContainerTap? || e.HelperTap?
    ensures Step(isMobile, Step(isMobile, p, e), e) == Step(isMobile, p, e)
  {
  }

  // ---------------------------------------------------------------------------
  // Input

  /** Input at slot `i` stores the text in slot `i` alone. Focus stays on `i`
      unless the handler advances (mobile, a `maxLength`-long text, and `i`
      not the last slot); when it does, its click on slot `i + 1` hands focus
      to the first empty slot of the new row, which is `i + 1` exactly when
      slots `0..i` are filled and slot `i + 1` is empty. */
  lemma InputAdvance(isMobile: bool, p: Pad, i: nat, text: string)
    requires Valid(p) && p.focus == Some(i)
    ensures var q := Step(isMobile, p, Input(text));
      && q.values[i] == text
      && (forall j :: 0 <= j < |p.values| && j != i ==> q.values[j] == p.values[j])
      && (!Advances(isMobile, p.maxLength, |p.values|, i, text) ==> q.focus == Some(i))
      && (Advances(isMobile, p.maxLength, |p.values|, i, text) ==>
            q.focus == Some(FirstEmpty(q.values))
            && (q.focus == Some(i + 1) <==> IsFirstEmpty(q.values, i + 1)))
  {
    var q := Step(isMobile, p, Input(text));
    if Advances(isMobile, p.maxLength, |p.values|, i, text) && IsFirstEmpty(q.values, i + 1) {
      FirstEmptyUnique(q.values, i + 1);
    }
  }

  /** On mobile, once every slot is filled, a `maxLength`-long input into any
      slot but the last sends focus back to slot 0. */
  lemma TypeIntoFilledRow(p: Pad, i: nat, text: string)
    requires Valid(p) && p.focus == Some(i) && i + 1 < |p.values|
    requires AllFilled(p.values)
    requires |text| == p.maxLength && p.maxLength > 0
    ensures Step(true, p, Input(text)).focus == Some(0)
  {
    var q := Step(true, p, Input(text));
    assert AllFilled(q.values) by {
      forall j | 0 <= j < |q.values|
        ensures !IsEmpty(q.values[j])
      {
        if j != i {
          assert q.values[j] == p.values[j];
        }
      }
    }
  }

  /** Filling slots `i`, `i + 1`, ... in turn with `maxLength`-long texts
      (`maxLength` at least 1), starting with focus on `i` and with the slots
      after `i` empty, stores each text in its slot and leaves focus on the
      last slot. */
  lemma {:induction false} TypeFrom(p: Pad, digits: seq<string>, i: nat)
    requires Valid(p) && |digits| == |p.values| && i < |digits|
    requires p.focus == Some(i)
    requires p.maxLength > 0
    requires forall k :: 0 <= k < |digits| ==> |digits[k]| == p.maxLength
    requires forall j :: 0 <= j < i ==> p.values[j] == digits[j]
    requires forall j :: i < j < |p.values| ==> IsEmpty(p.values[j])
    ensures AllFit(true, Typing(digits[i..]), |p.values|)
    ensures Run(true, p, Typing(digits[i..])) == p.(values := digits, focus := Some(|digits| - 1))
    decreases |digits| - i
  {
    var es := Typing(digits[i..]);
    var q := Step(true, p, es[0]);
    assert es[0] == Input(digits[i]);
    assert q.values == p.values[i := digits[i]];
    assert es[1..] == Typing(digits[i + 1..]) by {
      assert digits[i..][1..] == digits[i + 1..];
    }
    if i + 1 == |digits| {
      assert q.focus == Some(i);
      assert q.values == digits;
      assert es[1..] == [];
    } else {
      assert IsFirstEmpty(q.values, i + 1) by {
        forall j | 0 <= j < i + 1
          ensures !IsEmpty(q.values[j])
        {
          assert q.values[j] == digits[j];
        }
      }
      InputAdvance(true, p, i, digits[i]);
      assert q.focus == Some(i + 1);
      TypeFrom(q, digits, i + 1);
    }
  }

  /** Entering a whole PIN on mobile into a row whose slots after the first
      are empty, one `maxLength`-long text per slot from the first slot on,
      fills the row with exactly those texts and ends with focus on the last
      slot. */
  lemma TypePin(p: Pad, digits: seq<string>)
    requires Valid(p) && |digits| == |p.values|
    requires p.focus == Some(0)
    requires p.maxLength > 0
    requires forall k :: 0 <= k < |digits| ==> |digits[k]| == p.maxLength
    requires forall j :: 0 < j < |p.values| ==> IsEmpty(p.values[j])
    ensures AllFit(true, Typing(digits), |p.values|)
    ensures Run(true, p, Typing(digits)) == p.(values := digits, focus := Some(|digits| - 1))
  {
    assert digits[0..] == digits;
    TypeFrom(p, digits, 0);
  }

  /** Away from mobile no input handler is installed, so typing never moves
      focus, however many texts are entered. */
  lemma {:induction false} DesktopTypingKeepsFocus(p: Pad, texts: seq<string>)
    requires Valid(p)
    ensures AllFit(false, Typing(texts), |p.values|)
    ensures Run(false, p, Typing(texts)).focus == p.focus
    decreases |texts|
  {
    var es := Typing(texts);
    if |texts| > 0 {
      assert es[1..] == Typing(texts[1..]);
      DesktopTypingKeepsFocus(Step(false, p, es[0]), texts[1..]);
    }
  }

  // ---------------------------------------------------------------------------
  // Keys

  /** Backspace at slot `i` moves to `i - 1` exactly when `i > 0` and slot
      `i` is empty; otherwise it changes nothing. */
  lemma BackspaceMovesBack(isMobile: bool, p: Pad, i: nat)
    requires Valid(p) && p.focus == Some(i)
    ensures var q := Step(isMobile, p, KeyDown("Backspace"));
      && (q.focus == Some(i - 1) <==> i > 0 && IsEmpty(p.values[i]))
      && (!(i > 0 && IsEmpty(p.values[i])) ==> q == p)
      && q.values == p.values
  {
  }

  /** ArrowRight moves from `i` to `i + 1`, and is a no-op on the last slot. */
  lemma ArrowRightMoves(isMobile: bool, p: Pad, i: nat)
    requires Valid(p) && p.focus == Some(i)
    ensures var q := Step(isMobile, p, KeyDown("ArrowRight"));
      && (i + 1 < |p.values| ==> q == p.(focus := Some(i + 1)))
      && (i + 1 == |p.values| ==> q == p)
  {
  }

  /** ArrowLeft moves from `i` to `i - 1`, and is a no-op on slot 0. */
  lemma ArrowLeftMoves(isMobile: bool, p: Pad, i: nat)
    requires Valid(p) && p.focus == Some(i)
    ensures var q := Step(isMobile, p, KeyDown("ArrowLeft"));
      && (i > 0 ==> q == p.(focus := Some(i - 1)))
      && (i == 0 ==> q == p)
  {
  }

  /** ArrowRight then ArrowLeft returns to the slot it left, unless it started
      on the last slot; ArrowLeft then ArrowRight likewise, unless it started
      on slot 0. */
  lemma ArrowRoundTrip(isMobile: bool, p: Pad, i: nat)
    requires Valid(p) && p.focus == Some(i)
    ensures i + 1 < |p.values| ==>
      Step(isMobile, Step(isMobile, p, KeyDown("ArrowRight")), KeyDown("ArrowLeft")) == p
    ensures i > 0 ==>
      Step(isMobile, Step(isMobile, p, KeyDown("ArrowLeft")), KeyDown("ArrowRight")) == p
  {
  }

  /** Any key other than the three the handler knows leaves the pad alone. */
  lemma OtherKeysIgnored(isMobile: bool, p: Pad, key: string)
    requires Valid(p)
    requires key != "Backspace" && key != "ArrowLeft" && key != "ArrowRight"
    ensures Step(isMobile, p, KeyDown(key)) == p
  {
  }

  /** `count` ArrowRight presses from slot `i` reach slot `i + count`, and
      stop at the last slot. */
  lemma {:induction false} ArrowRightPresses(isMobile: bool, p: Pad, i: nat, count: nat)
    requires Valid(p) && p.focus == Some(i)
    ensures AllFit(isMobile, Presses("ArrowRight", count), |p.values|)
    ensures Run(isMobile, p, Presses("ArrowRight", count))
      == p.(focus := Some(if i + count < |p.values| then i + count else |p.values| - 1))
    decreases count
  {
    if count > 0 {
      var es := Presses("ArrowRight", count);
      assert es[1..] == Presses("ArrowRight", count - 1);
      var q := Step(isMobile, p, es[0]);
      ArrowRightMoves(isMobile, p, i);
      ArrowRightPresses(isMobile, q, q.focus.value, count - 1);
    }
  }

  /** `count` ArrowLeft presses from slot `i` reach slot `i - count`, and stop
      at slot 0. */
  lemma {:induction false} ArrowLeftPresses(isMobile: bool, p: Pad, i: nat, count: nat)
    requires Valid(p) && p.focus == Some(i)
    ensures AllFit(isMobile, Presses("ArrowLeft", count), |p.values|)
    ensures Run(isMobile, p, Presses("ArrowLeft", count))
      == p.(focus := Some(if count <= i then i - count else 0))
    decreases count
  {
    if count > 0 {
      var es := Presses("ArrowLeft", count);
      assert es[1..] == Presses("ArrowLeft", count - 1);
      var q := Step(isMobile, p, es[0]);
      ArrowLeftMoves(isMobile, p, i);
      ArrowLeftPresses(isMobile, q, q.focus.value, count - 1);
    }
  }

  /** Over a run of empty slots `0..i`, `count` Backspace presses walk back
      `count` slots, stopping at slot 0. */
  lemma {:induction false} BackspaceOverEmptySlots(isMobile: bool, p: Pad, i: nat, count: nat)
    requires Valid(p) && p.focus == Some(i)
    requires forall j :: 0 <= j <= i ==> IsEmpty(p.values[j])
    ensures AllFit(isMobile, Presses("Backspace", count), |p.values|)
    ensures Run(isMobile, p, Presses("Backspace", count))
      == p.(focus := Some(if count <= i then i - count else 0))
    decreases count
  {
    if count > 0 {
      var es := Presses("Backspace", count);
      assert es[1..] == Presses("Backspace", count - 1);
      var q := Step(isMobile, p, es[0]);
      BackspaceMovesBack(isMobile, p, i);
      BackspaceOverEmptySlots(isMobile, q, q.focus.value, count - 1);
    }
  }

  // ---------------------------------------------------------------------------
  // Page show and whole sessions

  /** Showing the page changes nothing while the container is hidden.
      Otherwise it focuses slot 0; on mobile the handler's click on slot 0 then
      behaves as a tap on that slot and lands on the first empty slot, so on
      either device an empty first slot ends up focused. */
  lemma PageShowFocus(isMobile: bool, p: Pad, shown: bool)
    requires Valid(p)
    ensures !shown ==> Step(isMobile, p, PageShow(shown)) == p
    ensures shown && !isMobile ==> Step(isMobile, p, PageShow(shown)) == p.(focus := Some(0))
    ensures shown && isMobile ==> Step(isMobile, p, PageShow(shown)) == Step(isMobile, p, SlotTap(0))
    ensures shown && isMobile && !AllFilled(p.values) ==>
              IsFirstEmpty(p.values, Step(isMobile, p, PageShow(shown)).focus.value)
    ensures shown && isMobile && AllFilled(p.values) ==> Step(isMobile, p, PageShow(shown)).focus == Some(0)
    ensures shown && IsEmpty(p.values[0]) ==> Step(isMobile, p, PageShow(shown)).focus == Some(0)
  {
    if shown && IsEmpty(p.values[0]) {
      FirstEmptyUnique(p.values, 0);
    }
  }

  /** A session without input events never rewrites a slot: taps, keys and
      page shows only move focus, and focus stays on an existing slot. */
  lemma {:induction false} NavigationKeepsValues(isMobile: bool, p: Pad, es: seq<Event>)
    requires Valid(p) && AllFit(isMobile, es, |p.values|)
    requires forall k :: 0 <= k < |es| ==> !es[k].Input?
    ensures Run(isMobile, p, es).values == p.values
    ensures var f := Run(isMobile, p, es).focus; f.Some? ==> f.value < |p.values|
    decreases |es|
  {
    if |es| > 0 {
      NavigationKeepsValues(isMobile, Step(isMobile, p, es[0]), es[1..]);
    }
  }
}
