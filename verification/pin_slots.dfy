/**
 The row of PIN slots as the page's script sees it: an ordered sequence of the
 text each `.pin-digit` input holds, and the scan that picks the slot a tap on
 the container (or on the keyboard helper button) should focus.
 */
module PinSlots {

  /** `!input.value` in the script: true exactly for the empty string. */
  predicate IsEmpty(v: string) {
    |v| == 0
  }

  /** Every slot holds at least one character. */
  predicate AllFilled(values: seq<string>) {
    forall i :: 0 <= i < |values| ==> !IsEmpty(values[i])
  }

  /** `k` is the least index whose slot is empty. */
  predicate IsFirstEmpty(values: seq<string>, k: nat) {
    && k < |values|
    && IsEmpty(values[k])
    && forall j :: 0 <= j < k ==> !IsEmpty(values[j])
  }

  /** The slot to focus after a tap: the first empty one, and slot 0 (not the
      last slot) when every slot is filled. */
  function FirstEmpty(values: seq<string>): (k: nat)
    ensures |values| > 0 ==> k < |values|
    ensures !AllFilled(values) ==> IsFirstEmpty(values, k)
    ensures AllFilled(values) ==> k == 0
  {
    FirstEmptyFrom(values, 0)
  }

  /** The scan resumed at `from`: slots before `from` are not examined. */
  function FirstEmptyFrom(values: seq<string>, from: nat): (k: nat)
    requires from <= |values|
    ensures (exists i :: from <= i < |values| && IsEmpty(values[i])) ==>
              from <= k && IsFirstEmptyAfter(values, from, k)
    ensures (forall i :: from <= i < |values| ==> !IsEmpty(values[i])) ==> k == 0
    decreases |values| - from
  {
    if from == |values| then 0
    else if IsEmpty(values[from]) then from
    else FirstEmptyFrom(values, from + 1)
  }

  /** `k` is the least index at or after `from` whose slot is empty. */
  predicate IsFirstEmptyAfter(values: seq<string>, from: nat, k: nat) {
    && k < |values|
    && IsEmpty(values[k])
    && forall j :: from <= j < k ==> !IsEmpty(values[j])
  }

  /** The loop the click handlers run: start from slot 0 and stop at the first
      empty slot. */
  method ScanFirstEmpty(values: seq<string>) returns (focusIndex: nat)
    ensures |values| > 0 ==> focusIndex < |values|
    ensures !AllFilled(values) ==> IsFirstEmpty(values, focusIndex)
    ensures AllFilled(values) ==> focusIndex == 0
    ensures focusIndex == FirstEmpty(values)
  {
    focusIndex := 0;
    var i := 0;
    while i < |values|
      invariant i <= |values|
      invariant focusIndex == 0
      invariant forall j :: 0 <= j < i ==> !IsEmpty(values[j])
    {
      if IsEmpty(values[i]) {
        focusIndex := i;
        break;
      }
      i := i + 1;
    }
  }

  /** The scan gives the same answer whichever filled slots hold what: only
      which slots are empty matters. */
  lemma FirstEmptyDependsOnEmptiness(a: seq<string>, b: seq<string>)
    requires |a| == |b|
    requires forall i :: 0 <= i < |a| ==> (IsEmpty(a[i]) <==> IsEmpty(b[i]))
    ensures FirstEmpty(a) == FirstEmpty(b)
  {
  }

  /** The scan's answer is the only least empty slot: whenever slot `k` is
      empty and every slot before it is filled, the scan returns `k`. */
  lemma FirstEmptyUnique(values: seq<string>, k: nat)
    requires IsFirstEmpty(values, k)
    ensures FirstEmpty(values) == k
  {
    assert !AllFilled(values) by {
      assert IsEmpty(values[k]);
    }
  }
}
