/**
 The input-type fix applied to every slot on the mobile path: any `type` other
 than "text" or "tel" is replaced by "tel", so that phones show a numeric
 keypad. A type here is the value the DOM reports for an input's `type`
 property: a lower-case keyword, and "text" when the attribute is missing or
 unknown; the DOM's own folding of the attribute into that value comes before
 this step.
 */
module InputKind {

  /** The two types the script leaves alone. */
  predicate IsKeyboardFriendly(t: string) {
    t == "text" || t == "tel"
  }

  function NormaliseType(t: string): (r: string)
    ensures IsKeyboardFriendly(r)
    ensures IsKeyboardFriendly(t) ==> r == t
    ensures !IsKeyboardFriendly(t) ==> r == "tel"
  {
    if t != "text" && t != "tel" then "tel" else t
  }

  /** Normalising twice changes nothing more than normalising once. */
  lemma NormaliseTypeIdempotent(t: string)
    ensures NormaliseType(NormaliseType(t)) == NormaliseType(t)
  {
  }

  /** The type of every slot after the page has set up its handlers: the
      normalisation runs only where the mobile path is taken. */
  function SetUpTypes(types: seq<string>, isMobile: bool): (r: seq<string>)
    ensures |r| == |types|
    ensures isMobile ==> forall i :: 0 <= i < |r| ==> IsKeyboardFriendly(r[i])
    ensures isMobile ==> forall i :: 0 <= i < |r| ==> IsKeyboardFriendly(types[i]) ==> r[i] == types[i]
    ensures isMobile ==> forall i :: 0 <= i < |r| ==> !IsKeyboardFriendly(types[i]) ==> r[i] == "tel"
    ensures !isMobile ==> r == types
  {
    if isMobile then seq(|types|, i requires 0 <= i < |types| => NormaliseType(types[i])) else types
  }

  /** Setting up twice leaves the types as setting up once did. */
  lemma SetUpTypesIdempotent(types: seq<string>, isMobile: bool)
    ensures SetUpTypes(SetUpTypes(types, isMobile), isMobile) == SetUpTypes(types, isMobile)
  {
  }
}
