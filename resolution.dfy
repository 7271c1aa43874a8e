// The index logic of the final keep/switch reveal (script.js
// `finalRevealSequence`) and the index the win overlay reads
// (`getFinalPrizeForDisplay`).

module Resolution {
  import opened Common
  import opened Prizes

  /** Case `x` is still closed and is not the player's original case. */
  predicate Unopened(original: int, revealed: set<int>, x: int) {
    0 <= x < NumCases && x != original && x !in revealed
  }

  /** The closed cases other than the original one, from `from` upwards, in
      ascending order (the filter over the keys 0..7). */
  function UnopenedFrom(original: int, revealed: set<int>, from: nat): (u: seq<int>)
    ensures forall x :: x in u <==> from <= x && Unopened(original, revealed, x)
    ensures forall a, b :: 0 <= a < b < |u| ==> u[a] < u[b]
    decreases NumCases - from
  {
    if from >= NumCases then []
    else
      var rest := UnopenedFrom(original, revealed, from + 1);
      assert forall k :: 0 <= k < |rest| ==> rest[k] in rest;
      if Unopened(original, revealed, from) then [from] + rest else rest
  }

  /** The final case and the other case to open before it. */
  datatype Outcome = Outcome(finalIndex: int, other: Option<int>)

  /** One timed reveal: which case, and whether the win cue plays with it. */
  datatype RevealStep = RevealStep(index: int, cueWin: bool)

  /** Keeping gives the original case; switching gives the lowest-numbered closed
      case other than the original (or the original, if none is left). The other
      case is the one of the two that is not final. */
  function FinalOutcome(original: int, revealed: set<int>, switched: bool): (o: Outcome)
    requires 0 <= original < NumCases
    ensures 0 <= o.finalIndex < NumCases
    ensures o.other.Some? ==> 0 <= o.other.value < NumCases && o.other.value != o.finalIndex
  {
    var unopened := UnopenedFrom(original, revealed, 0);
    var remainingIndex := if |unopened| > 0 then Some(unopened[0]) else None;
    assert remainingIndex.Some? ==> unopened[0] in unopened;
    var finalIndex := if switched && remainingIndex.Some? then remainingIndex.value else original;
    var other := if original == finalIndex then remainingIndex else Some(original);
    Outcome(finalIndex, other)
  }

  /** Keeping ends on the original case; switching ends on the lowest-numbered
      closed case other than the original, or on the original when none is
      left, in which case there is no other case to open. One of the final and
      the other case is always the original. */
  lemma FinalOutcomeChoice(original: int, revealed: set<int>, switched: bool)
    requires 0 <= original < NumCases
    ensures !switched ==> FinalOutcome(original, revealed, switched).finalIndex == original
    ensures switched && (exists x :: Unopened(original, revealed, x)) ==>
      var f := FinalOutcome(original, revealed, switched).finalIndex;
      Unopened(original, revealed, f) && forall y :: 0 <= y < f ==> !Unopened(original, revealed, y)
    ensures (forall x :: !Unopened(original, revealed, x)) ==>
      FinalOutcome(original, revealed, switched) == Outcome(original, None)
    ensures var o := FinalOutcome(original, revealed, switched);
      o.other.Some? ==> (o.finalIndex == original || o.other.value == original)
  {
    var u := UnopenedFrom(original, revealed, 0);
    if |u| > 0 {
      assert u[0] in u;
    }
  }

  /** The reveals the final sequence performs, in order: the other case without
      the win cue (if it is still closed), then the final case with it (if it is
      still closed after that). */
  function RevealOrder(original: int, revealed: set<int>, switched: bool): (steps: seq<RevealStep>)
    requires 0 <= original < NumCases
    ensures |steps| <= 2
    ensures forall k :: 0 <= k < |steps| ==> 0 <= steps[k].index < NumCases
    ensures forall k, l :: 0 <= k < l < |steps| ==> steps[k].index != steps[l].index
  {
    var o := FinalOutcome(original, revealed, switched);
    var first := if o.other.Some? && o.other.value !in revealed then [RevealStep(o.other.value, false)] else [];
    var afterFirst := if o.other.Some? && o.other.value !in revealed then revealed + {o.other.value} else revealed;
    first + (if o.finalIndex !in afterFirst then [RevealStep(o.finalIndex, true)] else [])
  }

  /** The reveal order opens only closed cases, the win cue plays with the final
      case and no other, and it plays exactly when the final case was still closed. */
  lemma RevealOrderCuesOnlyTheFinalCase(original: int, revealed: set<int>, switched: bool)
    requires 0 <= original < NumCases
    ensures |RevealOrder(original, revealed, switched)| <= 2
    ensures forall step :: step in RevealOrder(original, revealed, switched) ==>
      step.index !in revealed &&
      (step.cueWin <==> step.index == FinalOutcome(original, revealed, switched).finalIndex)
    ensures var finalIndex := FinalOutcome(original, revealed, switched).finalIndex;
      RevealStep(finalIndex, true) in RevealOrder(original, revealed, switched) <==> finalIndex !in revealed
    ensures var finalIndex := FinalOutcome(original, revealed, switched).finalIndex;
      var steps := RevealOrder(original, revealed, switched);
      finalIndex !in revealed ==> steps[|steps| - 1] == RevealStep(finalIndex, true)
  {
    var o := FinalOutcome(original, revealed, switched);
    var opensOther := o.other.Some? && o.other.value !in revealed;
    var first := if opensOther then [RevealStep(o.other.value, false)] else [];
    var last := if o.finalIndex !in revealed then [RevealStep(o.finalIndex, true)] else [];
    assert opensOther ==> (o.finalIndex !in revealed + {o.other.value} <==> o.finalIndex !in revealed);
    assert RevealOrder(original, revealed, switched) == first + last;
  }

  /** In the usual end state (the original case closed, exactly one other case
      closed) the sequence opens two cases: the one not chosen first, then the
      chosen one with the win cue. */
  lemma TwoRevealsAtTheEnd(original: int, revealed: set<int>, switched: bool, t: int)
    requires 0 <= original < NumCases && original !in revealed
    requires Unopened(original, revealed, t)
    requires forall x :: Unopened(original, revealed, x) ==> x == t
    ensures FinalOutcome(original, revealed, switched).finalIndex == (if switched then t else original)
    ensures RevealOrder(original, revealed, switched) ==
      [RevealStep(if switched then original else t, false), RevealStep(if switched then t else original, true)]
  {
    SoleClosedCase(original, revealed, t, 0);
    var o := FinalOutcome(original, revealed, switched);
    assert o == Outcome(if switched then t else original, Some(if switched then original else t));
  }

  /** When `t` is the only closed case besides the original, the filter from any
      point at or below `t` lists `t` first. */
  lemma SoleClosedCase(original: int, revealed: set<int>, t: int, from: nat)
    requires Unopened(original, revealed, t) && from <= t
    requires forall x :: Unopened(original, revealed, x) ==> x == t
    ensures var u := UnopenedFrom(original, revealed, from); |u| > 0 && u[0] == t
  {
    var u := UnopenedFrom(original, revealed, from);
    assert t in u;
    forall k | 0 <= k < |u| ensures u[k] == t {
      assert u[k] in u;
      assert Unopened(original, revealed, u[k]);
    }
  }

  /** The case the win overlay reads: the current player index, or the original
      one when there is none. */
  function DisplayedIndex(player: Option<int>, original: Option<int>): (d: Option<int>)
    ensures d == player || d == original
    ensures d.Some? <==> player.Some? || original.Some?
    ensures player.Some? ==> d == player
  {
    if player.Some? then player else original
  }
}
