// The game engine of script.js: the module-level state as one object, and each
// event handler as one atomic method. The leader instance is modelled; the
// follower's message handler is not.

module Engine {
  import opened Common
  import opened Prizes
  import opened Shuffle
  import opened Offer
  import opened Resolution

  /** Every shuffle of the prize table is a case assignment. */
  lemma ShuffledTableIsAssignment(draws: seq<nat>)
    requires ValidDraws(draws, |PrizeListOrdered|)
    ensures IsCaseAssignment(Shuffled(PrizeListOrdered, draws))
  {
  }

  /** The cases a run of reveal steps opens. */
  function OpenedBy(steps: seq<RevealStep>): set<int> {
    set s | s in steps :: s.index
  }

  lemma OpenedByAppend(first: seq<RevealStep>, last: seq<RevealStep>)
    ensures OpenedBy(first + last) == OpenedBy(first) + OpenedBy(last)
  {
  }

  lemma OpenedByOne(step: RevealStep)
    ensures OpenedBy([step]) == {step.index}
  {
  }

  class Game {
    // script.js:53-61 and :301
    var casePrizes: seq<string>
    var playerCaseIndex: Option<int>
    var originalPlayerIndex: Option<int>
    var phase: int
    var picksNeeded: int
    var revealedSet: set<int>
    var overlayVisible: bool
    var dealerCallCount: nat
    var currentOfferText: string
    // Whether the dealer overlay, the keep/switch area and the win overlay are
    // showing: their buttons (and keys) only act while they are.
    var dealerOverlayOpen: bool
    var keepSwitchOpen: bool
    var winOverlayOpen: bool

    ghost predicate Valid()
      reads this
    {
      |casePrizes| == NumCases &&
      playerCaseIndex == originalPlayerIndex &&
      0 <= phase <= 4 &&
      (phase == 0 <==> playerCaseIndex == None) &&
      (playerCaseIndex.Some? ==> 0 <= playerCaseIndex.value < NumCases) &&
      (phase == 0 ==> revealedSet == {} && picksNeeded == 0 && dealerCallCount == 0 && !overlayVisible
                      && !dealerOverlayOpen && !keepSwitchOpen && !winOverlayOpen) &&
      (forall i :: i in revealedSet ==> 0 <= i < NumCases) &&
      picksNeeded <= 3 &&
      (dealerOverlayOpen ==> (phase == 1 || phase == 2) && overlayVisible) &&
      (winOverlayOpen ==> overlayVisible) &&
      (keepSwitchOpen ==> phase == 4 && !overlayVisible) &&
      (dealerOverlayOpen ==> !winOverlayOpen && !keepSwitchOpen) &&
      (winOverlayOpen ==> !keepSwitchOpen)
    }

    /** A click on `index` that onCaseClicked turns away without any change. */
    predicate Ignores(index: int)
      reads this
    {
      overlayVisible || !(0 <= index < NumCases) || index in revealedSet ||
      !(0 <= phase <= 3) || (1 <= phase && playerCaseIndex == Some(index))
    }

    /** Page start: the initial values of the state, then initGame. */
    constructor (draws: seq<nat>)
      requires ValidDraws(draws, |PrizeListOrdered|)
      ensures Valid()
      ensures casePrizes == Shuffled(PrizeListOrdered, draws)
      ensures phase == 0 && picksNeeded == 0 && revealedSet == {} && dealerCallCount == 0
      ensures playerCaseIndex == None && originalPlayerIndex == None
      ensures !overlayVisible && !dealerOverlayOpen && !keepSwitchOpen && !winOverlayOpen
      ensures currentOfferText == NoOffer
    {
      casePrizes := [];
      playerCaseIndex := None;
      originalPlayerIndex := None;
      phase := 0;
      picksNeeded := 0;
      revealedSet := {};
      overlayVisible := false;
      dealerCallCount := 0;
      currentOfferText := NoOffer;
      dealerOverlayOpen := false;
      keepSwitchOpen := false;
      winOverlayOpen := false;
      new;
      InitGame(draws);
    }

    /** initGame: a freshly shuffled assignment and every other field back to its
        start value, from whatever state the game was in. */
    method InitGame(draws: seq<nat>)
      requires ValidDraws(draws, |PrizeListOrdered|)
      modifies this
      ensures Valid()
      ensures casePrizes == Shuffled(PrizeListOrdered, draws)
      ensures phase == 0 && picksNeeded == 0 && revealedSet == {} && dealerCallCount == 0
      ensures playerCaseIndex == None && originalPlayerIndex == None
      ensures !overlayVisible && !dealerOverlayOpen && !keepSwitchOpen && !winOverlayOpen
      ensures currentOfferText == old(currentOfferText)
    {
      var dealt := Shuffle.Shuffle(PrizeListOrdered, draws);
      Reset(dealt);
    }

    /** The start state over a given case assignment. */
    method Reset(dealt: seq<string>)
      requires |dealt| == NumCases
      modifies this
      ensures Valid() && casePrizes == dealt
      ensures phase == 0 && picksNeeded == 0 && revealedSet == {} && dealerCallCount == 0
      ensures playerCaseIndex == None && originalPlayerIndex == None
      ensures !overlayVisible && !dealerOverlayOpen && !keepSwitchOpen && !winOverlayOpen
      ensures currentOfferText == old(currentOfferText)
    {
      casePrizes := dealt;
      playerCaseIndex := None;
      originalPlayerIndex := None;
      phase := 0;
      picksNeeded := 0;
      revealedSet := {};
      overlayVisible := false;
      dealerCallCount := 0;
      keepSwitchOpen := false;
      dealerOverlayOpen := false;
      winOverlayOpen := false;
    }

    /** The state part of revealCaseWithAnimation: an opened case joins the
        revealed set; opening it again changes nothing. */
    method RevealCase(index: int)
      modifies this`revealedSet
      ensures revealedSet == old(revealedSet) + {index}
      ensures old(index in revealedSet) ==> revealedSet == old(revealedSet)
    {
      if index in revealedSet {
        return;
      }
      revealedSet := revealedSet + {index};
    }

    /** computeDealerOffer: collects the cases left, then sorts, drops the top
        rank and picks; `rand` is the Math.random() draw. */
    method ComputeDealerOffer(rand: real) returns (offer: string)
      requires |casePrizes| == NumCases && 0.0 <= rand < 1.0
      ensures offer == DealerOffer(casePrizes, playerCaseIndex, revealedSet, dealerCallCount,
                                   PickIndex(rand, |OfferCandidates(casePrizes, playerCaseIndex, revealedSet)|))
    {
      var pushed: seq<Entry> := [];
      for i := 0 to NumCases
        invariant pushed == Collected(casePrizes, playerCaseIndex, revealedSet, i)
      {
        if Some(i) != playerCaseIndex && i !in revealedSet {
          pushed := pushed + [Entry(casePrizes[i], IndexOf(PrizeListOrdered, casePrizes[i]))];
        }
      }
      var remaining := SortByRank(pushed);
      var j := PickIndex(rand, |Candidates(remaining)|);
      offer := OfferFrom(remaining, dealerCallCount, j);
    }

    /** showDealerOffer: locks the board, shows the dealer overlay and records the offer. */
    method ShowDealerOffer(rand: real)
      requires Valid() && (phase == 1 || phase == 2) && !winOverlayOpen && !keepSwitchOpen && 0.0 <= rand < 1.0
      modifies this`overlayVisible, this`dealerOverlayOpen, this`currentOfferText
      ensures Valid()
      ensures overlayVisible && dealerOverlayOpen
      ensures currentOfferText == DealerOffer(casePrizes, playerCaseIndex, revealedSet, dealerCallCount,
                                              PickIndex(rand, |OfferCandidates(casePrizes, playerCaseIndex, revealedSet)|))
    {
      var offer := ComputeDealerOffer(rand);
      OpenDealer(offer);
    }

    /** The board locks and the dealer overlay shows `offer`. */
    method OpenDealer(offer: string)
      requires Valid() && (phase == 1 || phase == 2) && !winOverlayOpen && !keepSwitchOpen
      modifies this`overlayVisible, this`dealerOverlayOpen, this`currentOfferText
      ensures Valid()
      ensures overlayVisible && dealerOverlayOpen && currentOfferText == offer
    {
      overlayVisible := true;
      currentOfferText := offer;
      dealerOverlayOpen := true;
    }

    /** onCaseClicked, run to completion: choose the player's case in phase 0,
        or open one more case in phases 1-3 and, when the quota runs out, call
        the dealer (phases 1 and 2) or move to the keep/switch decision (phase 3). */
    method CaseClicked(index: int, rand: real)
      requires Valid() && 0.0 <= rand < 1.0
      modifies this
      ensures Valid()
      ensures casePrizes == old(casePrizes) && winOverlayOpen == old(winOverlayOpen)
      ensures old(Ignores(index)) ==> unchanged(this)
      ensures !old(Ignores(index)) && old(phase) == 0 ==>
        playerCaseIndex == Some(index) && originalPlayerIndex == Some(index) &&
        phase == 1 && picksNeeded == 3 && revealedSet == old(revealedSet) &&
        dealerCallCount == old(dealerCallCount) && !overlayVisible &&
        !dealerOverlayOpen && !keepSwitchOpen && currentOfferText == old(currentOfferText)
      ensures !old(Ignores(index)) && 1 <= old(phase) <= 3 ==>
        revealedSet == old(revealedSet) + {index} && picksNeeded == old(picksNeeded) - 1 &&
        playerCaseIndex == old(playerCaseIndex) && originalPlayerIndex == old(originalPlayerIndex)
      ensures !old(Ignores(index)) && 1 <= old(phase) <= 3 && picksNeeded > 0 ==>
        phase == old(phase) && dealerCallCount == old(dealerCallCount) && !overlayVisible &&
        !dealerOverlayOpen && !keepSwitchOpen && currentOfferText == old(currentOfferText)
      ensures !old(Ignores(index)) && (old(phase) == 1 || old(phase) == 2) && picksNeeded <= 0 ==>
        phase == old(phase) && dealerCallCount == old(dealerCallCount) + 1 &&
        overlayVisible && dealerOverlayOpen && !keepSwitchOpen &&
        currentOfferText == DealerOffer(casePrizes, playerCaseIndex, revealedSet, dealerCallCount,
                                        PickIndex(rand, |OfferCandidates(casePrizes, playerCaseIndex, revealedSet)|))
      ensures !old(Ignores(index)) && old(phase) == 3 && picksNeeded <= 0 ==>
        phase == 4 && keepSwitchOpen && !overlayVisible && !dealerOverlayOpen &&
        dealerCallCount == old(dealerCallCount) && currentOfferText == old(currentOfferText)
    {
      if overlayVisible {
        return;
      }
      if !(0 <= index < NumCases) {
        return;
      }
      if index in revealedSet {
        return;
      }

      if phase == 0 {
        playerCaseIndex := Some(index);
        originalPlayerIndex := Some(index);
        phase := 1;
        picksNeeded := 3;
        return;
      }

      if 1 <= phase <= 3 {
        if Some(index) == playerCaseIndex {
          return;
        }
        OpenCase(index, rand);
      }
    }

    /** The phase 1-3 branch of onCaseClicked for a click it accepts: open the
        case, count it against the quota, and act when the quota runs out. */
    method OpenCase(index: int, rand: real)
      requires Valid() && 1 <= phase <= 3 && !Ignores(index) && 0.0 <= rand < 1.0
      modifies this
      ensures Valid()
      ensures casePrizes == old(casePrizes) && winOverlayOpen == old(winOverlayOpen)
      ensures revealedSet == old(revealedSet) + {index} && picksNeeded == old(picksNeeded) - 1
      ensures playerCaseIndex == old(playerCaseIndex) && originalPlayerIndex == old(originalPlayerIndex)
      ensures picksNeeded > 0 ==>
        phase == old(phase) && dealerCallCount == old(dealerCallCount) && !overlayVisible &&
        !dealerOverlayOpen && !keepSwitchOpen && currentOfferText == old(currentOfferText)
      ensures (old(phase) == 1 || old(phase) == 2) && picksNeeded <= 0 ==>
        phase == old(phase) && dealerCallCount == old(dealerCallCount) + 1 &&
        overlayVisible && dealerOverlayOpen && !keepSwitchOpen &&
        currentOfferText == DealerOffer(casePrizes, playerCaseIndex, revealedSet, dealerCallCount,
                                        PickIndex(rand, |OfferCandidates(casePrizes, playerCaseIndex, revealedSet)|))
      ensures old(phase) == 3 && picksNeeded <= 0 ==>
        phase == 4 && keepSwitchOpen && !overlayVisible && !dealerOverlayOpen &&
        dealerCallCount == old(dealerCallCount) && currentOfferText == old(currentOfferText)
    {
      overlayVisible := true;
      RevealCase(index);
      picksNeeded := picksNeeded - 1;
      overlayVisible := false;

      if picksNeeded > 0 {
        return;
      }
      QuotaUsedUp(rand);
    }

    /** The end of a picking phase: the dealer calls after phases 1 and 2, and
        the keep/switch decision follows phase 3. */
    method QuotaUsedUp(rand: real)
      requires Valid() && 1 <= phase <= 3 && !overlayVisible && 0.0 <= rand < 1.0
      modifies this
      ensures Valid()
      ensures casePrizes == old(casePrizes) && revealedSet == old(revealedSet) && picksNeeded == old(picksNeeded)
      ensures playerCaseIndex == old(playerCaseIndex) && originalPlayerIndex == old(originalPlayerIndex)
      ensures winOverlayOpen == old(winOverlayOpen)
      ensures old(phase) == 1 || old(phase) == 2 ==>
        phase == old(phase) && dealerCallCount == old(dealerCallCount) + 1 &&
        overlayVisible && dealerOverlayOpen && !keepSwitchOpen &&
        currentOfferText == DealerOffer(casePrizes, playerCaseIndex, revealedSet, dealerCallCount,
                                        PickIndex(rand, |OfferCandidates(casePrizes, playerCaseIndex, revealedSet)|))
      ensures old(phase) == 3 ==>
        phase == 4 && keepSwitchOpen && !overlayVisible && !dealerOverlayOpen &&
        dealerCallCount == old(dealerCallCount) && currentOfferText == old(currentOfferText)
    {
      if phase == 1 || phase == 2 {
        dealerCallCount := dealerCallCount + 1;
        ShowDealerOffer(rand);
      } else if phase == 3 {
        phase := 4;
        keepSwitchOpen := true;
      }
    }

    /** The no-deal button: hide the dealer, unlock the board, and start the next
        picking phase (phase 1 to 2 with two picks, phase 2 to 3 with one). */
    method NoDeal()
      requires Valid() && dealerOverlayOpen
      modifies this
      ensures Valid()
      ensures !dealerOverlayOpen && !overlayVisible
      ensures old(phase) == 1 ==> phase == 2 && picksNeeded == 2
      ensures old(phase) == 2 ==> phase == 3 && picksNeeded == 1
      ensures casePrizes == old(casePrizes) && revealedSet == old(revealedSet)
      ensures playerCaseIndex == old(playerCaseIndex) && originalPlayerIndex == old(originalPlayerIndex)
      ensures dealerCallCount == old(dealerCallCount) && currentOfferText == old(currentOfferText)
      ensures keepSwitchOpen == old(keepSwitchOpen) && winOverlayOpen == old(winOverlayOpen)
    {
      dealerOverlayOpen := false;
      overlayVisible := false;
      if phase == 1 {
        phase := 2;
        picksNeeded := 2;
      } else if phase == 2 {
        phase := 3;
        picksNeeded := 1;
      }
    }

    /** revealPlayerCaseForDeal: open the player's case (with the win cue) unless it is open. */
    method RevealPlayerCaseForDeal()
      requires Valid() && playerCaseIndex.Some?
      modifies this`revealedSet
      ensures Valid()
      ensures revealedSet == old(revealedSet) + {playerCaseIndex.value}
    {
      if playerCaseIndex.value !in revealedSet {
        RevealCase(playerCaseIndex.value);
      }
    }

    /** The deal button: hide the dealer, open the player's case, and show the
        win overlay with the offer. The phase and the quota stay as they are:
        there is no terminal phase after a deal. */
    method Deal() returns (prize: string)
      requires Valid() && dealerOverlayOpen
      modifies this
      ensures Valid()
      ensures prize == old(currentOfferText)
      ensures revealedSet == old(revealedSet) + {old(playerCaseIndex).value}
      ensures !dealerOverlayOpen && overlayVisible && winOverlayOpen
      ensures phase == old(phase) && picksNeeded == old(picksNeeded)
      ensures casePrizes == old(casePrizes) && dealerCallCount == old(dealerCallCount)
      ensures playerCaseIndex == old(playerCaseIndex) && originalPlayerIndex == old(originalPlayerIndex)
      ensures keepSwitchOpen == old(keepSwitchOpen) && currentOfferText == old(currentOfferText)
    {
      dealerOverlayOpen := false;
      overlayVisible := false;
      RevealPlayerCaseForDeal();
      prize := currentOfferText;
      overlayVisible := true;
      winOverlayOpen := true;
    }

    /** The win overlay's OK button: hide it and unlock the board. */
    method DismissWinOverlay()
      requires Valid() && winOverlayOpen
      modifies this`overlayVisible, this`winOverlayOpen
      ensures Valid()
      ensures !overlayVisible && !winOverlayOpen
    {
      winOverlayOpen := false;
      overlayVisible := false;
    }

    /** getFinalPrizeForDisplay: the prize of the current player index, or of the
        original one when there is none. */
    function FinalPrizeForDisplay(): (p: string)
      reads this
      requires Valid() && originalPlayerIndex.Some?
      ensures p == casePrizes[originalPlayerIndex.value]
    {
      casePrizes[DisplayedIndex(playerCaseIndex, originalPlayerIndex).value]
    }

    /** finalRevealSequence: open the other case, then the final one with the win
        cue, and report the final case's prize. `steps` lists the reveals made. */
    method FinalRevealSequence(switched: bool) returns (finalIndex: int, finalPrize: string, steps: seq<RevealStep>)
      requires Valid() && originalPlayerIndex.Some?
      modifies this`revealedSet
      ensures Valid()
      ensures finalIndex == FinalOutcome(originalPlayerIndex.value, old(revealedSet), switched).finalIndex
      ensures steps == RevealOrder(originalPlayerIndex.value, old(revealedSet), switched)
      ensures revealedSet == old(revealedSet) + OpenedBy(steps)
      ensures finalIndex in revealedSet
      ensures finalPrize == casePrizes[finalIndex]
    {
      var original := originalPlayerIndex.value;
      var outcome := FinalOutcome(original, revealedSet, switched);
      finalIndex := outcome.finalIndex;
      var first: seq<RevealStep> := [];
      if outcome.other.Some? {
        first := RevealIfClosed(outcome.other.value, false);
      }
      var last := RevealIfClosed(finalIndex, true);
      steps := first + last;
      OpenedByAppend(first, last);
      finalPrize := casePrizes[finalIndex];
    }

    /** One step of the final reveal: a case still closed is opened (with the win
        cue or without); an open one is skipped. `step` lists the reveal made. */
    method RevealIfClosed(index: int, cueWin: bool) returns (step: seq<RevealStep>)
      requires Valid() && originalPlayerIndex.Some? && 0 <= index < NumCases
      modifies this`revealedSet
      ensures Valid()
      ensures step == if index in old(revealedSet) then [] else [RevealStep(index, cueWin)]
      ensures revealedSet == old(revealedSet) + OpenedBy(step)
      ensures index in revealedSet
    {
      step := [];
      if index !in revealedSet {
        RevealCase(index);
        step := [RevealStep(index, cueWin)];
        OpenedByOne(step[0]);
      }
    }

    /** The keep and switch buttons: hide the choice, run the final reveal, then
        show the win overlay with getFinalPrizeForDisplay's prize. `announced` is
        the prize the final reveal reports; `shown` is the one the overlay shows. */
    method KeepOrSwitch(switched: bool) returns (finalIndex: int, announced: string, shown: string)
      requires Valid() && keepSwitchOpen
      modifies this
      ensures Valid()
      ensures finalIndex == FinalOutcome(old(originalPlayerIndex).value, old(revealedSet), switched).finalIndex
      ensures announced == casePrizes[finalIndex]
      ensures shown == casePrizes[old(originalPlayerIndex).value]
      ensures playerCaseIndex == old(playerCaseIndex) && originalPlayerIndex == old(originalPlayerIndex)
      ensures revealedSet == old(revealedSet) + OpenedBy(RevealOrder(old(originalPlayerIndex).value, old(revealedSet), switched))
      ensures !keepSwitchOpen && overlayVisible && winOverlayOpen
      ensures phase == old(phase) && picksNeeded == old(picksNeeded) && casePrizes == old(casePrizes)
      ensures dealerCallCount == old(dealerCallCount) && dealerOverlayOpen == old(dealerOverlayOpen)
      ensures currentOfferText == old(currentOfferText)
    {
      keepSwitchOpen := false;
      var steps;
      finalIndex, announced, steps := FinalRevealSequence(switched);
      shown := FinalPrizeForDisplay();
      overlayVisible := true;
      winOverlayOpen := true;
    }
  }

  /** After a switch to another closed case, the win overlay (which reads the
      unchanged player index) shows a different prize from the one the final
      reveal announces, since different cases hold different prizes. */
  lemma SwitchShowsOriginalPrize(casePrizes: seq<string>, original: int, revealed: set<int>)
    requires |casePrizes| == NumCases && Distinct(casePrizes) && 0 <= original < NumCases
    requires exists x :: Unopened(original, revealed, x)
    ensures var shown := DisplayedIndex(Some(original), Some(original)).value;
      var announced := FinalOutcome(original, revealed, true).finalIndex;
      shown == original && announced != original && casePrizes[shown] != casePrizes[announced]
  {
    FinalOutcomeChoice(original, revealed, true);
    var announced := FinalOutcome(original, revealed, true).finalIndex;
    if announced < original {
      assert casePrizes[announced] != casePrizes[original];
    } else {
      assert casePrizes[original] != casePrizes[announced];
    }
  }

  /** With no terminal phase after a deal, the board takes clicks again once the
      win overlay is dismissed: a click after a first-phase deal opens a fourth
      case, the quota drops to -1 and the dealer calls again in phase 1. */
  method QuotaAfterDealGoesNegative(draws: seq<nat>) returns (quota: int, phase: int, calls: nat)
    requires ValidDraws(draws, |PrizeListOrdered|)
    ensures quota == -1 && phase == 1 && calls == 2
  {
    var g := FirstRound(draws);
    var prize := g.Deal();
    g.DismissWinOverlay();
    assert !g.Ignores(4);
    g.CaseClicked(4, 0.0);
    quota, phase, calls := g.picksNeeded, g.phase, g.dealerCallCount;
  }

  /** A new game in which the player takes case 0 and opens cases 1, 2 and 3:
      the dealer makes the first offer. */
  method FirstRound(draws: seq<nat>) returns (g: Game)
    requires ValidDraws(draws, |PrizeListOrdered|)
    ensures fresh(g) && g.Valid()
    ensures g.phase == 1 && g.picksNeeded == 0 && g.dealerCallCount == 1 && g.dealerOverlayOpen
    ensures g.playerCaseIndex == Some(0) && g.revealedSet == {1, 2, 3}
  {
    g := new Game(draws);
    g.CaseClicked(0, 0.0);
    OpenThree(g);
  }

  /** Cases 1, 2 and 3 opened in phase 1 use up its quota and call the dealer. */
  method OpenThree(g: Game)
    requires g.Valid() && g.phase == 1 && g.picksNeeded == 3 && g.revealedSet == {}
    requires g.playerCaseIndex == Some(0) && !g.overlayVisible && g.dealerCallCount == 0
    modifies g
    ensures g.Valid()
    ensures g.phase == 1 && g.picksNeeded == 0 && g.dealerCallCount == 1 && g.dealerOverlayOpen
    ensures g.playerCaseIndex == Some(0) && g.revealedSet == {1, 2, 3}
  {
    g.CaseClicked(1, 0.0);
    g.CaseClicked(2, 0.0);
    g.CaseClicked(3, 0.0);
  }
}
