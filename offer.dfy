// The dealer's offer (script.js `computeDealerOffer`) as pure functions over
// the case assignment, the player's case and the opened cases, with the
// random pick among candidates as a parameter `j`.

module Offer {
  import opened Common
  import opened Prizes

  /** One row of the dealer's working list: a prize and its rank in the table. */
  datatype Entry = Entry(p: string, idx: int)

  /** Case `i` can still be offered from: it is not the player's and not opened. */
  predicate Eligible(player: Option<int>, revealed: set<int>, i: int) {
    player != Some(i) && i !in revealed
  }

  /** The list the offer loop pushes, for the cases 0..n-1, in case order. */
  function Collected(casePrizes: seq<string>, player: Option<int>, revealed: set<int>, n: nat): (r: seq<Entry>)
    requires n <= |casePrizes|
  {
    if n == 0 then []
    else
      Collected(casePrizes, player, revealed, n - 1)
      + (if Eligible(player, revealed, n - 1) then [Entry(casePrizes[n - 1], Rank(casePrizes[n - 1]))] else [])
  }

  predicate SortedByRank(s: seq<Entry>) {
    forall a, b :: 0 <= a < b < |s| ==> s[a].idx <= s[b].idx
  }

  predicate StrictlyRanked(s: seq<Entry>) {
    forall a, b :: 0 <= a < b < |s| ==> s[a].idx < s[b].idx
  }

  /** Puts `e` before the first entry of `s` whose rank is not below its own. */
  function InsertByRank(e: Entry, s: seq<Entry>): (r: seq<Entry>)
    ensures multiset(r) == multiset(s) + multiset{e}
  {
    if s == [] || e.idx <= s[0].idx then [e] + s
    else
      assert s == [s[0]] + s[1..];
      [s[0]] + InsertByRank(e, s[1..])
  }

  lemma {:induction false} InsertSorted(e: Entry, s: seq<Entry>)
    requires SortedByRank(s)
    ensures SortedByRank(InsertByRank(e, s))
  {
    if s == [] || e.idx <= s[0].idx {
      SortedCons(e, s);
    } else {
      var t := s[1..];
      var rest := InsertByRank(e, t);
      SortedCons(s[0], t);
      InsertSorted(e, t);
      forall k | 0 <= k < |rest| ensures s[0].idx <= rest[k].idx {
        assert rest[k] in multiset(t) + multiset{e};
      }
      SortedCons(s[0], rest);
      assert InsertByRank(e, s) == [s[0]] + rest;
    }
  }

  /** A sorted list with an entry in front is sorted exactly when that entry
      ranks no higher than the list's entries. */
  lemma SortedCons(x: Entry, t: seq<Entry>)
    ensures SortedByRank([x] + t) <==> SortedByRank(t) && forall k :: 0 <= k < |t| ==> x.idx <= t[k].idx
  {
    var s := [x] + t;
    if SortedByRank(t) && forall k :: 0 <= k < |t| ==> x.idx <= t[k].idx {
      forall a, b | 0 <= a < b < |s| ensures s[a].idx <= s[b].idx {
        assert s[b] == t[b - 1];
        if a == 0 {
          assert x.idx <= t[b - 1].idx;
        } else {
          assert s[a] == t[a - 1];
        }
      }
    }
    if SortedByRank(s) {
      forall k | 0 <= k < |t| ensures x.idx <= t[k].idx {
        assert s[0] == x && s[k + 1] == t[k];
        assert s[0].idx <= s[k + 1].idx;
      }
      forall a, b | 0 <= a < b < |t| ensures t[a].idx <= t[b].idx {
        assert s[a + 1] == t[a] && s[b + 1] == t[b];
      }
    }
  }

  /** Array.prototype.sort by ascending rank (a stable insertion sort). */
  function SortByRank(s: seq<Entry>): (r: seq<Entry>)
    ensures multiset(r) == multiset(s)
    ensures SortedByRank(r)
  {
    if s == [] then []
    else
      assert s == [s[0]] + s[1..];
      var rest := SortByRank(s[1..]);
      InsertSorted(s[0], rest);
      InsertByRank(s[0], rest)
  }

  /** Math.max over the ranks of a non-empty list. */
  function MaxRank(s: seq<Entry>): (h: int)
    requires s != []
    ensures forall k :: 0 <= k < |s| ==> s[k].idx <= h
    ensures exists k :: 0 <= k < |s| && s[k].idx == h
  {
    if |s| == 1 then s[0].idx
    else
      var m := MaxRank(s[1..]);
      if s[0].idx >= m then s[0].idx else m
  }

  /** The remaining cases, sorted by rank. */
  function Remaining(casePrizes: seq<string>, player: Option<int>, revealed: set<int>): seq<Entry>
    requires |casePrizes| == NumCases
  {
    SortByRank(Collected(casePrizes, player, revealed, |casePrizes|))
  }

  /** The remaining entries whose rank is not the highest remaining rank. */
  function NonHighest(remaining: seq<Entry>): seq<Entry> {
    if remaining == [] then []
    else
      var highest := MaxRank(remaining);
      Filter(remaining, (e: Entry) => e.idx != highest)
  }

  /** The non-highest list keeps exactly the entries below the top rank. */
  lemma NonHighestMembers(remaining: seq<Entry>, e: Entry)
    requires remaining != []
    ensures e in NonHighest(remaining) <==> e in remaining && e.idx < MaxRank(remaining)
  {
  }

  /** The entries the random pick chooses from: the offerable non-highest ones,
      else all non-highest ones, else everything remaining. */
  function Candidates(remaining: seq<Entry>): (c: seq<Entry>)
    ensures remaining != [] ==> c != []
  {
    var nonHighest := NonHighest(remaining);
    var matching := Filter(nonHighest, (e: Entry) => IsOfferable(e.p));
    if |matching| > 0 then matching
    else if |nonHighest| > 0 then nonHighest
    else remaining
  }

  /** The offer made from the sorted remaining list on the given dealer call,
      with `j` the random candidate index; an index past the candidates reads as
      JavaScript's `undefined` and falls back to the lowest remaining prize. */
  function OfferFrom(remaining: seq<Entry>, callCount: int, j: nat): (offer: string)
    ensures remaining == [] ==> offer == NoOffer
  {
    if |remaining| == 0 then NoOffer
    else if callCount == 2 then
      var nonHighest := NonHighest(remaining);
      var arr := if |nonHighest| > 0 then nonHighest else remaining;
      arr[(|arr| - 1) / 2].p
    else
      var candidates := Candidates(remaining);
      if j < |candidates| then candidates[j].p
      else remaining[0].p
  }

  /** computeDealerOffer on the current state: "No Offer" when every case is the
      player's or opened. */
  function DealerOffer(casePrizes: seq<string>, player: Option<int>, revealed: set<int>, callCount: int, j: nat): (offer: string)
    requires |casePrizes| == NumCases
    ensures (forall i :: 0 <= i < NumCases ==> !Eligible(player, revealed, i)) ==> offer == NoOffer
  {
    RemainingEmptyIff(casePrizes, player, revealed);
    OfferFrom(Remaining(casePrizes, player, revealed), callCount, j)
  }

  function OfferCandidates(casePrizes: seq<string>, player: Option<int>, revealed: set<int>): seq<Entry>
    requires |casePrizes| == NumCases
  {
    Candidates(Remaining(casePrizes, player, revealed))
  }

  /** Math.floor(Math.random() * n) for a draw `rand` in [0, 1), on exact reals. */
  function PickIndex(rand: real, n: nat): (j: nat)
    requires 0.0 <= rand < 1.0
    ensures n > 0 ==> j < n
  {
    ScaledDrawBounds(rand, n);
    (rand * n as real).Floor
  }

  /** A draw in [0, 1) scaled by n lies in [0, n). */
  lemma {:induction false} ScaledDrawBounds(rand: real, n: nat)
    requires 0.0 <= rand < 1.0
    ensures 0.0 <= rand * n as real
    ensures n > 0 ==> rand * n as real < n as real
  {
    if n > 0 {
      ScaledDrawBounds(rand, n - 1);
      assert rand * n as real == rand * (n - 1) as real + rand;
    }
  }

  // ---------------------------------------------------------------------------
  // Facts about the collected list

  lemma CollectedMembers(casePrizes: seq<string>, player: Option<int>, revealed: set<int>, n: nat, e: Entry)
    requires n <= |casePrizes|
    ensures e in Collected(casePrizes, player, revealed, n) <==>
      exists i :: 0 <= i < n && Eligible(player, revealed, i) && e == Entry(casePrizes[i], Rank(casePrizes[i]))
  {
    if e in Collected(casePrizes, player, revealed, n) {
      var i := CollectedFrom(casePrizes, player, revealed, n, e);
    }
    if exists i :: 0 <= i < n && Eligible(player, revealed, i) && e == Entry(casePrizes[i], Rank(casePrizes[i])) {
      var i :| 0 <= i < n && Eligible(player, revealed, i) && e == Entry(casePrizes[i], Rank(casePrizes[i]));
      CollectedHas(casePrizes, player, revealed, n, i);
    }
  }

  /** An entry of the collected list comes from some eligible case before `n`. */
  lemma {:induction false} CollectedFrom(casePrizes: seq<string>, player: Option<int>, revealed: set<int>, n: nat, e: Entry)
    returns (i: nat)
    requires n <= |casePrizes| && e in Collected(casePrizes, player, revealed, n)
    ensures i < n && Eligible(player, revealed, i) && e == Entry(casePrizes[i], Rank(casePrizes[i]))
  {
    var before := Collected(casePrizes, player, revealed, n - 1);
    if e in before {
      i := CollectedFrom(casePrizes, player, revealed, n - 1, e);
    } else {
      i := n - 1;
    }
  }

  /** Every eligible case before `n` has its entry in the collected list. */
  lemma {:induction false} CollectedHas(casePrizes: seq<string>, player: Option<int>, revealed: set<int>, n: nat, i: nat)
    requires i < n <= |casePrizes| && Eligible(player, revealed, i)
    ensures Entry(casePrizes[i], Rank(casePrizes[i])) in Collected(casePrizes, player, revealed, n)
  {
    var before := Collected(casePrizes, player, revealed, n - 1);
    var last := if Eligible(player, revealed, n - 1) then [Entry(casePrizes[n - 1], Rank(casePrizes[n - 1]))] else [];
    assert Collected(casePrizes, player, revealed, n) == before + last;
    if i < n - 1 {
      CollectedHas(casePrizes, player, revealed, n - 1, i);
    } else {
      assert last[0] == Entry(casePrizes[i], Rank(casePrizes[i]));
    }
  }

  lemma {:induction false} CollectedDistinct(casePrizes: seq<string>, player: Option<int>, revealed: set<int>, n: nat)
    requires n <= |casePrizes| && Distinct(casePrizes)
    ensures Distinct(Collected(casePrizes, player, revealed, n))
  {
    if n > 0 {
      var before := Collected(casePrizes, player, revealed, n - 1);
      CollectedDistinct(casePrizes, player, revealed, n - 1);
      if Eligible(player, revealed, n - 1) {
        var x := Entry(casePrizes[n - 1], Rank(casePrizes[n - 1]));
        LaterCaseNotCollected(casePrizes, player, revealed, n - 1);
        DistinctAppend(before, x);
        assert Collected(casePrizes, player, revealed, n) == before + [x];
      }
    }
  }

  /** With no prize on two cases, case m's entry is not among those of the cases before it. */
  lemma LaterCaseNotCollected(casePrizes: seq<string>, player: Option<int>, revealed: set<int>, m: nat)
    requires m < |casePrizes| && Distinct(casePrizes)
    ensures Entry(casePrizes[m], Rank(casePrizes[m])) !in Collected(casePrizes, player, revealed, m)
  {
    var x := Entry(casePrizes[m], Rank(casePrizes[m]));
    CollectedMembers(casePrizes, player, revealed, m, x);
    forall i | 0 <= i < m ensures x != Entry(casePrizes[i], Rank(casePrizes[i])) {
      assert casePrizes[i] != casePrizes[m];
    }
  }

  /** Every remaining entry is an eligible case's prize with its rank, and every
      eligible case is in the remaining list. */
  lemma RemainingMembers(casePrizes: seq<string>, player: Option<int>, revealed: set<int>, e: Entry)
    requires |casePrizes| == NumCases
    ensures e in Remaining(casePrizes, player, revealed) <==>
      exists i :: 0 <= i < NumCases && Eligible(player, revealed, i) && e == Entry(casePrizes[i], Rank(casePrizes[i]))
  {
    var c := Collected(casePrizes, player, revealed, |casePrizes|);
    CollectedMembers(casePrizes, player, revealed, |casePrizes|, e);
    assert e in Remaining(casePrizes, player, revealed) <==> e in multiset(c);
  }

  lemma RemainingEmptyIff(casePrizes: seq<string>, player: Option<int>, revealed: set<int>)
    requires |casePrizes| == NumCases
    ensures Remaining(casePrizes, player, revealed) == [] <==>
      forall i :: 0 <= i < NumCases ==> !Eligible(player, revealed, i)
  {
    var r := Remaining(casePrizes, player, revealed);
    if r != [] {
      RemainingMembers(casePrizes, player, revealed, r[0]);
      var i :| 0 <= i < NumCases && Eligible(player, revealed, i) && r[0] == Entry(casePrizes[i], Rank(casePrizes[i]));
    } else {
      forall i | 0 <= i < NumCases ensures !Eligible(player, revealed, i) {
        RemainingMembers(casePrizes, player, revealed, Entry(casePrizes[i], Rank(casePrizes[i])));
      }
    }
  }

  /** The entry whose prize the offer names: a remaining one, and a non-highest one
      whenever there is such a one, except on the fallback for a pick past the candidates. */
  lemma OfferEntry(remaining: seq<Entry>, callCount: int, j: nat) returns (e: Entry)
    requires remaining != []
    ensures e in remaining && OfferFrom(remaining, callCount, j) == e.p
    ensures NonHighest(remaining) != [] ==>
      e in NonHighest(remaining) || (callCount != 2 && j >= |Candidates(remaining)| && e == remaining[0])
  {
    var nonHighest := NonHighest(remaining);
    if callCount == 2 {
      var arr := if |nonHighest| > 0 then nonHighest else remaining;
      e := arr[(|arr| - 1) / 2];
      assert e in arr;
    } else {
      var candidates := Candidates(remaining);
      if j < |candidates| {
        e := candidates[j];
        assert e in candidates;
      } else {
        e := remaining[0];
      }
    }
  }

  // ---------------------------------------------------------------------------
  // What the source promises about the offer

  /** "No Offer" comes back exactly when every case is the player's or opened. */
  lemma NoOfferExactlyWhenNoCaseLeft(casePrizes: seq<string>, player: Option<int>, revealed: set<int>, callCount: int, j: nat)
    requires WellRanked(casePrizes)
    ensures DealerOffer(casePrizes, player, revealed, callCount, j) == NoOffer <==>
      forall i :: 0 <= i < NumCases ==> !Eligible(player, revealed, i)
  {
    var r := Remaining(casePrizes, player, revealed);
    RemainingEmptyIff(casePrizes, player, revealed);
    if r != [] {
      var e := OfferEntry(r, callCount, j);
      RemainingMembers(casePrizes, player, revealed, e);
      var i :| 0 <= i < NumCases && Eligible(player, revealed, i) && e == Entry(casePrizes[i], Rank(casePrizes[i]));
      assert casePrizes[i] != NoOffer;
    }
  }

  /** Whenever some case is left, the offer is the prize in one of the cases left. */
  lemma OfferIsAnEligibleCasePrize(casePrizes: seq<string>, player: Option<int>, revealed: set<int>, callCount: int, j: nat)
    requires |casePrizes| == NumCases
    requires exists i :: 0 <= i < NumCases && Eligible(player, revealed, i)
    ensures exists i :: (0 <= i < NumCases && Eligible(player, revealed, i) &&
      DealerOffer(casePrizes, player, revealed, callCount, j) == casePrizes[i])
  {
    var r := Remaining(casePrizes, player, revealed);
    RemainingEmptyIff(casePrizes, player, revealed);
    var e := OfferEntry(r, callCount, j);
    RemainingMembers(casePrizes, player, revealed, e);
  }

  /** With two or more cases left, some case left holds a prize ranked above the offer:
      the dealer never offers the best prize still on the board. */
  lemma OfferNeverTheHighestRemaining(casePrizes: seq<string>, player: Option<int>, revealed: set<int>, callCount: int, j: nat)
    requires WellRanked(casePrizes)
    requires exists a, b :: 0 <= a < b < NumCases && Eligible(player, revealed, a) && Eligible(player, revealed, b)
    ensures exists i :: (0 <= i < NumCases && Eligible(player, revealed, i) &&
      Rank(DealerOffer(casePrizes, player, revealed, callCount, j)) < Rank(casePrizes[i]))
  {
    var r := Remaining(casePrizes, player, revealed);
    var a, b :| 0 <= a < b < NumCases && Eligible(player, revealed, a) && Eligible(player, revealed, b);
    var xa := Entry(casePrizes[a], Rank(casePrizes[a]));
    var xb := Entry(casePrizes[b], Rank(casePrizes[b]));
    RemainingMembers(casePrizes, player, revealed, xa);
    RemainingMembers(casePrizes, player, revealed, xb);
    var y := if xa.idx != MaxRank(r) then xa else xb;
    assert y in NonHighest(r);
    var e := OfferBelowTop(r, callCount, j, y);
    RemainingMembers(casePrizes, player, revealed, e);
    var kh :| 0 <= kh < |r| && r[kh].idx == MaxRank(r);
    RemainingMembers(casePrizes, player, revealed, r[kh]);
  }

  /** On a sorted list with a non-highest entry, the offer's entry ranks below the top. */
  lemma OfferBelowTop(r: seq<Entry>, callCount: int, j: nat, y: Entry) returns (e: Entry)
    requires SortedByRank(r) && y in NonHighest(r)
    ensures e in r && OfferFrom(r, callCount, j) == e.p && e.idx < MaxRank(r)
  {
    e := OfferEntry(r, callCount, j);
    if e != r[0] {
      assert e in NonHighest(r);
    } else {
      var ky :| 0 <= ky < |r| && r[ky] == y;
      assert r[0].idx <= r[ky].idx;
    }
  }

  /** Outside the second call, when a case left holds an offerable prize that is not
      the best one left, and the pick lands among the candidates, the offer is offerable. */
  lemma OfferIsOfferableWhenPossible(casePrizes: seq<string>, player: Option<int>, revealed: set<int>, callCount: int, j: nat)
    requires |casePrizes| == NumCases && callCount != 2
    requires exists a, b :: (0 <= a < NumCases && 0 <= b < NumCases && Eligible(player, revealed, a) &&
      Eligible(player, revealed, b) && Rank(casePrizes[a]) < Rank(casePrizes[b]) && IsOfferable(casePrizes[a]))
    requires j < |OfferCandidates(casePrizes, player, revealed)|
    ensures IsOfferable(DealerOffer(casePrizes, player, revealed, callCount, j))
  {
    var r := Remaining(casePrizes, player, revealed);
    var a, b :| 0 <= a < NumCases && 0 <= b < NumCases && Eligible(player, revealed, a) &&
      Eligible(player, revealed, b) && Rank(casePrizes[a]) < Rank(casePrizes[b]) && IsOfferable(casePrizes[a]);
    var xa := Entry(casePrizes[a], Rank(casePrizes[a]));
    var xb := Entry(casePrizes[b], Rank(casePrizes[b]));
    RemainingMembers(casePrizes, player, revealed, xa);
    RemainingMembers(casePrizes, player, revealed, xb);
    var h := MaxRank(r);
    var kb :| 0 <= kb < |r| && r[kb] == xb;
    assert xa.idx < h;
    var nonHighest := NonHighest(r);
    assert xa in nonHighest;
    var matching := Filter(nonHighest, (e: Entry) => IsOfferable(e.p));
    assert xa in matching;
    var c := Candidates(r);
    assert c == matching;
    assert c[j] in matching;
  }

  // ---------------------------------------------------------------------------
  // The second call's "median" offer

  /** How many entries rank below `r`. */
  function CountBelow(s: seq<Entry>, r: int): nat {
    if s == [] then 0 else (if s[0].idx < r then 1 else 0) + CountBelow(s[1..], r)
  }

  /** How many entries rank above `r`. */
  function CountAbove(s: seq<Entry>, r: int): nat {
    if s == [] then 0 else (if s[0].idx > r then 1 else 0) + CountAbove(s[1..], r)
  }

  /** In a strictly ranked list, the entry at position m has m entries below it
      and the rest above it. */
  lemma {:induction false} StrictPositionCounts(s: seq<Entry>, m: nat)
    requires StrictlyRanked(s) && m < |s|
    ensures CountBelow(s, s[m].idx) == m
    ensures CountAbove(s, s[m].idx) == |s| - 1 - m
  {
    if m == 0 {
      NoneBelowOrAboveFirst(s);
    } else {
      StrictSlice(s, 1, |s|);
      StrictPositionCounts(s[1..], m - 1);
      assert s[1..][m - 1] == s[m];
    }
  }

  lemma {:induction false} NoneBelowOrAboveFirst(s: seq<Entry>)
    requires StrictlyRanked(s) && s != []
    ensures CountBelow(s, s[0].idx) == 0
    ensures CountAbove(s, s[0].idx) == |s| - 1
  {
    var t := s[1..];
    var r := s[0].idx;
    AllAbove(t, r);
  }

  lemma {:induction false} AllAbove(t: seq<Entry>, r: int)
    requires forall k :: 0 <= k < |t| ==> t[k].idx > r
    ensures CountBelow(t, r) == 0 && CountAbove(t, r) == |t|
  {
    if t != [] {
      AllAbove(t[1..], r);
    }
  }

  /** Two different entries of the remaining list have different ranks. */
  lemma RanksTellRemainingApart(casePrizes: seq<string>, player: Option<int>, revealed: set<int>, x: Entry, y: Entry)
    requires WellRanked(casePrizes)
    requires x in Remaining(casePrizes, player, revealed) && y in Remaining(casePrizes, player, revealed)
    ensures x != y ==> x.idx != y.idx
  {
    RemainingMembers(casePrizes, player, revealed, x);
    RemainingMembers(casePrizes, player, revealed, y);
    var ix :| 0 <= ix < NumCases && Eligible(player, revealed, ix) && x == Entry(casePrizes[ix], Rank(casePrizes[ix]));
    var iy :| 0 <= iy < NumCases && Eligible(player, revealed, iy) && y == Entry(casePrizes[iy], Rank(casePrizes[iy]));
  }

  /** Ranks of the cases left are all different, so the sorted list rises strictly. */
  lemma RemainingStrictlyRanked(casePrizes: seq<string>, player: Option<int>, revealed: set<int>)
    requires WellRanked(casePrizes)
    ensures StrictlyRanked(Remaining(casePrizes, player, revealed))
  {
    WellRankedDistinct(casePrizes);
    var c := Collected(casePrizes, player, revealed, |casePrizes|);
    var r := Remaining(casePrizes, player, revealed);
    CollectedDistinct(casePrizes, player, revealed, |casePrizes|);
    DistinctPermutation(c, r);
    forall a, b | 0 <= a < b < |r| ensures r[a].idx < r[b].idx {
      RanksTellRemainingApart(casePrizes, player, revealed, r[a], r[b]);
    }
  }

  /** Two cases left give at least two entries in the remaining list. */
  lemma TwoCasesLeft(casePrizes: seq<string>, player: Option<int>, revealed: set<int>, a: int, b: int)
    requires WellRanked(casePrizes)
    requires 0 <= a < b < NumCases && Eligible(player, revealed, a) && Eligible(player, revealed, b)
    ensures |Remaining(casePrizes, player, revealed)| >= 2
  {
    var xa := Entry(casePrizes[a], Rank(casePrizes[a]));
    var xb := Entry(casePrizes[b], Rank(casePrizes[b]));
    RemainingMembers(casePrizes, player, revealed, xa);
    RemainingMembers(casePrizes, player, revealed, xb);
    TwoMembers(Remaining(casePrizes, player, revealed), xa, xb);
  }

  lemma TwoMembers(r: seq<Entry>, x: Entry, y: Entry)
    requires x in r && y in r && x != y
    ensures |r| >= 2
  {
  }

  /** Dropping the top rank from a strictly ranked list drops exactly its last entry. */
  lemma NonHighestOfStrict(r: seq<Entry>)
    requires StrictlyRanked(r) && r != []
    ensures NonHighest(r) == r[..|r| - 1]
  {
    var h := MaxRank(r);
    var k :| 0 <= k < |r| && r[k].idx == h;
    assert r[k].idx <= r[|r| - 1].idx;
    assert r[|r| - 1].idx <= h;
    FilterBelowLast(r, h, (e: Entry) => e.idx != h);
  }

  lemma {:induction false} FilterBelowLast(s: seq<Entry>, h: int, keep: Entry -> bool)
    requires StrictlyRanked(s) && s != [] && s[|s| - 1].idx == h
    requires forall e :: keep(e) == (e.idx != h)
    ensures Filter(s, keep) == s[..|s| - 1]
  {
    var t := s[1..];
    if |s| == 1 {
      assert !keep(s[0]);
      FilterDrop(s, keep);
    } else {
      StrictSlice(s, 1, |s|);
      FilterBelowLast(t, h, keep);
      assert s[0].idx < s[|s| - 1].idx;
      FilterKeep(s, keep);
      DropLastOfTail(s);
    }
  }

  lemma DropLastOfTail(s: seq<Entry>)
    requires |s| >= 2
    ensures s[..|s| - 1] == [s[0]] + s[1..][..|s| - 2]
  {
  }

  /** A slice of a strictly ranked list is strictly ranked. */
  lemma StrictSlice(s: seq<Entry>, lo: nat, hi: nat)
    requires StrictlyRanked(s) && lo <= hi <= |s|
    ensures StrictlyRanked(s[lo..hi])
  {
    var t := s[lo..hi];
    forall a, b | 0 <= a < b < |t| ensures t[a].idx < t[b].idx {
      assert t[a] == s[lo + a] && t[b] == s[lo + b];
    }
  }

  /** On the second call the offer names the middle entry of the non-highest list,
      when that list is not empty. */
  lemma SecondCallTakesMiddle(r: seq<Entry>, j: nat)
    requires NonHighest(r) != []
    ensures OfferFrom(r, 2, j) == NonHighest(r)[(|NonHighest(r)| - 1) / 2].p
  {
  }

  /** On the second dealer call with at least two cases left, the offer is the lower
      median of the cases left without the best one: among them, (k-1)/2 rank below
      the offer and k/2 above it, where k = |nonHighest| is one less than the cases left. */
  lemma SecondOfferIsLowerMedian(casePrizes: seq<string>, player: Option<int>, revealed: set<int>, j: nat)
    requires WellRanked(casePrizes)
    requires exists a, b :: 0 <= a < b < NumCases && Eligible(player, revealed, a) && Eligible(player, revealed, b)
    ensures var r := Remaining(casePrizes, player, revealed);
      var nonHighest := NonHighest(r);
      var offer := Rank(DealerOffer(casePrizes, player, revealed, 2, j));
      |nonHighest| == |r| - 1 > 0 &&
      CountBelow(nonHighest, offer) == (|nonHighest| - 1) / 2 &&
      CountAbove(nonHighest, offer) == |nonHighest| / 2
  {
    var r := Remaining(casePrizes, player, revealed);
    var a, b :| 0 <= a < b < NumCases && Eligible(player, revealed, a) && Eligible(player, revealed, b);
    TwoCasesLeft(casePrizes, player, revealed, a, b);
    RemainingStrictlyRanked(casePrizes, player, revealed);
    var e := MedianOfStrict(r, j);
    RemainingEntryRank(casePrizes, player, revealed, e);
  }

  /** A remaining entry carries its prize's rank. */
  lemma RemainingEntryRank(casePrizes: seq<string>, player: Option<int>, revealed: set<int>, e: Entry)
    requires |casePrizes| == NumCases && e in Remaining(casePrizes, player, revealed)
    ensures e.idx == Rank(e.p)
  {
    RemainingMembers(casePrizes, player, revealed, e);
  }

  /** The list-level half: on a strictly ranked list of two or more, the second
      call's offer names the entry with (k-1)/2 non-highest entries below it. */
  lemma MedianOfStrict(r: seq<Entry>, j: nat) returns (e: Entry)
    requires StrictlyRanked(r) && |r| >= 2
    ensures e in r && OfferFrom(r, 2, j) == e.p
    ensures var nonHighest := NonHighest(r);
      |nonHighest| == |r| - 1 &&
      CountBelow(nonHighest, e.idx) == (|nonHighest| - 1) / 2 &&
      CountAbove(nonHighest, e.idx) == |nonHighest| / 2
  {
    e := r[(|r| - 2) / 2];
    MedianIsOffered(r, j);
    MedianCounts(r);
  }

  /** On the second call the offer names entry (|r|-2)/2, the middle of the list
      without its top entry. */
  lemma MedianIsOffered(r: seq<Entry>, j: nat)
    requires StrictlyRanked(r) && |r| >= 2
    ensures OfferFrom(r, 2, j) == r[(|r| - 2) / 2].p
  {
    NonHighestOfStrict(r);
    SecondCallTakesMiddle(r, j);
  }

  /** Entry (|r|-2)/2 of a strictly ranked list has (k-1)/2 of the k non-highest
      entries below it and k/2 above it. */
  lemma MedianCounts(r: seq<Entry>)
    requires StrictlyRanked(r) && |r| >= 2
    ensures var nonHighest := NonHighest(r);
      var e := r[(|r| - 2) / 2];
      |nonHighest| == |r| - 1 &&
      CountBelow(nonHighest, e.idx) == (|nonHighest| - 1) / 2 &&
      CountAbove(nonHighest, e.idx) == |nonHighest| / 2
  {
    NonHighestOfStrict(r);
    var nonHighest := r[..|r| - 1];
    var m := (|r| - 2) / 2;
    assert nonHighest[m] == r[m];
    StrictSlice(r, 0, |r| - 1);
    StrictPositionCounts(nonHighest, m);
  }
}
