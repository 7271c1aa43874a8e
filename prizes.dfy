// The fixed prize table, ranks, and the text test the dealer uses to pick
// "mid-tier" prizes.

module Prizes {
  import opened Common

  /** The prize labels in ascending order of value; a prize's rank is its position. */
  const PrizeListOrdered: seq<string> := [
    ".01",
    "Sticker",
    "T-shirt",
    "Signed poster",
    "Luigi's gift card",
    "Women's basketball tickets",
    "JBL Go 4",
    "Ninja Creami"
  ]

  /** Lower-case fragments; a prize whose lower-cased label contains one may be offered. */
  const AllowedOfferPrizes: seq<string> := ["t-shirt", "signed poster", "luigi", "women", "womens"]

  /** The board always has eight cases, numbered 0..7. */
  const NumCases: nat := 8

  /** What the dealer says when no case is left to make an offer from. */
  const NoOffer: string := "No Offer"

  /** Position of the first occurrence of `x` in `s`, or -1 (Array.prototype.indexOf). */
  function IndexOf(s: seq<string>, x: string): int {
    if s == [] then -1
    else if s[0] == x then 0
    else
      var k := IndexOf(s[1..], x);
      if k == -1 then -1 else k + 1
  }

  /** `indexOf` gives -1 exactly when `x` is absent, and otherwise the position of
      its first occurrence. */
  lemma {:induction false} IndexOfSpec(s: seq<string>, x: string)
    ensures -1 <= IndexOf(s, x) < |s|
    ensures IndexOf(s, x) == -1 <==> x !in s
    ensures 0 <= IndexOf(s, x) ==> s[IndexOf(s, x)] == x && forall k :: 0 <= k < IndexOf(s, x) ==> s[k] != x
  {
    if s != [] && s[0] != x {
      IndexOfSpec(s[1..], x);
      assert x in s <==> x in s[1..];
      forall k | 0 <= k < IndexOf(s, x) ensures s[k] != x {
        if k > 0 {
          assert s[k] == s[1..][k - 1];
        }
      }
    }
  }

  /** Rank of a prize label in the table (-1 for a label not in it). */
  function Rank(p: string): int {
    IndexOf(PrizeListOrdered, p)
  }

  /** A case assignment: the eight table prizes, each on exactly one case. */
  predicate IsCaseAssignment(casePrizes: seq<string>) {
    |casePrizes| == NumCases && multiset(casePrizes) == multiset(PrizeListOrdered)
  }

  lemma TableDistinct()
    ensures |PrizeListOrdered| == NumCases && Distinct(PrizeListOrdered)
    ensures NoOffer !in PrizeListOrdered
  {
  }

  /** What the dealer's reasoning needs of the cases: eight prizes, each with a
      rank in the table, no two with the same rank, and none reading "No Offer". */
  predicate WellRanked(casePrizes: seq<string>) {
    |casePrizes| == NumCases &&
    (forall k :: 0 <= k < NumCases ==> 0 <= Rank(casePrizes[k])) &&
    (forall a, b :: 0 <= a < NumCases && 0 <= b < NumCases && a != b ==> Rank(casePrizes[a]) != Rank(casePrizes[b])) &&
    NoOffer !in casePrizes
  }

  /** In a case assignment no prize is on two cases, and the cases are well ranked. */
  lemma AssignmentFacts(casePrizes: seq<string>)
    requires IsCaseAssignment(casePrizes)
    ensures Distinct(casePrizes) && WellRanked(casePrizes)
  {
    TableDistinct();
    DistinctPermutation(PrizeListOrdered, casePrizes);
    TablePrizesOnly(casePrizes);
    RanksOfTablePrizes(casePrizes);
  }

  /** Every case of an assignment holds a table prize. */
  lemma TablePrizesOnly(casePrizes: seq<string>)
    requires IsCaseAssignment(casePrizes)
    ensures forall k :: 0 <= k < |casePrizes| ==> casePrizes[k] in PrizeListOrdered
  {
    forall k | 0 <= k < |casePrizes| ensures casePrizes[k] in PrizeListOrdered {
      assert casePrizes[k] in multiset(casePrizes);
    }
  }

  /** Eight different table prizes are well ranked. */
  lemma RanksOfTablePrizes(casePrizes: seq<string>)
    requires |casePrizes| == NumCases && Distinct(casePrizes)
    requires forall k :: 0 <= k < |casePrizes| ==> casePrizes[k] in PrizeListOrdered
    ensures WellRanked(casePrizes)
  {
    TableDistinct();
    forall k | 0 <= k < NumCases ensures 0 <= Rank(casePrizes[k]) {
      RankOfTablePrize(casePrizes[k]);
    }
    forall a, b | 0 <= a < NumCases && 0 <= b < NumCases && a != b
      ensures Rank(casePrizes[a]) != Rank(casePrizes[b])
    {
      RankInjective(casePrizes[a], casePrizes[b]);
    }
  }

  /** Well-ranked cases hold different prizes. */
  lemma WellRankedDistinct(casePrizes: seq<string>)
    requires WellRanked(casePrizes)
    ensures Distinct(casePrizes)
  {
    forall a, b | 0 <= a < b < |casePrizes| ensures casePrizes[a] != casePrizes[b] {
      assert Rank(casePrizes[a]) != Rank(casePrizes[b]);
    }
  }

  /** Different table prizes have different ranks. */
  lemma RankInjective(x: string, y: string)
    requires x in PrizeListOrdered && y in PrizeListOrdered
    ensures Rank(x) == Rank(y) ==> x == y
  {
    RankOfTablePrize(x);
    RankOfTablePrize(y);
  }

  /** A table prize has a rank, and the table holds it at that rank. */
  lemma RankOfTablePrize(x: string)
    requires x in PrizeListOrdered
    ensures 0 <= Rank(x) < NumCases && PrizeListOrdered[Rank(x)] == x
  {
    IndexOfSpec(PrizeListOrdered, x);
  }

  function LowerChar(c: char): char {
    if 'A' <= c <= 'Z' then (c as int + 32) as char else c
  }

  /** String.prototype.toLowerCase on ASCII text. */
  function ToLower(s: string): (r: string)
    ensures |r| == |s|
  {
    seq(|s|, i requires 0 <= i < |s| => LowerChar(s[i]))
  }

  /** String.prototype.includes: `t` occurs somewhere in `s`. */
  predicate Includes(s: string, t: string) {
    exists k | 0 <= k <= |s| - |t| :: t <= s[k..]
  }

  /** The dealer's "mid-tier" test: the lower-cased label contains an allowed fragment. */
  predicate IsOfferable(p: string) {
    exists a | a in AllowedOfferPrizes :: Includes(ToLower(p), a)
  }

  /** Which table prizes the text test accepts: the T-shirt, the signed poster,
      the gift card and the basketball tickets (ranks 2 to 5), and no other. */
  lemma OfferableTable()
    ensures forall k :: 0 <= k < NumCases ==> (IsOfferable(PrizeListOrdered[k]) <==> 2 <= k <= 5)
  {
    forall k | 0 <= k < NumCases ensures IsOfferable(PrizeListOrdered[k]) <==> 2 <= k <= 5 {
      if 2 <= k <= 5 {
        MidTierOfferable(k);
      } else {
        OthersNotOfferable(k);
      }
    }
  }

  /** The labels of ranks 2 to 5 each start with an allowed fragment. */
  lemma MidTierOfferable(k: nat)
    requires 2 <= k <= 5
    ensures IsOfferable(PrizeListOrdered[k])
  {
    if k <= 3 {
      ClothingAndPosterOfferable(k);
    } else {
      CardAndTicketsOfferable(k);
    }
  }

  lemma ClothingAndPosterOfferable(k: nat)
    requires 2 <= k <= 3
    ensures IsOfferable(PrizeListOrdered[k])
  {
    if k == 2 {
      assert ToLower(PrizeListOrdered[2]) == "t-shirt";
      OfferableAt(PrizeListOrdered[2], 0, 0);
    } else {
      assert ToLower(PrizeListOrdered[3])[..13] == "signed poster";
      OfferableAt(PrizeListOrdered[3], 1, 0);
    }
  }

  lemma CardAndTicketsOfferable(k: nat)
    requires 4 <= k <= 5
    ensures IsOfferable(PrizeListOrdered[k])
  {
    if k == 4 {
      assert ToLower(PrizeListOrdered[4])[..5] == "luigi";
      OfferableAt(PrizeListOrdered[4], 2, 0);
    } else {
      assert ToLower(PrizeListOrdered[5])[..5] == "women";
      OfferableAt(PrizeListOrdered[5], 3, 0);
    }
  }

  lemma OthersNotOfferable(k: nat)
    requires k < NumCases && !(2 <= k <= 5)
    ensures !IsOfferable(PrizeListOrdered[k])
  {
    LacksFragmentCharacters(k);
    NotOfferable(PrizeListOrdered[k], '-', 'p', 'u', 'w');
  }

  /** The lower-cased labels of ranks 0, 1, 6 and 7 have no '-', 'p', 'u' or 'w'. */
  lemma LacksFragmentCharacters(k: nat)
    requires k < NumCases && !(2 <= k <= 5)
    ensures var s := ToLower(PrizeListOrdered[k]); '-' !in s && 'p' !in s && 'u' !in s && 'w' !in s
  {
    if k <= 1 {
      LowLabelsLack(k);
    } else {
      HighLabelsLack(k);
    }
  }

  lemma LowLabelsLack(k: nat)
    requires k <= 1
    ensures var s := ToLower(PrizeListOrdered[k]); '-' !in s && 'p' !in s && 'u' !in s && 'w' !in s
  {
    if k == 0 {
      assert ToLower(PrizeListOrdered[k]) == ".01";
    } else {
      assert ToLower(PrizeListOrdered[k]) == "sticker";
    }
  }

  lemma HighLabelsLack(k: nat)
    requires 6 <= k <= 7
    ensures var s := ToLower(PrizeListOrdered[k]); '-' !in s && 'p' !in s && 'u' !in s && 'w' !in s
  {
    if k == 6 {
      assert ToLower(PrizeListOrdered[k]) == "jbl go 4";
    } else {
      assert ToLower(PrizeListOrdered[k]) == "ninja creami";
    }
  }

  /** Fragment number `a` starts at position `k` of the lower-cased label. */
  lemma OfferableAt(p: string, a: nat, k: nat)
    requires a < |AllowedOfferPrizes| && k + |AllowedOfferPrizes[a]| <= |ToLower(p)|
    requires AllowedOfferPrizes[a] <= ToLower(p)[k..]
    ensures IsOfferable(p)
  {
    assert Includes(ToLower(p), AllowedOfferPrizes[a]);
  }

  /** A label is not offerable when each fragment has a character the
      lower-cased label lacks. */
  lemma NotOfferable(p: string, c0: char, c1: char, c2: char, c3: char)
    requires c0 in AllowedOfferPrizes[0] && c1 in AllowedOfferPrizes[1] && c2 in AllowedOfferPrizes[2]
    requires c3 in AllowedOfferPrizes[3] && c3 in AllowedOfferPrizes[4]
    requires c0 !in ToLower(p) && c1 !in ToLower(p) && c2 !in ToLower(p) && c3 !in ToLower(p)
    ensures !IsOfferable(p)
  {
    MissingCharNotIncluded(ToLower(p), AllowedOfferPrizes[0], c0);
    MissingCharNotIncluded(ToLower(p), AllowedOfferPrizes[1], c1);
    MissingCharNotIncluded(ToLower(p), AllowedOfferPrizes[2], c2);
    MissingCharNotIncluded(ToLower(p), AllowedOfferPrizes[3], c3);
    MissingCharNotIncluded(ToLower(p), AllowedOfferPrizes[4], c3);
  }

  /** `t` cannot occur in `s` if it holds a character `s` lacks. */
  lemma MissingCharNotIncluded(s: string, t: string, c: char)
    requires c in t && c !in s
    ensures !Includes(s, t)
  {
    var i :| 0 <= i < |t| && t[i] == c;
    forall k | 0 <= k <= |s| - |t| ensures !(t <= s[k..]) {
      assert s[k..][i] == s[k + i];
    }
  }
}
