/** The rank table: point thresholds in descending order, each with the
    rank name it confers and the colour of the role that shows it. */
module Ranks {
  import opened Wrappers

  datatype RankEntry = RankEntry(threshold: int, name: string, color: int)

  /** RANKS together with RANK_COLORS, highest threshold first. */
  const RANKS: seq<RankEntry> := [
    RankEntry(500, "ADRIAN MATHEOS", 0xE91E63),
    RankEntry(490, "ABI 1000€", 0x3498DB),
    RankEntry(450, "ABI 500€", 0x8E44AD),
    RankEntry(380, "ABI 200€", 0x9B59B6),
    RankEntry(300, "ABI 100€", 0xC0392B),
    RankEntry(230, "ABI 75€", 0xD35400),
    RankEntry(170, "ABI 50€", 0xE67E22),
    RankEntry(120, "ABI 35€", 0xF39C12),
    RankEntry(80, "ABI 20€", 0xF1C40F),
    RankEntry(50, "ABI 10€", 0x2ECC71),
    RankEntry(25, "ABI 5€", 0x27AE60),
    RankEntry(10, "ABI 2€", 0x22A6B3),
    RankEntry(0, "ABI 0€", 0x656565)
  ]

  /** The name get_rank falls back to when no threshold is reached. */
  const BOTTOM_RANK: string := "ABI 0€"

  /** The top threshold: from here on there is no next rank. */
  const TOP_THRESHOLD: int := 500

  /** Thresholds strictly descend from each entry to the next. */
  ghost predicate StepsDown(t: seq<RankEntry>) {
    forall i :: 0 <= i < |t| - 1 ==> t[i].threshold > t[i + 1].threshold
  }

  /** The shape of the table the lookups rely on. */
  lemma TableShape()
    ensures |RANKS| == 13 && StepsDown(RANKS)
    ensures RANKS[0].threshold == TOP_THRESHOLD
    ensures RANKS[11].threshold == 10
    ensures RANKS[12].threshold == 0 && RANKS[12].name == BOTTOM_RANK
  {
  }

  /** Thresholds that step down descend along the whole table. */
  lemma {:induction false} ThresholdsDescend(t: seq<RankEntry>, i: nat, j: nat)
    requires StepsDown(t)
    requires i < j < |t|
    ensures t[i].threshold > t[j].threshold
    decreases j - i
  {
    if i + 1 < j {
      ThresholdsDescend(t, i + 1, j);
    }
  }

  /** The position at which the scan of get_rank over t, started at k, stops:
      the first entry from k on whose threshold p reaches (|t| if none). */
  function FirstReached(t: seq<RankEntry>, p: real, k: nat): (i: nat)
    requires k <= |t|
    ensures k <= i <= |t|
    ensures i < |t| ==> t[i].threshold as real <= p
    ensures forall j :: k <= j < i ==> p < t[j].threshold as real
    decreases |t| - k
  {
    if k == |t| then k
    else if p >= t[k].threshold as real then k
    else FirstReached(t, p, k + 1)
  }

  /** In a descending table the scan stops at the largest threshold p
      reaches. */
  lemma ReachedIsLargest(t: seq<RankEntry>, p: real, j: nat)
    requires StepsDown(t)
    requires j < |t| && t[j].threshold as real <= p
    ensures FirstReached(t, p, 0) <= j
    ensures t[j].threshold <= t[FirstReached(t, p, 0)].threshold
  {
    var i := FirstReached(t, p, 0);
    if i < j {
      ThresholdsDescend(t, i, j);
    }
  }

  /** In a descending table the scan passes every threshold above p. */
  lemma ReachedAfter(t: seq<RankEntry>, p: real, m: nat)
    requires StepsDown(t)
    requires m < |t| && p < t[m].threshold as real
    ensures m < FirstReached(t, p, 0)
  {
    var i := FirstReached(t, p, 0);
    if i < m {
      ThresholdsDescend(t, i, m);
    }
  }

  /** In a descending table the scan stops no later for a larger total. */
  lemma ReachedAntitone(t: seq<RankEntry>, p: real, q: real)
    requires StepsDown(t)
    requires p <= q
    ensures FirstReached(t, q, 0) <= FirstReached(t, p, 0)
  {
    var i := FirstReached(t, p, 0);
    if i < |t| {
      ReachedIsLargest(t, q, i);
    }
  }

  /** The entry of t whose name get_rank returns: where the scan stops, or
      the last (lowest) entry when it runs off the end. */
  function PositionIn(t: seq<RankEntry>, p: real): (i: nat)
    requires |t| > 0
    ensures i < |t|
  {
    var k := FirstReached(t, p, 0);
    if k < |t| then k else |t| - 1
  }

  /** In a descending table the position only moves up for a larger total. */
  lemma PositionAntitone(t: seq<RankEntry>, p: real, q: real)
    requires StepsDown(t) && |t| > 0
    requires p <= q
    ensures PositionIn(t, q) <= PositionIn(t, p)
    ensures t[PositionIn(t, p)].threshold <= t[PositionIn(t, q)].threshold
  {
    ReachedAntitone(t, p, q);
    var i, j := PositionIn(t, p), PositionIn(t, q);
    if j < i {
      ThresholdsDescend(t, j, i);
    }
  }

  /** get_rank: the name of the first (thus highest) threshold p reaches in
      RANKS, else the bottom name. */
  function GetRank(p: real): string {
    var i := FirstReached(RANKS, p, 0);
    if i < |RANKS| then RANKS[i].name else BOTTOM_RANK
  }

  /** The entry whose name get_rank returns (the fallback is the bottom
      entry's name). */
  function RankPosition(p: real): (i: nat)
    ensures i < |RANKS|
    ensures GetRank(p) == RANKS[i].name
  {
    TableShape();
    PositionIn(RANKS, p)
  }

  /** For a non-negative total, get_rank gives the name of the largest
      threshold that is at most p. */
  lemma GetRankLargestReached(p: real)
    requires p >= 0.0
    ensures RANKS[RankPosition(p)].threshold as real <= p
    ensures forall j :: 0 <= j < |RANKS| && RANKS[j].threshold as real <= p ==>
              RANKS[j].threshold <= RANKS[RankPosition(p)].threshold
  {
    TableShape();
    ReachedIsLargest(RANKS, p, 12);
    forall j | 0 <= j < |RANKS| && RANKS[j].threshold as real <= p
      ensures RANKS[j].threshold <= RANKS[RankPosition(p)].threshold
    {
      ReachedIsLargest(RANKS, p, j);
    }
  }

  /** Every total below 10, negative ones included, has the bottom rank. */
  lemma GetRankBelowTen(p: real)
    requires p < 10.0
    ensures GetRank(p) == BOTTOM_RANK
  {
    TableShape();
    ReachedAfter(RANKS, p, 11);
  }

  /** get_rank is monotone: with more points the scan stops no later in the
      descending table, at a threshold no lower. */
  lemma GetRankMonotone(p: real, q: real)
    requires p <= q
    ensures RankPosition(q) <= RankPosition(p)
    ensures RANKS[RankPosition(p)].threshold <= RANKS[RankPosition(q)].threshold
  {
    TableShape();
    PositionAntitone(RANKS, p, q);
  }

  /** The loop of get_rank. */
  method ComputeRank(p: real) returns (r: string)
    ensures r == GetRank(p)
  {
    for i := 0 to |RANKS|
      invariant FirstReached(RANKS, p, i) == FirstReached(RANKS, p, 0)
    {
      if p >= RANKS[i].threshold as real {
        return RANKS[i].name;
      }
    }
    return BOTTOM_RANK;
  }

  /** What get_next_rank_info returns when a next rank exists. */
  datatype NextRank = NextRank(threshold: int, name: string, missing: real)

  /** The scan of get_next_rank_info over reversed(t): the positions k-1,
      k-2, ..., 0 are left to visit, and it stops at the first whose
      threshold lies above p (-1 if none). */
  function FirstAbove(t: seq<RankEntry>, p: real, k: nat): (i: int)
    requires k <= |t|
    ensures -1 <= i < k
    ensures i >= 0 ==> p < t[i].threshold as real
    ensures forall j :: i < j < k ==> t[j].threshold as real <= p
  {
    if k == 0 then -1
    else if p < t[k - 1].threshold as real then k - 1
    else FirstAbove(t, p, k - 1)
  }

  /** In a descending table the reversed scan stops at the smallest
      threshold above p. */
  lemma AboveIsSmallest(t: seq<RankEntry>, p: real, j: nat)
    requires StepsDown(t)
    requires j < |t| && p < t[j].threshold as real
    ensures 0 <= FirstAbove(t, p, |t|)
    ensures t[FirstAbove(t, p, |t|)].threshold <= t[j].threshold
  {
    var i := FirstAbove(t, p, |t|);
    if j < i {
      ThresholdsDescend(t, j, i);
    }
  }

  /** In a descending table, the scan of get_rank started from the
      threshold the reversed scan found stops at that same entry. */
  lemma AboveThenReached(t: seq<RankEntry>, p: real)
    requires StepsDown(t)
    requires 0 <= FirstAbove(t, p, |t|)
    ensures FirstReached(t, t[FirstAbove(t, p, |t|)].threshold as real, 0) == FirstAbove(t, p, |t|)
    ensures forall j :: 0 <= j < |t| && p < t[j].threshold as real ==>
              t[FirstAbove(t, p, |t|)].threshold <= t[j].threshold
  {
    var i := FirstAbove(t, p, |t|);
    ReachedIsLargest(t, t[i].threshold as real, i);
    if 0 < i {
      ReachedAfter(t, t[i].threshold as real, i - 1);
    }
    forall j | 0 <= j < |t| && p < t[j].threshold as real
      ensures t[i].threshold <= t[j].threshold
    {
      AboveIsSmallest(t, p, j);
    }
  }

  /** get_next_rank_info: the next threshold above p, its name and the
      points still missing; None stands for (None, None, None). */
  function GetNextRankInfo(p: real): Option<NextRank> {
    var i := FirstAbove(RANKS, p, |RANKS|);
    if i < 0 then None
    else Some(NextRank(RANKS[i].threshold, RANKS[i].name, RANKS[i].threshold as real - p))
  }

  /** There is no next rank exactly when the top threshold is reached. */
  lemma NextRankNoneIff(p: real)
    ensures GetNextRankInfo(p).None? <==> p >= TOP_THRESHOLD as real
  {
    TableShape();
    if p < TOP_THRESHOLD as real {
      AboveIsSmallest(RANKS, p, 0);
    }
  }

  /** A next rank is the smallest threshold strictly above p, the shortfall
      is positive and completes p to that threshold, and reaching it gives
      exactly that rank. */
  lemma NextRankSmallestAbove(p: real)
    requires GetNextRankInfo(p).Some?
    ensures var n := GetNextRankInfo(p).value;
      && p < n.threshold as real
      && n.missing > 0.0
      && p + n.missing == n.threshold as real
      && (forall j :: 0 <= j < |RANKS| && p < RANKS[j].threshold as real ==> n.threshold <= RANKS[j].threshold)
      && GetRank(n.threshold as real) == n.name
  {
    TableShape();
    AboveThenReached(RANKS, p);
  }

  /** The loop of get_next_rank_info. */
  method ComputeNextRank(p: real) returns (r: Option<NextRank>)
    ensures r == GetNextRankInfo(p)
  {
    var k := |RANKS|;
    while k > 0
      invariant 0 <= k <= |RANKS|
      invariant FirstAbove(RANKS, p, k) == FirstAbove(RANKS, p, |RANKS|)
    {
      var e := RANKS[k - 1];
      if p < e.threshold as real {
        return Some(NextRank(e.threshold, e.name, e.threshold as real - p));
      }
      k := k - 1;
    }
    return None;
  }
}
