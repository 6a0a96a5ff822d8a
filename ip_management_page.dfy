/** The pool overview of app/dashboard/ip-management/page.tsx: per-pool counts of
    addresses by status with a utilisation percentage, and the totals of the header
    cards. */
module IpManagementPage {
  import opened Common
  import opened Seqs
  import opened Ipv4
  import opened IpManagement

  /** The `stats` object of lines 44-50. */
  datatype PoolStats = PoolStats(total: nat, assignedCount: nat, availableCount: nat, reservedCount: nat, utilization: int)

  predicate IsAssigned(s: IpStatus) { s == Assigned }
  predicate IsAvailable(s: IpStatus) { s == Available }
  predicate IsReserved(s: IpStatus) { s == Reserved }

  /** Statuses none of the counters looks at: blocked and any other text. */
  predicate IsUncounted(s: IpStatus) { s == Blocked || s.Other? }

  /** The statistics of one pool from the statuses of its address rows (lines 36-50). */
  function Stats(statuses: seq<IpStatus>): PoolStats {
    var total := |statuses|;
    var assignedCount := Count(statuses, IsAssigned);
    PoolStats(total, assignedCount, Count(statuses, IsAvailable), Count(statuses, IsReserved),
              if total > 0 then Percent(assignedCount, total) else 0)
  }

  /** Every row is counted once by exactly one of the three counters or by none, when
      it is blocked or carries another text. */
  lemma {:induction false} CountsPartition(statuses: seq<IpStatus>)
    ensures Count(statuses, IsAssigned) + Count(statuses, IsAvailable) + Count(statuses, IsReserved)
      + Count(statuses, IsUncounted) == |statuses|
    decreases |statuses|
  {
    if statuses != [] {
      CountsPartition(statuses[1..]);
    }
  }

  /** What the statistics mean: the three counts never exceed the number of rows, blocked
      rows make up the difference, and the utilisation is 0 for an empty pool and
      otherwise the assigned share, between 0 and 100. */
  lemma StatsSpec(statuses: seq<IpStatus>)
    ensures var st := Stats(statuses);
      && st.total == |statuses|
      && st.assignedCount + st.availableCount + st.reservedCount + Count(statuses, IsUncounted) == st.total
      && st.assignedCount + st.availableCount + st.reservedCount <= st.total
      && (st.total == 0 ==> st.utilization == 0)
      && 0 <= st.utilization <= 100
  {
    CountsPartition(statuses);
    if |statuses| > 0 {
      PercentBounds(Count(statuses, IsAssigned), |statuses|);
    }
  }

  // ---- Header cards ----

  function TotalOf(st: PoolStats): int { st.total }
  function AssignedOf(st: PoolStats): int { st.assignedCount }
  function AvailableOf(st: PoolStats): int { st.availableCount }

  datatype Totals = Totals(total: int, assignedCount: int, availableCount: int)

  /** "Total IPs", "Assigned" and "Available" (lines 119, 131, 143): sums over the pools. */
  function HeaderTotals(pools: seq<seq<IpStatus>>): Totals {
    var stats := seq(|pools|, i requires 0 <= i < |pools| => Stats(pools[i]));
    Totals(Sum(stats, TotalOf), Sum(stats, AssignedOf), Sum(stats, AvailableOf))
  }

  /** The header's assigned and available figures together never exceed its total, and
      a further pool adds its own figures to each. */
  lemma {:induction false} HeaderTotalsSpec(pools: seq<seq<IpStatus>>)
    ensures var t := HeaderTotals(pools);
      0 <= t.assignedCount && 0 <= t.availableCount && t.assignedCount + t.availableCount <= t.total
    ensures pools != [] ==>
      var last := Stats(pools[|pools| - 1]);
      var before := HeaderTotals(pools[..|pools| - 1]);
      HeaderTotals(pools) == Totals(before.total + last.total, before.assignedCount + last.assignedCount,
                                    before.availableCount + last.availableCount)
    decreases |pools|
  {
    if pools != [] {
      var stats := seq(|pools|, i requires 0 <= i < |pools| => Stats(pools[i]));
      var init := pools[..|pools| - 1];
      assert stats[..|stats| - 1] == seq(|init|, i requires 0 <= i < |init| => Stats(init[i]));
      HeaderTotalsSpec(init);
      StatsSpec(pools[|pools| - 1]);
    }
  }

  // ---- A freshly generated pool ----

  /** The statuses of a generated address list, in order. */
  function StatusesOf(entries: seq<RangeEntry>): (r: seq<IpStatus>)
    ensures |r| == |entries| && forall i :: 0 <= i < |r| ==> r[i] == entries[i].status
  {
    seq(|entries|, i requires 0 <= i < |entries| => entries[i].status)
  }

  /** A pool right after creation: nothing assigned, every address available except the
      gateway's, which is reserved when it is one of the pool's addresses (n is the parsed
      network address); for a prefix up
      to /30 the total is 2^(32-p) - 2. */
  lemma FreshPoolStats(n: U32, prefix: int, gateway: string)
    requires 0 <= prefix
    ensures var st := Stats(StatusesOf(RangeFrom(n, prefix, gateway)));
      && st.assignedCount == 0 && st.utilization == 0
      && st.availableCount + st.reservedCount == st.total
      && st.reservedCount <= 1
      && (prefix <= 30 ==> st.total == Pow2(32 - prefix) - 2)
      && (!IsCanonicalDottedQuad(gateway) ==> st.reservedCount == 0)
  {
    var statuses := StatusesOf(RangeFrom(n, prefix, gateway));
    RangeLength(n, prefix, gateway);
    FreshStatuses(n, prefix, gateway);
    StatsOfUnassigned(statuses);
    FreshReservedAtMostOne(n, prefix, gateway);
    if !IsCanonicalDottedQuad(gateway) {
      forall i | 0 <= i < |statuses|
        ensures !IsReserved(statuses[i])
      {
        NoGatewayNoneReserved(n, prefix, gateway, i);
      }
      FilterEmpty(statuses, IsReserved);
    }
  }

  /** A pool whose addresses are all available or reserved has nothing assigned and a
      utilisation of 0. */
  lemma StatsOfUnassigned(statuses: seq<IpStatus>)
    requires forall i :: 0 <= i < |statuses| ==> statuses[i] == Available || statuses[i] == Reserved
    ensures var st := Stats(statuses);
      st.assignedCount == 0 && st.utilization == 0 && st.availableCount + st.reservedCount == st.total
  {
    FilterEmpty(statuses, IsAssigned);
    FilterEmpty(statuses, IsUncounted);
    StatsSpec(statuses);
    if |statuses| > 0 {
      PercentOfNothing(|statuses|);
    }
  }

  /** A generated address is available or reserved. */
  lemma FreshStatuses(n: U32, prefix: int, gateway: string)
    ensures var statuses := StatusesOf(RangeFrom(n, prefix, gateway));
      forall i :: 0 <= i < |statuses| ==> statuses[i] == Available || statuses[i] == Reserved
  {
  }

  /** At most one generated address is reserved. */
  lemma FreshReservedAtMostOne(n: U32, prefix: int, gateway: string)
    requires 0 <= prefix
    ensures Count(StatusesOf(RangeFrom(n, prefix, gateway)), IsReserved) <= 1
  {
    var statuses := StatusesOf(RangeFrom(n, prefix, gateway));
    forall i, j | 0 <= i < |statuses| && 0 <= j < |statuses| && IsReserved(statuses[i]) && IsReserved(statuses[j])
      ensures i == j
    {
      AtMostOneReserved(n, prefix, gateway, i, j);
    }
    FilterAtMostOne(statuses, IsReserved);
  }
}
