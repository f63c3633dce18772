/** The read-side folds behind the manager's `Statistics` and `Reports`
    pages: counts by status, the sum of approved totals, and the per-month
    breakdown (`GroupBy(c => c.Month)`, then `OrderBy(x => x.Month)`). Months
    are ordered by the ordinal order of their labels. Approved and rejected
    are substring tests, so one claim can be counted as both (a rejection
    whose reason mentions "Approved"); only the pending count is disjoint
    from the other two. */
module Reporting {
  import opened Claims
  import opened Folds
  import opened Text

  predicate Approved(c: ClaimRow) { IsApprovedStatus(c.status) }
  predicate Rejected(c: ClaimRow) { IsRejectedStatus(c.status) }
  predicate AwaitingDecision(c: ClaimRow) { IsPendingStatus(c.status) }

  /** "Pending" and "Submitted" contain neither "Approved" nor "Rejected". */
  lemma PendingIsUndecided(s: string)
    requires IsPendingStatus(s)
    ensures !IsApprovedStatus(s) && !IsRejectedStatus(s)
  {
    OccurrenceStartsWithHead(s, "Approved");
    OccurrenceStartsWithHead(s, "Rejected");
    if s == Submitted {
      assert s[0] == 'S' && s[1] == 'u';
    }
  }

  /** A rejection whose free-text reason mentions "Approved" is counted both
      as approved and as rejected. */
  lemma ApprovedAndRejectedOverlap()
    ensures IsApprovedStatus(RejectedByManagerPrefix + "Approved hours exceed contract")
    ensures IsRejectedStatus(RejectedByManagerPrefix + "Approved hours exceed contract")
  {
    var reason := "Approved hours exceed contract";
    var s := RejectedByManagerPrefix + reason;
    assert s[|RejectedByManagerPrefix|..|RejectedByManagerPrefix| + 8] == reason[..8];
    assert OccursAt(s, "Approved", |RejectedByManagerPrefix|);
    assert OccursAt(s, "Rejected", 0);
  }

  datatype StatusCounts = StatusCounts(total: nat, approved: nat, rejected: nat, pending: nat)

  /** The four counts shown on both the statistics and the reports page. No
      count exceeds the number of claims, and a pending claim is never also
      counted as approved or as rejected. */
  function CountStatuses(rows: seq<ClaimRow>): (t: StatusCounts)
    ensures t.total == |rows|
    ensures t.approved <= t.total && t.rejected <= t.total && t.pending <= t.total
    ensures t.pending + t.approved <= t.total
    ensures t.pending + t.rejected <= t.total
    ensures t.approved == Count(rows, Approved) && t.rejected == Count(rows, Rejected)
    ensures t.pending == Count(rows, AwaitingDecision)
  {
    assert forall c :: AwaitingDecision(c) ==> !Approved(c) && !Rejected(c) by {
      forall c: ClaimRow | AwaitingDecision(c) ensures !Approved(c) && !Rejected(c) {
        PendingIsUndecided(c.status);
      }
    }
    CountDisjoint(rows, AwaitingDecision, Approved);
    CountDisjoint(rows, AwaitingDecision, Rejected);
    StatusCounts(|rows|, Count(rows, Approved), Count(rows, Rejected), Count(rows, AwaitingDecision))
  }

  /** The amount a claim contributes to "total approved": its total when its
      status counts as approved, otherwise nothing. */
  function ApprovedShare(c: ClaimRow): real {
    if Approved(c) then c.totalAmount else 0.0
  }

  /** The total of a claim. */
  function TotalOf(c: ClaimRow): real { c.totalAmount }

  /** Summing the approved shares of all claims is summing the totals of the
      approved claims only. */
  lemma {:induction false} ApprovedSharesAreFilteredTotals(rows: seq<ClaimRow>)
    ensures Sum(rows, ApprovedShare) == Sum(Filter(rows, Approved), TotalOf)
  {
    if rows != [] {
      ApprovedSharesAreFilteredTotals(rows[1..]);
      if Approved(rows[0]) {
        assert ([rows[0]] + Filter(rows[1..], Approved))[1..] == Filter(rows[1..], Approved);
      }
    }
  }

  /** "Total approved": `Where(status contains "Approved").Sum(c => c.TotalAmount)`. */
  function ApprovedAmount(rows: seq<ClaimRow>): (a: real)
    ensures a == Sum(Filter(rows, Approved), TotalOf)
  {
    ApprovedSharesAreFilteredTotals(rows);
    Sum(rows, ApprovedShare)
  }

  /** One line of the monthly breakdown. */
  datatype MonthStat = MonthStat(month: string, count: nat, amount: real)

  /** Adds one claim to a breakdown kept in ascending month order: the claim's
      month group grows by one, or a new group is inserted in its place. */
  function AddToMonths(gs: seq<MonthStat>, c: ClaimRow): (r: seq<MonthStat>)
    ensures |gs| <= |r| <= |gs| + 1
  {
    if gs == [] then [MonthStat(c.month, 1, ApprovedShare(c))]
    else if gs[0].month == c.month then
      [gs[0].(count := gs[0].count + 1, amount := gs[0].amount + ApprovedShare(c))] + gs[1..]
    else if Less(c.month, gs[0].month) then [MonthStat(c.month, 1, ApprovedShare(c))] + gs
    else [gs[0]] + AddToMonths(gs[1..], c)
  }

  /** The monthly breakdown of a list of claims (`GroupBy` month, then
      `OrderBy` month). It has at most one line per claim, and a line
      whenever there is a claim; `MonthlyBreakdownSpec` states the rest. */
  function MonthlyBreakdown(rows: seq<ClaimRow>): (r: seq<MonthStat>)
    ensures |r| <= |rows|
    ensures rows != [] ==> r != []
  {
    if rows == [] then [] else AddToMonths(MonthlyBreakdown(rows[1..]), rows[0])
  }

  // ---- Specification of the breakdown ----

  /** Strictly ascending months: ordered, and no month twice. */
  predicate MonthsAscending(gs: seq<MonthStat>) {
    forall i, j | 0 <= i < j < |gs| :: Less(gs[i].month, gs[j].month)
  }

  /** `m` comes before every month of `gs`. */
  predicate BelowAll(m: string, gs: seq<MonthStat>) {
    forall g | g in gs :: Less(m, g.month)
  }

  function Months(gs: seq<MonthStat>): set<string> {
    set g | g in gs :: g.month
  }

  function MonthsOf(rows: seq<ClaimRow>): set<string> {
    set c | c in rows :: c.month
  }

  function CountTotal(gs: seq<MonthStat>): nat {
    if gs == [] then 0 else gs[0].count + CountTotal(gs[1..])
  }

  function AmountTotal(gs: seq<MonthStat>): real {
    if gs == [] then 0.0 else gs[0].amount + AmountTotal(gs[1..])
  }

  /** The count the breakdown reports for month `m` (summed over its groups). */
  function MonthCount(gs: seq<MonthStat>, m: string): nat {
    if gs == [] then 0 else (if gs[0].month == m then gs[0].count else 0) + MonthCount(gs[1..], m)
  }

  function MonthAmount(gs: seq<MonthStat>, m: string): real {
    if gs == [] then 0.0 else (if gs[0].month == m then gs[0].amount else 0.0) + MonthAmount(gs[1..], m)
  }

  /** Reference definitions: the number of claims of month `m`, and the sum of
      the approved totals of month `m`. */
  function ClaimsInMonth(rows: seq<ClaimRow>, m: string): nat {
    if rows == [] then 0 else (if rows[0].month == m then 1 else 0) + ClaimsInMonth(rows[1..], m)
  }

  function ApprovedInMonth(rows: seq<ClaimRow>, m: string): real {
    if rows == [] then 0.0
    else (if rows[0].month == m then ApprovedShare(rows[0]) else 0.0) + ApprovedInMonth(rows[1..], m)
  }

  lemma ConsAscending(g: MonthStat, gs: seq<MonthStat>)
    requires BelowAll(g.month, gs) && MonthsAscending(gs)
    ensures MonthsAscending([g] + gs)
  {
    var r := [g] + gs;
    forall i, j | 0 <= i < j < |r| ensures Less(r[i].month, r[j].month) {
      assert r[j] == gs[j - 1];
      if i > 0 {
        assert r[i] == gs[i - 1];
      }
    }
  }

  lemma AscendingTail(gs: seq<MonthStat>)
    requires gs != [] && MonthsAscending(gs)
    ensures BelowAll(gs[0].month, gs[1..]) && MonthsAscending(gs[1..])
  {
    forall g | g in gs[1..] ensures Less(gs[0].month, g.month) {
      var k :| 0 <= k < |gs[1..]| && gs[1..][k] == g;
      assert gs[k + 1] == g;
    }
    forall i, j | 0 <= i < j < |gs[1..]| ensures Less(gs[1..][i].month, gs[1..][j].month) {
      assert gs[1..][i] == gs[i + 1] && gs[1..][j] == gs[j + 1];
    }
  }

  lemma ConsCounts(g: MonthStat, gs: seq<MonthStat>)
    ensures CountTotal([g] + gs) == g.count + CountTotal(gs)
    ensures forall m :: MonthCount([g] + gs, m) == (if g.month == m then g.count else 0) + MonthCount(gs, m)
  {
    assert ([g] + gs)[0] == g && ([g] + gs)[1..] == gs;
  }

  lemma ConsAmounts(g: MonthStat, gs: seq<MonthStat>)
    ensures AmountTotal([g] + gs) == g.amount + AmountTotal(gs)
    ensures forall m :: MonthAmount([g] + gs, m) == (if g.month == m then g.amount else 0.0) + MonthAmount(gs, m)
  {
    assert ([g] + gs)[0] == g && ([g] + gs)[1..] == gs;
  }

  lemma ConsMonths(g: MonthStat, gs: seq<MonthStat>)
    ensures Months([g] + gs) == {g.month} + Months(gs)
  {
  }

  /** Adding one claim counts it once, in the whole and in its month. */
  lemma {:induction false} AddToMonthsCounts(gs: seq<MonthStat>, c: ClaimRow)
    ensures CountTotal(AddToMonths(gs, c)) == CountTotal(gs) + 1
    ensures forall m :: MonthCount(AddToMonths(gs, c), m) == MonthCount(gs, m) + (if c.month == m then 1 else 0)
  {
    var single := MonthStat(c.month, 1, ApprovedShare(c));
    if gs == [] {
      ConsCounts(single, []);
      assert [single] + [] == [single];
    } else {
      assert gs == [gs[0]] + gs[1..];
      ConsCounts(gs[0], gs[1..]);
      if gs[0].month == c.month {
        ConsCounts(gs[0].(count := gs[0].count + 1, amount := gs[0].amount + ApprovedShare(c)), gs[1..]);
      } else if Less(c.month, gs[0].month) {
        ConsCounts(single, gs);
      } else {
        AddToMonthsCounts(gs[1..], c);
        ConsCounts(gs[0], AddToMonths(gs[1..], c));
      }
    }
  }

  /** Adding one claim adds its approved share, in the whole and in its month. */
  lemma {:induction false} AddToMonthsAmounts(gs: seq<MonthStat>, c: ClaimRow)
    ensures AmountTotal(AddToMonths(gs, c)) == AmountTotal(gs) + ApprovedShare(c)
    ensures forall m :: MonthAmount(AddToMonths(gs, c), m) ==
                        MonthAmount(gs, m) + (if c.month == m then ApprovedShare(c) else 0.0)
  {
    var single := MonthStat(c.month, 1, ApprovedShare(c));
    if gs == [] {
      ConsAmounts(single, []);
      assert [single] + [] == [single];
    } else {
      assert gs == [gs[0]] + gs[1..];
      ConsAmounts(gs[0], gs[1..]);
      if gs[0].month == c.month {
        ConsAmounts(gs[0].(count := gs[0].count + 1, amount := gs[0].amount + ApprovedShare(c)), gs[1..]);
      } else if Less(c.month, gs[0].month) {
        ConsAmounts(single, gs);
      } else {
        AddToMonthsAmounts(gs[1..], c);
        ConsAmounts(gs[0], AddToMonths(gs[1..], c));
      }
    }
  }

  /** Adding one claim adds its month to the months of the breakdown. */
  lemma {:induction false} AddToMonthsMonths(gs: seq<MonthStat>, c: ClaimRow)
    ensures Months(AddToMonths(gs, c)) == Months(gs) + {c.month}
  {
    var single := MonthStat(c.month, 1, ApprovedShare(c));
    if gs == [] {
      assert [single] + [] == [single];
    } else {
      assert gs == [gs[0]] + gs[1..];
      ConsMonths(gs[0], gs[1..]);
      if gs[0].month == c.month {
        ConsMonths(gs[0].(count := gs[0].count + 1, amount := gs[0].amount + ApprovedShare(c)), gs[1..]);
      } else if Less(c.month, gs[0].month) {
        ConsMonths(single, gs);
      } else {
        AddToMonthsMonths(gs[1..], c);
        ConsMonths(gs[0], AddToMonths(gs[1..], c));
      }
    }
  }

  /** Adding a claim keeps the months strictly ascending. */
  lemma {:induction false} AddToMonthsAscending(gs: seq<MonthStat>, c: ClaimRow)
    requires MonthsAscending(gs)
    ensures MonthsAscending(AddToMonths(gs, c))
  {
    var single := MonthStat(c.month, 1, ApprovedShare(c));
    if gs != [] {
      AscendingTail(gs);
      if gs[0].month == c.month {
        ConsAscending(gs[0].(count := gs[0].count + 1, amount := gs[0].amount + ApprovedShare(c)), gs[1..]);
      } else if Less(c.month, gs[0].month) {
        forall h | h in gs ensures Less(c.month, h.month) {
          if h != gs[0] {
            assert h in gs[1..] by {
              assert gs == [gs[0]] + gs[1..];
            }
            LessTransitive(c.month, gs[0].month, h.month);
          }
        }
        ConsAscending(single, gs);
      } else {
        var rest := AddToMonths(gs[1..], c);
        AddToMonthsAscending(gs[1..], c);
        AddToMonthsMonths(gs[1..], c);
        LessTotal(c.month, gs[0].month);
        forall h | h in rest ensures Less(gs[0].month, h.month) {
          assert h.month in Months(rest);
        }
        ConsAscending(gs[0], rest);
      }
    }
  }

  /** The breakdown has one group per distinct month, in strictly ascending
      month order; each month's count and approved amount are those of its
      claims; the counts add up to the number of claims and the amounts to
      the approved total. */
  lemma {:induction false} MonthlyBreakdownSpec(rows: seq<ClaimRow>)
    ensures MonthsAscending(MonthlyBreakdown(rows))
    ensures Months(MonthlyBreakdown(rows)) == MonthsOf(rows)
    ensures CountTotal(MonthlyBreakdown(rows)) == |rows|
    ensures AmountTotal(MonthlyBreakdown(rows)) == ApprovedAmount(rows)
    ensures forall m :: MonthCount(MonthlyBreakdown(rows), m) == ClaimsInMonth(rows, m)
    ensures forall m :: MonthAmount(MonthlyBreakdown(rows), m) == ApprovedInMonth(rows, m)
  {
    if rows != [] {
      MonthlyBreakdownSpec(rows[1..]);
      AddToMonthsCounts(MonthlyBreakdown(rows[1..]), rows[0]);
      AddToMonthsAmounts(MonthlyBreakdown(rows[1..]), rows[0]);
      AddToMonthsMonths(MonthlyBreakdown(rows[1..]), rows[0]);
      AddToMonthsAscending(MonthlyBreakdown(rows[1..]), rows[0]);
      assert rows == [rows[0]] + rows[1..];
      assert MonthsOf(rows) == {rows[0].month} + MonthsOf(rows[1..]);
    }
  }

  /** In a strictly ascending breakdown a group's own count and amount are
      everything the breakdown reports for its month. */
  lemma {:induction false} GroupIsWholeMonth(gs: seq<MonthStat>, i: nat)
    requires MonthsAscending(gs) && i < |gs|
    ensures MonthCount(gs, gs[i].month) == gs[i].count
    ensures MonthAmount(gs, gs[i].month) == gs[i].amount
  {
    AscendingTail(gs);
    if i == 0 {
      MonthAbsent(gs[1..], gs[0].month);
    } else {
      LessIrreflexive(gs[i].month);
      assert gs[i] in gs[1..];
      assert gs[0].month != gs[i].month;
      assert gs[1..][i - 1] == gs[i];
      GroupIsWholeMonth(gs[1..], i - 1);
    }
  }

  lemma {:induction false} MonthAbsent(gs: seq<MonthStat>, m: string)
    requires BelowAll(m, gs)
    ensures MonthCount(gs, m) == 0 && MonthAmount(gs, m) == 0.0
  {
    if gs != [] {
      LessIrreflexive(m);
      assert gs[0] in gs;
      assert BelowAll(m, gs[1..]) by {
        forall g | g in gs[1..] ensures Less(m, g.month) {
          assert g in gs;
        }
      }
      MonthAbsent(gs[1..], m);
    }
  }

  /** Each line of the breakdown reports exactly the claims of its month:
      their number (at least one) and the sum of their approved totals. */
  lemma MonthlyBreakdownLines(rows: seq<ClaimRow>)
    ensures forall i | 0 <= i < |MonthlyBreakdown(rows)| ::
              && MonthlyBreakdown(rows)[i].count == ClaimsInMonth(rows, MonthlyBreakdown(rows)[i].month)
              && MonthlyBreakdown(rows)[i].amount == ApprovedInMonth(rows, MonthlyBreakdown(rows)[i].month)
              && MonthlyBreakdown(rows)[i].count > 0
  {
    var gs := MonthlyBreakdown(rows);
    MonthlyBreakdownSpec(rows);
    forall i | 0 <= i < |gs|
      ensures gs[i].count == ClaimsInMonth(rows, gs[i].month)
      ensures gs[i].amount == ApprovedInMonth(rows, gs[i].month)
      ensures gs[i].count > 0
    {
      GroupIsWholeMonth(gs, i);
      assert gs[i].month in Months(gs);
      MonthPresentHasClaims(rows, gs[i].month);
    }
  }

  lemma {:induction false} MonthPresentHasClaims(rows: seq<ClaimRow>, m: string)
    requires m in MonthsOf(rows)
    ensures ClaimsInMonth(rows, m) > 0
  {
    if rows[0].month != m {
      assert m in MonthsOf(rows[1..]) by {
        var c :| c in rows && c.month == m;
        assert c in rows[1..] by {
          assert rows == [rows[0]] + rows[1..];
        }
      }
      MonthPresentHasClaims(rows[1..], m);
    }
  }
}
