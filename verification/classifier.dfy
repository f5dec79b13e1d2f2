/**
 Classifying users as active or inactive (`calculate_churn_rate`).

 The cutoff is the latest last-used date of the data minus the window of
 `days` days. A user whose date lies strictly before the cutoff is inactive;
 a date at or after the cutoff makes the user active. Counts are numbers of
 DISTINCT user ids, and the churn rate is the share of inactive users in
 percent, kept here as an exact rational (the two-decimal rounding of the
 floating-point value is not modelled).
 */
module Classifier {
  import opened Wrappers
  import opened ChurnData

  /** There is no latest date to anchor the cutoff at, and the rate would divide by zero. */
  datatype ChurnError = EmptyDataset

  /** The one-row summary the classifier produces. */
  datatype ChurnResult = ChurnResult(
    churnRate: real,
    totalUsers: nat,
    inactiveUsers: nat,
    activeUsers: nat,
    activeUserIds: set<UserId>,
    inactiveUserIds: set<UserId>)

  /** The latest last-used date of non-empty data. */
  function MaxLastUsed(records: seq<Activity>): (m: Timestamp)
    requires |records| > 0
    ensures forall i :: 0 <= i < |records| ==> records[i].lastUsedDate <= m
    ensures exists i :: 0 <= i < |records| && records[i].lastUsedDate == m
  {
    if |records| == 1 then records[0].lastUsedDate
    else
      var later := MaxLastUsed(records[1..]);
      assert forall i :: 1 <= i < |records| ==> records[i] == records[1..][i - 1];
      if records[0].lastUsedDate >= later then records[0].lastUsedDate else later
  }

  /** The activity threshold: `days` days before the latest date, which is the date of some record
      and not exceeded by any record. */
  function Cutoff(records: seq<Activity>, days: int): (cutoff: Timestamp)
    requires |records| > 0
    ensures exists i :: 0 <= i < |records| && records[i].lastUsedDate == cutoff + days * MicrosPerDay
    ensures forall i :: 0 <= i < |records| ==> records[i].lastUsedDate <= cutoff + days * MicrosPerDay
  {
    MaxLastUsed(records) - days * MicrosPerDay
  }

  /** The users with a record dated strictly before `cutoff`: every such record contributes its
      user, and every user in the set has such a record. */
  function IdsBefore(records: seq<Activity>, cutoff: Timestamp): (ids: set<UserId>)
    ensures forall i :: 0 <= i < |records| && records[i].lastUsedDate < cutoff ==> records[i].userId in ids
    ensures forall u :: u in ids ==>
              exists i :: 0 <= i < |records| && records[i].userId == u && records[i].lastUsedDate < cutoff
    ensures ids <= UserIds(records)
  {
    set i | 0 <= i < |records| && records[i].lastUsedDate < cutoff :: records[i].userId
  }

  /** The users with a record dated at or after `cutoff`: every such record contributes its user,
      and every user in the set has such a record. */
  function IdsFrom(records: seq<Activity>, cutoff: Timestamp): (ids: set<UserId>)
    ensures forall i :: 0 <= i < |records| && records[i].lastUsedDate >= cutoff ==> records[i].userId in ids
    ensures forall u :: u in ids ==>
              exists i :: 0 <= i < |records| && records[i].userId == u && records[i].lastUsedDate >= cutoff
    ensures ids <= UserIds(records)
  {
    set i | 0 <= i < |records| && records[i].lastUsedDate >= cutoff :: records[i].userId
  }

  /** A subset is no larger than its superset. */
  lemma {:induction false} SubsetCard<T>(a: set<T>, b: set<T>)
    requires a <= b
    ensures |a| <= |b|
  {
    assert b == a + (b - a);
  }

  /** `rate` percent of `total` is `inactive`, and the rate lies between 0 and 100. */
  predicate IsShare(rate: real, inactive: nat, total: nat)
  {
    && rate * (total as real) == 100.0 * (inactive as real)
    && 0.0 <= rate <= 100.0
  }

  /** The share of `inactive` among `total`, in percent. */
  function Percent(inactive: nat, total: nat): (rate: real)
    requires 0 < total && inactive <= total
    ensures IsShare(rate, inactive, total)
  {
    var q := (inactive as real) / (total as real);
    assert q * (total as real) == inactive as real;
    assert q <= 1.0;
    q * 100.0
  }

  /** The two classes together cover every user of the data. */
  lemma ClassesCoverUsers(records: seq<Activity>, cutoff: Timestamp)
    ensures IdsFrom(records, cutoff) + IdsBefore(records, cutoff) == UserIds(records)
  {
  }

  /** Classify the data against a window of `days` days. */
  function CalculateChurnRate(records: seq<Activity>, days: int): (res: Result<ChurnResult, ChurnError>)
    ensures res.Failure? <==> |records| == 0
    ensures res.Success? ==>
              var c := res.value;
              && c.totalUsers == |UserIds(records)| > 0
              && c.activeUserIds + c.inactiveUserIds == UserIds(records)
              && c.inactiveUsers == |c.inactiveUserIds|
              && c.activeUsers + c.inactiveUsers == c.totalUsers
              && IsShare(c.churnRate, c.inactiveUsers, c.totalUsers)
    ensures res.Success? ==>
              forall i :: 0 <= i < |records| ==>
                && (records[i].lastUsedDate < Cutoff(records, days) ==> records[i].userId in res.value.inactiveUserIds)
                && (records[i].lastUsedDate >= Cutoff(records, days) ==> records[i].userId in res.value.activeUserIds)
    ensures res.Success? ==>
              forall u :: u in res.value.inactiveUserIds ==>
                exists i :: 0 <= i < |records| && records[i].userId == u && records[i].lastUsedDate < Cutoff(records, days)
    ensures res.Success? ==>
              forall u :: u in res.value.activeUserIds ==>
                exists i :: 0 <= i < |records| && records[i].userId == u && records[i].lastUsedDate >= Cutoff(records, days)
  {
    if |records| == 0 then Failure(EmptyDataset)
    else
      var cutoff := Cutoff(records, days);
      var inactiveIds := IdsBefore(records, cutoff);
      var activeIds := IdsFrom(records, cutoff);
      var total := |UserIds(records)|;
      var inactive := |inactiveIds|;
      assert records[0].userId in UserIds(records);
      assert |UserIds(records)| > 0;
      ClassesCoverUsers(records, cutoff);
      SubsetCard(inactiveIds, UserIds(records));
      Success(ChurnResult(Percent(inactive, total), total, inactive, total - inactive, activeIds, inactiveIds))
  }

  /* ---------- Properties of a classification ---------- */

  /** Once every user has a single record, no user is both active and inactive, the active count is
      the number of active ids, and every record is one user. */
  lemma ClassesPartitionUsers(records: seq<Activity>, days: int)
    requires UniqueIds(records) && |records| > 0
    ensures var c := CalculateChurnRate(records, days).value;
            && c.activeUserIds !! c.inactiveUserIds
            && c.activeUsers == |c.activeUserIds|
            && c.totalUsers == |records|
  {
    var c := CalculateChurnRate(records, days).value;
    var cutoff := Cutoff(records, days);
    forall u | u in c.activeUserIds
      ensures u !in c.inactiveUserIds
    {
      var i :| 0 <= i < |records| && records[i].lastUsedDate >= cutoff && records[i].userId == u;
    }
    assert |c.activeUserIds + c.inactiveUserIds| == |c.activeUserIds| + |c.inactiveUserIds|;
    UniqueIdsCount(records);
  }

  /** Once every user has a single record, a user is inactive exactly when its date is before the
      cutoff and active exactly when its date is at or after it. */
  lemma ClassifiedByCutoff(records: seq<Activity>, days: int, i: int)
    requires UniqueIds(records) && 0 <= i < |records|
    ensures var c := CalculateChurnRate(records, days).value;
            && (records[i].userId in c.inactiveUserIds <==> records[i].lastUsedDate < Cutoff(records, days))
            && (records[i].userId in c.activeUserIds <==> records[i].lastUsedDate >= Cutoff(records, days))
  {
  }

  /** A user dated exactly at the cutoff is active and, with one record per user, never inactive. */
  lemma CutoffBoundaryIsActive(records: seq<Activity>, days: int, i: int)
    requires 0 <= i < |records| && records[i].lastUsedDate == Cutoff(records, days)
    ensures records[i].userId in CalculateChurnRate(records, days).value.activeUserIds
    ensures UniqueIds(records) ==> records[i].userId !in CalculateChurnRate(records, days).value.inactiveUserIds
  {
  }
}
