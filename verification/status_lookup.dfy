/**
 Reporting one user's status from a classification (`_check_user_status`),
 as a value instead of a printed line.
 */
module StatusLookup {
  import opened ChurnData
  import opened Classifier

  datatype Status = Active | Inactive | NotFound

  /** Look the user up among the active ids first, then among the inactive ids. */
  function CheckUserStatus(result: ChurnResult, target: UserId): (status: Status)
    ensures status == Active <==> target in result.activeUserIds
    ensures status == Inactive <==> target !in result.activeUserIds && target in result.inactiveUserIds
    ensures status == NotFound <==> target !in result.activeUserIds + result.inactiveUserIds
  {
    if target in result.activeUserIds then Active
    else if target in result.inactiveUserIds then Inactive
    else NotFound
  }

  /** On a classification of data with one record per user, the lookup reports the class the user's
      record falls in by the cutoff rule, and NotFound exactly for users without a record. */
  lemma StatusOfClassified(records: seq<Activity>, days: int, target: UserId)
    requires UniqueIds(records) && |records| > 0
    ensures var status := CheckUserStatus(CalculateChurnRate(records, days).value, target);
            && (status == NotFound <==> target !in UserIds(records))
            && (forall i :: 0 <= i < |records| && records[i].userId == target ==>
                  status == (if records[i].lastUsedDate < Cutoff(records, days) then Inactive else Active))
  {
  }
}
