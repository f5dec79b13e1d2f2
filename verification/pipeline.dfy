/**
 The whole analysis as the script's entry point runs it: clean the two
 tables, classify with a window of `days` days, and look one user up. Loading
 the tables and printing the verdict are not part of the model; the tables and
 the date parser arrive as parameters and the verdict is returned.
 */
module Pipeline {
  import opened Wrappers
  import opened ChurnData
  import opened Cleaner
  import opened Classifier
  import opened StatusLookup

  /** The classification together with the looked-up user's status. */
  datatype Report = Report(result: ChurnResult, status: Status)

  /** User `u` is active and has a refresh row whose date parses: exactly the users that get classified. */
  predicate Classifiable(tokens: seq<RefreshToken>, users: seq<ActiveUser>, parse: string -> Option<Timestamp>, u: UserId)
  {
    && u in ActiveIds(users)
    && exists j :: 0 <= j < |tokens| && tokens[j].userId == u && parse(tokens[j].lastUsedDate).Some?
  }

  /** Clean, classify and look `target` up; fails when no user survives cleaning. */
  function Analyze(tokens: seq<RefreshToken>, users: seq<ActiveUser>, parse: string -> Option<Timestamp>,
                   days: int, target: UserId): (res: Result<Report, ChurnError>)
    ensures res.Failure? <==> |CleanData(tokens, users, parse)| == 0
    ensures res.Success? ==> res.value.result.totalUsers == |CleanData(tokens, users, parse)|
  {
    var cleaned := CleanData(tokens, users, parse);
    match CalculateChurnRate(cleaned, days)
    case Failure(e) => Failure(e)
    case Success(result) =>
      UniqueIdsCount(cleaned);
      Success(Report(result, CheckUserStatus(result, target)))
  }

  /** The run aborts exactly when no active user has a refresh row whose date parses. */
  lemma AnalyzeFailsIffNobodyClassifiable(tokens: seq<RefreshToken>, users: seq<ActiveUser>,
                                          parse: string -> Option<Timestamp>, days: int, target: UserId)
    ensures Analyze(tokens, users, parse, days, target).Failure?
            <==> forall u :: !Classifiable(tokens, users, parse, u)
  {
    var cleaned := CleanData(tokens, users, parse);
    if |cleaned| > 0 {
      var u := cleaned[0].userId;
      assert u in UserIds(cleaned);
      CleanedUsers(tokens, users, parse, u);
      assert Classifiable(tokens, users, parse, u);
    } else {
      forall u
        ensures !Classifiable(tokens, users, parse, u)
      {
        CleanedUsers(tokens, users, parse, u);
      }
    }
  }

  /** A successful run reports NotFound exactly for users that cannot be classified; for the others it
      compares the date of their last parseable refresh row with the cutoff. */
  lemma AnalyzeStatus(tokens: seq<RefreshToken>, users: seq<ActiveUser>, parse: string -> Option<Timestamp>,
                      days: int, target: UserId)
    ensures Analyze(tokens, users, parse, days, target).Success? ==>
            var status := Analyze(tokens, users, parse, days, target).value.status;
            && (status == NotFound <==> !Classifiable(tokens, users, parse, target))
            && forall j :: IsLastParsedRow(tokens, parse, j) && tokens[j].userId == target && target in ActiveIds(users) ==>
                 status == (if parse(tokens[j].lastUsedDate).value < Cutoff(CleanData(tokens, users, parse), days)
                            then Inactive else Active)
  {
    var cleaned := CleanData(tokens, users, parse);
    if |cleaned| == 0 {
      return;
    }
    CleanedUsers(tokens, users, parse, target);
    StatusOfClassified(cleaned, days, target);
    forall j | IsLastParsedRow(tokens, parse, j) && tokens[j].userId == target && target in ActiveIds(users)
      ensures Analyze(tokens, users, parse, days, target).value.status
              == (if parse(tokens[j].lastUsedDate).value < Cutoff(cleaned, days) then Inactive else Active)
    {
      var k :| 0 <= k < |cleaned| && cleaned[k].userId == target;
      CleanedKeepsLastParsedRow(tokens, users, parse, k, j);
    }
  }

  /* ---------- A worked example ---------- */

  /** Three active users with one refresh row each, last seen 10, 100 and 120 days before time 0. */
  function ExampleTokens(): seq<RefreshToken>
  {
    [RefreshToken(1, "A"), RefreshToken(2, "B"), RefreshToken(3, "C")]
  }

  function ExampleUsers(): seq<ActiveUser>
  {
    [ActiveUser(1), ActiveUser(2), ActiveUser(3)]
  }

  function ExampleParse(s: string): Option<Timestamp>
  {
    if s == "A" then Some(-10 * MicrosPerDay)
    else if s == "B" then Some(-100 * MicrosPerDay)
    else if s == "C" then Some(-120 * MicrosPerDay)
    else None
  }

  function ExampleRecords(): seq<Activity>
  {
    [Activity(1, -10 * MicrosPerDay), Activity(2, -100 * MicrosPerDay), Activity(3, -120 * MicrosPerDay)]
  }

  /** The example's refresh rows once parsed. */
  function ExampleRows(): seq<TokenRow>
  {
    [TokenRow(1, Some(-10 * MicrosPerDay)), TokenRow(2, Some(-100 * MicrosPerDay)), TokenRow(3, Some(-120 * MicrosPerDay))]
  }

  lemma ExampleParsed()
    ensures ParseDates(ExampleTokens(), ExampleParse) == ExampleRows()
  {
  }

  lemma ExampleJoined()
    ensures Join(ExampleUsers(), ExampleRows()) == ExampleRows()
  {
  }

  lemma ExampleDropped()
    ensures DropMissing(ExampleRows()) == ExampleRecords()
  {
  }

  lemma ExampleDeduplicated()
    ensures DedupLast(ExampleRecords()) == ExampleRecords()
  {
  }

  /** Cleaning the example keeps every user with its only date. */
  lemma ExampleCleaned()
    ensures CleanData(ExampleTokens(), ExampleUsers(), ExampleParse) == ExampleRecords()
  {
    ExampleParsed();
    ExampleJoined();
    ExampleDropped();
    ExampleDeduplicated();
  }

  /** With a 90-day window the cutoff is 100 days before time 0: the user seen exactly then stays
      active, only the third user is inactive, and the rate is one in three. */
  lemma ExampleClassified()
    ensures CalculateChurnRate(ExampleRecords(), 90)
            == Success(ChurnResult(100.0 / 3.0, 3, 1, 2, {1, 2}, {3}))
  {
    var recs := ExampleRecords();
    ExampleCutoff();
    ExampleClasses();
    assert |{1, 2, 3}| == 3 && |{3}| == 1;
    ExamplePercent();
    assert CalculateChurnRate(recs, 90)
           == Success(ChurnResult(Percent(1, 3), |UserIds(recs)|, |{3}|, |UserIds(recs)| - |{3}|, {1, 2}, {3}));
  }

  lemma ExamplePercent()
    ensures Percent(1, 3) == 100.0 / 3.0
  {
  }

  lemma ExampleCutoff()
    ensures Cutoff(ExampleRecords(), 90) == -100 * MicrosPerDay
  {
  }

  lemma ExampleClasses()
    ensures IdsBefore(ExampleRecords(), -100 * MicrosPerDay) == {3}
    ensures IdsFrom(ExampleRecords(), -100 * MicrosPerDay) == {1, 2}
    ensures UserIds(ExampleRecords()) == {1, 2, 3}
  {
    var recs := ExampleRecords();
    var cutoff := -100 * MicrosPerDay;
    assert recs[2].lastUsedDate < cutoff && recs[0].lastUsedDate >= cutoff && recs[1].lastUsedDate >= cutoff;
    assert recs[0].userId == 1 && recs[1].userId == 2 && recs[2].userId == 3;
  }

  /** The run on the example reports the example's classification, whatever user is looked up. */
  lemma ExampleRun(target: UserId)
    ensures Analyze(ExampleTokens(), ExampleUsers(), ExampleParse, 90, target)
            == Success(Report(ChurnResult(100.0 / 3.0, 3, 1, 2, {1, 2}, {3}),
                              CheckUserStatus(ChurnResult(100.0 / 3.0, 3, 1, 2, {1, 2}, {3}), target)))
  {
    ExampleCleaned();
    ExampleClassified();
  }

  /** The whole run on the example: user 2 (at the cutoff) is Active, user 3 Inactive, and user 4,
      who has no data, NotFound. */
  lemma WorkedExample()
    ensures Analyze(ExampleTokens(), ExampleUsers(), ExampleParse, 90, 2)
            == Success(Report(ChurnResult(100.0 / 3.0, 3, 1, 2, {1, 2}, {3}), Active))
    ensures Analyze(ExampleTokens(), ExampleUsers(), ExampleParse, 90, 3).value.status == Inactive
    ensures Analyze(ExampleTokens(), ExampleUsers(), ExampleParse, 90, 4).value.status == NotFound
  {
    ExampleRun(2);
    ExampleRun(3);
    ExampleRun(4);
  }
}
