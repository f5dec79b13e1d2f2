/**
 The rows the churn analysis works on.

 Identifiers are integers (the analysis is asked about numeric user ids), and a
 timestamp is the number of microseconds since the Unix epoch in UTC, the
 resolution of both PostgreSQL timestamps and Python `datetime` values.
 */
module ChurnData {
  import opened Wrappers

  type UserId = int
  type Timestamp = int

  /** Length of `timedelta(days = 1)` in timestamp units (microseconds). */
  const MicrosPerDay: int := 86_400_000_000

  /** A row of the active-users table. */
  datatype ActiveUser = ActiveUser(userId: UserId)

  /** A row of the refresh-token table, projected onto the two columns the analysis reads;
      the last-used date is still the text the database returned. */
  datatype RefreshToken = RefreshToken(userId: UserId, lastUsedDate: string)

  /** A refresh-token row after its date was parsed; `None` marks a date that did not parse. */
  datatype TokenRow = TokenRow(userId: UserId, lastUsedDate: Option<Timestamp>)

  /** A user's activity record in the cleaned data: a user and a parsed last-used date. */
  datatype Activity = Activity(userId: UserId, lastUsedDate: Timestamp)

  /** The identifiers of the active-users table. */
  function ActiveIds(users: seq<ActiveUser>): set<UserId>
  {
    set i | 0 <= i < |users| :: users[i].userId
  }

  /** The distinct identifiers of a sequence of activity records (`df['UserId'].unique()`). */
  function UserIds(records: seq<Activity>): set<UserId>
  {
    set i | 0 <= i < |records| :: records[i].userId
  }

  /** No identifier occurs twice. */
  predicate UniqueIds(records: seq<Activity>)
  {
    forall i, j :: 0 <= i < j < |records| ==> records[i].userId != records[j].userId
  }

  /** Peeling off the first record splits its identifier from the rest. */
  lemma UserIdsCons(records: seq<Activity>)
    requires |records| > 0
    ensures UserIds(records) == {records[0].userId} + UserIds(records[1..])
  {
  }

  /** The same for the active-users table. */
  lemma ActiveIdsCons(users: seq<ActiveUser>)
    requires |users| > 0
    ensures ActiveIds(users) == {users[0].userId} + ActiveIds(users[1..])
  {
  }

  /** With unique identifiers there are exactly as many distinct users as records. */
  lemma {:induction false} UniqueIdsCount(records: seq<Activity>)
    requires UniqueIds(records)
    ensures |UserIds(records)| == |records|
  {
    if |records| > 0 {
      var rest := records[1..];
      assert UniqueIds(rest) by {
        forall i, j | 0 <= i < j < |rest|
          ensures rest[i].userId != rest[j].userId
        {
          assert rest[i] == records[i + 1] && rest[j] == records[j + 1];
        }
      }
      UniqueIdsCount(rest);
      UserIdsCons(records);
    }
  }
}
