# Churn analyzer — a Dafny model of the analysis pipeline

The churn analyzer reads two tables: the users currently flagged active and the
log of refresh-token uses. It computes which users have gone quiet. This project
models the analysis itself, which is the `ChurnAnalyzer` class minus its database
and console code:

- **Cleaning** (`_clean_data`). Every refresh-token date is parsed, and a date that
  does not parse becomes missing rather than an error. The active users are
  inner-joined with the token rows on the user id. Rows with a missing date are
  dropped. Duplicates by user id are removed, keeping the **last** row of each user
  in joined order.
- **Classification** (`calculate_churn_rate`). The cutoff is the latest date minus
  `days` days. Users dated strictly before the cutoff are inactive, and users at or
  after it are active. The summary holds the number of distinct users, the inactive
  count, the active count (total minus inactive), the churn rate in percent and both
  id sets.
- **Lookup** (`_check_user_status`). It returns `Active`, `Inactive` or `NotFound`.
  The active ids are looked at first.
- **The run** (the script's entry point). It chains the three steps and returns the
  verdict instead of printing it.

Modules: `Wrappers` (Option/Result), `ChurnData` (rows and id sets), `Cleaner`,
`Classifier`, `StatusLookup`, `Pipeline`.

Timestamps are integers counting microseconds since the Unix epoch, in UTC.
`timedelta(days = d)` is therefore `d * 86_400_000_000`. The date parser is a
parameter `parse: string -> Option<Timestamp>`. User ids are integers.

One might expect each user to keep their most recent date. The code
(`drop_duplicates(keep='last')`, ChAnalyzer.py:78) keeps the last row in joined
order instead, and the model follows the code.
`Cleaner.KeptIsLatestWhenChronological` proves the two agree when each user's
refresh rows are in chronological order. `Cleaner.KeptNeedNotBeLatest` gives an
input on which they differ.

## Model

| member | source | states |
|---|---|---|
| Cleaner.ParseDates | ChAnalyzer.py:75 | every row keeps its user and carries the parse of its own date, a missing value where the date does not parse; no row is added or lost |
| Cleaner.Matches | ChAnalyzer.py:76 | the rows one active-user row is paired with are exactly the token rows of that user |
| Cleaner.Join | ChAnalyzer.py:76 | a row survives the inner join exactly when it is a token row whose user is in the active-users table |
| Cleaner.DropMissing | ChAnalyzer.py:77 | the result has a (user, date) record exactly when a joined row of that user carries that date as a parsed value; no record lacks a date |
| Cleaner.LastTime | ChAnalyzer.py:78 | a user has a last date exactly when it has a record, and that date belongs to one of its records |
| Cleaner.LastTimeAt | ChAnalyzer.py:78 | a record with no later record of the same user is the one whose date is reported as the user's last |
| Cleaner.LastTimeIsLastRecord | ChAnalyzer.py:78 | conversely, the reported last date is that of a record followed by no record of the same user |
| Cleaner.DedupLast | ChAnalyzer.py:78 | after deduplication every user occurs once, the set of users is unchanged, and each surviving record is its user's last record |
| Cleaner.CleanData | ChAnalyzer.py:58-79 | the cleaned data has at most one record per user |
| Cleaner.LastTimeJoin | ChAnalyzer.py:76-77 | after the join and the dropping of missing dates, an active user's last date equals its last parsed date in the token table; a user who is not active has none |
| Cleaner.ParsedIds | ChAnalyzer.py:75 | a user has a parsed token row exactly when one of its raw rows has a date that parses |
| Cleaner.ParsedLastAt | ChAnalyzer.py:75-78 | the last raw row of a user whose date parses supplies that user's last parsed date |
| Cleaner.CleanedUsers | ChAnalyzer.py:75-77 | a user is in the cleaned data exactly when it is in the active-users table and has a refresh row whose date parses; users missing from either table are absent |
| Cleaner.CleanedKeepsLastParsedRow | ChAnalyzer.py:75-78 | a cleaned record's date is the date of its user's last refresh row whose date parses, in table order |
| Cleaner.KeptIsLatestWhenChronological | ChAnalyzer.py:78 | if each user's parseable dates never decrease along the table, the kept date is at least every parsed date of that user |
| Cleaner.KeptNeedNotBeLatest | ChAnalyzer.py:78 | a user with rows dated 200 then 100 is kept with 100, so keeping the last row does not keep the greatest date |
| ChurnData.UniqueIdsCount | ChAnalyzer.py:99 | with one record per user, the number of distinct users equals the number of records |
| Classifier.MaxLastUsed | ChAnalyzer.py:97 | the latest date is at least every record's date and is some record's date |
| Classifier.Cutoff | ChAnalyzer.py:97 | the cutoff lies exactly `days` days before some record's date, and no record is dated later than that |
| Classifier.IdsBefore | ChAnalyzer.py:98 | a user is in the set exactly when it has a record dated strictly before the cutoff, so only users of the data appear |
| Classifier.IdsFrom | ChAnalyzer.py:102 | a user is in the set exactly when it has a record dated at or after the cutoff, so only users of the data appear |
| Classifier.Percent | ChAnalyzer.py:100 | the rate times the total is 100 times the inactive count, and it lies between 0 and 100 |
| Classifier.ClassesCoverUsers | ChAnalyzer.py:102-103 | the active and inactive id sets together are all the users of the data |
| Classifier.CalculateChurnRate | ChAnalyzer.py:81-114 | fails exactly on empty data; otherwise the total is the number of distinct users (positive), the two id sets cover all users, the inactive count is the size of the inactive set, active plus inactive is the total, and the rate is the inactive share in percent, between 0 and 100; for any data, each record before the cutoff puts its user among the inactive ids and each record at or after it among the active ids, and every id in either set has a record on that side of the cutoff |
| Classifier.ClassesPartitionUsers | ChAnalyzer.py:98-109 | with one record per user the two id sets are disjoint, the active count is the size of the active set, and the total is the number of records |
| Classifier.ClassifiedByCutoff | ChAnalyzer.py:97-103 | with one record per user, a user is inactive exactly when its date is strictly before the cutoff and active exactly when it is at or after it |
| Classifier.CutoffBoundaryIsActive | ChAnalyzer.py:97-103 | a user dated exactly at the cutoff is active and, with one record per user, never inactive |
| StatusLookup.CheckUserStatus | ChAnalyzer.py:127-135 | the verdict is Active exactly for ids in the active set; Inactive exactly for ids in the inactive set but not the active set; NotFound exactly for ids in neither |
| StatusLookup.StatusOfClassified | ChAnalyzer.py:97-135 | on a classification of one-record-per-user data, NotFound means the user has no record; otherwise the verdict is Inactive when the user's date is before the cutoff and Active when it is not |
| Pipeline.Analyze | ChAnalyzer.py:137-142 | the run, taken without the column drop at lines 73-74, fails exactly when cleaning leaves no record; otherwise the total is the number of cleaned records |
| Pipeline.AnalyzeFailsIffNobodyClassifiable | ChAnalyzer.py:75-100 | the run aborts exactly when no active user has a refresh row whose date parses |
| Pipeline.AnalyzeStatus | ChAnalyzer.py:137-142 | a successful run reports NotFound exactly for users that are not active or have no parseable row; for the others it compares the date of their last parseable row with the cutoff |
| Pipeline.ExampleCleaned | ChAnalyzer.py:75-78 | on three active users with one row each, cleaning keeps all three with their dates |
| Pipeline.ExampleClassified | ChAnalyzer.py:97-109 | for users dated 10, 100 and 120 days before time 0, the latest date is the first user's, so a 90-day window gives a cutoff 100 days before time 0; two users are active, one is inactive, and the rate is 100/3 percent |
| Pipeline.WorkedExample | ChAnalyzer.py:137-142 | on that example, the user at the cutoff is Active, the user before it is Inactive, and an unknown id is NotFound |

## Left out

- Loading the tables (`_load_data`, ChAnalyzer.py:21-56) is left out. It opens a PostgreSQL connection, runs two queries and builds data frames, all through foreign libraries. The two tables are parameters instead.
- Reading the connection settings from the environment (`__init__`, ChAnalyzer.py:10-19) is configuration only and is left out.
- The column drop at ChAnalyzer.py:73-74 is left out. It names columns that the data frame built at line 51 does not have, and `drop` raises `KeyError` on missing columns by default. Line 51 itself raises `ValueError` whenever the query returns more than two columns. So the script as written never reaches line 75. The model starts from the `(UserId, LastUsedDate)` projection, and everything it states about the cleaning step and the whole run (`Pipeline.Analyze`, `Pipeline.AnalyzeFailsIffNobodyClassifiable`, `Pipeline.AnalyzeStatus`) describes the program with lines 73-74 removed.
- The timestamp format `'%Y-%m-%d %H:%M:%S.%f%z'` is not modelled. Its parsing rules belong to the data-frame library, so the parser is an abstract parameter returning `None` for an unparseable date.
- Time-zone offsets are not modelled. Parsed dates are assumed to be normalised to one UTC microsecond scale.
- `round(..., 2)` on the floating-point rate (ChAnalyzer.py:100) is left out. The rate is kept as an exact real, `inactive / total * 100`.
- The order of the id arrays returned by `unique()` is not modelled. The model uses sets, because the lookup only tests membership.
- Row order of the inner join: the model emits, for each active-user row in order, its matching token rows in order. Older versions of the data-frame library group the output by key instead. This changes only the order of the cleaned records. Each user's kept date is the same either way: it is the last parseable token row of that user.
- Printing the verdict (ChAnalyzer.py:131-135) is left out, and the verdict is returned instead. The fixed example arguments of the entry point (ChAnalyzer.py:141-142) become the `days` and `target` parameters.
- Range limits of the date type and of `timedelta` are not modelled. Integers are unbounded here.
- Classifier.ClassesPartitionUsers: disjointness and `activeUsers == |activeUserIds|` are proved only for data with one record per user. The classifier itself accepts any data. With duplicate users, one user can land in both sets, and the code's arithmetic does the same. Cleaning always provides unique users.
