/**
 Cleaning and joining the two tables (`_clean_data`).

 The steps run in the order `_clean_data` runs them: parse every refresh-token date, inner-join
 the active users with the refresh-token rows on the user id, drop the rows
 whose date did not parse, and keep only the LAST row of each user in the
 joined order. The parser itself is a parameter: its format rules belong to a
 library this model does not see.
 */
module Cleaner {
  import opened Wrappers
  import opened ChurnData

  /** Parse every row's date; a date that does not parse becomes `None` instead of failing. */
  function ParseDates(tokens: seq<RefreshToken>, parse: string -> Option<Timestamp>): (rows: seq<TokenRow>)
    ensures |rows| == |tokens|
    ensures forall i :: 0 <= i < |tokens| ==>
              rows[i].userId == tokens[i].userId && rows[i].lastUsedDate == parse(tokens[i].lastUsedDate)
  {
    if |tokens| == 0 then []
    else [TokenRow(tokens[0].userId, parse(tokens[0].lastUsedDate))] + ParseDates(tokens[1..], parse)
  }

  /** The rows of user `u`, in table order: what one active-user row is paired with by the join. */
  function Matches(u: UserId, rows: seq<TokenRow>): (m: seq<TokenRow>)
    ensures forall r :: r in m <==> r in rows && r.userId == u
  {
    if |rows| == 0 then []
    else if rows[0].userId == u then [rows[0]] + Matches(u, rows[1..])
    else Matches(u, rows[1..])
  }

  /** Inner join on the user id: for each active-user row in order, each matching token row in order. */
  function Join(users: seq<ActiveUser>, rows: seq<TokenRow>): (joined: seq<TokenRow>)
    ensures forall r :: r in joined <==> r in rows && r.userId in ActiveIds(users)
  {
    if |users| == 0 then []
    else
      ActiveIdsCons(users);
      Matches(users[0].userId, rows) + Join(users[1..], rows)
  }

  /** Drop the rows whose date is missing. */
  function DropMissing(rows: seq<TokenRow>): (records: seq<Activity>)
    ensures |records| <= |rows|
    ensures forall u, t :: Activity(u, t) in records <==> TokenRow(u, Some(t)) in rows
  {
    if |rows| == 0 then []
    else
      var rest := DropMissing(rows[1..]);
      assert rows == [rows[0]] + rows[1..];
      match rows[0].lastUsedDate
      case Some(t) => [Activity(rows[0].userId, t)] + rest
      case None => rest
  }

  /** The date of the last record of user `u`, or `None` when `u` has no record. */
  function LastTime(records: seq<Activity>, u: UserId): (t: Option<Timestamp>)
    ensures t.Some? <==> u in UserIds(records)
    ensures t.Some? ==> Activity(u, t.value) in records
  {
    if |records| == 0 then None
    else
      UserIdsCons(records);
      var later := LastTime(records[1..], u);
      if later.Some? then later
      else if records[0].userId == u then Some(records[0].lastUsedDate)
      else None
  }

  /** Deduplicate by user, keeping the last record of each user. */
  function DedupLast(records: seq<Activity>): (kept: seq<Activity>)
    ensures UniqueIds(kept)
    ensures UserIds(kept) == UserIds(records)
    ensures forall k :: 0 <= k < |kept| ==> LastTime(records, kept[k].userId) == Some(kept[k].lastUsedDate)
  {
    if |records| == 0 then []
    else
      UserIdsCons(records);
      var rest := DedupLast(records[1..]);
      if records[0].userId in UserIds(records[1..]) then rest
      else
        var kept := [records[0]] + rest;
        UserIdsCons(kept);
        assert kept[1..] == rest;
        kept
  }

  /** The refresh-token table with its unparseable rows removed. */
  function Parsed(tokens: seq<RefreshToken>, parse: string -> Option<Timestamp>): seq<Activity>
  {
    DropMissing(ParseDates(tokens, parse))
  }

  /** The whole cleaning step: parse, join, drop missing dates, keep each user's last row. */
  function CleanData(tokens: seq<RefreshToken>, users: seq<ActiveUser>, parse: string -> Option<Timestamp>): (cleaned: seq<Activity>)
    ensures UniqueIds(cleaned)
  {
    DedupLast(DropMissing(Join(users, ParseDates(tokens, parse))))
  }

  /* ---------- What "last" means ---------- */

  /** A record with no later record of the same user is the one `LastTime` reports. */
  lemma {:induction false} LastTimeAt(records: seq<Activity>, u: UserId, i: int)
    requires 0 <= i < |records| && records[i].userId == u
    requires forall j :: i < j < |records| ==> records[j].userId != u
    ensures LastTime(records, u) == Some(records[i].lastUsedDate)
  {
    var rest := records[1..];
    if i > 0 {
      forall j | i - 1 < j < |rest|
        ensures rest[j].userId != u
      {
        assert rest[j] == records[j + 1];
      }
      LastTimeAt(rest, u, i - 1);
    }
  }

  /** Conversely, what `LastTime` reports is the date of a record with no later record of that user. */
  lemma {:induction false} LastTimeIsLastRecord(records: seq<Activity>, u: UserId)
    requires LastTime(records, u).Some?
    ensures exists i :: 0 <= i < |records| && records[i] == Activity(u, LastTime(records, u).value)
                        && forall j :: i < j < |records| ==> records[j].userId != u
  {
    var rest := records[1..];
    var later := LastTime(rest, u);
    if later.Some? {
      LastTimeIsLastRecord(rest, u);
      var i :| 0 <= i < |rest| && rest[i] == Activity(u, later.value)
                && forall j :: i < j < |rest| ==> rest[j].userId != u;
      assert records[i + 1] == rest[i];
      forall j | i + 1 < j < |records|
        ensures records[j].userId != u
      {
        assert records[j] == rest[j - 1];
      }
    } else {
      assert records[0] == Activity(u, LastTime(records, u).value);
      forall j | 0 < j < |records|
        ensures records[j].userId != u
      {
        assert records[j] == rest[j - 1];
      }
    }
  }

  /** The last record of a concatenation comes from the right part whenever it has one. */
  lemma {:induction false} LastTimeAppend(a: seq<Activity>, b: seq<Activity>, u: UserId)
    ensures LastTime(a + b, u) == if LastTime(b, u).Some? then LastTime(b, u) else LastTime(a, u)
  {
    if |a| == 0 {
      assert a + b == b;
    } else {
      assert (a + b)[1..] == a[1..] + b;
      LastTimeAppend(a[1..], b, u);
    }
  }

  /* ---------- The join does not change any user's last parsed date ---------- */

  /** Dropping missing dates distributes over concatenation. */
  lemma {:induction false} DropMissingAppend(a: seq<TokenRow>, b: seq<TokenRow>)
    ensures DropMissing(a + b) == DropMissing(a) + DropMissing(b)
  {
    if |a| == 0 {
      assert a + b == b;
    } else {
      assert (a + b)[1..] == a[1..] + b;
      DropMissingAppend(a[1..], b);
    }
  }

  /** The rows one active-user row pairs with carry exactly that user's last parsed date. */
  lemma {:induction false} LastTimeMatches(v: UserId, rows: seq<TokenRow>, u: UserId)
    ensures LastTime(DropMissing(Matches(v, rows)), u)
            == if v == u then LastTime(DropMissing(rows), u) else None
  {
    if |rows| > 0 {
      var head := DropMissing([rows[0]]);
      assert [rows[0]] + rows[1..] == rows;
      DropMissingAppend([rows[0]], rows[1..]);
      LastTimeAppend(head, DropMissing(rows[1..]), u);
      LastTimeMatches(v, rows[1..], u);
      if rows[0].userId == v {
        DropMissingAppend([rows[0]], Matches(v, rows[1..]));
        LastTimeAppend(head, DropMissing(Matches(v, rows[1..])), u);
      }
    }
  }

  /** After the join, a user's last parsed date is its last parsed date in the token table if the
      user is active, and there is none otherwise. */
  lemma {:induction false} LastTimeJoin(users: seq<ActiveUser>, rows: seq<TokenRow>, u: UserId)
    ensures LastTime(DropMissing(Join(users, rows)), u)
            == if u in ActiveIds(users) then LastTime(DropMissing(rows), u) else None
  {
    if |users| > 0 {
      ActiveIdsCons(users);
      var m := Matches(users[0].userId, rows);
      var rest := Join(users[1..], rows);
      DropMissingAppend(m, rest);
      LastTimeAppend(DropMissing(m), DropMissing(rest), u);
      LastTimeMatches(users[0].userId, rows, u);
      LastTimeJoin(users[1..], rows, u);
    }
  }

  /* ---------- The parsed token table, seen through the raw rows ---------- */

  /** A user has a parsed row exactly when one of its raw rows has a date that parses. */
  lemma ParsedIds(tokens: seq<RefreshToken>, parse: string -> Option<Timestamp>, u: UserId)
    ensures u in UserIds(Parsed(tokens, parse))
            <==> exists j :: 0 <= j < |tokens| && tokens[j].userId == u && parse(tokens[j].lastUsedDate).Some?
  {
    var rows := ParseDates(tokens, parse);
    var p := Parsed(tokens, parse);
    if u in UserIds(p) {
      var i :| 0 <= i < |p| && p[i].userId == u;
      assert Activity(u, p[i].lastUsedDate) in p;
      var j :| 0 <= j < |rows| && rows[j] == TokenRow(u, Some(p[i].lastUsedDate));
      assert tokens[j].userId == u && parse(tokens[j].lastUsedDate).Some?;
    }
    if exists j :: 0 <= j < |tokens| && tokens[j].userId == u && parse(tokens[j].lastUsedDate).Some? {
      var j :| 0 <= j < |tokens| && tokens[j].userId == u && parse(tokens[j].lastUsedDate).Some?;
      var t := parse(tokens[j].lastUsedDate).value;
      assert rows[j] == TokenRow(u, Some(t));
      assert Activity(u, t) in p;
      var i :| 0 <= i < |p| && p[i] == Activity(u, t);
      assert p[i].userId == u;
    }
  }

  /** The last raw row of a user whose date parses gives that user's last parsed date. */
  lemma {:induction false} ParsedLastAt(tokens: seq<RefreshToken>, parse: string -> Option<Timestamp>, j: int)
    requires 0 <= j < |tokens| && parse(tokens[j].lastUsedDate).Some?
    requires forall k :: j < k < |tokens| && tokens[k].userId == tokens[j].userId ==> parse(tokens[k].lastUsedDate).None?
    ensures LastTime(Parsed(tokens, parse), tokens[j].userId) == parse(tokens[j].lastUsedDate)
  {
    var u := tokens[j].userId;
    var rest := tokens[1..];
    var rows := ParseDates(tokens, parse);
    assert rows == [rows[0]] + ParseDates(rest, parse);
    DropMissingAppend([rows[0]], ParseDates(rest, parse));
    LastTimeAppend(DropMissing([rows[0]]), Parsed(rest, parse), u);
    if j == 0 {
      ParsedIds(rest, parse, u);
    } else {
      forall k | j - 1 < k < |rest| && rest[k].userId == u
        ensures parse(rest[k].lastUsedDate).None?
      {
        assert tokens[k + 1] == rest[k];
      }
      ParsedLastAt(rest, parse, j - 1);
    }
  }

  /* ---------- The cleaned data against the raw tables ---------- */

  /** A user is in the cleaned data exactly when it is active and has a refresh row whose date parses. */
  lemma CleanedUsers(tokens: seq<RefreshToken>, users: seq<ActiveUser>, parse: string -> Option<Timestamp>, u: UserId)
    ensures u in UserIds(CleanData(tokens, users, parse))
            <==> u in ActiveIds(users)
                 && exists j :: 0 <= j < |tokens| && tokens[j].userId == u && parse(tokens[j].lastUsedDate).Some?
  {
    LastTimeJoin(users, ParseDates(tokens, parse), u);
    ParsedIds(tokens, parse, u);
  }

  /** Row `j` is the last row of its user in the refresh table whose date parses. */
  predicate IsLastParsedRow(tokens: seq<RefreshToken>, parse: string -> Option<Timestamp>, j: int)
  {
    && 0 <= j < |tokens|
    && parse(tokens[j].lastUsedDate).Some?
    && forall i :: j < i < |tokens| && tokens[i].userId == tokens[j].userId ==> parse(tokens[i].lastUsedDate).None?
  }

  /** The cleaned record of a user carries the date of that user's LAST refresh row whose date
      parses, in refresh-table order (not necessarily the greatest date). */
  lemma CleanedKeepsLastParsedRow(tokens: seq<RefreshToken>, users: seq<ActiveUser>, parse: string -> Option<Timestamp>,
                                  k: int, j: int)
    requires 0 <= k < |CleanData(tokens, users, parse)|
    requires IsLastParsedRow(tokens, parse, j) && tokens[j].userId == CleanData(tokens, users, parse)[k].userId
    ensures parse(tokens[j].lastUsedDate) == Some(CleanData(tokens, users, parse)[k].lastUsedDate)
  {
    var cleaned := CleanData(tokens, users, parse);
    LastTimeJoin(users, ParseDates(tokens, parse), cleaned[k].userId);
    ParsedLastAt(tokens, parse, j);
  }

  /* ---------- "Last" versus "greatest" ---------- */

  /** Every raw row whose date parses is followed, possibly by itself, by a last such row of its user. */
  lemma {:induction false} LastParsedRowExists(tokens: seq<RefreshToken>, parse: string -> Option<Timestamp>, j: int)
    requires 0 <= j < |tokens| && parse(tokens[j].lastUsedDate).Some?
    ensures exists l :: j <= l < |tokens| && tokens[l].userId == tokens[j].userId && IsLastParsedRow(tokens, parse, l)
    decreases |tokens| - j
  {
    if exists i :: j < i < |tokens| && tokens[i].userId == tokens[j].userId && parse(tokens[i].lastUsedDate).Some? {
      var i :| j < i < |tokens| && tokens[i].userId == tokens[j].userId && parse(tokens[i].lastUsedDate).Some?;
      LastParsedRowExists(tokens, parse, i);
    }
  }

  /** Each user's parseable refresh dates never decrease along the table. */
  predicate Chronological(tokens: seq<RefreshToken>, parse: string -> Option<Timestamp>)
  {
    forall i, j :: 0 <= i < j < |tokens| && tokens[i].userId == tokens[j].userId
                   && parse(tokens[i].lastUsedDate).Some? && parse(tokens[j].lastUsedDate).Some?
                   ==> parse(tokens[i].lastUsedDate).value <= parse(tokens[j].lastUsedDate).value
  }

  /** Keeping the last row yields the greatest date of the user when the refresh table lists
      each user's dates in chronological order. */
  lemma KeptIsLatestWhenChronological(tokens: seq<RefreshToken>, users: seq<ActiveUser>, parse: string -> Option<Timestamp>,
                                      k: int, j: int)
    requires Chronological(tokens, parse)
    requires 0 <= k < |CleanData(tokens, users, parse)|
    requires 0 <= j < |tokens| && tokens[j].userId == CleanData(tokens, users, parse)[k].userId
    requires parse(tokens[j].lastUsedDate).Some?
    ensures parse(tokens[j].lastUsedDate).value <= CleanData(tokens, users, parse)[k].lastUsedDate
  {
    LastParsedRowExists(tokens, parse, j);
    var l :| j <= l < |tokens| && tokens[l].userId == tokens[j].userId && IsLastParsedRow(tokens, parse, l);
    CleanedKeepsLastParsedRow(tokens, users, parse, k, l);
  }

  /** Out of chronological order, the kept date is not the greatest: a user refreshed at 200 and then
      listed again at 100 is kept with 100. */
  lemma KeptNeedNotBeLatest()
    ensures var tokens := [RefreshToken(7, "late"), RefreshToken(7, "early")];
            var parse := (s: string) => if s == "late" then Some(200) else Some(100);
            CleanData(tokens, [ActiveUser(7)], parse) == [Activity(7, 100)]
  {
  }
}
