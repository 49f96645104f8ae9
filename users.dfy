/**
 * The `users` table as a sequence of rows in table order, and the effect of
 * each SQL statement the bot runs against it.
 */
module Users {
  import opened Wrappers
  import opened Calendar

  /** One row: `user_id` (unique), `username`, `first_name`, `birthday`, `last_sent`. */
  datatype User = User(userId: int, username: Option<string>, firstName: string,
                       birthday: Date, lastSent: Option<Date>)

  /** The UNIQUE constraint on `user_id`. */
  predicate UniqueIds(rows: seq<User>) {
    forall i, j :: 0 <= i < j < |rows| ==> rows[i].userId != rows[j].userId
  }

  /** The table invariant: unique ids, and every birthday a real calendar date. */
  predicate ValidRows(rows: seq<User>) {
    UniqueIds(rows) && forall k :: 0 <= k < |rows| ==> ValidDate(rows[k].birthday)
  }

  // ---------------------------------------------------------------------------
  // Lookup by id and the registration upsert
  // ---------------------------------------------------------------------------

  /** Position of the row holding `id`, if any. */
  function FindId(rows: seq<User>, id: int): (r: Option<nat>)
    ensures r.Some? ==> r.value < |rows| && rows[r.value].userId == id
  {
    if |rows| == 0 then None
    else if rows[0].userId == id then Some(0)
    else match FindId(rows[1..], id)
      case None => None
      case Some(k) => Some(k + 1)
  }

  /** The position found is the first holding `id`, and nothing is found only when no row holds it. */
  lemma {:induction false} FindIdFirst(rows: seq<User>, id: int)
    ensures var r := FindId(rows, id);
      (r.Some? ==> forall k :: 0 <= k < r.value ==> rows[k].userId != id) &&
      (r.None? <==> forall k :: 0 <= k < |rows| ==> rows[k].userId != id)
  {
    if |rows| > 0 {
      FindIdFirst(rows[1..], id);
      assert forall k :: 1 <= k < |rows| ==> rows[k] == rows[1..][k - 1];
    }
  }

  function Lookup(rows: seq<User>, id: int): Option<User> {
    match FindId(rows, id)
    case Some(i) => Some(rows[i])
    case None => None
  }

  /**
   * The registration's insert-or-update keyed by `user_id`, which overwrites
   * birthday, first name and username on conflict: a new row gets an
   * unset `last_sent`; an existing row keeps its place and its `last_sent`.
   */
  function Upsert(rows: seq<User>, id: int, username: Option<string>, name: string, birthday: Date): seq<User> {
    match FindId(rows, id)
    case Some(i) => rows[i := rows[i].(username := username, firstName := name, birthday := birthday)]
    case None => rows + [User(id, username, name, birthday, None)]
  }

  /** A row added at the end is found there when no earlier row has its id. */
  lemma {:induction false} FindIdAppended(rows: seq<User>, u: User)
    requires FindId(rows, u.userId).None?
    ensures FindId(rows + [u], u.userId) == Some(|rows|)
  {
    if |rows| > 0 {
      assert (rows + [u])[1..] == rows[1..] + [u];
      FindIdAppended(rows[1..], u);
    }
  }

  /** Where an id is found depends only on the ids, row by row. */
  lemma {:induction false} FindIdSameIds(a: seq<User>, b: seq<User>, id: int)
    requires |a| == |b| && forall k :: 0 <= k < |a| ==> a[k].userId == b[k].userId
    ensures FindId(a, id) == FindId(b, id)
  {
    if |a| > 0 {
      FindIdSameIds(a[1..], b[1..], id);
    }
  }

  /** Rewriting a row in place without changing its id does not move the id's first position. */
  lemma FindIdUpdated(rows: seq<User>, i: nat, u: User)
    requires FindId(rows, u.userId) == Some(i)
    ensures FindId(rows[i := u], u.userId) == Some(i)
  {
    FindIdFirst(rows, u.userId);
    FindIdFirst(rows[i := u], u.userId);
    assert rows[i := u][i].userId == u.userId;
    assert forall k :: 0 <= k < i ==> rows[i := u][k] == rows[k];
  }

  /** A registration for `id` never changes where another id is found. */
  lemma FindIdOther(rows: seq<User>, id: int, username: Option<string>, name: string, birthday: Date, other: int)
    requires other != id
    ensures FindId(Upsert(rows, id, username, name, birthday), other) == FindId(rows, other)
  {
    var r := Upsert(rows, id, username, name, birthday);
    assert forall k :: 0 <= k < |rows| ==> r[k].userId == rows[k].userId;
    assert |rows| <= |r| && forall k :: |rows| <= k < |r| ==> r[k].userId == id;
    FindIdFirst(rows, other);
    FindIdFirst(r, other);
    var a, b := FindId(r, other), FindId(rows, other);
    if a.Some? {
      assert a.value < |rows| && rows[a.value].userId == other;
    }
    if b.Some? {
      assert r[b.value].userId == other;
    }
  }

  /**
   * After a registration exactly one row holds `id`: it carries the new
   * birthday, first name and username, and its `last_sent` is the old row's
   * (unset for a new row). Every other id reads as before.
   */
  lemma UpsertStores(rows: seq<User>, id: int, username: Option<string>, name: string, birthday: Date)
    requires UniqueIds(rows)
    ensures var r := Upsert(rows, id, username, name, birthday);
      UniqueIds(r) &&
      Lookup(r, id) == Some(User(id, username, name, birthday,
                                 match Lookup(rows, id) case Some(u) => u.lastSent case None => None)) &&
      forall other :: other != id ==> Lookup(r, other) == Lookup(rows, other)
  {
    var r := Upsert(rows, id, username, name, birthday);
    FindIdFirst(rows, id);
    match FindId(rows, id) {
      case Some(i) =>
        FindIdUpdated(rows, i, rows[i].(username := username, firstName := name, birthday := birthday));
      case None =>
        FindIdAppended(rows, User(id, username, name, birthday, None));
    }
    forall other | other != id
      ensures Lookup(r, other) == Lookup(rows, other)
    {
      FindIdOther(rows, id, username, name, birthday, other);
      if FindId(rows, other).Some? {
        var j := FindId(rows, other).value;
        assert r[j] == rows[j];
      }
    }
  }

  /**
   * Only the registered row changes: the table grows by one row exactly when
   * `id` was absent, every old row keeps its id and place, and every row with
   * another id is untouched.
   */
  lemma UpsertFrame(rows: seq<User>, id: int, username: Option<string>, name: string, birthday: Date)
    ensures var r := Upsert(rows, id, username, name, birthday);
      |r| == |rows| + (if Lookup(rows, id).None? then 1 else 0) &&
      (forall k :: 0 <= k < |rows| ==> r[k].userId == rows[k].userId) &&
      (forall k :: 0 <= k < |rows| && rows[k].userId != id ==> r[k] == rows[k])
  {
  }

  /** A registration whose values the row for `id` already holds changes nothing. */
  lemma UpsertAlreadyHeld(rows: seq<User>, id: int, username: Option<string>, name: string, birthday: Date)
    requires FindId(rows, id).Some?
    requires var u := rows[FindId(rows, id).value];
      u.username == username && u.firstName == name && u.birthday == birthday
    ensures Upsert(rows, id, username, name, birthday) == rows
  {
    var i := FindId(rows, id).value;
    assert rows[i].(username := username, firstName := name, birthday := birthday) == rows[i];
  }

  /** Running the same registration twice leaves the table as running it once. */
  lemma UpsertIdempotent(rows: seq<User>, id: int, username: Option<string>, name: string, birthday: Date)
    ensures var once := Upsert(rows, id, username, name, birthday);
      Upsert(once, id, username, name, birthday) == once
  {
    var once := Upsert(rows, id, username, name, birthday);
    match FindId(rows, id)
    case Some(i) =>
      FindIdUpdated(rows, i, rows[i].(username := username, firstName := name, birthday := birthday));
      UpsertAlreadyHeld(once, id, username, name, birthday);
    case None =>
      FindIdAppended(rows, User(id, username, name, birthday, None));
      UpsertAlreadyHeld(once, id, username, name, birthday);
  }

  /** After a registration the first row holding `id` carries the registered values. */
  lemma UpsertHolds(rows: seq<User>, id: int, username: Option<string>, name: string, birthday: Date)
    ensures var r := Upsert(rows, id, username, name, birthday);
      var i := FindId(r, id);
      i.Some? && r[i.value].username == username && r[i.value].firstName == name && r[i.value].birthday == birthday
  {
    match FindId(rows, id) {
      case Some(i) =>
        FindIdUpdated(rows, i, rows[i].(username := username, firstName := name, birthday := birthday));
      case None =>
        FindIdAppended(rows, User(id, username, name, birthday, None));
    }
  }

  lemma UpsertValid(rows: seq<User>, id: int, username: Option<string>, name: string, birthday: Date)
    requires ValidRows(rows) && ValidDate(birthday)
    ensures ValidRows(Upsert(rows, id, username, name, birthday))
  {
    UpsertStores(rows, id, username, name, birthday);
  }

  // ---------------------------------------------------------------------------
  // The duplicate-send gate, which looks rows up by first name and username
  // ---------------------------------------------------------------------------

  /**
   * A row matches a (first name, username) pair under SQL semantics:
   * `username = NULL` is never true, so a pair without a username matches nothing.
   */
  predicate Matches(u: User, name: string, username: Option<string>) {
    username.Some? && u.username == username && u.firstName == name
  }

  /** Position of the row `fetchone()` returns: the first matching row, if any. */
  function FirstMatch(rows: seq<User>, name: string, username: Option<string>): (r: Option<nat>)
    ensures r.Some? ==> r.value < |rows| && Matches(rows[r.value], name, username)
  {
    if |rows| == 0 then None
    else if Matches(rows[0], name, username) then Some(0)
    else match FirstMatch(rows[1..], name, username)
      case None => None
      case Some(k) => Some(k + 1)
  }

  /** `fetchone()` returns the first matching row, and no row only when none matches. */
  lemma {:induction false} FirstMatchFirst(rows: seq<User>, name: string, username: Option<string>)
    ensures var r := FirstMatch(rows, name, username);
      (r.Some? ==> forall k :: 0 <= k < r.value ==> !Matches(rows[k], name, username)) &&
      (r.None? <==> forall k :: 0 <= k < |rows| ==> !Matches(rows[k], name, username))
  {
    if |rows| > 0 {
      FirstMatchFirst(rows[1..], name, username);
      assert forall k :: 1 <= k < |rows| ==> rows[k] == rows[1..][k - 1];
    }
  }

  /** The gate is closed: the first matching row was already stamped today. */
  predicate SentToday(rows: seq<User>, name: string, username: Option<string>, today: Date) {
    match FirstMatch(rows, name, username)
    case Some(i) => rows[i].lastSent == Some(today)
    case None => false
  }

  /** The stamp after a successful post: every row matching first name and username gets `last_sent` = today. */
  function MarkSent(rows: seq<User>, name: string, username: Option<string>, today: Date): seq<User> {
    seq(|rows|, k requires 0 <= k < |rows| =>
      if Matches(rows[k], name, username) then rows[k].(lastSent := Some(today)) else rows[k])
  }

  /**
   * `after` is `before` with some `last_sent` values set to `today` and
   * nothing else changed: same rows, same order, same ids, names and birthdays.
   */
  predicate Restamped(before: seq<User>, after: seq<User>, today: Date) {
    |after| == |before| &&
    forall k :: 0 <= k < |before| ==>
      after[k] == before[k].(lastSent := after[k].lastSent) &&
      (after[k].lastSent == before[k].lastSent || after[k].lastSent == Some(today))
  }

  lemma RestampedTransitive(a: seq<User>, b: seq<User>, c: seq<User>, today: Date)
    requires Restamped(a, b, today) && Restamped(b, c, today)
    ensures Restamped(a, c, today)
  {
  }

  lemma RestampedValid(before: seq<User>, after: seq<User>, today: Date)
    requires ValidRows(before) && Restamped(before, after, today)
    ensures ValidRows(after)
  {
    assert forall k :: 0 <= k < |after| ==> after[k].userId == before[k].userId && after[k].birthday == before[k].birthday;
  }

  /** Stamping `last_sent` never moves an id. */
  lemma RestampedFindId(before: seq<User>, after: seq<User>, today: Date, id: int)
    requires Restamped(before, after, today)
    ensures FindId(after, id) == FindId(before, id)
  {
    assert forall k :: 0 <= k < |before| ==> after[k].userId == before[k].userId;
    FindIdSameIds(after, before, id);
  }

  /** Registering on a stamped table gives the stamped version of registering on the unstamped one. */
  lemma UpsertRestamped(before: seq<User>, after: seq<User>, today: Date,
                        id: int, username: Option<string>, name: string, birthday: Date)
    requires Restamped(before, after, today)
    ensures Restamped(Upsert(before, id, username, name, birthday), Upsert(after, id, username, name, birthday), today)
  {
    RestampedFindId(before, after, today, id);
  }

  /**
   * Repeating a registration after some rows were stamped changes nothing:
   * the row for `id` still holds the registered values.
   */
  lemma UpsertAgainAfterStamps(rows: seq<User>, later: seq<User>, today: Date,
                               id: int, username: Option<string>, name: string, birthday: Date)
    requires Restamped(Upsert(rows, id, username, name, birthday), later, today)
    ensures Upsert(later, id, username, name, birthday) == later
  {
    var once := Upsert(rows, id, username, name, birthday);
    UpsertHolds(rows, id, username, name, birthday);
    RestampedFindId(once, later, today, id);
    UpsertAlreadyHeld(later, id, username, name, birthday);
  }

  /** Stamping `last_sent` never changes which row `fetchone()` returns for a pair. */
  lemma {:induction false} FirstMatchRestamped(before: seq<User>, after: seq<User>, today: Date,
                                               name: string, username: Option<string>)
    requires Restamped(before, after, today)
    ensures FirstMatch(after, name, username) == FirstMatch(before, name, username)
  {
    if |before| > 0 {
      assert Restamped(before[1..], after[1..], today);
      FirstMatchRestamped(before[1..], after[1..], today, name, username);
    }
  }

  /** The stamp for one pair leaves the gate of every other pair as it was. */
  lemma SentTodayOtherPair(rows: seq<User>, name: string, username: Option<string>,
                           other: string, otherUsername: Option<string>, today: Date)
    requires name != other || username != otherUsername
    ensures SentToday(MarkSent(rows, name, username, today), other, otherUsername, today)
      == SentToday(rows, other, otherUsername, today)
  {
    MarkSentEffect(rows, name, username, today);
    FirstMatchRestamped(rows, MarkSent(rows, name, username, today), today, other, otherUsername);
  }

  /** Some row matches the pair (so the pair has a username). */
  predicate Present(rows: seq<User>, name: string, username: Option<string>) {
    exists k :: 0 <= k < |rows| && Matches(rows[k], name, username)
  }

  /** Every row matching the pair is stamped today, and there is at least one. */
  predicate AllMarked(rows: seq<User>, name: string, username: Option<string>, today: Date) {
    Present(rows, name, username) &&
    forall k :: 0 <= k < |rows| && Matches(rows[k], name, username) ==> rows[k].lastSent == Some(today)
  }

  /**
   * Marking on success: every row matching the pair gets `last_sent = today`,
   * every other row is untouched, and afterwards the gate is closed for the
   * pair whenever some row matches it. A pair without a username marks nothing.
   */
  lemma MarkSentEffect(rows: seq<User>, name: string, username: Option<string>, today: Date)
    ensures var r := MarkSent(rows, name, username, today);
      Restamped(rows, r, today) &&
      (forall k :: 0 <= k < |rows| ==>
        (Matches(rows[k], name, username) ==> r[k].lastSent == Some(today)) &&
        (!Matches(rows[k], name, username) ==> r[k] == rows[k])) &&
      (username.None? ==> r == rows) &&
      (Present(rows, name, username) ==> AllMarked(r, name, username, today) && SentToday(r, name, username, today))
  {
    var r := MarkSent(rows, name, username, today);
    assert forall k :: 0 <= k < |rows| ==> (Matches(r[k], name, username) <==> Matches(rows[k], name, username));
    if Present(rows, name, username) {
      AllMarkedCloses(r, name, username, today);
    }
  }

  /** When every matching row is stamped today, the gate is closed. */
  lemma AllMarkedCloses(rows: seq<User>, name: string, username: Option<string>, today: Date)
    requires AllMarked(rows, name, username, today)
    ensures SentToday(rows, name, username, today)
  {
    FirstMatchFirst(rows, name, username);
  }

  /** Stamping more rows with today never reopens a pair whose rows are all stamped. */
  lemma RestampedKeepsMarks(before: seq<User>, after: seq<User>, name: string, username: Option<string>, today: Date)
    requires Restamped(before, after, today)
    ensures Present(before, name, username) ==> Present(after, name, username)
    ensures AllMarked(before, name, username, today) ==> AllMarked(after, name, username, today)
  {
    assert forall k :: 0 <= k < |before| ==> (Matches(after[k], name, username) <==> Matches(before[k], name, username));
  }

  // ---------------------------------------------------------------------------
  // The daily scan's query: rows whose birthday's month-day text equals today's
  // ---------------------------------------------------------------------------

  function Due(rows: seq<User>, today: Date): seq<User>
    requires ValidDate(today)
    requires forall k :: 0 <= k < |rows| ==> ValidDate(rows[k].birthday)
  {
    if |rows| == 0 then []
    else (if MonthDayKey(rows[0].birthday) == MonthDayKey(today) then [rows[0]] else [])
         + Due(rows[1..], today)
  }

  /**
   * The scan selects exactly the rows whose birthday has today's month and
   * day, whatever the year; nothing is selected when no birthday falls today.
   * Membership only, the form the lemmas about who is selected use;
   * `DueCounts` adds how many times each row is selected.
   */
  lemma {:induction false} DueExactly(rows: seq<User>, today: Date)
    requires ValidDate(today)
    requires forall k :: 0 <= k < |rows| ==> ValidDate(rows[k].birthday)
    ensures |Due(rows, today)| <= |rows|
    ensures forall u :: u in Due(rows, today) <==> u in rows && SameMonthDay(u.birthday, today)
    ensures Due(rows, today) == [] <==> forall k :: 0 <= k < |rows| ==> !SameMonthDay(rows[k].birthday, today)
  {
    if |rows| > 0 {
      DueExactly(rows[1..], today);
      MonthDayKeyMatches(rows[0].birthday, today);
      assert rows == [rows[0]] + rows[1..];
      forall u ensures u in rows <==> u == rows[0] || u in rows[1..] {
      }
      if Due(rows, today) == [] {
        forall k | 0 <= k < |rows| ensures !SameMonthDay(rows[k].birthday, today) {
          if k > 0 { assert rows[k] == rows[1..][k - 1]; }
        }
      }
    }
  }

  /**
   * Each row whose birthday has today's month and day is selected exactly as
   * many times as it occurs in the table, and no other row is selected.
   */
  lemma {:induction false} DueCounts(rows: seq<User>, today: Date)
    requires ValidDate(today)
    requires forall k :: 0 <= k < |rows| ==> ValidDate(rows[k].birthday)
    ensures forall u ::
      multiset(Due(rows, today))[u] == if SameMonthDay(u.birthday, today) then multiset(rows)[u] else 0
  {
    if |rows| > 0 {
      DueCounts(rows[1..], today);
      MonthDayKeyMatches(rows[0].birthday, today);
      assert rows == [rows[0]] + rows[1..];
      assert multiset(rows) == multiset([rows[0]]) + multiset(rows[1..]);
    }
  }

  /** Only month and day of "today" matter to the scan. */
  lemma {:induction false} DueIgnoresYear(rows: seq<User>, t1: Date, t2: Date)
    requires ValidDate(t1) && ValidDate(t2) && SameMonthDay(t1, t2)
    requires forall k :: 0 <= k < |rows| ==> ValidDate(rows[k].birthday)
    ensures Due(rows, t1) == Due(rows, t2)
  {
    if |rows| > 0 {
      MonthDayKeyMatches(rows[0].birthday, t1);
      MonthDayKeyMatches(rows[0].birthday, t2);
      DueIgnoresYear(rows[1..], t1, t2);
    }
  }

  /** Every selected row is a row of the table. */
  lemma {:induction false} DueFromRows(rows: seq<User>, today: Date)
    requires ValidDate(today)
    requires forall k :: 0 <= k < |rows| ==> ValidDate(rows[k].birthday)
    ensures forall i :: 0 <= i < |Due(rows, today)| ==> Due(rows, today)[i] in rows
  {
    if |rows| > 0 {
      DueFromRows(rows[1..], today);
    }
  }
}
