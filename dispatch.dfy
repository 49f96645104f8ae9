/**
 * What the send routine and the daily scan do to the table and to the group
 * chat, as functions of the table before the call: the guarded send of one
 * greeting, and the scan that sends to everyone due today.
 */
module Dispatch {
  import opened Wrappers
  import opened Calendar
  import opened Users
  import opened Messages

  /** The greeting a send renders: for whom, and which verse `random.choice` picked. */
  datatype Post = Post(name: string, username: Option<string>, verse: VerseIndex)

  /** The Markdown text of a post. */
  function Text(p: Post): string {
    Render(NameTag(p.name, p.username), VERSES[p.verse])
  }

  /** What one call of the send routine did in the group chat. */
  datatype Outcome = Skipped | Sent(post: Post) | Failed(post: Post)

  datatype Delivery = Delivery(rows: seq<User>, outcome: Outcome)

  /**
   * `send_birthday_message`: skip when the first row matching (first name,
   * username) was stamped today; otherwise post the greeting and, only if the
   * post went through, stamp every matching row with today.
   */
  function Send(rows: seq<User>, name: string, username: Option<string>, today: Date,
                delivered: bool, verse: VerseIndex): Delivery
  {
    if SentToday(rows, name, username, today) then Delivery(rows, Skipped)
    else if delivered then Delivery(MarkSent(rows, name, username, today), Sent(Post(name, username, verse)))
    else Delivery(rows, Failed(Post(name, username, verse)))
  }

  /**
   * The gate and the mark: nothing is posted and nothing changes when the
   * gate is closed; a failed post changes nothing; a successful post stamps
   * exactly the rows matching the pair and leaves every other row as it was.
   * Either way only `last_sent` values move, and only to today.
   */
  lemma SendContract(rows: seq<User>, name: string, username: Option<string>, today: Date,
                     delivered: bool, verse: VerseIndex)
    ensures var d := Send(rows, name, username, today, delivered, verse);
      (d.outcome.Skipped? <==> SentToday(rows, name, username, today)) &&
      (d.outcome.Sent? <==> !SentToday(rows, name, username, today) && delivered) &&
      (!d.outcome.Sent? ==> d.rows == rows) &&
      (d.outcome.Sent? ==> forall k :: 0 <= k < |rows| ==>
         (Matches(rows[k], name, username) ==> d.rows[k].lastSent == Some(today)) &&
         (!Matches(rows[k], name, username) ==> d.rows[k] == rows[k])) &&
      Restamped(rows, d.rows, today)
  {
    MarkSentEffect(rows, name, username, today);
  }

  /** A greeting that is posted (or attempted) names the person and quotes one of VERSES. */
  lemma GreetingContents(rows: seq<User>, name: string, username: Option<string>, today: Date,
                         delivered: bool, verse: VerseIndex)
    ensures var d := Send(rows, name, username, today, delivered, verse);
      !d.outcome.Skipped? ==>
        d.outcome.post == Post(name, username, verse) &&
        var text := Text(d.outcome.post);
        Contains(text, name) && Contains(text, VERSES[verse]) &&
        (HasHandle(username) ==> Contains(text, "@" + username.value))
  {
    GreetingMentions(name, username, verse);
  }

  /**
   * Once a greeting for a pair that has a row went out, every later call for
   * the same pair on the same day is skipped and changes nothing.
   */
  lemma SendAgainSkipped(rows: seq<User>, name: string, username: Option<string>, today: Date,
                         delivered: bool, verse: VerseIndex, delivered2: bool, verse2: VerseIndex)
    requires Present(rows, name, username)
    requires Send(rows, name, username, today, delivered, verse).outcome.Sent?
    ensures var after := Send(rows, name, username, today, delivered, verse).rows;
      Send(after, name, username, today, delivered2, verse2) == Delivery(after, Skipped)
  {
    MarkSentEffect(rows, name, username, today);
  }

  /**
   * SQL's `username = NULL` is never true: a person without a username is
   * never held back by the gate and is never stamped.
   */
  lemma NoUsernameNeverGated(rows: seq<User>, name: string, today: Date, delivered: bool, verse: VerseIndex)
    ensures var d := Send(rows, name, None, today, delivered, verse);
      d.rows == rows && (d.outcome.Sent? <==> delivered) && (d.outcome.Failed? <==> !delivered)
  {
    assert FirstMatch(rows, name, None).None?;
    MarkSentEffect(rows, name, None, today);
  }

  // ---------------------------------------------------------------------------
  // The daily scan
  // ---------------------------------------------------------------------------

  datatype Run = Run(rows: seq<User>, outcomes: seq<Outcome>)

  /**
   * The loop of `check_birthdays`: the send routine for each selected person
   * in turn; attempt `k` is delivered when `delivered(k)` and uses verse `pick(k)`.
   */
  function SendEach(rows: seq<User>, people: seq<User>, today: Date,
                    delivered: nat -> bool, pick: nat -> VerseIndex, k: nat): Run
    decreases |people|
  {
    if |people| == 0 then Run(rows, [])
    else
      var d := Send(rows, people[0].firstName, people[0].username, today, delivered(k), pick(k));
      var rest := SendEach(d.rows, people[1..], today, delivered, pick, k + 1);
      Run(rest.rows, [d.outcome] + rest.outcomes)
  }

  /**
   * One step of the scan loop: if the outcomes so far followed by the rest of
   * the run from position `i` make up `goal`, then so do the outcomes with
   * attempt `i` appended followed by the run from position `i + 1`.
   */
  lemma SendEachAdvance(rows: seq<User>, people: seq<User>, today: Date,
                        delivered: nat -> bool, pick: nat -> VerseIndex, i: nat, done: seq<Outcome>, goal: Run)
    requires i < |people|
    requires var rest := SendEach(rows, people[i..], today, delivered, pick, i);
      Run(rest.rows, done + rest.outcomes) == goal
    ensures var d := Send(rows, people[i].firstName, people[i].username, today, delivered(i), pick(i));
      var rest := SendEach(d.rows, people[i + 1..], today, delivered, pick, i + 1);
      Run(rest.rows, (done + [d.outcome]) + rest.outcomes) == goal
  {
    assert people[i..][1..] == people[i + 1..];
    var d := Send(rows, people[i].firstName, people[i].username, today, delivered(i), pick(i));
    var rest := SendEach(d.rows, people[i + 1..], today, delivered, pick, i + 1);
    assert (done + [d.outcome]) + rest.outcomes == done + ([d.outcome] + rest.outcomes);
  }

  /** The scan keeps the table consistent. */
  lemma ScanValid(rows: seq<User>, today: Date, delivered: nat -> bool, pick: nat -> VerseIndex)
    requires ValidRows(rows) && ValidDate(today)
    ensures ValidRows(Scan(rows, today, delivered, pick).rows)
  {
    ScanShape(rows, today, delivered, pick);
  }

  /** `check_birthdays`: select the people whose birthday is today, then send to each. */
  function Scan(rows: seq<User>, today: Date, delivered: nat -> bool, pick: nat -> VerseIndex): Run
    requires ValidRows(rows) && ValidDate(today)
  {
    SendEach(rows, Due(rows, today), today, delivered, pick, 0)
  }

  /**
   * What one attempt may answer for person `p`: a skip, or the post greeting
   * `p` with the chosen verse; for a person without a username, never a
   * skip, and "sent" exactly when the post went through.
   */
  predicate Fits(o: Outcome, p: User, delivered: bool, verse: VerseIndex) {
    (o.Skipped? || o.post == Post(p.firstName, p.username, verse)) &&
    (p.username.None? ==> (o.Sent? <==> delivered))
  }

  lemma SendFits(rows: seq<User>, p: User, today: Date, delivered: bool, verse: VerseIndex)
    ensures Fits(Send(rows, p.firstName, p.username, today, delivered, verse).outcome, p, delivered, verse)
  {
    if p.username.None? {
      NoUsernameNeverGated(rows, p.firstName, today, delivered, verse);
    }
  }

  /**
   * One outcome per person, in order, and the table only gets `last_sent`
   * stamps of today; nobody to greet means nothing sent and nothing changed.
   */
  lemma {:induction false} SendEachStamps(rows: seq<User>, people: seq<User>, today: Date,
                                          delivered: nat -> bool, pick: nat -> VerseIndex, k: nat)
    ensures var run := SendEach(rows, people, today, delivered, pick, k);
      |run.outcomes| == |people| && Restamped(rows, run.rows, today) &&
      (people == [] ==> run.rows == rows)
    decreases |people|
  {
    if |people| > 0 {
      var p := people[0];
      var d := Send(rows, p.firstName, p.username, today, delivered(k), pick(k));
      SendContract(rows, p.firstName, p.username, today, delivered(k), pick(k));
      SendEachStamps(d.rows, people[1..], today, delivered, pick, k + 1);
      RestampedTransitive(rows, d.rows, SendEach(d.rows, people[1..], today, delivered, pick, k + 1).rows, today);
    }
  }

  /** Attempt `i` of a run answers for person `i`, with delivery `delivered(k + i)` and verse `pick(k + i)`. */
  lemma {:induction false} SendEachAt(rows: seq<User>, people: seq<User>, today: Date,
                                      delivered: nat -> bool, pick: nat -> VerseIndex, k: nat, i: nat)
    requires i < |people|
    ensures var run := SendEach(rows, people, today, delivered, pick, k);
      i < |run.outcomes| && Fits(run.outcomes[i], people[i], delivered(k + i), pick(k + i))
    decreases |people|
  {
    var d := Send(rows, people[0].firstName, people[0].username, today, delivered(k), pick(k));
    var rest := SendEach(d.rows, people[1..], today, delivered, pick, k + 1);
    assert SendEach(rows, people, today, delivered, pick, k).outcomes == [d.outcome] + rest.outcomes;
    if i == 0 {
      SendFits(rows, people[0], today, delivered(k), pick(k));
    } else {
      SendEachAt(d.rows, people[1..], today, delivered, pick, k + 1, i - 1);
      assert people[1..][i - 1] == people[i];
      assert k + 1 + (i - 1) == k + i;
    }
  }

  /**
   * The run over the selected people: one outcome per person in turn, each a
   * skip or that person's greeting, never a skip for a person without a
   * username; only `last_sent` stamps of today are written, and nobody
   * selected means nothing sent and nothing changed. This is the half of
   * `ScanShape` about the loop alone, kept apart so that proving it never
   * has the multiset reasoning of the selection in view.
   */
  lemma ScanRun(rows: seq<User>, today: Date, delivered: nat -> bool, pick: nat -> VerseIndex)
    requires ValidRows(rows) && ValidDate(today)
    ensures var people := Due(rows, today);
      var run := Scan(rows, today, delivered, pick);
      |run.outcomes| == |people| && Restamped(rows, run.rows, today) && ValidRows(run.rows) &&
      (people == [] ==> run.outcomes == [] && run.rows == rows) &&
      forall i :: 0 <= i < |people| ==> Fits(run.outcomes[i], people[i], delivered(i), pick(i))
  {
    var people := Due(rows, today);
    var run := Scan(rows, today, delivered, pick);
    SendEachStamps(rows, people, today, delivered, pick, 0);
    RestampedValid(rows, run.rows, today);
    forall i | 0 <= i < |people|
      ensures Fits(run.outcomes[i], people[i], delivered(i), pick(i))
    {
      SendEachAt(rows, people, today, delivered, pick, 0, i);
    }
  }

  /**
   * The scan calls the send routine once for each row whose birthday is
   * today, whatever the year, and for no other row, in turn: each outcome is
   * a skip or that person's greeting, a person without a username is never
   * skipped, and the table only gets `last_sent` stamps of today. Nobody due
   * means nothing sent and nothing changed. It is the whole description of
   * one scan in one place: `ScanRun` for the loop, with `Fits` written out,
   * and `Users.DueCounts` for the selection.
   */
  lemma ScanShape(rows: seq<User>, today: Date, delivered: nat -> bool, pick: nat -> VerseIndex)
    requires ValidRows(rows) && ValidDate(today)
    ensures var people := Due(rows, today);
      var run := Scan(rows, today, delivered, pick);
      |run.outcomes| == |people| && Restamped(rows, run.rows, today) && ValidRows(run.rows) &&
      (forall u :: multiset(people)[u] == if SameMonthDay(u.birthday, today) then multiset(rows)[u] else 0) &&
      (people == [] ==> run.outcomes == [] && run.rows == rows) &&
      forall i :: 0 <= i < |people| ==>
        (run.outcomes[i].Skipped? ||
         run.outcomes[i].post == Post(people[i].firstName, people[i].username, pick(i))) &&
        (people[i].username.None? ==> (run.outcomes[i].Sent? <==> delivered(i)))
  {
    ScanRun(rows, today, delivered, pick);
    DueCounts(rows, today);
  }

  /**
   * The first attempt of a run for a (first name, username) pair sees the
   * gate as it stood before the run: it is skipped exactly when the pair was
   * already stamped today, and it is sent exactly when it was not and the
   * post goes through.
   */
  lemma {:induction false} SendEachFirstAttempt(rows: seq<User>, people: seq<User>, today: Date,
                                                delivered: nat -> bool, pick: nat -> VerseIndex, k: nat, i: nat)
    requires i < |people|
    requires forall j :: 0 <= j < i ==>
               people[j].firstName != people[i].firstName || people[j].username != people[i].username
    ensures var run := SendEach(rows, people, today, delivered, pick, k);
      var p := people[i];
      i < |run.outcomes| &&
      (run.outcomes[i].Skipped? <==> SentToday(rows, p.firstName, p.username, today)) &&
      (run.outcomes[i].Sent? <==> !SentToday(rows, p.firstName, p.username, today) && delivered(k + i))
    decreases |people|
  {
    var p := people[0];
    var d := Send(rows, p.firstName, p.username, today, delivered(k), pick(k));
    var rest := SendEach(d.rows, people[1..], today, delivered, pick, k + 1);
    assert SendEach(rows, people, today, delivered, pick, k).outcomes == [d.outcome] + rest.outcomes;
    SendContract(rows, p.firstName, p.username, today, delivered(k), pick(k));
    if i > 0 {
      var q := people[i];
      assert people[1..][i - 1] == q;
      if d.outcome.Sent? {
        SentTodayOtherPair(rows, p.firstName, p.username, q.firstName, q.username, today);
      }
      forall j | 0 <= j < i - 1
        ensures people[1..][j].firstName != q.firstName || people[1..][j].username != q.username
      {
        assert people[1..][j] == people[j + 1];
      }
      SendEachFirstAttempt(d.rows, people[1..], today, delivered, pick, k + 1, i - 1);
      assert k + 1 + (i - 1) == k + i;
    }
  }

  /** Some greeting of the run went to the (first name, username) pair that row `u` carries. */
  predicate Greeted(people: seq<User>, outcomes: seq<Outcome>, u: User) {
    exists i :: 0 <= i < |people| && i < |outcomes| && outcomes[i].Sent? &&
      Matches(u, people[i].firstName, people[i].username)
  }

  /**
   * The table after a run: a row carrying a pair that got a greeting has
   * `last_sent` = today, and every other row is exactly as it was.
   */
  lemma {:induction false} SendEachFrame(rows: seq<User>, people: seq<User>, today: Date,
                                         delivered: nat -> bool, pick: nat -> VerseIndex, k: nat, m: nat)
    requires m < |rows|
    ensures var run := SendEach(rows, people, today, delivered, pick, k);
      m < |run.rows| &&
      run.rows[m] == if Greeted(people, run.outcomes, rows[m]) then rows[m].(lastSent := Some(today)) else rows[m]
    decreases |people|
  {
    SendEachStamps(rows, people, today, delivered, pick, k);
    var run := SendEach(rows, people, today, delivered, pick, k);
    if |people| > 0 {
      var p := people[0];
      var d := Send(rows, p.firstName, p.username, today, delivered(k), pick(k));
      var rest := SendEach(d.rows, people[1..], today, delivered, pick, k + 1);
      assert run.outcomes == [d.outcome] + rest.outcomes;
      SendContract(rows, p.firstName, p.username, today, delivered(k), pick(k));
      SendEachFrame(d.rows, people[1..], today, delivered, pick, k + 1, m);
      if d.outcome.Sent? && Matches(rows[m], p.firstName, p.username) {
        assert Greeted(people, run.outcomes, rows[m]);
        SendEachStamps(d.rows, people[1..], today, delivered, pick, k + 1);
      } else {
        assert d.rows[m] == rows[m];
        GreetedTail(people, d.outcome, rest.outcomes, rows[m]);
      }
    }
  }

  /** A first attempt that greeted some other pair (or nobody) does not decide whether a row's pair was greeted. */
  lemma GreetedTail(people: seq<User>, o: Outcome, outcomes: seq<Outcome>, u: User)
    requires |people| > 0
    requires !(o.Sent? && Matches(u, people[0].firstName, people[0].username))
    ensures Greeted(people, [o] + outcomes, u) <==> Greeted(people[1..], outcomes, u)
  {
    var all := [o] + outcomes;
    if Greeted(people, all, u) {
      var i :| 0 <= i < |people| && i < |all| && all[i].Sent? &&
               Matches(u, people[i].firstName, people[i].username);
      assert i > 0 && people[1..][i - 1] == people[i] && outcomes[i - 1] == all[i];
    }
    if Greeted(people[1..], outcomes, u) {
      var i :| 0 <= i < |people[1..]| && i < |outcomes| && outcomes[i].Sent? &&
               Matches(u, people[1..][i].firstName, people[1..][i].username);
      assert people[1..][i] == people[i + 1] && all[i + 1] == outcomes[i];
    }
  }

  /**
   * One send as seen by the gate of any (first name, username) pair: the
   * pair has a row afterwards exactly when it had one before, and its gate is
   * closed afterwards exactly when it was closed before, or when the send
   * just greeted this very pair while it had a row.
   */
  lemma GateAfterSend(rows: seq<User>, p: User, today: Date, delivered: bool, verse: VerseIndex,
                      name: string, username: Option<string>)
    ensures var d := Send(rows, p.firstName, p.username, today, delivered, verse);
      (Present(d.rows, name, username) <==> Present(rows, name, username)) &&
      (SentToday(d.rows, name, username, today) <==>
         SentToday(rows, name, username, today) ||
         (Present(rows, name, username) && d.outcome.Sent? && p.firstName == name && p.username == username))
  {
    var d := Send(rows, p.firstName, p.username, today, delivered, verse);
    SendContract(rows, p.firstName, p.username, today, delivered, verse);
    assert forall k :: 0 <= k < |rows| ==> (Matches(d.rows[k], name, username) <==> Matches(rows[k], name, username));
    if d.outcome.Sent? {
      if p.firstName == name && p.username == username {
        MarkSentEffect(rows, name, username, today);
      } else {
        SentTodayOtherPair(rows, p.firstName, p.username, name, username, today);
      }
    }
  }

  /** Some attempt before position `i` of the run greeted the (first name, username) pair. */
  predicate SentBefore(people: seq<User>, outcomes: seq<Outcome>, i: nat, name: string, username: Option<string>) {
    exists j :: 0 <= j < i && j < |people| && j < |outcomes| && outcomes[j].Sent? &&
      people[j].firstName == name && people[j].username == username
  }

  lemma SentBeforeTail(people: seq<User>, o: Outcome, outcomes: seq<Outcome>, i: nat,
                       name: string, username: Option<string>)
    requires 0 < i && |people| > 0
    ensures SentBefore(people, [o] + outcomes, i, name, username) <==>
      (o.Sent? && people[0].firstName == name && people[0].username == username) ||
      SentBefore(people[1..], outcomes, i - 1, name, username)
  {
    var all := [o] + outcomes;
    if SentBefore(people, all, i, name, username) {
      var j :| 0 <= j < i && j < |people| && j < |all| && all[j].Sent? &&
               people[j].firstName == name && people[j].username == username;
      if j > 0 {
        assert people[1..][j - 1] == people[j] && outcomes[j - 1] == all[j];
      }
    }
    if SentBefore(people[1..], outcomes, i - 1, name, username) {
      var j :| 0 <= j < i - 1 && j < |people[1..]| && j < |outcomes| && outcomes[j].Sent? &&
               people[1..][j].firstName == name && people[1..][j].username == username;
      assert people[1..][j] == people[j + 1] && all[j + 1] == outcomes[j];
    }
  }

  /**
   * Every attempt of a run: the gate for person `i` is closed exactly when
   * the pair was stamped today before the run, or it has a row and an earlier
   * attempt of the run greeted it. The attempt is skipped exactly when the
   * gate is closed, and sent exactly when it is open and the post goes
   * through; so after a failed post the same pair is tried again, and after
   * a greeting it is skipped.
   */
  lemma {:induction false} SendEachAttempt(rows: seq<User>, people: seq<User>, today: Date,
                                           delivered: nat -> bool, pick: nat -> VerseIndex, k: nat, i: nat)
    requires i < |people|
    ensures var run := SendEach(rows, people, today, delivered, pick, k);
      var p := people[i];
      var closed := SentToday(rows, p.firstName, p.username, today) ||
        (Present(rows, p.firstName, p.username) && SentBefore(people, run.outcomes, i, p.firstName, p.username));
      i < |run.outcomes| &&
      (run.outcomes[i].Skipped? <==> closed) &&
      (run.outcomes[i].Sent? <==> !closed && delivered(k + i))
    decreases |people|
  {
    var p := people[0];
    var d := Send(rows, p.firstName, p.username, today, delivered(k), pick(k));
    var rest := SendEach(d.rows, people[1..], today, delivered, pick, k + 1);
    var run := SendEach(rows, people, today, delivered, pick, k);
    assert run.outcomes == [d.outcome] + rest.outcomes;
    if i == 0 {
      SendContract(rows, p.firstName, p.username, today, delivered(k), pick(k));
    } else {
      var q := people[i];
      assert people[1..][i - 1] == q;
      var closed := SentToday(rows, q.firstName, q.username, today) ||
        (Present(rows, q.firstName, q.username) && SentBefore(people, run.outcomes, i, q.firstName, q.username));
      var closedRest := SentToday(d.rows, q.firstName, q.username, today) ||
        (Present(d.rows, q.firstName, q.username) && SentBefore(people[1..], rest.outcomes, i - 1, q.firstName, q.username));
      assert closed == closedRest by {
        GateAfterSend(rows, p, today, delivered(k), pick(k), q.firstName, q.username);
        SentBeforeTail(people, d.outcome, rest.outcomes, i, q.firstName, q.username);
      }
      SendEachAttempt(d.rows, people[1..], today, delivered, pick, k + 1, i - 1);
      assert run.outcomes[i] == rest.outcomes[i - 1];
      assert k + 1 + (i - 1) == k + i;
    }
  }

  /**
   * Every person the scan selects: skipped exactly when the pair was stamped
   * today before the scan, or it was greeted earlier in the same scan (the
   * second row of a person registered twice); greeted exactly when neither
   * holds and the post goes through.
   */
  lemma ScanAttempt(rows: seq<User>, today: Date, delivered: nat -> bool, pick: nat -> VerseIndex, i: nat)
    requires ValidRows(rows) && ValidDate(today)
    requires i < |Due(rows, today)|
    ensures var run := Scan(rows, today, delivered, pick);
      var p := Due(rows, today)[i];
      var closed := SentToday(rows, p.firstName, p.username, today) ||
        (Present(rows, p.firstName, p.username) &&
         SentBefore(Due(rows, today), run.outcomes, i, p.firstName, p.username));
      i < |run.outcomes| &&
      (run.outcomes[i].Skipped? <==> closed) &&
      (run.outcomes[i].Sent? <==> !closed && delivered(i))
  {
    SendEachAttempt(rows, Due(rows, today), today, delivered, pick, 0, i);
  }

  /**
   * A person selected by the scan is greeted when the post goes through and
   * the pair was not stamped today before the scan, unless someone earlier in
   * the selection carries the same pair; and skipped exactly when it was.
   */
  lemma ScanFirstAttempt(rows: seq<User>, today: Date, delivered: nat -> bool, pick: nat -> VerseIndex, i: nat)
    requires ValidRows(rows) && ValidDate(today)
    requires i < |Due(rows, today)|
    requires forall j :: 0 <= j < i ==>
               Due(rows, today)[j].firstName != Due(rows, today)[i].firstName ||
               Due(rows, today)[j].username != Due(rows, today)[i].username
    ensures var run := Scan(rows, today, delivered, pick);
      var p := Due(rows, today)[i];
      i < |run.outcomes| &&
      (run.outcomes[i].Skipped? <==> SentToday(rows, p.firstName, p.username, today)) &&
      (run.outcomes[i].Sent? <==> !SentToday(rows, p.firstName, p.username, today) && delivered(i))
  {
    SendEachFirstAttempt(rows, Due(rows, today), today, delivered, pick, 0, i);
  }

  /**
   * The table after a scan: exactly the rows carrying a pair that the scan
   * greeted get `last_sent` = today; every other row is unchanged.
   */
  lemma ScanFrame(rows: seq<User>, today: Date, delivered: nat -> bool, pick: nat -> VerseIndex)
    requires ValidRows(rows) && ValidDate(today)
    ensures var run := Scan(rows, today, delivered, pick);
      |run.rows| == |rows| &&
      forall m :: 0 <= m < |rows| ==>
        run.rows[m] == if Greeted(Due(rows, today), run.outcomes, rows[m])
                       then rows[m].(lastSent := Some(today)) else rows[m]
  {
    SendEachStamps(rows, Due(rows, today), today, delivered, pick, 0);
    forall m | 0 <= m < |rows|
      ensures var run := Scan(rows, today, delivered, pick);
        run.rows[m] == if Greeted(Due(rows, today), run.outcomes, rows[m])
                       then rows[m].(lastSent := Some(today)) else rows[m]
    {
      SendEachFrame(rows, Due(rows, today), today, delivered, pick, 0, m);
    }
  }

  /** How many greetings went out for people carrying this (first name, username) pair. */
  function SentFor(people: seq<User>, outcomes: seq<Outcome>, name: string, username: Option<string>): nat
    decreases |people|
  {
    if |people| == 0 || |outcomes| == 0 then 0
    else (if outcomes[0].Sent? && people[0].firstName == name && people[0].username == username then 1 else 0)
         + SentFor(people[1..], outcomes[1..], name, username)
  }

  /**
   * Along any run of sends on one day, a pair with a username that has a row
   * gets at most one greeting; none at all if its rows were already all
   * stamped; and after a greeting its rows are all stamped.
   */
  lemma {:induction false} SendEachAtMostOnce(rows: seq<User>, people: seq<User>, today: Date,
                                              delivered: nat -> bool, pick: nat -> VerseIndex, k: nat,
                                              name: string, handle: string)
    requires forall i :: 0 <= i < |people| && people[i].firstName == name && people[i].username == Some(handle) ==>
               Present(rows, name, Some(handle))
    ensures var run := SendEach(rows, people, today, delivered, pick, k);
      var c := SentFor(people, run.outcomes, name, Some(handle));
      c <= 1 &&
      (AllMarked(rows, name, Some(handle), today) ==> c == 0) &&
      (c == 1 || AllMarked(rows, name, Some(handle), today) ==> AllMarked(run.rows, name, Some(handle), today))
    decreases |people|
  {
    if |people| > 0 {
      var key := Some(handle);
      var p := people[0];
      var d := Send(rows, p.firstName, p.username, today, delivered(k), pick(k));
      SendContract(rows, p.firstName, p.username, today, delivered(k), pick(k));
      RestampedKeepsMarks(rows, d.rows, name, key, today);
      forall i | 0 <= i < |people| - 1 && people[1..][i].firstName == name && people[1..][i].username == key
        ensures Present(d.rows, name, key)
      {
        assert people[i + 1] == people[1..][i];
      }
      SendEachAtMostOnce(d.rows, people[1..], today, delivered, pick, k + 1, name, handle);
      if p.firstName == name && p.username == key {
        if AllMarked(rows, name, key, today) {
          AllMarkedCloses(rows, name, key, today);
        }
        if d.outcome.Sent? {
          MarkSentEffect(rows, name, key, today);
        }
      }
    }
  }

  /**
   * At most one greeting per day: in one scan, a (first name, username) pair
   * with a username gets at most one greeting, even when several rows carry
   * it; none if it was already greeted today; and after the greeting all its
   * rows are stamped with today.
   */
  lemma ScanAtMostOnce(rows: seq<User>, today: Date, delivered: nat -> bool, pick: nat -> VerseIndex,
                       name: string, handle: string)
    requires ValidRows(rows) && ValidDate(today)
    ensures var run := Scan(rows, today, delivered, pick);
      var c := SentFor(Due(rows, today), run.outcomes, name, Some(handle));
      c <= 1 &&
      (AllMarked(rows, name, Some(handle), today) ==> c == 0) &&
      (c == 1 ==> AllMarked(run.rows, name, Some(handle), today))
  {
    var people := Due(rows, today);
    DueFromRows(rows, today);
    forall i | 0 <= i < |people| && people[i].firstName == name && people[i].username == Some(handle)
      ensures Present(rows, name, Some(handle))
    {
      var j :| 0 <= j < |rows| && rows[j] == people[i];
      assert Matches(rows[j], name, Some(handle));
    }
    SendEachAtMostOnce(rows, people, today, delivered, pick, 0, name, handle);
  }

  /**
   * A second scan on the same day (a later cron tick, the startup run, a
   * manual test) sends nothing to a pair with a username that the first scan
   * greeted.
   */
  lemma SecondScanSilent(rows: seq<User>, today: Date,
                         delivered1: nat -> bool, pick1: nat -> VerseIndex,
                         delivered2: nat -> bool, pick2: nat -> VerseIndex,
                         name: string, handle: string)
    requires ValidRows(rows) && ValidDate(today)
    requires SentFor(Due(rows, today), Scan(rows, today, delivered1, pick1).outcomes, name, Some(handle)) > 0
    ensures var after := Scan(rows, today, delivered1, pick1).rows;
      ValidRows(after) &&
      SentFor(Due(after, today), Scan(after, today, delivered2, pick2).outcomes, name, Some(handle)) == 0
  {
    var after := Scan(rows, today, delivered1, pick1).rows;
    ScanAtMostOnce(rows, today, delivered1, pick1, name, handle);
    ScanShape(rows, today, delivered1, pick1);
    ScanAtMostOnce(after, today, delivered2, pick2, name, handle);
  }

  /**
   * A person without a username whose birthday is today is greeted again by
   * every scan of the day in which the post goes through.
   */
  lemma NoUsernameGreetedEveryScan(rows: seq<User>, today: Date,
                                   delivered1: nat -> bool, pick1: nat -> VerseIndex,
                                   delivered2: nat -> bool, pick2: nat -> VerseIndex, i: nat)
    requires ValidRows(rows) && ValidDate(today)
    requires i < |Due(rows, today)| && Due(rows, today)[i].username.None?
    requires delivered1(i) && delivered2(i)
    ensures var first := Scan(rows, today, delivered1, pick1);
      ValidRows(first.rows) &&
      i < |first.outcomes| && first.outcomes[i].Sent? &&
      var second := Scan(first.rows, today, delivered2, pick2);
      i < |second.outcomes| && second.outcomes[i].Sent?
  {
    var first := Scan(rows, today, delivered1, pick1);
    ScanShape(rows, today, delivered1, pick1);
    ScanShape(first.rows, today, delivered2, pick2);
    DueRestamped(rows, first.rows, today);
  }

  /** Stamping `last_sent` does not change who is selected. */
  lemma {:induction false} DueRestamped(before: seq<User>, after: seq<User>, today: Date)
    requires ValidDate(today) && Restamped(before, after, today)
    requires forall k :: 0 <= k < |before| ==> ValidDate(before[k].birthday)
    ensures forall k :: 0 <= k < |after| ==> ValidDate(after[k].birthday)
    ensures |Due(after, today)| == |Due(before, today)|
    ensures forall i :: 0 <= i < |Due(after, today)| ==>
      Due(after, today)[i] == Due(before, today)[i].(lastSent := Due(after, today)[i].lastSent)
  {
    assert forall k :: 0 <= k < |after| ==> after[k].birthday == before[k].birthday;
    if |before| > 0 {
      assert Restamped(before[1..], after[1..], today);
      DueRestamped(before[1..], after[1..], today);
    }
  }
}
