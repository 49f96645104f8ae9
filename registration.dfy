/**
 * The `/addbirthday YYYY-MM-DD [name] [username]` command. Its handler body
 * is written out three times in a row, each copy with its own choice of key
 * for a third-party registration, so one command runs the registration step
 * up to three times.
 */
module Registration {
  import opened Wrappers
  import opened Calendar
  import opened Users
  import opened Messages
  import opened Dispatch

  /** The Telegram user who sent the command. */
  datatype Sender = Sender(id: int, firstName: string, username: Option<string>)

  /** A command: whether it came from a private chat, its arguments, who sent it. */
  datatype Command = Command(isPrivate: bool, args: seq<string>, sender: Sender)

  datatype Reply = UsageHint | Saved(name: string, dateText: string) | InvalidDateFormat

  /**
   * How one copy of the body ends: fall through to the next copy, return from
   * the handler, or raise an exception the handler does not catch.
   */
  datatype Flow = Continue | Return | Raise

  datatype Step = Step(rows: seq<User>, replies: seq<Reply>, sends: seq<Outcome>, flow: Flow)

  /** The second argument, or the sender's own first name. */
  function ChosenName(cmd: Command): string {
    if |cmd.args| > 1 then cmd.args[1] else cmd.sender.firstName
  }

  /** The third argument, or the sender's own username. */
  function ChosenUsername(cmd: Command): Option<string> {
    if |cmd.args| > 2 then Some(cmd.args[2]) else cmd.sender.username
  }

  /**
   * The key a copy writes: the sender's id with at most two arguments,
   * otherwise the copy's own third-party key (absent in the last copy).
   */
  function ChosenId(cmd: Command, thirdParty: Option<int>): Option<int> {
    if |cmd.args| <= 2 then Some(cmd.sender.id) else thirdParty
  }

  /**
   * One copy of the handler body. `parsed` is what `strptime(args[0],
   * "%Y-%m-%d")` gives (None when it raises ValueError); `thirdParty` is the
   * copy's key for a registration on someone else's behalf. A missing key
   * violates the NOT NULL constraint on `user_id`: that error is not a
   * ValueError, so it leaves the handler before anything is written.
   */
  function RegisterOnce(rows: seq<User>, cmd: Command, parsed: Option<Date>, thirdParty: Option<int>,
                        today: Date, delivered: bool, verse: VerseIndex): Step
  {
    if !cmd.isPrivate then Step(rows, [], [], Return)
    else if |cmd.args| == 0 then Step(rows, [UsageHint], [], Return)
    else match parsed
      case None => Step(rows, [InvalidDateFormat], [], Continue)
      case Some(birthday) =>
        match ChosenId(cmd, thirdParty)
        case None => Step(rows, [], [], Raise)
        case Some(id) =>
          Saving(Upsert(rows, id, ChosenUsername(cmd), ChosenName(cmd), birthday), cmd, birthday, today, delivered, verse)
  }

  /**
   * The rest of a copy once its row is written: confirm, and when the full
   * date, year included, is today, greet at once.
   */
  function Saving(saved: seq<User>, cmd: Command, birthday: Date, today: Date, delivered: bool, verse: VerseIndex): Step
    requires |cmd.args| > 0
  {
    var reply := [Saved(ChosenName(cmd), cmd.args[0])];
    if birthday == today then
      var d := Send(saved, ChosenName(cmd), ChosenUsername(cmd), today, delivered, verse);
      Step(d.rows, reply, [d.outcome], Continue)
    else Step(saved, reply, [], Continue)
  }

  function Then(first: Step, second: Step): Step {
    Step(second.rows, first.replies + second.replies, first.sends + second.sends, second.flow)
  }

  /**
   * `add_birthday`: the three copies in order, the first keyed (for a third
   * party) by `fresh1`, the second by `fresh2`, the third by nothing; a copy
   * that returns or raises ends the handler. Copy `c`'s immediate send is
   * delivered when `delivered(c)` and uses verse `pick(c)`.
   */
  function Register(rows: seq<User>, cmd: Command, parsed: Option<Date>, fresh1: int, fresh2: int,
                    today: Date, delivered: nat -> bool, pick: nat -> VerseIndex): Step
  {
    var s1 := RegisterOnce(rows, cmd, parsed, Some(fresh1), today, delivered(0), pick(0));
    if s1.flow != Continue then s1
    else
      var s2 := Then(s1, RegisterOnce(s1.rows, cmd, parsed, Some(fresh2), today, delivered(1), pick(1)));
      if s2.flow != Continue then s2
      else Then(s2, RegisterOnce(s2.rows, cmd, parsed, None, today, delivered(2), pick(2)))
  }

  /** Number of greetings actually posted. */
  function SentTotal(outcomes: seq<Outcome>): nat {
    if |outcomes| == 0 then 0 else (if outcomes[0].Sent? then 1 else 0) + SentTotal(outcomes[1..])
  }

  lemma SentTotalThree(a: Outcome, b: Outcome, c: Outcome)
    ensures SentTotal([a, b, c]) == (if a.Sent? then 1 else 0) + (if b.Sent? then 1 else 0) + (if c.Sent? then 1 else 0)
  {
    assert [a, b, c][1..] == [b, c];
    assert [b, c][1..] == [c];
    assert [c][1..] == [];
    assert SentTotal([c]) == (if c.Sent? then 1 else 0);
    assert SentTotal([b, c]) == (if b.Sent? then 1 else 0) + SentTotal([c]);
  }

  /**
   * Commands that write nothing: outside a private chat the handler is
   * silent; without arguments it answers with the usage line; with a date
   * that does not parse every copy answers with the format error.
   */
  lemma RegisterRejects(rows: seq<User>, cmd: Command, parsed: Option<Date>, fresh1: int, fresh2: int,
                        today: Date, delivered: nat -> bool, pick: nat -> VerseIndex)
    ensures var r := Register(rows, cmd, parsed, fresh1, fresh2, today, delivered, pick);
      (!cmd.isPrivate ==> r == Step(rows, [], [], Return)) &&
      (cmd.isPrivate && cmd.args == [] ==> r == Step(rows, [UsageHint], [], Return)) &&
      (cmd.isPrivate && cmd.args != [] && parsed.None? ==>
         r == Step(rows, [InvalidDateFormat, InvalidDateFormat, InvalidDateFormat], [], Continue))
  {
  }

  /**
   * A copy of a self-registration run on a table that already holds the
   * registration, up to today's stamps, writes nothing new: it only replies
   * and, on the day of birth, sends; the stamps stay today's.
   */
  lemma SelfCopy(rows: seq<User>, before: seq<User>, cmd: Command, d: Date, key: Option<int>,
                 today: Date, delivered: bool, verse: VerseIndex)
    requires cmd.isPrivate && 1 <= |cmd.args| <= 2
    requires Restamped(Upsert(rows, cmd.sender.id, ChosenUsername(cmd), ChosenName(cmd), d), before, today)
    ensures RegisterOnce(before, cmd, Some(d), key, today, delivered, verse)
      == Saving(before, cmd, d, today, delivered, verse)
    ensures Restamped(Upsert(rows, cmd.sender.id, ChosenUsername(cmd), ChosenName(cmd), d),
                      Saving(before, cmd, d, today, delivered, verse).rows, today)
  {
    var once := Upsert(rows, cmd.sender.id, ChosenUsername(cmd), ChosenName(cmd), d);
    UpsertAgainAfterStamps(rows, before, today, cmd.sender.id, ChosenUsername(cmd), ChosenName(cmd), d);
    SendContract(before, ChosenName(cmd), ChosenUsername(cmd), today, delivered, verse);
    RestampedTransitive(once, before,
      Send(before, ChosenName(cmd), ChosenUsername(cmd), today, delivered, verse).rows, today);
  }

  /**
   * The three copies of a self-registration: each after the first finds the
   * row already written, so the command amounts to one write followed by
   * three confirm-and-maybe-greet steps.
   */
  lemma SelfSteps(rows: seq<User>, cmd: Command, d: Date, fresh1: int, fresh2: int,
                  today: Date, delivered: nat -> bool, pick: nat -> VerseIndex)
    requires cmd.isPrivate && 1 <= |cmd.args| <= 2
    ensures var once := Upsert(rows, cmd.sender.id, ChosenUsername(cmd), ChosenName(cmd), d);
      var t1 := Saving(once, cmd, d, today, delivered(0), pick(0));
      var t2 := Saving(t1.rows, cmd, d, today, delivered(1), pick(1));
      var t3 := Saving(t2.rows, cmd, d, today, delivered(2), pick(2));
      Register(rows, cmd, Some(d), fresh1, fresh2, today, delivered, pick) == Then(Then(t1, t2), t3) &&
      Restamped(once, t3.rows, today)
  {
    var once := Upsert(rows, cmd.sender.id, ChosenUsername(cmd), ChosenName(cmd), d);
    var t1 := Saving(once, cmd, d, today, delivered(0), pick(0));
    SelfCopy(rows, once, cmd, d, Some(fresh1), today, delivered(0), pick(0));
    var t2 := Saving(t1.rows, cmd, d, today, delivered(1), pick(1));
    SelfCopy(rows, t1.rows, cmd, d, Some(fresh2), today, delivered(1), pick(1));
    SelfCopy(rows, t2.rows, cmd, d, None, today, delivered(2), pick(2));
  }

  /**
   * Registering oneself (at most two arguments): the row is keyed by the
   * sender's id, holds the sender's username and, without a second argument,
   * the sender's first name. The three copies leave the table as one
   * registration would, apart from `last_sent` stamps of today by the
   * immediate sends, which run only when the full date, year included, is today.
   */
  lemma SelfRegistration(rows: seq<User>, cmd: Command, d: Date, fresh1: int, fresh2: int,
                         today: Date, delivered: nat -> bool, pick: nat -> VerseIndex)
    requires cmd.isPrivate && 1 <= |cmd.args| <= 2
    ensures var name := if |cmd.args| == 2 then cmd.args[1] else cmd.sender.firstName;
      var once := Upsert(rows, cmd.sender.id, cmd.sender.username, name, d);
      var r := Register(rows, cmd, Some(d), fresh1, fresh2, today, delivered, pick);
      r.flow == Continue &&
      r.replies == [Saved(name, cmd.args[0]), Saved(name, cmd.args[0]), Saved(name, cmd.args[0])] &&
      Restamped(once, r.rows, today) &&
      (d != today ==> r.rows == once && r.sends == []) &&
      (d == today ==> |r.sends| == 3)
  {
    assert ChosenName(cmd) == (if |cmd.args| == 2 then cmd.args[1] else cmd.sender.firstName);
    assert ChosenUsername(cmd) == cmd.sender.username;
    SelfSteps(rows, cmd, d, fresh1, fresh2, today, delivered, pick);
  }

  /**
   * Registering oneself on the day of birth with a username: the three
   * copies each try the immediate greeting, but once one goes through the
   * same-day gate holds back the rest, so at most one greeting is posted.
   */
  lemma SelfRegistrationOnBirthday(rows: seq<User>, cmd: Command, fresh1: int, fresh2: int,
                                   today: Date, delivered: nat -> bool, pick: nat -> VerseIndex)
    requires cmd.isPrivate && 1 <= |cmd.args| <= 2 && cmd.sender.username.Some?
    ensures var r := Register(rows, cmd, Some(today), fresh1, fresh2, today, delivered, pick);
      |r.sends| == 3 && SentTotal(r.sends) <= 1
  {
    var name, u := ChosenName(cmd), ChosenUsername(cmd);
    var once := Upsert(rows, cmd.sender.id, u, name, today);
    SelfSteps(rows, cmd, today, fresh1, fresh2, today, delivered, pick);
    UpsertHolds(rows, cmd.sender.id, u, name, today);
    RepeatedSendOnce(once, name, u, today, delivered, pick);
  }

  /**
   * Registering oneself on the day of birth without a username: the gate
   * never matches, so every copy posts a greeting whenever its delivery goes
   * through, up to three in all.
   */
  lemma SelfRegistrationOnBirthdayNoUsername(rows: seq<User>, cmd: Command, fresh1: int, fresh2: int,
                                             today: Date, delivered: nat -> bool, pick: nat -> VerseIndex)
    requires cmd.isPrivate && 1 <= |cmd.args| <= 2 && cmd.sender.username.None?
    ensures var r := Register(rows, cmd, Some(today), fresh1, fresh2, today, delivered, pick);
      |r.sends| == 3 && forall c :: 0 <= c < 3 ==> (r.sends[c].Sent? <==> delivered(c))
  {
    var once := Upsert(rows, cmd.sender.id, None, ChosenName(cmd), today);
    SelfSteps(rows, cmd, today, fresh1, fresh2, today, delivered, pick);
    RepeatedSendNoUsername(once, ChosenName(cmd), today, delivered, pick);
  }

  /** Three sends in a row to a registered username post at most one greeting. */
  lemma RepeatedSendOnce(once: seq<User>, name: string, u: Option<string>, today: Date,
                         delivered: nat -> bool, pick: nat -> VerseIndex)
    requires Present(once, name, u)
    ensures var x1 := Send(once, name, u, today, delivered(0), pick(0));
      var x2 := Send(x1.rows, name, u, today, delivered(1), pick(1));
      var x3 := Send(x2.rows, name, u, today, delivered(2), pick(2));
      SentTotal([x1.outcome, x2.outcome, x3.outcome]) <= 1
  {
    var x1 := Send(once, name, u, today, delivered(0), pick(0));
    var x2 := Send(x1.rows, name, u, today, delivered(1), pick(1));
    var x3 := Send(x2.rows, name, u, today, delivered(2), pick(2));
    SendContract(once, name, u, today, delivered(0), pick(0));
    if x1.outcome.Sent? {
      SendAgainSkipped(once, name, u, today, delivered(0), pick(0), delivered(1), pick(1));
      SendAgainSkipped(once, name, u, today, delivered(0), pick(0), delivered(2), pick(2));
    } else {
      SendContract(x1.rows, name, u, today, delivered(1), pick(1));
      if x2.outcome.Sent? {
        SendAgainSkipped(x1.rows, name, u, today, delivered(1), pick(1), delivered(2), pick(2));
      }
    }
    SentTotalThree(x1.outcome, x2.outcome, x3.outcome);
  }

  /** Without a username, each of three sends posts exactly when its delivery goes through. */
  lemma RepeatedSendNoUsername(once: seq<User>, name: string, today: Date,
                               delivered: nat -> bool, pick: nat -> VerseIndex)
    ensures var x1 := Send(once, name, None, today, delivered(0), pick(0));
      var x2 := Send(x1.rows, name, None, today, delivered(1), pick(1));
      var x3 := Send(x2.rows, name, None, today, delivered(2), pick(2));
      (x1.outcome.Sent? <==> delivered(0)) && (x2.outcome.Sent? <==> delivered(1)) &&
      (x3.outcome.Sent? <==> delivered(2))
  {
    var x1 := Send(once, name, None, today, delivered(0), pick(0));
    var x2 := Send(x1.rows, name, None, today, delivered(1), pick(1));
    NoUsernameNeverGated(once, name, today, delivered(0), pick(0));
    NoUsernameNeverGated(x1.rows, name, today, delivered(1), pick(1));
    NoUsernameNeverGated(x2.rows, name, today, delivered(2), pick(2));
  }

  /**
   * Registering someone else (three arguments): the first copy writes a row
   * under `fresh1`, the second another under `fresh2`, both holding the given
   * name, username and birthday; the third copy has no key and raises. Apart
   * from today's stamps, the table is the two registrations in turn.
   */
  lemma ThirdPartyRegistration(rows: seq<User>, cmd: Command, d: Date, fresh1: int, fresh2: int,
                               today: Date, delivered: nat -> bool, pick: nat -> VerseIndex)
    requires cmd.isPrivate && |cmd.args| >= 3
    ensures var name, u := cmd.args[1], Some(cmd.args[2]);
      var twice := Upsert(Upsert(rows, fresh1, u, name, d), fresh2, u, name, d);
      var r := Register(rows, cmd, Some(d), fresh1, fresh2, today, delivered, pick);
      r.flow == Raise &&
      r.replies == [Saved(name, cmd.args[0]), Saved(name, cmd.args[0])] &&
      Restamped(twice, r.rows, today) &&
      (d != today ==> r.rows == twice && r.sends == []) &&
      (d == today ==> |r.sends| == 2)
  {
    var name, u := cmd.args[1], Some(cmd.args[2]);
    var first := Upsert(rows, fresh1, u, name, d);
    var twice := Upsert(first, fresh2, u, name, d);
    var s1 := RegisterOnce(rows, cmd, Some(d), Some(fresh1), today, delivered(0), pick(0));
    SendContract(first, name, u, today, delivered(0), pick(0));
    UpsertRestamped(first, s1.rows, today, fresh2, u, name, d);
    var saved2 := Upsert(s1.rows, fresh2, u, name, d);
    SendContract(saved2, name, u, today, delivered(1), pick(1));
    var s2 := RegisterOnce(s1.rows, cmd, Some(d), Some(fresh2), today, delivered(1), pick(1));
    RestampedTransitive(twice, saved2, s2.rows, today);
  }

  /**
   * With distinct keys and a consistent table, a third-party registration
   * leaves two rows for the same person: same name, username and birthday.
   */
  lemma ThirdPartyDuplicates(rows: seq<User>, name: string, handle: string, d: Date, fresh1: int, fresh2: int)
    requires UniqueIds(rows) && fresh1 != fresh2
    ensures var twice := Upsert(Upsert(rows, fresh1, Some(handle), name, d), fresh2, Some(handle), name, d);
      UniqueIds(twice) &&
      Lookup(twice, fresh1).Some? && Lookup(twice, fresh2).Some? &&
      Lookup(twice, fresh1).value.firstName == Lookup(twice, fresh2).value.firstName == name &&
      Lookup(twice, fresh1).value.username == Lookup(twice, fresh2).value.username == Some(handle) &&
      Lookup(twice, fresh1).value.birthday == Lookup(twice, fresh2).value.birthday == d
  {
    var first := Upsert(rows, fresh1, Some(handle), name, d);
    UpsertStores(rows, fresh1, Some(handle), name, d);
    UpsertStores(first, fresh2, Some(handle), name, d);
  }

  /**
   * The command keeps the table consistent (unique ids, real dates), given
   * that a date which parses is a real calendar date.
   */
  lemma RegisterValid(rows: seq<User>, cmd: Command, parsed: Option<Date>, fresh1: int, fresh2: int,
                      today: Date, delivered: nat -> bool, pick: nat -> VerseIndex)
    requires ValidRows(rows) && (parsed.Some? ==> ValidDate(parsed.value))
    ensures ValidRows(Register(rows, cmd, parsed, fresh1, fresh2, today, delivered, pick).rows)
  {
    if !cmd.isPrivate || |cmd.args| == 0 || parsed.None? {
      RegisterRejects(rows, cmd, parsed, fresh1, fresh2, today, delivered, pick);
    } else if |cmd.args| <= 2 {
      SelfRegistration(rows, cmd, parsed.value, fresh1, fresh2, today, delivered, pick);
      var name := if |cmd.args| == 2 then cmd.args[1] else cmd.sender.firstName;
      var once := Upsert(rows, cmd.sender.id, cmd.sender.username, name, parsed.value);
      UpsertValid(rows, cmd.sender.id, cmd.sender.username, name, parsed.value);
      RestampedValid(once, Register(rows, cmd, parsed, fresh1, fresh2, today, delivered, pick).rows, today);
    } else {
      ThirdPartyRegistration(rows, cmd, parsed.value, fresh1, fresh2, today, delivered, pick);
      var first := Upsert(rows, fresh1, Some(cmd.args[2]), cmd.args[1], parsed.value);
      var twice := Upsert(first, fresh2, Some(cmd.args[2]), cmd.args[1], parsed.value);
      UpsertValid(rows, fresh1, Some(cmd.args[2]), cmd.args[1], parsed.value);
      UpsertValid(first, fresh2, Some(cmd.args[2]), cmd.args[1], parsed.value);
      RestampedValid(twice, Register(rows, cmd, parsed, fresh1, fresh2, today, delivered, pick).rows, today);
    }
  }
}
