/**
 * The bot as the program runs it: one object holding the `users` table, whose
 * handlers read and rewrite that table statement by statement. Each handler is
 * proved to end in exactly the state, and with exactly the answers, that the
 * pure description of the same handler gives.
 */
module Bot {
  import opened Wrappers
  import opened Calendar
  import opened Users
  import opened Messages
  import opened Dispatch
  import opened Registration

  class BirthdayBot {
    /** The `users` table, in table order. */
    var users: seq<User>

    /** Unique ids and real calendar dates throughout the table. */
    ghost predicate Valid()
      reads this
    {
      ValidRows(users)
    }

    /** A bot starting on an empty table. */
    constructor ()
      ensures users == [] && Valid()
    {
      users := [];
    }

    /**
     * `send_birthday_message`: read the `last_sent` of the first row matching
     * name and username and stop if it is today; otherwise build the greeting
     * and post it, and only when the post goes through stamp every matching
     * row with today.
     */
    method SendBirthdayMessage(name: string, username: Option<string>, today: Date,
                               delivered: bool, verse: VerseIndex) returns (outcome: Outcome)
      requires Valid()
      modifies this
      ensures Delivery(users, outcome) == Send(old(users), name, username, today, delivered, verse)
      ensures Valid()
    {
      var first := FirstMatch(users, name, username);
      if first.Some? && users[first.value].lastSent == Some(today) {
        return Skipped;
      }
      var post := Post(name, username, verse);
      if delivered {
        MarkSentEffect(users, name, username, today);
        RestampedValid(users, MarkSent(users, name, username, today), today);
        users := MarkSent(users, name, username, today);
        outcome := Sent(post);
      } else {
        outcome := Failed(post);
      }
    }

    /**
     * `check_birthdays`: fetch the rows whose birthday falls on today's month
     * and day, then run the send routine for each in fetch order. Attempt `i`
     * goes through when `delivered(i)` and uses verse `pick(i)`.
     */
    method CheckBirthdays(today: Date, delivered: nat -> bool, pick: nat -> VerseIndex)
        returns (people: seq<User>, outcomes: seq<Outcome>)
      requires Valid() && ValidDate(today)
      modifies this
      ensures people == Due(old(users), today)
      ensures Run(users, outcomes) == Scan(old(users), today, delivered, pick)
      ensures Valid()
    {
      ScanValid(users, today, delivered, pick);
      people := Due(users, today);
      outcomes := SendToEach(people, today, delivered, pick);
    }

    /** The loop of `check_birthdays`: the send routine for each fetched row in turn. */
    method SendToEach(people: seq<User>, today: Date, delivered: nat -> bool, pick: nat -> VerseIndex)
        returns (outcomes: seq<Outcome>)
      requires Valid()
      modifies this
      ensures Run(users, outcomes) == SendEach(old(users), people, today, delivered, pick, 0)
      ensures Valid()
    {
      outcomes := [];
      ghost var goal := SendEach(users, people, today, delivered, pick, 0);
      var i := 0;
      while i < |people|
        invariant 0 <= i <= |people|
        invariant Valid()
        invariant var rest := SendEach(users, people[i..], today, delivered, pick, i);
          Run(rest.rows, outcomes + rest.outcomes) == goal
      {
        SendEachAdvance(users, people, today, delivered, pick, i, outcomes, goal);
        var o := SendBirthdayMessage(people[i].firstName, people[i].username, today, delivered(i), pick(i));
        outcomes := outcomes + [o];
        i := i + 1;
      }
      assert people[i..] == [];
    }

    /**
     * One copy of the `add_birthday` body: guard on the chat type and the
     * arguments, write the row under the chosen key, confirm, and greet at
     * once when the full date is today.
     */
    method AddBirthdayOnce(cmd: Command, parsed: Option<Date>, thirdParty: Option<int>,
                           today: Date, delivered: bool, verse: VerseIndex)
        returns (replies: seq<Reply>, sends: seq<Outcome>, flow: Flow)
      requires Valid() && (parsed.Some? ==> ValidDate(parsed.value))
      modifies this
      ensures Step(users, replies, sends, flow)
        == RegisterOnce(old(users), cmd, parsed, thirdParty, today, delivered, verse)
      ensures Valid()
    {
      replies, sends, flow := [], [], Continue;
      if !cmd.isPrivate {
        return [], [], Return;
      }
      if |cmd.args| == 0 {
        return [UsageHint], [], Return;
      }
      if parsed.None? {
        return [InvalidDateFormat], [], Continue;
      }
      var birthday := parsed.value;
      var name, username := ChosenName(cmd), ChosenUsername(cmd);
      var id := ChosenId(cmd, thirdParty);
      if id.None? {
        return [], [], Raise;
      }
      UpsertValid(users, id.value, username, name, birthday);
      users := Upsert(users, id.value, username, name, birthday);
      replies := [Saved(name, cmd.args[0])];
      if birthday == today {
        var o := SendBirthdayMessage(name, username, today, delivered, verse);
        sends := [o];
      }
    }

    /**
     * `add_birthday`: the three copies of the body in turn, keyed for a third
     * party by `fresh1`, then `fresh2`, then nothing; a copy that returns or
     * raises ends the handler.
     */
    method AddBirthday(cmd: Command, parsed: Option<Date>, fresh1: int, fresh2: int,
                       today: Date, delivered: nat -> bool, pick: nat -> VerseIndex)
        returns (replies: seq<Reply>, sends: seq<Outcome>, flow: Flow)
      requires Valid() && (parsed.Some? ==> ValidDate(parsed.value))
      modifies this
      ensures Step(users, replies, sends, flow)
        == Register(old(users), cmd, parsed, fresh1, fresh2, today, delivered, pick)
      ensures Valid()
    {
      replies, sends, flow := AddBirthdayOnce(cmd, parsed, Some(fresh1), today, delivered(0), pick(0));
      if flow != Continue {
        return;
      }
      var r2, s2, f2 := AddBirthdayOnce(cmd, parsed, Some(fresh2), today, delivered(1), pick(1));
      replies, sends, flow := replies + r2, sends + s2, f2;
      if flow != Continue {
        return;
      }
      var r3, s3, f3 := AddBirthdayOnce(cmd, parsed, None, today, delivered(2), pick(2));
      replies, sends, flow := replies + r3, sends + s3, f3;
    }
  }
}
