# Birthday Blessing Bot — a verified model of its core

The bot keeps a `users` table of people and their birthdays. Whenever a
birthday falls on today, it posts a greeting with a Bible verse to a group
chat. This project models three parts of `main.py` and proves properties
of that model:

- **the registration command** `/addbirthday YYYY-MM-DD [name] [username]`,
  whose body is written out three times in a row in the source;
- **the daily scan** `check_birthdays`, which selects the rows whose birthday
  has today's month and day and calls the send routine for each;
- **the send routine** `send_birthday_message`, with its same-day gate, the
  greeting text, and the `last_sent` stamp written after a successful post.

Modules:

- `Calendar` (calendar.dfy): calendar dates, and the `MM-DD` key the scan
  compares.
- `Users` (users.dfy): the table as a sequence of rows in table order, plus
  the SQL statements the bot runs against it. These are the upsert keyed by
  `user_id`, the first-row `SELECT last_sent`, the `UPDATE ... SET last_sent`,
  and the month/day selection.
- `Messages` (messages.dfy): the five verses, the name tag, and the greeting
  text.
- `Dispatch` (dispatch.dfy): the send routine and the scan as functions of the
  table before the call.
- `Registration` (registration.dfy): one copy of the registration body, and
  the three copies in order.
- `Bot` (bot.dfy): the class `BirthdayBot`, which holds the table in a field.
  Its handler methods update the field statement by statement. Each method is
  proved to end with exactly the table and answers the matching function
  gives.

Telegram's answers and random choices are parameters:

- `delivered(k)` says whether post attempt `k` goes through.
- `pick(k)` is the verse index that `random.choice` returns for attempt `k`.
- The registration's date argument arrives already parsed.
- `fresh1` and `fresh2` are the two timestamp-derived keys used for
  third-party registrations.

What the code does, as the model captures it:

- **The gate is keyed by (first name, username), not by `user_id`.** A row
  without a username never matches, because SQL's `username = NULL` is never
  true. Such a person is never held back and never stamped, so every scan
  that reaches them greets them again.
- **The gate reads, the post goes out, then the table is stamped.** The read
  and the stamp are separate statements. A failed post leaves the table
  unchanged, so a later trigger on the same day tries again. Nothing makes
  the read at main.py:232 and the write at main.py:256 one atomic step, such
  as a conditional update keyed by id; the code does not do this.
- **Repeated copies.** A registration for oneself runs its write three times
  to the same key, so the table ends as if it had run once. On the day of
  birth, the immediate greeting is attempted three times. With a username,
  at most one of those posts goes out.
- **Third-party registration.** The first two copies write two rows, one under
  each fresh key, so the same person is stored twice. The third copy has no
  key and raises on the `NOT NULL` constraint before it writes anything.
- **Year match for the immediate greeting.** The scan compares only month and
  day. The immediate greeting after registration needs the full date, year
  included, to equal today.

## Model

| member | source | states |
|---|---|---|
| Users.Upsert | main.py:103-110 | the insert-or-update keyed by `user_id`; its contract is stated by `Users.UpsertStores`, `Users.UpsertFrame` and `Users.UpsertIdempotent` |
| Users.SentToday | main.py:232-235 | the same-day gate: the first matching row's `last_sent` is today; see `Users.FirstMatchFirst`, `Users.AllMarkedCloses` and `Dispatch.SendContract` |
| Users.MarkSent | main.py:254-257 | the stamp after a successful post; its contract is stated by `Users.MarkSentEffect` |
| Users.Due | main.py:262-266 | the scan's selection; its contract is stated by `Users.DueExactly`, `Users.DueCounts` and `Users.DueIgnoresYear` |
| Messages.VERSES | main.py:48-54 | the five verses, character for character; `Messages.GreetingMentions` states that the chosen one appears in the greeting |
| Messages.NameTag | main.py:239 | the name tag; its contract is stated by `Messages.NameTagShape` |
| Messages.Render | main.py:241-249 | the greeting text; its contract is stated by `Messages.RenderMentions` |
| Dispatch.Send | main.py:228-259 | the send routine; its contract is stated by `Dispatch.SendContract`, `Dispatch.GreetingContents` and `Dispatch.SendAgainSkipped` |
| Dispatch.SendEach | main.py:267-268 | the loop over the fetched rows; its contract is stated by `Dispatch.SendEachStamps`, `Dispatch.SendEachAt`, `Dispatch.SendEachAttempt`, `Dispatch.SendEachFirstAttempt`, `Dispatch.SendEachFrame` and `Dispatch.SendEachAtMostOnce` |
| Dispatch.Scan | main.py:261-268 | the daily scan; its contract is stated by `Dispatch.ScanShape`, `Dispatch.ScanAttempt`, `Dispatch.ScanFirstAttempt`, `Dispatch.ScanFrame` and `Dispatch.ScanAtMostOnce` |
| Registration.ChosenName | main.py:91 | the second argument or the sender's first name; see `Registration.SelfRegistration` |
| Registration.ChosenUsername | main.py:92 | the third argument or the sender's username; see `Registration.SelfRegistration` and `Registration.ThirdPartyRegistration` |
| Registration.ChosenId | main.py:94-99 | the sender's id with at most two arguments, otherwise the copy's own key; see `Registration.SelfRegistration` and `Registration.ThirdPartyRegistration` |
| Registration.RegisterOnce | main.py:78-120 | one copy of the handler body; see `Registration.RegisterRejects` and `Registration.SelfCopy` |
| Registration.Saving | main.py:113-117 | the confirmation and the immediate greeting after the write; see `Registration.SelfCopy` and `Registration.SelfRegistrationOnBirthday` |
| Registration.Register | main.py:78-196 | the three copies in order; its contract is stated by `Registration.SelfRegistration`, `Registration.ThirdPartyRegistration`, `Registration.RegisterRejects` and `Registration.RegisterValid` |
| Calendar.MonthDayKey | main.py:262-264 | the `MM-DD` text of a date is five characters with a dash in the middle |
| Calendar.MonthDayKeyMatches | main.py:262-265 | two dates have the same `MM-DD` key exactly when they share month and day, whatever the year |
| Users.FindId | main.py:105-106 | the position found for an id holds that id |
| Users.FindIdFirst | main.py:106 | the position found is the first holding the id; nothing is found exactly when no row holds it |
| Users.FindIdAppended | main.py:103-106 | a new row appended for an absent id is found at the end |
| Users.FindIdUpdated | main.py:106-109 | updating a row in place, keeping its id, leaves the id at the same position |
| Users.FindIdOther | main.py:103-110 | a registration for one id never changes where another id is found |
| Users.UpsertStores | main.py:103-110 | after the upsert, ids stay unique and the row for the id holds the new birthday, first name and username; `last_sent` is the old row's, or unset for a new row; every other id reads as before |
| Users.UpsertFrame | main.py:103-110 | the table grows by one row exactly when the id is new; no existing id changes; every row with another id is unchanged |
| Users.UpsertAlreadyHeld | main.py:106-109 | an upsert whose values the row for that id already holds changes nothing |
| Users.UpsertIdempotent | main.py:103-110 | running the same upsert twice gives the same table as running it once |
| Users.UpsertHolds | main.py:103-110 | after the upsert, the id is found and its row holds the registered values |
| Users.UpsertValid | db.py:89 | the upsert keeps ids unique and birthdays real dates |
| Users.FirstMatch | main.py:232-233 | the row `fetchone` returns matches both the first name and the username |
| Users.FirstMatchFirst | main.py:232-233 | that row is the first match in table order, and there is none exactly when no row matches |
| Users.RestampedValid | main.py:256 | changing only `last_sent` keeps the table consistent |
| Users.RestampedFindId | main.py:256 | changing only `last_sent` never moves an id |
| Users.UpsertRestamped | main.py:103-110 | upserting commutes with `last_sent` stamps |
| Users.UpsertAgainAfterStamps | main.py:103-110 | repeating a registration after some stamps changes nothing |
| Users.MarkSentEffect | main.py:256 | the `UPDATE` stamps exactly the rows matching first name and username with today and leaves every other row unchanged; with no username it changes nothing; afterwards the gate is closed for that pair |
| Users.AllMarkedCloses | main.py:232-234 | when every matching row carries today, the gate is closed |
| Users.FirstMatchRestamped | main.py:232-233 | stamping `last_sent` never changes which row `fetchone` returns for a pair |
| Users.SentTodayOtherPair | main.py:232-256 | the stamp for one pair leaves the gate of every other pair open or closed as it was |
| Users.RestampedKeepsMarks | main.py:256 | further stamps of today keep a pair present and keep it fully stamped |
| Users.DueExactly | main.py:262-266 | the scan selects exactly the rows whose birthday has today's month and day, no more entries than rows, and none when no birthday falls today |
| Users.DueCounts | main.py:262-266 | each row whose birthday has today's month and day is selected exactly as often as it occurs in the table; no other row is selected |
| Users.DueIgnoresYear | main.py:262-265 | two days with the same month and day select the same rows |
| Users.DueFromRows | main.py:262-266 | every selected entry is a row of the table |
| Messages.NameTagShape | main.py:239 | the name tag starts with the first name; it is the bare name exactly when the username is missing or empty; otherwise it contains `@` and the username |
| Messages.RenderMentions | main.py:241-249 | the greeting contains the name tag and the verse |
| Messages.GreetingMentions | main.py:237-249 | the greeting contains the first name and the chosen verse, and `@username` when there is one |
| Dispatch.SendContract | main.py:228-259 | the send is skipped exactly when the first matching row was stamped today, and then nothing changes; a failed post changes nothing; a successful post stamps exactly the matching rows and leaves every other row unchanged |
| Dispatch.GreetingContents | main.py:237-252 | an attempted or posted greeting names the person and quotes one of the verses |
| Dispatch.SendAgainSkipped | main.py:232-256 | after a successful post for a pair that has a row, a second send the same day is skipped and changes nothing |
| Dispatch.NoUsernameNeverGated | main.py:232-256 | without a username, the send is never skipped and never stamps; it posts exactly when delivery goes through |
| Dispatch.SendFits | main.py:237-252 | each attempt either skips or posts that person's greeting with the chosen verse, and never skips a person without a username |
| Dispatch.SendEachStamps | main.py:267-268 | the loop gives one outcome per person and only stamps `last_sent` with today; with nobody to greet nothing changes |
| Dispatch.SendEachAt | main.py:267-268 | outcome `i` of the loop answers for person `i`, using attempt `i`'s delivery and verse |
| Dispatch.ScanRun | main.py:267-268 | the loop over the selection gives one outcome per person, each a skip or that person's greeting, never a skip without a username; only stamps of today are written; an empty selection sends nothing and changes nothing |
| Dispatch.ScanShape | main.py:261-268 | the scan calls the send routine once for each row due today, as many times as the row occurs and for no other row, in turn; an empty selection sends nothing and changes nothing; only stamps of today are written |
| Dispatch.GateAfterSend | main.py:232-256 | after one send, a pair has a row exactly when it had one before, and its gate is closed exactly when it was before or the send just greeted that pair while it had a row |
| Dispatch.SendEachAttempt | main.py:232-268 | every attempt of the loop is skipped exactly when its pair was stamped today before the loop or, having a row, was greeted by an earlier attempt; it is sent exactly when neither holds and the post goes through, so a pair is tried again after a failed post |
| Dispatch.ScanAttempt | main.py:232-268 | the same for every person the scan selects, including the second row of a person registered twice |
| Dispatch.SendEachFirstAttempt | main.py:232-268 | the first attempt of the loop for a pair is skipped exactly when that pair was stamped today before the loop, and sent exactly when it was not and the post goes through |
| Dispatch.SendEachFrame | main.py:256-268 | after the loop, a row carrying a pair that got a greeting holds `last_sent` = today and every other row is exactly as before |
| Dispatch.ScanFirstAttempt | main.py:232-268 | a selected person with no earlier selected person of the same pair is skipped exactly when the pair was stamped today before the scan, and greeted exactly when it was not and the post goes through |
| Dispatch.ScanFrame | main.py:256-268 | after the scan, exactly the rows carrying a greeted pair are stamped with today; every other row is unchanged |
| Dispatch.SendEachAtMostOnce | main.py:267-268 | along the loop, a pair with a username and a row gets at most one greeting, none if already fully stamped, and is fully stamped after a greeting |
| Dispatch.ScanAtMostOnce | main.py:261-268 | within one scan, a pair with a username gets at most one greeting even when several rows carry it |
| Dispatch.SecondScanSilent | main.py:288-297 | a later scan the same day sends nothing to a pair with a username that an earlier scan greeted |
| Dispatch.NoUsernameGreetedEveryScan | main.py:232-256 | a person without a username is greeted again by every scan of the day whose post goes through |
| Dispatch.DueRestamped | main.py:262-266 | after `last_sent` stamps the scan selects the same rows in the same order; only their `last_sent` may differ |
| Dispatch.ScanValid | main.py:261-268 | the scan keeps the table consistent |
| Registration.RegisterRejects | main.py:78-120 | outside a private chat the handler is silent; without arguments it answers with the usage line; with a date that does not parse, each of the three copies answers with the format error; in all three cases nothing is written |
| Registration.SelfCopy | main.py:122-159 | a later copy of a self-registration, run on a table that already holds the registration, writes nothing new |
| Registration.SelfSteps | main.py:78-196 | a self-registration is one write followed by three confirm-and-maybe-greet steps |
| Registration.SelfRegistration | main.py:90-117 | a self-registration is keyed by the sender's id and takes the sender's username, and the sender's first name unless a name is given; the table ends as one registration plus today's stamps; three confirmations; greetings only when the full date is today |
| Registration.SelfRegistrationOnBirthday | main.py:115-117 | on the day of birth, with a username, the three immediate greetings put out at most one post |
| Registration.SelfRegistrationOnBirthdayNoUsername | main.py:115-117 | on the day of birth, without a username, each copy posts whenever its delivery goes through |
| Registration.RepeatedSendOnce | main.py:228-259 | three sends in a row to a registered username post at most one greeting |
| Registration.RepeatedSendNoUsername | main.py:228-259 | without a username, each of three sends posts exactly when its delivery goes through |
| Registration.ThirdPartyRegistration | main.py:122-196 | a registration for someone else writes under the first fresh key, then under the second, and then raises; two confirmations |
| Registration.ThirdPartyDuplicates | main.py:95-138 | with distinct fresh keys, the same person ends up in two rows with equal name, username and birthday |
| Registration.RegisterValid | main.py:78-196 | the command keeps ids unique and birthdays real dates |
| Bot.BirthdayBot.SendBirthdayMessage | main.py:228-259 | the table after the method and its outcome are exactly what `Dispatch.Send` gives for the table before; the table stays consistent |
| Bot.BirthdayBot.SendToEach | main.py:267-268 | the loop over fetched rows ends in the table and outcomes of `Dispatch.SendEach`; the table stays consistent |
| Bot.BirthdayBot.CheckBirthdays | main.py:261-268 | the selected people are `Users.Due` of the table before; the final table and outcomes are `Dispatch.Scan`'s; the table stays consistent |
| Bot.BirthdayBot.AddBirthdayOnce | main.py:78-120 | one copy of the body ends in the table, replies, sends and control flow that `Registration.RegisterOnce` gives; the table stays consistent |
| Bot.BirthdayBot.AddBirthday | main.py:78-196 | the handler ends as `Registration.Register` gives, and the table stays consistent |

## Left out

- Telegram I/O (replies, group posts, polling) is replaced by returned
  replies and outcomes. Whether a post goes through comes from the parameter
  `delivered`.
- `random.choice` over the verses is the parameter `pick`. `MESSAGES` and the
  template chosen from it are left out: the code picks a template but never
  uses it.
- `datetime.strptime` is the parameter `parsed`: a real calendar date, or
  absent when it raises `ValueError`. Postgres re-parses the same date text on
  insert. That parse is not modelled separately.
- `datetime.now()` for the two third-party keys is the parameters `fresh1` and
  `fresh2`. That the second key is negative, and that the two are distinct,
  is not modelled.
- `date.today()` and `strftime("%m-%d")` read the same clock. The model uses
  a single `today`, so the midnight case where they differ is left out.
- The SQL engine is left out: connections, commits, errors other than the
  `NOT NULL` violation in the third copy, and `BIGINT` bounds on ids. A
  failed `UPDATE` after a successful post is not modelled.
- Row order: neither the scan's `SELECT` nor the gate's `SELECT last_sent
  ... fetchone()` has an `ORDER BY`. Postgres writes a new row version on
  every `UPDATE` and every `ON CONFLICT DO UPDATE`, so a row has no fixed
  place. The model keeps rows in table order, appends inserts at the end and
  updates rows in place (`Users.Upsert`, `Users.MarkSent`).
- `Users.FirstMatch`, `Users.SentToday`: when several rows match a first name
  and username and their `last_sent` values differ, the source may read any of
  them; the model always reads the first in table order. This happens, for
  example, when a third-party registration adds an unstamped row beside a
  stamped one. The at-most-once lemmas (`Dispatch.SendEachAtMostOnce`,
  `Dispatch.ScanAtMostOnce`, `Dispatch.SecondScanSilent`) do not depend on
  this order: once a greeting goes out, every matching row carries today
  (`Users.AllMarked`), so the gate is closed whichever row is read.
  `Dispatch.SendEachAttempt`, `Dispatch.ScanAttempt`, `Dispatch.SendEachFirstAttempt`
  and `Dispatch.ScanFirstAttempt` state the
  gate through `Users.SentToday`, so they do depend on this order.
- Concurrency is left out. The bot's handlers, scheduler jobs and startup
  check are modelled one after another, never interleaved.
- `first_name` is a plain string, never NULL: every insert supplies one.
- The scheduler (four cron hours) and the startup check are not modelled as
  code. Repeated triggers on one day appear as repeated scans in
  `Dispatch.SecondScanSilent` and `Dispatch.NoUsernameGreetedEveryScan`.
- `start`, `my_birthday`, `list_birthdays`, `test_birthday`, the column
  migration, the token and chat-id checks, and `db.py`'s schema setup are
  outside this model. `config.py` is not part of this model.
- Markdown rendering of the greeting by Telegram is left out. The model fixes
  the text only.
