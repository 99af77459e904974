# EclipDonate ledger and leaderboards, in Dafny

EclipDonate is a Discord bot that keeps a donation ledger. It reads amounts
such as "Rp. 50.000" from a donation channel. Admins adjust the ledger with
`%adddonation`, `%removedonation`, `%resetuser` and `%resetdonation`. The bot
posts two leaderboards: the all-time top 30 and the current month's top 10.

This project models the state machine under the chat glue in `index.js`:

- The ledger state is the class `DonationBot.Ledger`. It has four fields:
  - `total`: the all-time table, user id to (username, total);
  - `monthly`: the monthly table, (user id, month key) to (username, total);
  - `prevTotal` and `prevMonthly`: the id lists of the boards last published.
- Every handler is a method that changes these fields as the SQL statements
  and cache assignments of the source do.
- The table rules are pure functions in `Tables`: credit, clamped debit,
  user deletion and the month purge. `Ledger`'s methods apply them in place.
- The projector is in `Leaderboard`. It selects the top N rows, compares
  their ids with the cache, and either stays silent or replaces the cache
  and returns the ranked board.
- The text parsers are in `Commands`: the `Rp` amount regex, mention
  stripping and the admin argument checks. `Decimal` holds `parseInt` and
  number printing. `MonthKeys` holds the `getCurrentMonth` format.
- `Text` holds SQLite's text order, used by `ORDER BY month DESC` and by
  the tie-break.

Some modelling choices:

- Equal totals: `ORDER BY total DESC` leaves their order to SQLite. The
  model ranks them by ascending user id in text order, so the top list is a
  function of the table (`Leaderboard.TopNUnique`).
- The clock: the current month key is a parameter of the handlers.
- User lookups: `client.users.fetch` is a parameter
  `users: UserId -> Option<string>`. `None` means the lookup rejects; the
  handler then throws before any change.
- Boards: a published board is returned as `Some(entries)`. A board
  suppressed by the cache comparison is `None`.

Where the bot's own text promises more than its code does, the model
follows the code. That text is the `%help` listing (index.js:232-237) and
the comment on the monthly rollover (index.js:82).

- The help says `%donators` and `%monthly` show the boards. They go through
  the same cache comparison as every other projection, so an unchanged board
  is not posted again. There is no forced render.
- After `%resetdonation`, projecting the empty tables posts nothing. The
  empty id list equals the emptied cache (`DonationBot.EmptyAfterResetIsSilent`).
- The comment says the monthly board resets every month. The check
  compares the current month with the greatest month key stored. If a row
  of the current month already exists, rows of earlier months survive the
  check (`DonationBot.CurrentRowDelaysPurge`).

## Model

| member | source | states |
|---|---|---|
| Decimal.NatToString | index.js:41 | the printed number has at least one digit, no leading zero, and reads back as the number |
| Decimal.DigitsOrder | index.js:86 | for equal-length digit strings, text order is numeric order |
| Decimal.ParseInt | index.js:145 | `parseInt` is NaN exactly when no digit follows the optional sign; a negative result needs a leading '-' |
| Decimal.ParseIntOfNat | index.js:145 | a printed number, with '+', '-' or a non-digit suffix, parses back to the number or its negation |
| MonthKeys.MonthKey | index.js:41 | the key is the year's digits, a '-', and two digits whose value is the month |
| MonthKeys.MonthDigits | index.js:41 | the padded month is two digits whose value is the month |
| MonthKeys.MonthPadding | index.js:41 | month 1 pads to "01", month 12 stays "12" |
| MonthKeys.January2024 | index.js:41 | January 2024 is keyed "2024-01" |
| MonthKeys.MonthKeyParts | index.js:41 | a key's leading digit run is the year, and the two characters after the '-' are the padded month |
| MonthKeys.MonthKeyInjective | index.js:41 | different months of any years never share a key |
| MonthKeys.MonthKeyOrder | index.js:86 | for four-digit years, text order of keys is calendar order, in both directions |
| Commands.StripMention | index.js:144 | no '<', '@', '!' or '>' remains, and every remaining character comes from the argument |
| Commands.MentionRoundTrip | index.js:144 | `<@id>`, `<@!id>` and a bare id all strip to the id |
| Commands.TargetOf | index.js:200-201 | no argument, an empty stripped id (format error) and a parsed id, each exactly characterised |
| Commands.TargetAndAmount | index.js:144-146 | a format error exactly when the stripped id is empty, the amount is missing, NaN or not positive; otherwise the id and a positive amount |
| Commands.AdminArgsRoundTrip | index.js:171-173 | `<@id> n` parses to (id, n) for positive n; a negative amount or a missing amount is a format error |
| Commands.CaptureAt | index.js:102 | a capture is a non-empty run of digits and dots |
| Commands.FirstRpCapture | index.js:102 | there is a capture exactly when a match starts somewhere, and it is the capture of the leftmost match: a non-empty run of digits and dots |
| Commands.LeftmostMatch | index.js:102 | the match that starts first decides the capture |
| Commands.NoMatchIn | index.js:102 | no match starts in text without an "Rp" of its own that does not end in 'R' or 'r' |
| Commands.DonationAmount | index.js:102-105 | a credited amount is positive, and a message without an "Rp" match credits nothing |
| Commands.AmountDigits | index.js:104 | removing the dots from an amount leaves only digits |
| Commands.CaptureRun | index.js:102 | at the start of a maximal run of amount characters, the capture is that run |
| Commands.AfterBareRp | index.js:102 | when the first match is a bare "Rp" before the amount, a leading '.' of the amount is taken by the optional dot |
| Commands.AfterHead | index.js:102 | when the first match is any other "Rp" head before the amount, the capture is the whole amount |
| Commands.RpCapture | index.js:102-104 | when the first match is an "Rp" amount after any text, the captured digits are the amount's digits |
| Commands.ParseDigits | index.js:104 | `parseInt` of a non-empty digit string is its value |
| Commands.RpAmount | index.js:102-105 | a message whose first match is an "Rp" amount, after any text, credits the number its digits spell when positive, and nothing when it is 0 |
| Commands.DotsOnlyCreditNothing | index.js:104-105 | a capture with no digit, such as "Rp..", credits nothing |
| Commands.FiftyThousand | index.js:102-105 | "Rp. 50.000" credits 50000 |
| Commands.FiftyThousandAfterText | index.js:102-105 | "Donasi Rp. 50.000" credits 50000 |
| Commands.FiftyThousandAfter | index.js:102-105 | "Rp. 50.000" after any text in which no match starts credits 50000 |
| Tables.Credit | index.js:109-120 | the row gains exactly the amount, or is created with it; the username is overwritten; no other row changes; non-negative totals stay non-negative |
| Tables.Debit | index.js:178-191 | an existing row becomes max(total - amount, 0) with the new username; no row is created or deleted; no other row changes; no total goes negative |
| Tables.DebitUndoesCredit | index.js:178-191 | subtracting what was just added restores the total but keeps a row the addition created |
| Tables.DebitClamps | index.js:180 | subtracting at least the total leaves 0 |
| Tables.CreditAllSums | index.js:109-120 | after any series of donations a user's total is the start plus the sum of their donations, and positive donations keep totals non-negative |
| Tables.DropUser | index.js:204 | exactly the user's row goes; the others stay unchanged |
| Tables.DropUserMonths | index.js:205 | exactly the user's rows of every month go; the others stay unchanged |
| Tables.ResetUserIdempotent | index.js:204-205 | resetting a user twice is resetting once |
| Tables.KeepMonth | index.js:89 | exactly the rows of the given month remain, unchanged |
| Tables.MonthTable | index.js:65 | a month's table has exactly the users with a row in that month, and their rows |
| Tables.CreditMonthTable | index.js:116-120 | crediting a user's row of a month credits that month's table |
| Tables.CreditOtherMonth | index.js:116-120 | crediting one month leaves every other month's table unchanged |
| Tables.DebitMonthTable | index.js:186-191 | subtracting from a user's row of a month subtracts in that month's table |
| Tables.LatestMonthUnique | index.js:86 | the latest month of a table is unique |
| Tables.PurgeSettles | index.js:88-90 | after the purge, the table is empty or the current month is latest, and the current month's table is unchanged |
| Leaderboard.BeforeTotal | index.js:45 | the ranking orders any two different rows |
| Leaderboard.BeforeTransitive | index.js:45 | the ranking is transitive |
| Leaderboard.Insert | index.js:45 | inserting a row into a ranked list keeps it ranked and adds exactly that row |
| Leaderboard.SelectTop | index.js:45 | the result is the top N: ranked, min(N, rows) long, and every excluded row ranks after every listed one |
| Leaderboard.TopNAgree | index.js:45 | two top-N lists of one table agree on every prefix |
| Leaderboard.TopNUnique | index.js:45-47 | a table has exactly one top-N list |
| Leaderboard.TopNKeptBySameOrder | index.js:45 | a change that keeps every pairwise order keeps the top list |
| Leaderboard.LeaderTopUpSameOrder | index.js:110 | a further donation by the first-ranked user keeps every pairwise order |
| Leaderboard.Medal | index.js:40 | a medal is given exactly for ranks 1 to 3 |
| Leaderboard.MedalsDistinct | index.js:40 | the three medals differ |
| Leaderboard.RankEntries | index.js:55-57 | the entries are the listed rows in order, numbered from 1, with their medal, username and total |
| Leaderboard.BoardShape | index.js:55-56 | a board has at most N lines, ranks 1, 2, ..., non-increasing totals, and medals exactly on ranks 1 to 3 |
| Leaderboard.Project | index.js:44-60 | a board is published exactly when the top ids differ from the cache; the cache then becomes those ids; otherwise the cache stays |
| Leaderboard.RepeatIsSilent | index.js:47 | a second projection with no change in between publishes nothing |
| Leaderboard.SameOrderIsSilent | index.js:47 | a projection after a change that keeps every pairwise order publishes nothing |
| Leaderboard.LeaderTopUpIsSilent | index.js:47 | a further donation by the first-ranked user does not republish the board |
| DonationBot.LatestMonth | index.js:86 | none exactly for the empty table, otherwise the greatest stored month in text order |
| DonationBot.Ledger.constructor | index.js:36-37 | the tables are the stored ones and both caches are empty |
| DonationBot.Ledger.Contribute | index.js:109-120 | both tables are credited with the amount under the latest username; totals stay non-negative |
| DonationBot.Ledger.Subtract | index.js:178-191 | both tables are debited with clamping, and only existing rows change |
| DonationBot.Ledger.Forget | index.js:204-205 | the user's all-time row and their rows of every month are deleted |
| DonationBot.Ledger.UpdateLeaderboardTotal | index.js:44-60 | projection of the all-time table with limit 30 against its cache |
| DonationBot.Ledger.UpdateLeaderboardMonthly | index.js:63-80 | projection of the current month's table with limit 10 against its cache |
| DonationBot.Ledger.Publish | index.js:122-124 | both projections run, each against its own cache |
| DonationBot.Ledger.CheckMonthlyReset | index.js:83-93 | resets exactly when the table is non-empty and the current month is not the latest; then only the current month's rows remain and the monthly cache is emptied; otherwise nothing changes |
| DonationBot.Ledger.HandleDonationMessage | index.js:101-125 | credits the parsed amount to the author in both tables and republishes; without an amount nothing changes and nothing is sent |
| DonationBot.Ledger.ResetDonation | index.js:135-141 | both tables and both caches are emptied, nothing is projected, and the reply is the confirmation |
| DonationBot.Ledger.AddDonation | index.js:143-168 | valid arguments and a known user: both tables credited and both boards republished; a format error or a throw changes nothing |
| DonationBot.Ledger.RemoveDonation | index.js:170-197 | valid arguments and a known user: both tables debited with clamping and republished; a format error or a throw changes nothing |
| DonationBot.Ledger.ResetUser | index.js:199-211 | a valid id and a known user: the user's rows deleted everywhere and republished; a format error or a throw changes nothing |
| DonationBot.EmptyAfterResetIsSilent | index.js:136-139 | projecting empty tables against emptied caches publishes nothing |
| DonationBot.CurrentRowDelaysPurge | index.js:86-89 | with a row of an earlier month and one of the current month, the current month is latest, so the check does not purge, although a purge would delete a row |
| DonationBot.EarlierRowSurvives | index.js:86-89 | for any two month keys in text order, a row of each makes the later one latest, while a purge would delete the earlier row |
| DonationBot.TieGoesToSmallerId | index.js:45 | donations of 50000 and 20000 by A and 70000 by B tie A and B at 70000, and the top list is A, B |

## Left out

- Discord I/O is not modelled: the message event, `channels.fetch`, `channel.send`, embeds, `@everyone`, the help text and the reply texts. Replies are the `Reply` values `Confirmed`, `WrongFormat` and `Aborted`; the reset's reply is `Confirmed`.
- `toLocaleString` formatting of amounts is locale-dependent display. A board entry carries the number.
- SQL text and better-sqlite3 are not modelled: the tables are maps. The order of equal totals, which SQLite leaves open, is fixed as ascending user id.
- The `setInterval` timer and `new Date()` are not modelled. The month key is a parameter, and `MonthKeys.MonthKey` builds it from a year and a month number.
- The permission check `isAdmin` is not modelled: the admin handlers are the admin path.
- The `%` prefix is not modelled either: the split on white space, the lowercasing and the command dispatch. The admin handlers take the argument list after the command word.
- A command sent in the donation channel is not modelled as such: there it is dispatched only after the same message has credited a positive Rp amount (index.js:103, 105), and otherwise it is ignored. The model takes donations and commands as separate events.
- The un-awaited projector calls are not modelled, nor the order of the sends. Each projection updates its cache before sending, and the model returns the board.
- A failing `channels.fetch` of the leaderboard channel is not modelled: it would throw after the tables changed and skip the projections.
- The monthly projector reads the clock again in the source. The model passes it the same month key as the handler.
- `parseInt` is not modelled on the admin path for the hexadecimal prefix "0x" with radix inference, leading white space (tokens have none) or precision loss on very long digit strings. Amounts are unbounded integers.
- `\s` in the amount regex is restricted to ASCII white space.
- DonationAmount: its own contract says only that a credited amount is positive and that no match credits nothing. The exact amount is stated by `RpAmount`, for any message whose first match is an "Rp" amount, with or without text before it.
- MonthKeyOrder: holds for four-digit years only, as the source's text comparison does.
