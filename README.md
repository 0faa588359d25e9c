# TwitchBot check-in and transformation engine, in Dafny

This project models the per-user state engine of the TwitchBot chat bot
(`server.js`). Chat users type `!checkin` to keep a daily check-in streak and
`!tf` to be "transformed" into a random animal for a random time. The bot keeps
two pieces of state:

- the `checkins` table (username → streak, last check-in, animal,
  transformation start and end), a map from username to `Store.UserRecord`;
- the in-memory `transformedUsers` map (username → transformation end).

The model has six modules:

- `Options` (options.dfy): the `Option` datatype, for values that may be absent.

- `Text` (text.dfy): the string helpers the replies and the command matching use:
  - decimal rendering of numbers, as `${n}` prints them, with its parser;
  - `String.prototype.trim`;
  - `String.prototype.toLowerCase`.
- `TimePolicy` (time_policy.dfy):
  - the strict one-day check-in rule;
  - `getRemainingTime`, modelled as two parts. `Decompose` splits the time into
    days, hours, minutes and seconds. `FormatSpan` renders those fields, and
    `ParseSpan` reads them back;
  - the two random draws, `getRandomAnimal` and `getRandomTransformDuration`.
- `Store` (store.dfy): the table's row type, and the INSERT and the UPDATEs the
  bot runs, each as a function on rows or on the table. The check-in SELECT is
  the test `user in s.store` inside `Engine.CheckinNext`; the SELECT of
  `getAnimalFromDatabase` is `Engine.StoredAnimal`.
- `Engine` (engine.dfy): one pure step function per event, from a state to the
  next state and the reply:
  - a `!checkin` (`CheckinNext`);
  - a `!tf` (`TransformNext`);
  - a sweep tick (`SweepNext`);
  - the start-up load (`BootstrapNext`);
  - an incoming chat message (`MessageNext`).

  Each has lemmas for the rules the bot follows. The invariant `Coherent` is
  proved to be kept by every step: rows are well formed, and the map agrees
  with the table.
- `Bot` (bot.dfy): the class `ChatBot`, which owns both maps and updates them
  in place:
  - `HandleCheckin`, `HandleTransform` and `OnMessage` handle commands;
  - `SweepTick` is the periodic sweep, a loop over the map's entries;
  - `Bootstrap` is `loadTransformedUsers`, a loop over the query's rows.

  Each method is proved to take exactly the step its `Engine` function
  specifies, so every `Engine` lemma holds of the object.

Times are integer milliseconds, passed in as `now`. Everything the
environment decides is an input:

- whether the SELECT or the INSERT/UPDATE of a command fails (`Engine.Oracle`);
- the two `Math.random()` draws, each an integer `k` standing for
  `k / 2^53`;
- which clears of a sweep tick fail;
- whether the start-up query fails.

Replies are a `Reply` datatype. `Engine.Render` gives the exact text the bot
sends for each.

Behaviour the model follows as the code has it:

- The sweep removes an entry only when `now > end` (strictly). An entry whose
  end equals `now` stays for one more tick.
- `!tf` checks only that the user is a key of the map, not that the entry is
  still running. An expired entry that has not been swept yet answers
  "... for none."
- The `!tf` UPDATE matches no row for a user who never checked in. It still
  succeeds, and the user is still entered in the map.
- `loadTransformedUsers` adds its rows to the map. It does not replace the map.
- When a sweep's clear fails, the map entry is already gone and the row keeps
  its transformation. The row stays stale until that user's next successful
  `!tf` rewrites it; no sweep and no restart clears it:
  - later sweeps only look at the map;
  - a later start-up load skips the row, because its end has passed.

  `Engine.FailedClearPersists` proves this.

## Model

| member | source | states |
|---|---|---|
| Text.NatToString | server.js:84 | a number renders as a non-empty string of decimal digits, starting with '0' only for zero |
| Text.ParseNatToString | server.js:84 | reading the rendered digits back gives the number: rendering loses nothing |
| Text.NatToStringInjective | server.js:84 | two different streaks never render as the same text |
| Text.IntToString | server.js:84 | an integer renders with a leading '-' exactly when it is negative, and otherwise as its digits |
| Text.IntToStringRoundTrip | server.js:84 | the rendered integer reads back to the same integer |
| Text.TrimIsMaximalSlice | server.js:150 | `trim()` returns a contiguous slice of the message with only whitespace before and after it, and the slice neither starts nor ends with whitespace |
| Text.TrimPadded | server.js:150 | any whitespace padding around a text with non-blank ends is removed, and exactly that text remains |
| Text.TrimKeeps | server.js:150 | a message with no whitespace at either end is unchanged by `trim()` |
| Text.TrimIdempotent | server.js:150 | trimming twice is the same as trimming once |
| Text.Trim | server.js:150 | the trimmed text is no longer than the message and neither starts nor ends with whitespace |
| Text.TrimPadding | server.js:150 | whitespace added around any message, blank or not, does not change its trim |
| Text.TrimLower | server.js:150 | trimming and lower-casing can be done in either order |
| Text.ToLower | server.js:150 | `toLowerCase()` keeps the length and maps each code point through the lower-case mapping |
| Text.ToLowerOf | server.js:150 | the lower-cased text is determined code point by code point |
| Text.ToLowerIdempotent | server.js:150 | lower-cased text has no upper-case ASCII letter, and lower-casing again changes nothing |
| TimePolicy.IsCheckinEligible | server.js:66-69 | a check-in is allowed only strictly after the last one |
| TimePolicy.CheckinEligibility | server.js:66-69 | exactly 24 h after the last check-in is too early, 24 h and 1 ms is enough, and once allowed a check-in stays allowed as time passes |
| TimePolicy.Decompose | server.js:251-254 | the seconds, minutes and hours fields are below 60, 60 and 24 |
| TimePolicy.DecomposeTotal | server.js:251-254 | days·86400 + hours·3600 + minutes·60 + seconds is exactly the whole number of seconds remaining |
| TimePolicy.DecomposeUnique | server.js:251-254 | the four fields are the only in-range split of the whole seconds remaining |
| TimePolicy.RemainingTime | server.js:243-249 | the text is "none" exactly when end − now ≤ 0 |
| TimePolicy.RemainingTimeEndsWithSeconds | server.js:261 | a positive remaining time always ends with its seconds field |
| TimePolicy.RemainingTimeExample | server.js:243-264 | 90061999 ms renders as "1 day, 1 hour, 1 minute, 1 second", and an end time equal to now renders as "none" |
| TimePolicy.SecondsField | server.js:261 | the seconds field ends in "seconds", or in "second" when the count is one, after a non-empty count |
| TimePolicy.FormatSpan | server.js:256-261 | the rendered text always ends with the seconds field |
| TimePolicy.ParseFormatSpan | server.js:256-261 | reading the rendered fields back gives the same days, hours, minutes and seconds: rendering loses nothing |
| TimePolicy.RenderedFieldCount | server.js:256-261 | the text has one field per non-zero day, hour and minute value, then the seconds field, singular exactly at one |
| TimePolicy.RenderedFields | server.js:257-260 | a day, hour or minute field appears exactly when its value is not zero; it is singular at one and plural above one |
| TimePolicy.RemainingTimeDeterminesSeconds | server.js:243-264 | two remaining times with the same text have the same whole number of seconds |
| TimePolicy.FormatZeroSpan | server.js:261 | zero seconds renders as "0 seconds" (plural) |
| TimePolicy.FormatSingularSpan | server.js:257-261 | all four fields at one render in the singular |
| TimePolicy.FormatOmitsZeroHours | server.js:257-261 | a zero hours field is omitted, and values above one take the plural: "2 days, 5 minutes, 1 second" |
| TimePolicy.ScaledDrawBelow | server.js:155 | `Math.floor(Math.random() * n)` lies in [0, n) |
| TimePolicy.ScaledDrawReaches | server.js:155 | every index in [0, n) is drawn by some random value |
| TimePolicy.RandomAnimalIndex | server.js:154-157 | the animal index lies inside the non-empty list |
| TimePolicy.RandomTransformDuration | server.js:160-167 | the duration is a whole number of minutes from 2 minutes to 7 days, in milliseconds |
| TimePolicy.RandomTransformDurationReaches | server.js:160-167 | every whole number of minutes from 2 to 10080 is a possible duration |
| Engine.Render | server.js:60-205 | every reply opens by naming its user with an "@" mention, except the `!tf` success reply, which opens with the bare name and a space |
| Engine.CheckinFirstTime | server.js:94-113 | a first check-in inserts exactly streak 1 at now, with no transformation, leaves the map alone and sends the first-time reply |
| Engine.CheckinRepeat | server.js:64-93 | a repeat check-in changes the row exactly when more than 24 h passed and storage succeeds; the streak then grows by one and the check-in time becomes now; 24 h or less gives "already checked in" and no change |
| Engine.CheckinStorageFailure | server.js:57-104 | a failed SELECT, or a failed INSERT/UPDATE, changes nothing and sends the generic error reply |
| Engine.CheckinFrame | server.js:50-116 | a check-in never touches the map or another user's row, and never lowers the streak or raises it by more than one |
| Engine.StoredAnimal | server.js:266-279 | the animal named is "unknown", "null" for an empty column, or the animal stored in the user's row |
| Engine.StoredAnimalCases | server.js:266-279 | a failed read or a missing row gives "unknown", an empty animal column gives "null", and otherwise the stored animal is given |
| Engine.TransformWhileTransformed | server.js:171-181 | a user already in the map gets the read-only reply with the stored animal and changes nothing; once the end has passed, the remaining time reads "none" |
| Engine.TransformNew | server.js:182-209 | a failed UPDATE changes nothing and sends the error reply; on success only the user's entry is added to the map, 2 minutes to 7 days ahead on a whole minute, with an animal from the list, and the reply names that animal and end time |
| Engine.TransformThenAsk | server.js:170-206 | after a successful `!tf` by a user with a row, a second `!tf` with a successful read changes nothing and reports the animal and end time the first one drew |
| Engine.DrawnEndBounds | server.js:184-187 | the drawn end time is 2 minutes to 7 days after now, on a whole minute |
| Engine.TransformStore | server.js:190-200 | the UPDATE writes the animal, now and the end to the user's row; a user without a row gets none, though the map entry is still added |
| Engine.SweepMap | server.js:224-228 | exactly the entries with now > end leave the map; the others keep their end times |
| Engine.SweepStore | server.js:226-238 | a sweep clears only animal, transform_start and transform_end, and only for removed users whose clear succeeded; streaks, check-in times and the set of rows never change |
| Engine.SweepIdempotent | server.js:224-241 | a second tick at the same time removes nothing more from the map |
| Engine.BootstrapLoads | server.js:282-297 | exactly the rows with transform_end > now are added, with their end times; earlier entries stay unless a row overrides them; a failed query changes nothing |
| Engine.StartupCoherent | server.js:282-303 | loading a well-formed table into the empty start-up map gives a coherent state |
| Engine.CheckinKeepsCoherent | server.js:50-116 | a check-in keeps rows well formed and keeps the map in agreement with the table |
| Engine.TransformKeepsCoherent | server.js:170-210 | a `!tf` keeps rows well formed and keeps the map in agreement with the table |
| Engine.SweepKeepsCoherent | server.js:224-241 | a sweep tick, with any set of failed clears, keeps rows well formed and the map in agreement with the table |
| Engine.BootstrapKeepsCoherent | server.js:282-301 | the start-up load keeps rows well formed and the map in agreement with the table |
| Engine.FailedClearPersists | server.js:226-237 | from a coherent state, after a failed clear the user is gone from the map but the row keeps its transformation; neither a later sweep nor a later start-up load repairs it |
| Engine.CheckinScenario | server.js:64-93 | a first check-in, a refused one 23 h later, and an accepted one 25 h after the first give streak 2 |
| Engine.TransformScenario | server.js:170-241 | a user with a row transforms; a sweep one week and one minute later removes the map entry and clears the row |
| Engine.BootstrapScenario | server.js:283-297 | of a row ending in an hour and one that ended an hour ago, only the first is loaded |
| Engine.CommandOf | server.js:150 | a message is a command only if its trimmed text starts with '!' |
| Engine.CommandOfPadded | server.js:150 | whitespace around a message never changes which command it is |
| Engine.CommandOfLower | server.js:150 | letter case never changes which command a message is |
| Engine.TransformCommandExample | server.js:150 | "  !TF\n" is the `!tf` command: surrounding whitespace and letter case do not matter |
| Engine.CheckinCommandExample | server.js:150 | "!CheckIn" is the `!checkin` command |
| Engine.KelvinCheckinExample | server.js:150 | a Kelvin sign in place of 'k' still spells `!checkin` |
| Engine.TrailingWordsExample | server.js:150 | "!tf now" is no command |
| Engine.MessageDispatch | server.js:143-221 | the bot's own messages and unknown commands change nothing and get no reply; `!tf` and `!checkin` take their step and always reply |
| Engine.SenderNameChoice | server.js:151 | the display name is used unless it is absent or empty; the login is used otherwise |
| Bot.ChatBot.constructor | server.js:47 | the bot starts with the table as found and an empty map |
| Bot.ChatBot.HandleCheckin | server.js:50-116 | updates only the table, and the new table and reply are the check-in step's |
| Bot.ChatBot.HandleTransform | server.js:170-210 | the new table, map and reply are the `!tf` step's |
| Bot.ChatBot.SweepTick | server.js:224-241 | the loop over the map's entries ends in the sweep step's state, whatever order it visits them in |
| Bot.ChatBot.Bootstrap | server.js:282-301 | the loop over the query's rows updates only the map, and ends in the start-up load's state, whatever order it visits them in |
| Bot.ChatBot.OnMessage | server.js:143-221 | the new state and the optional reply text are the dispatch step's |

## Left out

- The tmi.js client is left out, because it is network I/O: connecting, `client.say` and `onConnectedHandler`. Replies are returned as values; `Engine.Render` gives their text.
- sqlite3 and its callback-style asynchronous API are left out. The table is a map. Each statement runs at once and completes. Its failure is an input flag.
- Interleaving of callbacks from different commands is left out. Each command, sweep tick and start-up load is one atomic step. The start-up load can happen in any state, not only at start-up.
- `Math.random()` and its floating-point rounding are left out. A draw is an integer `k` in [0, 2^53) standing for `k / 2^53`. `Math.floor(Math.random() * n)` is then computed exactly as `(k * n) / 2^53`.
- `new Date()` is left out. `now` is a parameter. `getRemainingTime` reads the clock a second time; the model uses the command's own `now` for it.
- ISO timestamp strings are left out, and so is the SQL text comparison `transform_end > ?`. Times are integer milliseconds, compared as integers.
- The `setInterval` period of 60 seconds is left out. `SweepTick` is one tick.
- The `AnimalNames` module is not part of this model. The labels are a parameter that must not be empty; with an empty list the source would pick `undefined`.
- `lastCommandTimes` is left out, because it is declared but never used.
- The commented-out OBS animation, `dotenv` and console logging are left out.
- The creation of the table in `database.js` is left out. Only its columns shape `Store.UserRecord`.
- Text.ToLower: models only ASCII 'A'–'Z' and U+212A KELVIN SIGN. These are the code points that lower-case to the ASCII letters of the commands. Other case mappings cannot turn a message into `!tf` or `!checkin`.
- Text.Trim: works on Unicode code points. JavaScript strings are UTF-16 code units, and lone surrogates are not modelled.
- Store.UserRecord: the streak is an integer. A NULL streak cannot arise from the bot's own writes, so it is not modelled.
