# go-discord-bot core, modelled in Dafny

A model of the decision and text-handling core of the Discord bot
`go-discord-bot`. It covers four parts of the bot.

- **Reminders** (`remindme.go`)
  - `parseReminder` finds the leftmost `<digits><unit>` token, removes it once, and works out the due time. Minutes and hours are fixed durations. Days and months use `AddDate` on the proleptic Gregorian calendar, with its overflow normalisation.
  - `createReminder` handles the error and confirmation path.
  - `findReminders` selects reminders in the open window `(now, now + interval)`, measured in milliseconds.
  - `sendReminders` supplies the poll interval (5 unless `REMINDER_INTERVAL` is an integer) and the delivery text.
  - `listReminders` chooses the query and draws one line per reminder.
- **Scryfall links** (`magic.go`)
  - `getTypes`, `getPowerToughtness` and `getCmc` peel criteria off the query text. They run in that fixed order.
  - `mtgCommand` assembles the search URI. `=` and `<` become the percent escapes of section 2.1 of RFC 3986, and `>` stays as it is.
  - When a query names several card types, the result is one link per type.
- **Dice** (`mage.go`)
  - `rollDice` parses `<n>|c [8a|9a]` and classifies the outcome.
  - `roll` is the exploding-die loop. It runs over a supplied sequence of draws.
- **Routing** (`routing.go`)
  - `MessageRespond` decides which replies are sent for a command. The inputs are the command, its arguments, the feature-flag state and the outcomes of the handlers it calls. The "mtg" handler is a parameter too; `Routing.MtgSendsTheLink` states the reply when that handler is `Magic.MtgCommand`.
  - `getMemberRoles` joins the member's role ids to the guild's role names.
  - `MessageReact` de-duplicates the "language" reaction.

Go's `(value, error)` pairs are `Wrappers.Returned` values. The following are parameters:

- the network lookups (colour identity, cat fact, relationship, Minecraft, time zone);
- the feature-flag service;
- the clock;
- random draws;
- the user-name lookup.

A database query is given the stored reminders it would search and returns those its filter accepts.

Supporting modules:

- `Text` models the Go `strings` routines used.
- `Decimal` covers `strconv.Atoi` and decimal printing.
- `Patterns` holds the four regular expressions, with RE2 leftmost-first matching.
- `Calendar` and `Clock` model Go's `time.Time` arithmetic in UTC.

## Model

| member | source | states |
|---|---|---|
| Patterns.IntervalAtIff | remindme.go:157 | the reminder pattern matches at an index exactly when a run of digits there is followed by one of m, h, H, d, D, M, and the match ends right after that letter |
| Patterns.CmcAt | magic.go:192 | a mana-value match is an optional "cmc", up to two of `<=>`, then a maximal run of digits |
| Patterns.CmcAtIff | magic.go:192 | the mana-value pattern matches at an index exactly when an optional "cmc", at most two of `<=>` and at least one digit start there; the match takes those comparisons and the longest digit run |
| Patterns.CmcFoundIff | magic.go:192-198 | the mana-value pattern finds nothing exactly when the text has no digit |
| Patterns.PowerToughnessAtIff | magic.go:239 | the power/toughness pattern matches at an index exactly when a run of digits or `*`, a `/`, and another such run start there |
| Patterns.DiceAt | mage.go:45 | the dice pattern matches at an index exactly when a digit or `c` is there; the count is the whole digit run there, or "c"; the rule is "8a" or "9a" exactly when that text follows the count after at most one space, and empty otherwise |
| Patterns.RuleAt | mage.go:45 | the optional `(8a\|9a)` group is the rule text when it is at that position, and empty otherwise |
| Patterns.DiceFirst | mage.go:45-63 | the first match exists exactly when some digit or `c` does; it starts at the first one, and its count and rule are read there as the pattern reads them |
| Patterns.FindFrom | magic.go:198-208 | the match used is the leftmost one: no match starts before it |
| Patterns.RemoveAllChangesIff | magic.go:214 | removing every match changes the text exactly when there is a match |
| Text.RemoveFirstKeepsRest | remindme.go:180 | removing the first occurrence of a string removes exactly that piece and keeps every other character in order |
| Text.SplitJoin | routing.go:83-84 | splitting on a separator undoes joining with it when no piece contains the separator |
| Decimal.AtoiShow | remindme.go:30 | a setting written as a decimal number, with or without a minus sign, is read back as that number |
| Decimal.AtoiDigits | remindme.go:189 | the digit run of a matched token converts to its decimal value |
| Decimal.PaddedReadBack | remindme.go:342 | a number below 10^width, zero-padded to width, is exactly width digits that read back as the number |
| Calendar.DateOfDayNumber | remindme.go:196-199 | converting a valid civil date to its day count and back gives the same date |
| Calendar.DayNumberOverflow | remindme.go:199 | a day past the end of a month counts on into the following month, the year carrying at December |
| Clock.ToCivilFromCivil | remindme.go:196-199 | splitting an instant into its civil fields and putting them back together is the identity |
| Clock.AddDate | remindme.go:197-199 | adding only calendar days in UTC is adding that many times 24 hours |
| Clock.AddCivilDays | remindme.go:197 | adding n calendar days to a civil time is adding n times 24 hours to its instant |
| Clock.AddMonthsCivil | remindme.go:199 | adding n months keeps the day and time of day and moves the month and year on by n months |
| Clock.AddDateMonthsFits | remindme.go:199 | when the day exists in the target month, the result is that day of the target month |
| Clock.AddDateMonthsOverflow | remindme.go:199 | when the day does not exist in the target month, it rolls into the next month by the excess |
| Clock.JanuaryThirtyFirstPlusOneMonth | remindme.go:199 | 31 January 2021 plus one month is 3 March 2021 |
| Clock.String | remindme.go:342 | the printed due time has at least the 29 characters of the layout and ends in " +0000 UTC" |
| Clock.StringReadBack | remindme.go:342 | for a valid civil time whose year has at most four digits, the printed time holds the year, month, day, hour, minute and second as zero-padded digit fields at their layout positions, separated by "-", " " and ":", followed by the fraction of a second |
| Clock.FractionReadBack | remindme.go:342 | the digits after the dot, padded back on the right with zeros to nine, read as the nanoseconds; a whole second prints no fraction |
| Clock.Layout | remindme.go:342 | the layout's date, time and fraction pieces keep their fields at fixed positions of the whole printed text |
| Clock.DropTrailingZeros | remindme.go:342 | the fraction of a printed time loses only trailing zeros |
| Reminders.UnitOf | remindme.go:191-200 | `m` is minutes and `M` months; `h`/`H` are hours and `d`/`D` days |
| Reminders.DueDate | remindme.go:188-200 | minutes and hours add a fixed count of seconds; days and months use calendar addition |
| Reminders.IntervalToken | remindme.go:157-171 | the token used is the leftmost `<digits><unit>` match, and none occurs before it |
| Reminders.TokenFirstOccurrence | remindme.go:180 | the token's text does not occur earlier than its match, so the single replace removes exactly the matched token |
| Reminders.ParseReminder | remindme.go:147-222 | no token gives "No interval specified"; a bad timestamp gives its error; otherwise the reminder is the text without the token, the due time from count and unit, and the message's server, author, channel, id and time |
| Reminders.ReminderAt | remindme.go:173-210 | the reminder text is the message without the token, the due time comes from the token's count and unit letter, and the rest is copied from the message |
| Reminders.ParseReminderKeepsText | remindme.go:180 | the reminder text loses exactly the token's characters and is shorter than the message |
| Reminders.ParseReminderUnit | remindme.go:191-200 | each unit letter gives its own due time |
| Reminders.StoreReminder | remindme.go:224-248 | the record is written once connect and insert succeed; the error reported is that of the first failing step |
| Reminders.CreateReminder | remindme.go:127-145 | a parse or store error comes back verbatim with an empty reply; otherwise the reply is "Reminder added." |
| Reminders.AddedMeansWritten | remindme.go:138-144 | "Reminder added." is only replied when the parsed reminder was written |
| Reminders.TruncDivMonotone | remindme.go:88-89 | milliseconds from nanoseconds, truncating toward zero, preserve order |
| Reminders.Select | remindme.go:90-99 | a query returns exactly the stored reminders its filter accepts |
| Reminders.SelectAppend | remindme.go:99-124 | selection over two runs of the store is the two selections one after the other |
| Reminders.ReminderInterval | remindme.go:29-33 | the poll interval is `REMINDER_INTERVAL` when it is an integer, else 5 |
| Reminders.FindReminders | remindme.go:83-125 | the reminders found are exactly the stored ones due strictly inside the window; a store error is passed on |
| Reminders.NonPositiveIntervalFindsNothing | remindme.go:88-95 | an interval of zero or fewer minutes finds nothing |
| Reminders.BoundaryMissed | remindme.go:88-95 | a reminder due exactly at the end of a window is in neither that window nor any later one |
| Reminders.GapBetweenPolls | remindme.go:34-35 | when polls start an interval or more apart, a reminder due between one window's end and the next poll is never delivered |
| Reminders.DeliveryText | remindme.go:65 | the delivery text is exactly "Hey <@", the creator, ">, remember " and the message, each piece at its position, with nothing else |
| Reminders.DeliveryTextInjective | remindme.go:65 | for ids without `>`, the delivery text determines the creator and the message |
| Reminders.PollOnce | remindme.go:34-80 | a failed connect or query delivers nothing; otherwise each found reminder is delivered once, in order, to its channel |
| Reminders.PollDeliversOnlyDue | remindme.go:48-70 | every delivery is for a stored reminder inside the window |
| Reminders.ListQuery | remindme.go:271-297 | exactly "list all" filters on the server only; anything else also filters on the author; both require a due time after now |
| Reminders.ListLine | remindme.go:341-344 | one line is "From: ", the user name, " Due: ", the printed due time, " Message: ", the message and a newline, each piece at the position the lengths before it give |
| Reminders.ListLines | remindme.go:317-348 | a failed user lookup leaves no listing text, only the error |
| Reminders.ListLinesError | remindme.go:319-338 | the listing fails exactly when some user lookup fails, and then with the first failing lookup's error |
| Reminders.ListLinesShape | remindme.go:341-345 | a successful listing starts with "From: " and ends with a newline |
| Reminders.ListLinesAppend | remindme.go:317-348 | the listing of two runs of reminders is the two listings one after the other |
| Reminders.ListReminders | remindme.go:267-349 | connect and query errors are returned; no selected reminder gives "No remaining remidners"; otherwise the listing of the selection |
| Reminders.ListShowsOnlyMatching | remindme.go:274-297 | a listed reminder is stored, belongs to the asking server and is due after now; unless "list all", it was created by the asker |
| Magic.PeelConserves | magic.go:164-169 | the types found are in scan order, removing them loses exactly their characters, and nothing is found (and nothing removed) exactly when no type occurs |
| Magic.Peel | magic.go:164-180 | no more types are found than listed, and the query never grows |
| Magic.PeelAppend | magic.go:164-180 | scanning two lists one after the other is scanning their concatenation |
| Magic.GetTypes | magic.go:153-185 | types and supertypes are found in the fixed list order, and the rest keeps every other character |
| Magic.GetTypesOnePass | magic.go:158-180 | supertypes are sought only in what the type scan left |
| Magic.GetTypesNone | magic.go:162-184 | a text naming no type returns unchanged with nothing found |
| Magic.EscapesAreStandard | magic.go:223-224 | `=` and `<` become their RFC 3986 percent escapes; `>` is kept |
| Magic.EscapeModifierEach | magic.go:223-224 | the two whole-text replacements escape each character independently |
| Magic.EscapeRoundTrip | magic.go:216-226 | percent-decoding the escaped modifier gives it back |
| Magic.PtQuery | magic.go:249-261 | the power/toughness term is empty exactly when there is no match |
| Magic.GetPowerToughness | magic.go:234-269 | no match returns ("", input) and otherwise the rest is the input with every match removed and trimmed |
| Magic.GetCmc | magic.go:187-232 | no match returns ("", input); otherwise the term is the escaped modifier (default "=") and digits of the first match, and the rest has every match removed and is trimmed |
| Magic.GetCmcUnchangedIff | magic.go:187-232 | the query is left unchanged, with no criterion, exactly when it holds no digit |
| Magic.GetCmcDecodes | magic.go:216-226 | decoding the term gives the modifier, or "=" when none was written, followed by the digits |
| Magic.Extract | magic.go:53-69 | extraction runs types, then power/toughness, then mana value, and its parts contain no `+` |
| Magic.PtTerms | magic.go:261 | the power/toughness term is two `+`-free terms joined by `+`, or empty |
| Magic.MtgCommand | magic.go:42-108 | "help" gives the help text; a failed colour-identity lookup gives an empty reply and no error; no error is ever returned |
| Magic.HeadTermsJoin | magic.go:77-84 | the URI head is the colour identity, then the power/toughness term, then the mana-value term, each optional term after a `+` |
| Magic.AppendTypesJoin | magic.go:86-90 | each supertype adds one `+type%3A` term in order |
| Magic.BaseLinkTerms | magic.go:77-90 | the link is the base address followed by the `+`-joined terms |
| Magic.Render | magic.go:77-107 | the answer carries no white space at either end |
| Magic.RenderLinks | magic.go:92-107 | one type or none gives one link; several give one link per type, joined by single spaces with no leading space |
| Magic.SeveralLinks | magic.go:100-107 | trimming the space-prefixed list of links leaves the links joined by single spaces |
| Magic.QueryTermsRecovered | magic.go:77-93 | splitting the query on `+` gives back its terms: the terms are unambiguous |
| Mage.TriggerCountCons | mage.go:113-119 | one more die adds one to the reroll count exactly when it triggers |
| Mage.RollCharacterised | mage.go:104-123 | a finished roll has length count plus triggered dice, is a prefix of the draws, and is the shortest such prefix |
| Mage.RollNothing | mage.go:106-109 | rolling zero dice gives no results |
| Mage.RollFaces | mage.go:111 | every result is one of the draws, so it lies in the faces drawn from |
| Mage.RollLoop | mage.go:104-123 | the loop that decrements and re-increments the pending count computes the characterised roll |
| Mage.SuccessesAppend | mage.go:83-88 | the success count is additive and at most the number of dice |
| Mage.ShowDice | mage.go:71 | the dice list prints in square brackets |
| Mage.ShowDiceRoundTrip | mage.go:93-97 | the printed list splits back into the dice values |
| Mage.RollDice | mage.go:41-102 | a request without a match is the error "No number of dice specified: " and the input; any match gives a reply and no error |
| Mage.RollDiceRefusesIff | mage.go:45-57 | a request is refused exactly when it contains neither a digit nor `c` |
| Mage.RollDiceCounted | mage.go:45-98 | the count is the digit run where the leftmost match starts, and that many dice are rolled with the rule read after it; the reply is "Failure" for no successes, "Exceptional Success" above five, else "Success", and ends with the dice |
| Mage.CountRead | mage.go:45-63 | a count other than "c" comes from the leftmost match, which starts at the first digit or `c`; the count is the whole digit run there |
| Mage.CountedReply | mage.go:92-98 | the reply to a counted roll names the outcome of its success count and ends with the dice |
| Mage.RollDiceChance | mage.go:66-76 | a chance die of 1 is "Dramatic Failure", 0 is "Success", anything else "Failure" |
| Mage.NineAgainAsWritten | mage.go:111-116 | with draws from `Intn(9)`, the "9a" rule behaves like no rule |
| Mage.NineAgainTenFaces | mage.go:111-116 | with ten faces, "9a" rerolls a 9 where the plain roll stops |
| Mage.NineAgainTriggersMore | mage.go:113-119 | every die that rerolls with no rule also rerolls under "9a" |
| Mage.NineAgainDiffersIff | mage.go:109-120 | for any draws, "9a" changes a completed roll exactly when a 9 is rolled before the pool empties |
| Mage.Roll | mage.go:104-123 | no dice pending is exactly the empty roll; a finished roll is a prefix of the draws |
| Routing.Route | routing.go:53-269 | a branch other than the link branch and the unknown command is chosen only by its own command word; the link branch only by a command containing "lunch" or starting with "link" |
| Routing.Dispatch | routing.go:53-269 | no command gets more than two replies, and a command no branch selects gets none |
| Routing.RouteName | routing.go:53-269 | each command word selects its own branch; "kevin", "remindme" and "language" are not taken by the lunch/link pattern before them |
| Routing.RouteUnknownIff | routing.go:53-269 | a command selects no branch exactly when it is no command word, contains no "lunch" and does not start with "link" |
| Routing.ErrorThenValue | routing.go:152-158 | on error the error text is sent first and the value after it; without an error only the value |
| Routing.ErrorOrValue | routing.go:181-187 | exactly one reply: the error text on error, otherwise the value, which is the first reply the error-then-value pair would send |
| Routing.UnknownIsSilent | routing.go:53-269 | a command matching no branch gets no reply |
| Routing.GatedDenied | routing.go:107-110 | a flag-gated command whose flag is off gets only "Command not allowed" |
| Routing.MinecraftAdminGate | routing.go:160-175 | "mc" without " whitelist " replies only "Command not allowed" when the user's "mc-admin" flag is off, and the handler's error and value when it is on |
| Routing.SilentIff | routing.go:53-269 | no reply at all exactly for a command no branch selects, or for a Minecraft whitelist request whose flag is off |
| Routing.TwoRepliesOnlyOnError | routing.go:100-264 | a second reply is sent only by cat fact, relationships, Minecraft or reminders, after their handler reported an error |
| Routing.DoubleSendOnError | routing.go:100-106 | cat fact, relationships, Minecraft and reminders send an error text and then the value |
| Routing.MtgSendsTheLink | routing.go:176-187 | when the mtg handler is the link builder, "mtg" sends exactly one reply: the link text for the arguments after the first "mtg", trimmed |
| Routing.TimeSendsOne | routing.go:188-210 | "time" with its flag on sends exactly one reply, the error or the answer |
| Routing.TimeDispatch | routing.go:188-210 | "time" with its flag on sends what the one-reply error-or-value rule gives for the lower-cased arguments without "time " |
| Routing.SplitDropsFirstArgument | routing.go:81-84 | with the corrected split, "!split a b c" replies "b-c": the handler still drops the first word of its arguments |
| Routing.WhitelistTakesAdminPath | routing.go:145-175 | with the corrected split, "!mc whitelist add x" is gated by "mc-admin", since its arguments hold no " whitelist " with a leading space |
| Routing.RemindMeSubcommands | routing.go:231-264 | exactly "help" gives the help text, a "list" prefix lists, anything else creates |
| Routing.SplitAfterNConcat | routing.go:49 | the pieces of `SplitAfterN` put together give the text back |
| Routing.CommandAsWritten | routing.go:49-51 | the command is only found when the split has a second piece, never with a limit of one |
| Routing.SplitAsWrittenFails | routing.go:49-51 | with a limit of one the split is the whole text, so `split[1]` is out of range |
| Routing.SplitAfterKeepsSpace | routing.go:49-50 | even a two-piece `SplitAfterN` leaves the space on the command word |
| Routing.NoCommandAnsweredAsWritten | routing.go:29-51 | as written, every "!" message from a user fails at the split, and no command is ever answered |
| Routing.SplitCommand | routing.go:49-51 | a text without a space is all command word, with no arguments |
| Routing.SplitCommandRoundTrip | routing.go:49-51 | the text is the first word, one space and the arguments, and the command is the word lower-cased |
| Routing.MessageRespond | routing.go:17-52 | with the corrected split, the bot's own messages and messages without a leading "!" get no reply |
| Routing.MessageRespondCommand | routing.go:39-51 | with the corrected split, a command message answers to the word right after its "!" |
| Routing.NamesOf | routing.go:346-352 | a member role yields at most one name per guild role |
| Routing.JoinRoles | routing.go:343-353 | the join yields at most one name per pair of member role and guild role |
| Routing.JoinRolesIff | routing.go:343-353 | a name is in the role list exactly when some member role id equals the id of a guild role with that name |
| Routing.JoinRolesLoop | routing.go:343-353 | the nested loops append, per member role in order, the names of the matching guild roles |
| Routing.MemberRoles | routing.go:325-354 | a failed member or guild lookup gives no roles and its error; otherwise the role names are exactly the joined ones |
| Routing.MessageReact | routing.go:274-323 | the bot's own reactions are ignored; a failed message fetch sends the failure notice; other emoji get no reply |
| Routing.AlreadyAnsweredIff | routing.go:313-317 | the scan stops exactly when some "language" reaction is counted more than once |
| Routing.LanguageAnsweredOnce | routing.go:305-321 | a language reaction is answered, as a reply to the message or to what it refers to, exactly when no "language" reaction already has count above one |

## Left out

- Discord I/O. Sending, replying, fetching messages and member and role lookups are left out. Replies become the returned sequence, and lookups become `Returned` parameters.
- The quips for "Adilio" and "bezos" (routing.go:22-28) are left out. `adilioMessage` and `quipMessages` are not part of this model.
- Feature flags, `getCatFact`, `getRelationship`, `sendMinecraftCommand`, `getTime`, `kevinResponse`, `languageResponse` and `featureRequestResponse` are not part of this model. `getFeatureFlagState` is an oracle, and the others are represented by the outcome they return.
- `findColourIdentity` (magic.go:110-151) is left out. It is an HTTP request and JSON decode, so the colour identity is a parameter.
- Tracing spans are left out. They have no effect on replies.
- MongoDB (storage.go) is left out. `runQuery` (storage.go:40-43) is a stub returning an empty string, so as shipped the bot finds and lists nothing. The model gives each query the stored reminders instead and keeps the filters. BSON encoding and its errors are not modelled.
- `Reminders.FindReminders` is given one reading of the clock. The source reads `time.Now()` twice (remindme.go:88-89).
- Timestamp parsing (section 5.6 of RFC 3339) is left out. A message carries its parse result, so a failure is an abstract error.
- Time zones are left out. All instants are UTC.
- `strconv.Atoi` overflow and `time.Duration` overflow are left out. Counts are unbounded integers.
- The polling loop's sleep and `rand.Seed` are left out. `Reminders.PollOnce` is one pass of the loop, and the draws are a sequence.
- `Mage.Roll` answers `None` when the supplied draws run out. A real roll draws until it stops.
- The three-second pause of "test" is left out.
- `rollDiceHelp` (mage.go:14-39) is left out. It is a constant that no modelled code uses, and nothing in routing.go calls `rollDice`.
- commands.go and main.go are left out. They are older copies of the routing and would clash with routing.go in one package.
- The "omnath land" case of magic_test.go expects an error. The code returns an empty reply and no error when the colour lookup fails (magic.go:71-75), and the model follows the code.
- `TestGetPowerToughness` (magic_test.go:192-215) is left out. It does not match the function's signature or its pattern.
- Text.ToLower: maps ASCII letters only; Go's full Unicode case mapping is not modelled.
- Reminders.Matches: compares the due time as milliseconds since the epoch, which is what the window bounds of remindme.go:88-95 intend. The source stores `Due` as a BSON date but passes the bounds as 64-bit integers. MongoDB orders values of different BSON types by type before value, so as written the window query very likely matches no stored reminder. Driver behaviour is not modelled.
- Reminders.ListLine: prints the due time the model holds, at nanosecond precision. A reminder read back from MongoDB holds only milliseconds, so the source prints at most three fraction digits.
- Reminders.ListLines: the line drawing is a parameter in the general lemmas; `Reminders.ListReminders` instantiates it with `Reminders.ListLine`.

## Findings

| source | as written | input that shows it | evidently intended | confidence | as-written member | corrected member |
|---|---|---|---|---|---|---|
| routing.go:49-51 | `strings.SplitAfterN(m.Content, " ", 1)` returns a single piece, so `split[1]` is out of range | any message from a user starting with "!", e.g. "!ping" | the first word as command, the rest as arguments (`SplitN(…, " ", 2)`, empty arguments when there is no space) | high, not executed | Routing.NoCommandAnsweredAsWritten | Routing.SplitCommand |
| mage.go:111 | `rand.Intn(9)` draws 0 to 8, so no die ever shows 9 and "9a" never rerolls more than no rule | "4 9a" | a ten-sided die, 0 to 9, where "9a" rerolls a 9 | high, not executed | Mage.NineAgainAsWritten | Mage.NineAgainDiffersIff |

The correction changes what the handlers see. Under the corrected split the arguments no longer start with the command word, although some handlers were written for text that did (routing.go:81-84, 145):
- "!split a b c" replies "b-c": the handler drops the first word of what it gets, which is now "a" (`Routing.SplitDropsFirstArgument`).
- "!mc whitelist add x" gives the arguments "whitelist add x". These do not contain " whitelist " with its leading space, so the request takes the "mc-admin" path rather than the "mc-commands" one (`Routing.WhitelistTakesAdminPath`).
