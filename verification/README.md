# A verified model of the push server

The push server registers devices and their accounts in Redis, creates one XMPP PubSub node per account,
and forwards what arrives at a node to the device's notification channel. This project models, in Dafny,
its three hardest parts and proves what they do.

**The calendar engine** (`src/utils/date.hpp`). `Calendar` is a naive calendar: a leap rule, a table of month
lengths, and "the next day". `Civil` is the conversion between dates and day counts as the code computes
it, and is proved to be the counting of next-day steps, over all mathematical integers; `MachineCivil`
carries it to `short` years, `int` days and wrapping `unsigned` temporaries. `Weekday`, `MonthArithmetic`,
`MonthWeekday` and `WeekDates` do the same for weekdays, months, n-th weekdays and the week rules.
`ParsedDate` says exactly which dates the parser accepts for which fields. `Streams`, `Keywords`, `Formats`
and `FormatStrings` are the imperative side: the input stream, the keyword scanner, and the loops over a
format string that print and parse a date, with a round trip for every format. `FormatFields` says what a format
makes of any text, printed or not, and which formats determine the dates they print. `TimeOfDay` splits and rebuilds
timestamps.

**The push registrations** (`RedisClient`, `PushServer`, the node effects of `XmppClient`). `Registry` is an
abstract state with its invariant and its runs. `Redis` is the flat key space with the commands used,
`RedisStore` the client on top of it, proved to lay out the abstract state key by key, and `PushServer` the
request handlers with the reconciliation of PubSub nodes. `Routing` says where a message ends up after a
run of requests.

**The start/stop protocol** (`TcpServer`, `XmppClient`, `PushServer`). `Lifecycle` interleaves the single reads
and writes of a controlling thread and a worker thread. `NestedLifecycle` adds the four threads of a push server
that controls a TCP server and an XMPP client, the Redis client that may be initialised once, and the XMPP context
that comes with the set-up and goes with the clean-up; `NestedStop` says when the stop of the whole ends. `Fairness`
is the rule that turns a rank into "some time or other, under every fair schedule".

## What the code does differently from what it seems to promise

- `set_push_accounts` deletes an account key before it reads the node from it, so it never deletes the list of
  a node. A reused node gets a second entry and stops resolving, and the next request takes a new node: a
  device that sends one list n times has routable accounts exactly when n is odd (`Registry.RepeatedList`,
  `Registry.RunRoutes`, `Routing.RunDelivers`, and `Routing.RepeatedRun` for a run). A dropped node keeps its list
  for the rest of every run (`Registry.RunFreezesDropped`), and a message for it is still pushed to the device
  exactly when the account's streak was odd when the node was dropped (`Routing.DroppedNodeStillRouted`, and
  `Routing.DroppedRun` for a run), although the server's own README (lines 54-56) says that a list replaces all
  accounts. The variant that reads first (`readFirst`) has none of this (`Routing.OnlyCurrentNodes`).
- A request that names an account more than once leaves PubSub nodes that nobody has, and that resolve, if and only
  if one of the accounts it repeats has no routable node when it comes (`Registry.LeaksExactly`,
  `Registry.LiveStaysCurrent`, `Registry.NamedTwiceLeaks`). Over a whole run the live nodes are the current ones if and
  only if every account repeated in an accepted list was routable then (`Registry.RunStaysTidy`), as written if and
  only if its streak was odd (`Registry.TidyByStreak`). So a node is routed after a run exactly when it is that of an
  account with an odd streak, or was dropped from one, or leaked in this way (`Routing.RoutedExactly`).
- A stop request written between the worker's test for STARTING and its write of RUNNING is overwritten, and
  the join never returns (`Lifecycle.ReturnsUnlessLost`, `Lifecycle.LosingRun`, and `NestedStop.LosingSystemRun` for a
  run of the push server that loses an inner request). As far as the states go, a call of stop is safe, whatever the
  threads do, exactly when it does not find STARTING (`Lifecycle.ReturnsUnlessAtRisk`).
- The stop of the XMPP client writes its request and then hands the context to xmpp_stop, while the worker may
  already have cleaned up and set the context to null, or may not have set it up yet. So as written no stop of a
  started push server is safe from every interleaving; if xmpp_stop were skipped without a context, a stop would be
  safe exactly when it finds all three objects RUNNING and the context made (`NestedStop.SystemReturnsUnlessAtRisk`).
  That xmpp_run returns some time or other is taken for granted.
- The TCP server accepts requests before the XMPP client is set up: a request that deletes or sets up a node then
  fails the assertion on the connection, and at no other time (`NestedLifecycle.RequestsComeEarly`,
  `NestedLifecycle.ThreeEnds`).
- A push server serves once. Its Redis client is initialised by the first worker that finds STARTING and never reset,
  and the assertion in `init` fails for the second (`NestedLifecycle.SecondInitFails`); so a server that was RUNNING and
  was stopped can be called to start, but the next start can run into that assertion, and never serves
  (`NestedLifecycle.RunningOnlyOnce`, `NestedLifecycle.StartMeetsInit`, `NestedLifecycle.NeverServesAgain`).
- The branches of `stop` for WAITING_FOR_JOIN are never taken (`Lifecycle.NeverWaitingUnasked`).
- %F does not read back its own text for the years -99 to -1, whose zero fill precedes the sign, nor for years
  of five digits (`Formats.FullDateRoundTrip`).
- The parser takes day 366 of a year of 365 days for its first day, and week 53 of a year of 52 weeks for week 1
  of the next (`ParsedDate.OrdinalOverflowAccepted`, `ParsedDate.WeekOverflowAccepted`); it ignores a lone %G
  once %U or %W gave a date (`ParsedDate.WeekYearPassedOver`); a negative multiple of 100 is not consistent with
  its own two-digit year (`ParsedDate.YearWithTwoDigits`); one century, -327, is taken for "not given"
  (`ParsedDate.CenturyParsed`); and a two-digit week year is read with the century of the calendar year, so that %C%g
  misreads the days whose week year lies in another century (`ParsedDate.WeekYearResolves`,
  `ParsedDate.CenturyOfWeekYear`).
- A number that stands for "not given" is taken and gives way to a later one for the same field: the format %F/%d reads
  2021-01-00/05 as the fifth of January, while any other two different numbers for a field fail
  (`FormatFields.ParsedExactly`, `FormatFields.ZeroGivesWay`).
- The server's README says that entries live up to seven days, and the comment on the constant says 30 days;
  the constant is 30 * 7 days. Expiry is not modelled.

## Model

| member | source | states |
|---|---|---|
| `Calendar.CountMeasuresSteps` | src/utils/date.hpp:2599-2614 | a count that grows by one from day to day and from which dates can be recovered is the number of next-day steps between any two dates |
| `Calendar.CountIsMonotone` | src/utils/date.hpp:2646-2650 | such a count preserves and reflects the lexicographic order of valid dates |
| `Civil.OkIsValid` | src/utils/date.hpp:2422-2434 | ok() and the last-day table agree with the naive calendar, but for the one `short` that is no year |
| `Civil.HandFloor` | src/utils/date.hpp:2609 | the hand-written division of negative numbers is floor division |
| `Civil.YearRecovered` | src/utils/date.hpp:2697-2699 | the corrected quotient by 365 finds every year of the era from every day of it |
| `Civil.NextDayCounts` | src/utils/date.hpp:2599-2614 | to_days grows by one from every valid date of every integer year to the next |
| `Civil.FromDaysInverts` | src/utils/date.hpp:2687-2704 | from_days undoes to_days on every valid date |
| `Civil.ToDaysInverts` | src/utils/date.hpp:2687-2704 | from_days gives a valid date for every integer, and to_days undoes it |
| `Civil.ToDaysCountsSteps` | src/utils/date.hpp:2599-2614 | to_days is the number of next-day steps from 1970-01-01, or backwards to it |
| `Civil.FromDaysSteps` | src/utils/date.hpp:2687-2704 | from_days of a day n later is the date n steps later |
| `Civil.ToDaysMonotone` | src/utils/date.hpp:2646-2650 | the lexicographic order of dates is the order of their day counts, both ways |
| `Civil.FromDaysMonotone` | src/utils/date.hpp:2687-2704 | a lower day count gives an earlier date, and only a lower one |
| `MachineCivil.ToDaysFits` | src/utils/date.hpp:2599-2614 | for every bit pattern of year, month and day the wrapping temporaries still give the mathematical day count, and it and the sum before it are ints |
| `MachineCivil.DoyWrapsOnce` | src/utils/date.hpp:2611 | among all unsigned char months and days, only day 0 of March wraps the day of the year |
| `MachineCivil.ToDaysIntervals` | src/utils/date.hpp:2610-2612 | the commented intervals of to_days hold on every valid date |
| `MachineCivil.EraFits` | src/utils/date.hpp:2609-2613 | the signed operations of to_days on year and era stay within an int for every short year |
| `MachineCivil.SignedFits` | src/utils/date.hpp:2694-2703 | if the first signed addition of from_days does not overflow, no later one does |
| `MachineCivil.FromDaysIntervals` | src/utils/date.hpp:2694-2702 | then the commented intervals of from_days hold, and nothing wraps |
| `MachineCivil.FromDaysFits` | src/utils/date.hpp:2687-2704 | the machine date is the mathematical one with its year narrowed to short |
| `MachineCivil.FromDaysExact` | src/utils/date.hpp:2687-2704 | the year survives exactly on the days from -32768-01-01 to 32767-12-31 |
| `MachineCivil.NarrowingWraps` | src/utils/date.hpp:2687-2704 | the conversions to the four widths keep the remainder by the size of the type, whatever the value |
| `Weekday.OfDaysIsModular` | src/utils/date.hpp:1687-1692 | for every int the branch around the unsigned wrap gives the Euclidean (z + 4) mod 7 |
| `Weekday.OfDaysWalks` | src/utils/date.hpp:1687-1692 | day 0 is a Thursday and the weekday of day z + n is reached from that of z by n nights |
| `Weekday.OfDaysShifts` | src/utils/date.hpp:1771-1777 | the weekday of a shifted day is the weekday plus the shift, forwards and backwards |
| `Weekday.DifferenceIsWait` | src/utils/date.hpp:1763-1769 | a difference of weekdays is 0 to 6 nights to wait, and adding it undoes it |
| `Weekday.PlusWalks` | src/utils/date.hpp:1771-1777 | adding days walks through the week, in either direction |
| `Weekday.GoBack` | src/utils/date.hpp:2976-2981 | subtracting the difference finds the wanted weekday at most six days back |
| `MonthArithmetic.PlusAddsIndex` | src/utils/date.hpp:2064-2071 | year_month + n is the one valid year-month n months on |
| `MonthArithmetic.PlusActs` | src/utils/date.hpp:2064-2071 | adding months is an action of the integers: zero and sums |
| `MonthArithmetic.MinusUndoesPlus` | src/utils/date.hpp:2085-2090 | the difference of year-months inverts the addition on both sides, through the unsigned month difference |
| `MonthArithmetic.MonthsFollowYearMonths` | src/utils/date.hpp:1510-1516 | month + n is the month of year_month + n |
| `MonthArithmetic.MonthMinusIsWait` | src/utils/date.hpp:1503-1508 | the wrapped difference of months is 0 to 11 and undone by addition |
| `MonthArithmetic.SumFitsExactly` | src/utils/date.hpp:2064-2071 | for every short year and unsigned char month, the signed operations of year_month + months are in range exactly when the int sum is, and is not one of the eleven least |
| `MonthArithmetic.MachinePlusExactly` | src/utils/date.hpp:2064-2071 | then the result is the mathematical one with its year narrowed to short, and is exact if and only if the sum lies in the years -32768 to 32767 |
| `MonthArithmetic.MachineDifferenceFits` | src/utils/date.hpp:2085-2090 | the difference of any two year-months is an int, and adding it to one gives the other without overflow or narrowing |
| `MonthWeekday.FromDaysRoundTrip` | src/utils/date.hpp:2831-2845 | every day has an ok n-th-weekday name, and the name leads back to the day |
| `MonthWeekday.ToDaysRoundTrip` | src/utils/date.hpp:2831-2845 | every ok name is the name of the day it denotes |
| `MonthWeekday.OkStaysInMonth` | src/utils/date.hpp:2819-2829 | a name is ok, index 5 included, exactly when its day lies in its month |
| `MonthWeekday.NthIsCounted` | src/utils/date.hpp:2839-2845 | the day is the index-th of its weekday in the month, by counting |
| `MonthWeekday.LastIsGreatest` | src/utils/date.hpp:2976-2981 | the last weekday of a month is its greatest day with that weekday |
| `WeekDates.IsoYearOf` | src/utils/date.hpp:4467-4480 | one decrement of the trial year always suffices: %G is the calendar year of the Thursday of the week |
| `WeekDates.IsoWeekIsCounted` | src/utils/date.hpp:4848-4872 | %V is the number of Thursdays of that year up to the week's (section 3.2.2 of ISO 8601:2004), 1 to 53 |
| `WeekDates.IsoRoundTrip` | src/utils/date.hpp:6475-6478 | the parser rebuilds every day from its %G, %V and weekday |
| `WeekDates.WeekIsCounted` | src/utils/date.hpp:4808-4830 | %U and %W count Sundays or Mondays of the year up to the day, 0 to 53, and the parser's flooring check agrees with the truncating printer |
| `WeekDates.WeekRoundTrip` | src/utils/date.hpp:6493-6514 | the parser rebuilds every day from year, %U or %W and weekday, week 0 included |
| `WeekDates.FloorWeeksIsFloor` | src/utils/date.hpp:6566-6577 | the rounding of whole weeks is floor division |
| `ParsedDate.AssembleExactly` | src/utils/date.hpp:6473-6580 | the parser accepts a date if and only if the fields determine a day and that day agrees with all that is checked |
| `ParsedDate.OwnFieldsSuffice` | src/utils/date.hpp:6473-6580 | any selection of a date's own fields that determines a day is parsed to the date |
| `ParsedDate.AcceptedIsHonest` | src/utils/date.hpp:6473-6580 | an accepted date owns all given fields if and only if the fields, on their own, name a day and a week that exist and the right week year where one is passed over |
| `ParsedDate.IsoHonest` | src/utils/date.hpp:6475-6478 | a rebuilt week date has the given year and week exactly when that year has that week |
| `ParsedDate.IsoWeeksAreThursdays` | src/utils/date.hpp:6475-6478 | the weeks between two rebuilt year starts are 52 or 53, the number of the year's Thursdays |
| `ParsedDate.OrdinalHonest` | src/utils/date.hpp:6529-6540 | an accepted day of the year is the date's own exactly when the year has that day |
| `ParsedDate.OrdinalOverflowAccepted` | src/utils/date.hpp:6529-6540 | in every year the day after its last is accepted as its first |
| `ParsedDate.WeekOverflowAccepted` | src/utils/date.hpp:6475-6492 | in every year of 52 weeks, week 53 is accepted as week 1 of the next |
| `ParsedDate.OrdinalAlone` | src/utils/date.hpp:6529-6546 | a year and any day of the year alone give the date of that year with the month and day so many days after January 1, or none when there is no such date |
| `ParsedDate.WeekDateAlone` | src/utils/date.hpp:6474-6492 | any week date alone gives the day so many weeks and days after the Monday of the week with January 4 |
| `ParsedDate.WeekYearPassedOver` | src/utils/date.hpp:6548-6565 | once a week of the calendar year, by %U or by %W, gave the date, a lone %G changes nothing |
| `ParsedDate.CenturyRoundTrip` | src/utils/date.hpp:6440-6444 | printed century and two-digit year rebuild every integer year |
| `ParsedDate.CenturyParsed` | src/utils/date.hpp:6426-6448 | the parser rebuilds the year from both exactly outside -32700 to -32601 |
| `ParsedDate.YearWithTwoDigits` | src/utils/date.hpp:6431-6446 | a year agrees with a two-digit year exactly when these are its digits and it is no negative multiple of 100 |
| `ParsedDate.WeekYearResolves` | src/utils/date.hpp:6449-6471 | the two-digit week year becomes the week year exactly when the known century is its own, or else it agrees with a full one or lies in 1969 to 2068 |
| `ParsedDate.CenturyUnique` | src/utils/date.hpp:6440-6444 | no other century goes with the two digits of a year |
| `ParsedDate.YearExactly` | src/utils/date.hpp:6426-6448 | which years two digits go with, for all fields: with a century, with a year, and with neither |
| `ParsedDate.WeekYearExactly` | src/utils/date.hpp:6449-6471 | and likewise which week years, with the century that the year left |
| `ParsedDate.FullYearsOnly` | src/utils/date.hpp:6472-6473 | without two-digit years nothing is resolved, and a year outside -32767 to 32767 counts as not given |
| `ParsedDate.CenturyOfWeekYear` | src/utils/date.hpp:6449-6471 | 2000-01-01, in a week of 1999, is printed by %C%g as 2099 |
| `ParsedDate.ResolveOwnFields` | src/utils/date.hpp:6425-6580 | the whole tail of the parser finds a date in its own fields, by year or by century and two digits |
| `TimeOfDay.SplitIsFloor` | src/utils/date.hpp:5215-5231 | the truncate-then-correct split of a timestamp is the floor, with a time of day of less than a day |
| `TimeOfDay.ClockRoundTrip` | src/utils/date.hpp:3466-3489 | to_duration inverts the fields of hh_mm_ss for every duration, and the fields are in range |
| `TimeOfDay.ClockUnique` | src/utils/date.hpp:3466-3489 | no other fields in range denote the duration |
| `TimeOfDay.TimestampRoundTrip` | src/utils/date.hpp:6744-6761 | date and time of every timestamp, negative ones included, are in range and recombine to it |
| `Streams.DigitRun` | src/utils/date.hpp:5294-5315 | the digits a read takes are all digits, at most the limit, and stop only at the limit, the end or another character |
| `Streams.Input.ReadUnsigned` | src/utils/date.hpp:5294-5315 | reads exactly the run of digits, to its value modulo 2^32, and fails exactly when the run is shorter than asked |
| `Streams.Input.ReadSigned` | src/utils/date.hpp:5317-5336 | reads an optional sign and the run of digits after it, to its value with the sign; fails exactly when there are too few digits, and with no number at all only if a digit is asked for |
| `Streams.Input.ReadChar` | src/utils/date.hpp:5418-5434 | consumes the expected character, and fails exactly at the end of the input and at any other character |
| `Keywords.ScanKeyword` | src/utils/date.hpp:4118-4204 | consumes exactly the longest input that begins some keyword, ignoring case, and finds the first keyword equal to it, or fails when there is none |
| `Keywords.CaseIgnored` | src/utils/date.hpp:4155-4166 | characters match exactly when they are equal or the two cases of one letter |
| `Keywords.MatchesExactly` | src/utils/date.hpp:4155-4178 | input matches the beginning of a keyword exactly when it is that but for the case |
| `Keywords.ScanIgnoresCase` | src/utils/date.hpp:4118-4204 | another case of the input or of the keywords changes neither what a scan consumes nor what it finds |
| `Keywords.TakeLongest` | src/utils/date.hpp:4147-4195 | the loop over the input consumes the longest piece that begins some keyword and leaves the statuses exact |
| `Keywords.FirstMatch` | src/utils/date.hpp:4197-4200 | the first matching entry, or their number |
| `Keywords.InitStatus` | src/utils/date.hpp:4134-4146 | both counters start as the numbers of entries in their status |
| `Keywords.TestKeywords` | src/utils/date.hpp:4163-4178 | one character keeps the counters equal to the numbers of entries and indexes no keyword past its end |
| `Keywords.DropEarlier` | src/utils/date.hpp:4185-4193 | the clean-up drops the shorter matches and keeps the counters exact |
| `Keywords.Advance` | src/utils/date.hpp:4180-4194 | after a consumed character the statuses are exact, also when the clean-up is skipped |
| `Keywords.StopsLongest` | src/utils/date.hpp:4148-4154 | where the scan stops, no longer piece of input begins a keyword |
| `Formats.ParseFullDate` | src/utils/date.hpp:5822-5832 | the reads of %F, with failure at every one |
| `Formats.ValuePlaces` | src/utils/date.hpp:5294-5315 | every digit of a text is the digit of its place in the value of the text |
| `Formats.NumberIsUnique` | src/utils/date.hpp:4348-4371 | there is one decimal text of a number with zeros up to a width and no others in front |
| `Formats.CenturyTextExactly` | src/utils/date.hpp:4348-4371 | %C prints the century rounded down in at least two digits and no more than it takes, with a minus sign exactly before year 0 |
| `Formats.YearTextExactly` | src/utils/date.hpp:1662-1673 | a year is printed in at least four digits and no more than it takes, with a minus sign exactly before year 0 |
| `Formats.FullDateTextExactly` | src/utils/date.hpp:4443-4458 | %F prints year, month and day between hyphens; the zeros of a negative year stand before its sign |
| `Formats.FullDateRoundTrip` | src/utils/date.hpp:4443-4458 | %F text (section 4.1.2 of ISO 8601:2004) followed by anything is read back, consuming just itself, if and only if the year is in 0 to 9999 or -9999 to -100 |
| `Formats.WeekDateRoundTrip` | src/utils/date.hpp:6228-6269 | %G-W%V-%u text followed by anything is read back if and only if its week year has at most four digits |
| `Formats.CenturyTextRoundTrip` | src/utils/date.hpp:4348-4371 | %C%y text followed by anything is read back if and only if the year is in -9900 to 9999 |
| `Formats.SmallNegativeYearReadsZero` | src/utils/date.hpp:4451-4454 | the zeros before the sign of a small negative year are read as year 0 |
| `Formats.LongYearStops` | src/utils/date.hpp:5828-5829 | of a year of five digits or more four are read and a following hyphen is missed |
| `FormatStrings.FormatDate` | src/utils/date.hpp:4240-5118 | the printing loop gives the text of the format, conversion by conversion |
| `FormatStrings.ConversionText` | src/utils/date.hpp:4240-5118 | every conversion of one number prints that number, zeros up to its width and no sign but for years and centuries before 0 |
| `FormatStrings.CheckedSet` | src/utils/date.hpp:5481-5490 | a field takes a number when it has none or this one, and fails when it has another |
| `FormatStrings.Convert` | src/utils/date.hpp:5563-6309 | one arm of the format switch, for each modelled conversion, reads, checks and stores its field, or fails |
| `FormatStrings.ParseDate` | src/utils/date.hpp:6729-6742 | the parsing loop and what follows it give the date of the format, and fail exactly when there is none |
| `FormatStrings.CompleteYear` | src/utils/date.hpp:6426-6471 | the year from two digits and a given or assumed century, consistent with a given year |
| `FormatStrings.TryTrials` | src/utils/date.hpp:6474-6541 | the four trial dates fill in or contradict the fields as specified, and tell whether an ISO week or a week of the calendar year gave a date |
| `FormatStrings.Finish` | src/utils/date.hpp:6425-6580 | the statements after the loop compute the specified date or fail |
| `FormatStrings.ConversionReads` | src/utils/date.hpp:5563-6309 | every conversion reads back what it printed, wherever it stands and whatever follows |
| `FormatStrings.FormatReads` | src/utils/date.hpp:5561-6424 | every format reads its own text to its end and collects the date's own fields |
| `FormatStrings.WrongWeekYear` | src/utils/date.hpp:6547-6565 | a wrong week year is harmless exactly when a week of the calendar year gives the day and no ISO week does |
| `FormatStrings.ResolvesOwn` | src/utils/date.hpp:6425-6580 | the date is found in its own fields if and only if they determine it |
| `FormatStrings.FormatRoundTrip` | src/utils/date.hpp:5561-6580 | for every format of the modelled conversions, two-digit years and week years included, and every date whose years fit, printing and parsing, with anything after the text, gives the date if and only if the selected fields determine it |
| `FormatFields.NothingIsGiven` | src/utils/date.hpp:5521-5532 | a parse starts with the value that stands for none in every field |
| `FormatFields.ParsedExactly` | src/utils/date.hpp:5561-6424 | for every format and every text: the format reads it if and only if all its characters and numbers are there and all numbers for a field that is given agree, and then each field has the last number read for it |
| `FormatFields.DifferentNumbersFail` | src/utils/date.hpp:5481-5490 | a text with two different numbers for one field, the first of which does not stand for none, gives no date |
| `FormatFields.ZeroGivesWay` | src/utils/date.hpp:5481-5490 | a day 00 gives way to a later day 05, and a day 05 does not to a day 06 |
| `FormatFields.RoundTripByConversions` | src/utils/date.hpp:5561-6580 | for every format and every date whose years fit, printing and parsing gives the date if and only if the conversions of the format determine it, as listed letter by letter |
| `FormatStrings.FullDateFormat` | src/utils/date.hpp:5822-5832 | the loops print and parse the format %F as its own round trip says |
| `FormatStrings.CenturyFormat` | src/utils/date.hpp:5777-5783 | and %C%y likewise |
| `FormatStrings.WeekDateFormat` | src/utils/date.hpp:6228-6269 | and %G-W%V-%u likewise |
| `Registry.AddNodesAt` | src/storage/redis/RedisClient.cpp:113-119 | storing any accounts gives each owner the node of its last account and changes no other owner |
| `Registry.AddEntriesAt` | src/storage/redis/RedisClient.cpp:119-122 | storing any accounts appends to each list the entries of the accounts with that node, in order, and nothing else |
| `Registry.EntriesAreCounted` | src/storage/redis/RedisClient.cpp:119-122 | one entry for each account with the node, named again or not |
| `Registry.LoadAllIsReady` | src/server/PushServer.cpp:190-202 | for any account ids: a loaded account has its own node when that resolves, else a new one that no other account has |
| `Registry.StoreExactly` | src/storage/redis/RedisClient.cpp:91-126 | for any accounts: who has which node and what each list holds after storing, as written and when read first |
| `Registry.AddedExactly` | src/server/PushServer.cpp:195-199 | the nodes set up are those requested that were not there, and those requested more than once |
| `Registry.LeaksExactly` | src/server/PushServer.cpp:190-214 | every requested node is current after storing if and only if every account named more than once was routable |
| `Registry.LiveStaysCurrent` | src/server/PushServer.cpp:184-214 | an accepted list keeps the live nodes equal to the current nodes under exactly the same condition |
| `Registry.NamedTwiceLeaks` | src/server/PushServer.cpp:190-214 | for any list: every earlier new node of an account that is named again is set up, is current for nobody and resolves |
| `Registry.StoreAgrees` | src/storage/redis/RedisClient.cpp:91-126 | forward and reverse index keep agreeing |
| `Registry.StoreNodes` | src/storage/redis/RedisClient.cpp:113-124 | the current nodes after storing are those of the other devices and that of the last account of each id |
| `Registry.StoreToggles` | src/storage/redis/RedisClient.cpp:99-121 | a stored account is routable exactly when it was not before, as written and however often it is named; when read first, always if it is named once |
| `Registry.StoreIsolates` | src/storage/redis/RedisClient.cpp:91-126 | storing for one device changes no registration, node or list of another |
| `Registry.StoreKeepsLists` | src/storage/redis/RedisClient.cpp:99-104 | as written no node list shrinks, and a dropped node resolves as before |
| `Registry.StoreStaysClean` | src/storage/redis/RedisClient.cpp:91-126 | when read first, and no account is named twice, the lists stay one entry for each current node |
| `Registry.UriKeepsRoutes` | src/storage/redis/RedisClient.cpp:128-139 | announcing a URI changes no version, account list, node or list |
| `Registry.StepKeepsInv` | src/server/PushServer.cpp:174-231 | every request keeps the indexes in agreement and every current node live |
| `Registry.RunKeepsInv` | src/server/PushServer.cpp:174-231 | so does every run over any devices |
| `Registry.StepTidy` | src/server/PushServer.cpp:174-219 | after a request the live nodes are the current ones exactly when they were before and the request repeats only routable accounts |
| `Registry.RunStaysTidy` | src/server/PushServer.cpp:174-219 | after a run the live nodes are the current ones if and only if every accepted list repeated only accounts that were routable then |
| `Registry.TidyByStreak` | src/server/PushServer.cpp:174-219 | as written, whether a request does that is decided by the requests before it: the repeated accounts have odd streaks |
| `Registry.RunRemembers` | src/storage/redis/RedisClient.cpp:34-58 | after every run a device has its last URI, and the version and accounts of its last accepted list |
| `Registry.StepRoutes` | src/server/PushServer.cpp:174-231 | how one request changes who has a node and who is routable |
| `Registry.RunRoutes` | src/storage/redis/RedisClient.cpp:179-194 | after every run an account has a node when its streak of accepted lists is positive, and is routable exactly when that is odd, as written |
| `Registry.RepeatedList` | src/storage/redis/RedisClient.cpp:99-121 | a list sent n times makes its new accounts routable exactly when n is odd |
| `Registry.StepKeepsLists` | src/storage/redis/RedisClient.cpp:99-104 | no request of a run shortens a node list |
| `Registry.StepKeepsDropped` | src/storage/redis/RedisClient.cpp:99-121 | as written, the request that drops a node leaves its list as it is |
| `Registry.StepFreezesDropped` | src/storage/redis/RedisClient.cpp:99-121 | as written, so does every later request, and it gives the node to nobody |
| `Registry.RunFreezesDropped` | src/storage/redis/RedisClient.cpp:99-121 | as written, over the rest of any run a dropped node keeps its list and is never current again |
| `Registry.ListsCarrySecrets` | src/storage/redis/RedisClient.cpp:117-121 | as written, over the rest of any run every entry of a node's list carries the secret that the node was set up with |
| `Registry.ListsAreIssued` | src/server/PushServer.cpp:190-214 | every node that has a list was set up by one request of the run, with one of its tokens |
| `Registry.ToldSecrets` | src/storage/redis/RedisClient.cpp:179-194 | an account sent again is told the node and the secret that its node was set up with while it is routable, and else those of the new token, for every id and token |
| `Registry.StepLingers` | src/storage/redis/RedisClient.cpp:91-126 | as written, a node resolves and is no account's after a request if and only if that was so before, or it is dropped from a routable account, or leaks |
| `Registry.CleanResolvesCurrent` | src/storage/redis/RedisClient.cpp:43-77 | when read first, a node resolves if and only if it is current, and then to its own account and device |
| `RedisStore.JoinedInjective` | src/storage/redis/RedisClient.cpp:196-198 | the hashed string determines device and account when device ids have no '_' |
| `RedisStore.JoinedCollides` | src/storage/redis/RedisClient.cpp:196-198 | two different device ids can share a joined string if and only if one of them followed by '_' begins the other |
| `RedisStore.JoinedCollision` | src/storage/redis/RedisClient.cpp:196-198 | as the ids a_b and a do |
| `RedisStore.AccountKeyInjective` | src/storage/redis/RedisClient.cpp:196-198 | two owners have one account key only if they are the same |
| `RedisStore.LayoutExactly` | src/storage/redis/RedisClient.cpp:91-126 | what stands under the key of every device, account and node, item by item, and that nothing stands under the keys of others |
| `RedisStore.RedisClient.GetChannelUri` | src/storage/redis/RedisClient.cpp:34-41 | the URI of a known device, and nothing for another |
| `RedisStore.RedisClient.GetVersion` | src/storage/redis/RedisClient.cpp:52-59 | the version, once accounts were set |
| `RedisStore.RedisClient.GetAccountId` | src/storage/redis/RedisClient.cpp:43-50 | the account of a node whose list has one entry, and nothing else |
| `RedisStore.RedisClient.GetDeviceId` | src/storage/redis/RedisClient.cpp:61-68 | the device of a node whose list has one entry, and nothing else |
| `RedisStore.RedisClient.GetNodeSecret` | src/storage/redis/RedisClient.cpp:70-77 | the secret of a node whose list has one entry, and nothing else |
| `RedisStore.RedisClient.GetPushNodes` | src/storage/redis/RedisClient.cpp:79-89 | the nodes of all accounts in order; the assertion holds whenever the indexes agree |
| `RedisStore.RedisClient.LoadPushAccount` | src/storage/redis/RedisClient.cpp:179-194 | fills in the stored node and secret of a routable account, and leaves any other alone |
| `RedisStore.RedisClient.SetChannelUri` | src/storage/redis/RedisClient.cpp:128-139 | the commands change the key space exactly as announcing the URI changes the abstract state |
| `RedisStore.RedisClient.SetPushAccounts` | src/storage/redis/RedisClient.cpp:91-126 | the commands as written, for any account list, give the abstract state in which no list was deleted |
| `RedisStore.RedisClient.SetPushAccountsReadFirst` | src/storage/redis/RedisClient.cpp:91-126 | the variant with the read before the deletion gives the abstract state in which the lists went |
| `PushServer.XmppClient.SetupPushNode` | src/xmpp/XmppClient.cpp:340-356 | with a connection object, as asserted, the node is live and true is returned exactly when connected |
| `PushServer.XmppClient.DeletePushNode` | src/xmpp/XmppClient.cpp:358-372 | with a connection object, as asserted, the node is gone when connected |
| `PushServer.FlagsLand` | src/server/PushServer.cpp:190-212 | for any account ids: setting the flags of the added nodes tells each account whether its node is there, a new one and a repeated one by the connection |
| `PushServer.ToldOnce` | src/server/PushServer.cpp:190-212 | with a connection, or when no account is named twice, these are the flags of loading: true for a reused node, the connection for a new one |
| `PushServer.ToldIsHonest` | src/server/PushServer.cpp:190-218 | an account is told that its node is set up if and only if the node is live afterwards, but for the last mention of a repeated account without a connection; without one no node comes or goes |
| `PushServer.PushServer.LoadAccounts` | src/server/PushServer.cpp:190-201 | for any account ids: the nodes to delete are the old minus the requested, those to add the new and the repeated ones, each with a reference to the last account that has it |
| `PushServer.PushServer.SetupNodes` | src/server/PushServer.cpp:210-212 | every flag written through a reference lands on the last account with the node and on no other |
| `PushServer.PushServer.Reconcile` | src/server/PushServer.cpp:181-212 | for any account ids: the live nodes become the old minus the dropped plus the added |
| `PushServer.PushServer.Replace` | src/server/PushServer.cpp:181-214 | the nodes are reconciled and then the flagged accounts are stored |
| `PushServer.PushServer.SetPushAccounts` | src/server/PushServer.cpp:174-219 | for any account ids: an unknown device gets an error and changes nothing; else the response carries the flagged accounts, and store and live nodes are those of the run model, with a connection or without; a connection object is asked for exactly when a node is deleted or set up |
| `PushServer.PushServer.SetChannelUri` | src/server/PushServer.cpp:221-231 | a valid URI is stored as one request of the run model and answered by success; an invalid one changes nothing and is answered by the error |
| `PushServer.PushServer.MessageHandler` | src/xmpp/XmppClient.cpp:139-184 | a notification of the account itself is routed by its node, and dropped when the node is unknown to the store; everything else is dropped |
| `PushServer.PushServer.OnV1MessageForNode` | src/server/PushServer.cpp:233-250 | pushed to the URI of the node's device, or dropped |
| `PushServer.PushServer.OnV2MessageForNode` | src/server/PushServer.cpp:252-275 | pushed with the account id to the URI of the node's device, or dropped |
| `Routing.RunDelivers` | src/xmpp/XmppClient.cpp:154-170 | after every run a message for an account's node is pushed to its own device's last URI, in the format of its last version, when the streak is odd or the variant reads first, and is dropped otherwise |
| `Routing.OnlyCurrentNodes` | src/server/PushServer.cpp:233-275 | when read first, and no request names an account twice, exactly the messages for live nodes are routed |
| `Routing.RoutedExactly` | src/xmpp/XmppClient.cpp:154-170 | as written, for every node after every run: its messages are routed if and only if an account with an odd streak has it, or a request dropped it from such an account, or gave it to an account without a routable node that it named again |
| `Routing.RunLingers` | src/storage/redis/RedisClient.cpp:91-126 | as written, the nodes that resolve and are no account's are those that some request of the run dropped or leaked in this way |
| `Routing.DroppedNodeStillRouted` | src/storage/redis/RedisClient.cpp:99-121 | as written, after every continuation of a run a message for a node dropped in it is pushed to the device that had it exactly when the streak of the account was odd at the drop |
| `Routing.DroppedRun` | src/storage/redis/RedisClient.cpp:99-104 | a run of three requests after which a node that is not live is routed |
| `Routing.RepeatedRun` | src/storage/redis/RedisClient.cpp:117-121 | a run of three requests, one list sent twice, after which a live node is not routed |
| `Fairness.Reaches` | src/tcp/TcpServer.cpp:32-46 | when the helpful thread lowers a rank and no other thread hinders it, the goal is reached under every fair schedule |
| `Fairness.EndsUnlessBad` | src/tcp/TcpServer.cpp:32-46 | when the rank leads to the end or to something irreparable, a fair schedule ends if and only if nothing irreparable happens first |
| `Lifecycle.StepKeepsInv` | src/tcp/TcpServer.cpp:25-65 | every read and every write of either thread keeps the state in step with controller and worker |
| `Lifecycle.Safe` | src/tcp/TcpServer.cpp:25-65 | in every interleaving no assertion about the state fails, stop on a started object is never in its not-running branch, and a stopped object is NOT_RUNNING without a thread |
| `Lifecycle.AssertionsTest` | src/tcp/TcpServer.cpp:25-53 | each modelled assertion fails in every state but those it names |
| `Lifecycle.LeavesWaiting` | src/tcp/TcpServer.cpp:36-65 | after every run, from the end of the worker to the write after the join, the state is WAITING_FOR_JOIN if and only if the worker got past its early return in this start, and STOP_REQUESTED otherwise |
| `Lifecycle.NeverWaitingUnasked` | src/tcp/TcpServer.cpp:33-37 | WAITING_FOR_JOIN is never seen before a stop was requested |
| `Lifecycle.LostWhenWritten` | src/tcp/TcpServer.cpp:36-53 | a request is lost exactly when it is written between the worker's test and its write |
| `Lifecycle.StopAdvances` | src/tcp/TcpServer.cpp:32-65 | during a stop the helpful thread lowers the rank or the request gets lost, and the other thread keeps the rank |
| `Lifecycle.AtomicStopReturns` | src/tcp/TcpServer.cpp:32-65 | if the test and the write are atomic, every stop returns under every fair schedule |
| `Lifecycle.ReturnsUnlessLost` | src/tcp/TcpServer.cpp:32-65 | as written, from every point of stop and under every fair schedule: it returns if and only if its request is not lost before |
| `Lifecycle.ReturnsUnlessAtRisk` | src/tcp/TcpServer.cpp:32-65 | as written, stop returns under all fair schedules if and only if it is not at risk: at the call, if it does not find STARTING; at the join, if the request is not lost |
| `Lifecycle.SafeStaysSafe` | src/tcp/TcpServer.cpp:32-65 | a stop that is not at risk stays so until it has returned |
| `Lifecycle.RiskLoses` | src/tcp/TcpServer.cpp:32-65 | from every point at risk a fair schedule exists under which stop never returns |
| `Lifecycle.LosingRun` | src/tcp/TcpServer.cpp:48-53 | one start and one stop can lose the request |
| `Lifecycle.OrderMatters` | src/tcp/TcpServer.cpp:33 | with the tests of stop in the other order, stop can return while the object runs |
| `NestedLifecycle.SystemStepKeepsInv` | src/server/PushServer.cpp:66-89 | every step of the four threads, and every request, keeps the inner objects in step with the outer worker and the XMPP context with the XMPP worker |
| `NestedLifecycle.SystemSafe` | src/server/PushServer.cpp:35-89 | in every interleaving no assertion of the three objects about their states fails, nor one of the XMPP clean-up, and once the outer worker has finished, early return included, and after stop, the inner objects are NOT_RUNNING without a thread |
| `NestedLifecycle.ServesInOrder` | src/server/PushServer.cpp:74-86 | the TCP server runs only with an initialised Redis client, and the XMPP client is started after it and stopped after it is down |
| `NestedLifecycle.ThreeEnds` | src/server/PushServer.cpp:66-89 | a run ends the process if and only if somewhere in it the Redis client is initialised again, a stop of the XMPP client finds no context, or a request finds no connection |
| `NestedLifecycle.RequestsComeEarly` | src/xmpp/XmppClient.cpp:248-270 | a request finds no connection only before the XMPP client is set up, never after its clean-up |
| `NestedLifecycle.SecondInitFails` | src/storage/redis/RedisClient.cpp:27-32 | in every run the Redis client is initialised exactly when a worker got past its early return and is not just before init, and the assertion of init fails exactly for the second one, which is the last |
| `NestedLifecycle.NeverServesAgain` | src/server/PushServer.cpp:66-89 | a server that is down has its Redis client initialised if and only if a worker of it got past the early return, and then no run brings it to its loop or starts the TCP server or the XMPP client again |
| `NestedLifecycle.StartMeetsInit` | src/server/PushServer.cpp:39-74 | from a server that is down, the next start can run into the assertion of init if and only if the Redis client is initialised |
| `NestedLifecycle.RunningOnlyOnce` | src/server/PushServer.cpp:66-89 | so a server that was RUNNING and is down again is in that case |
| `NestedStop.SystemReturnsUnlessLost` | src/server/PushServer.cpp:46-89 | from every point of the push server's stop and under every schedule fair to the four threads: all three objects get down if and only if, before that, none of the three requests is lost and the process does not end |
| `NestedStop.AnyLostStays` | src/server/PushServer.cpp:46-89 | a lost request, inner or outer, stays lost whoever moves, and the three objects are not all down |
| `NestedStop.SystemReturnsUnlessAtRisk` | src/xmpp/XmppClient.cpp:40-55 | the stop of the push server ends under all fair schedules if and only if it is not at risk, from every point of it; as written, with the bare xmpp_stop(ctx), every call on a started server is at risk; with a guarded one, a call is safe exactly when all three are RUNNING and the context is made |
| `NestedStop.LosingSystemRun` | src/server/PushServer.cpp:77-86 | a run in which the stop loses the TCP server's request, after which it ends under no fair schedule |
| `NestedStop.AtomicSystemStops` | src/server/PushServer.cpp:46-89 | with atomic tests the stop ends under a fair schedule if and only if the process does not end before |

## Left out

- ParsedDate.AssembleExactly: trial dates keep unbounded years and weekdays; the narrowing of a trial year to `short` outside -32768 to 32767 is not modelled here (`MachineCivil.FromDaysExact` says where it matters).
- FormatStrings.FormatRoundTrip: the conversions %C %d %F %g %G %j %m %u %U %V %w %W %y %Y %% and plain characters; the other conversions, white space in formats, field widths and the E and O modifiers are not modelled. A format must not end in a lone '%'. Years whose text is longer than its reader takes are excluded; `Formats` says for %F, %C%y and %G-W%V-%u exactly which those are.
- FormatStrings.FormatDate: formats of the same conversions and plain characters only.
- FormatStrings.ParseDate: formats of the same conversions and plain characters only.
- FormatStrings.Convert: the same conversions only.
- Lifecycle.Safe: single reads and writes of the state are taken to be sequentially consistent, and the owner starts an object only when its last stop returned; that is what the assertion in start demands of it.
- Lifecycle.AtomicStopReturns: a claim about a variant, beside the exact claims about the code as written.
- NestedStop.AtomicSystemStops: likewise.
- NestedStop.SystemReturnsUnlessAtRisk: xmpp_run is taken to return some time or other, and xmpp_stop to be harmless with a context; that a stop which falls between the worker's test and xmpp_run is not seen by the blocking loop is not modelled, nor are disconnections.
- NestedStop.SystemReturnsUnlessLost: likewise.
- NestedLifecycle.ThreeEnds: of what the threads take for granted, the Redis client and the context with its connection are modelled; exceptions of the Redis connection and of the thread constructor are not. That xmpp_stop cannot do with a null context is taken for granted; libstrophe is not part of this model.
- PushServer.PushServer.SetPushAccounts: the claims about live nodes over whole runs are for connected runs; without a connection the store changes all the same and the live nodes do not.
- Routing.OnlyCurrentNodes: a claim about the variant that reads first, for requests that name no account twice; a reused node of an account named twice would get two entries there.
- PushServer.PushServer.MessageHandler: nodes named like a device id, an account hash or the token key of the store, which the flat key space cannot tell apart; every other node name is covered. The text of a push (message counts, the notification stanza, its size limit) and whether the notification service accepts it.
- The runs assume that every request is atomic, that nothing expires, that the hash has no collisions, that generated node names are new, that device ids, node names, hashes and the key WNS are different strings, and that device ids (hex strings, by the README of the server) have no '_'.
- The time conversions of formats (%H, %M, %S, %T, %p and the like) and time zones: `TimeOfDay` models the split and the recombination only.
- The names scanned by the keyword scanner: any list of keywords, so the month and weekday tables and their locale variants are not part of this model.
- Expiry of keys, the notification service and its token, TLS, TCP and XMPP transport, the libstrophe loop, the JSON messages, the regular expression for channel URIs (a predicate here), SHA-256 and random tokens (a function and given values here).
- send_test_push: two lookups and a push, nothing beyond the lookups proved here.
