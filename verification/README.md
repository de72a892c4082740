# HELICS-PMU: verified model of rule splitting, C37.118 frames and clock arithmetic

The program exchanges synchrophasor data in C37.118 frames and carries a copy of a date and time-zone
library. This project models four parts of it and proves what they are for.

**Time-zone rules** (`Rule.dfy`, `RuleCuts.dfy`, `RuleScan.dfy`, `RuleRounds.dfy`,
`RuleMoments.dfy`, `RuleBounds.dfy`, `RuleTable.dfy`, `RuleWalk.dfy`, `RuleLookup.dfy`,
`RuleCoverage.dfy`, `RuleOrder.dfy`, `RuleAnswers.dfy`, `MonthDayTime.dfy`). The database cuts its sorted rule vector in place until
same-named rules have equal or disjoint years, in a double loop whose end grows and whose inner loop
never returns to what it has passed. `CutBlock` proves the result, its meaning and that it ends; by
`CutIsDetermined` that result is the only one its contract allows, up to the order of equal keys.
The proof follows one invariant, `RuleScan.Scanning`: behind the position of the loop, rules that
start with the block either end at the next boundary or such a rule is still ahead. What ends the
loop is that a block never has more rules than the years it covered at the start. The walk over
(rule, year) pairs goes by year and position, and is proved complete and reversible. The two lookups
that follow it are proved right exactly when times rise along it, which is read off neighbouring
rules.

**C37.118 frames** (`Crc.dfy`, `CommonFrame.dfy`, `PmuConfig.dfy`, `ConfigFrame.dfy`,
`ConfigRegeneration.dfy`, `ConfigGenerator.dfy`, `ConfigParser.dfy`, `PmuData.dfy`, `DataFrame.dfy`,
`DataGenerator.dfy`, `DataParser.dfy`, `DataNumbers.dfy`, over `Bits.dfy`, `Wire.dfy`, `Rows.dfy`
and `Doubles.dfy`), after IEEE Std C37.118.2-2011, clauses 6.2 to 6.4. `ConfigLayout.dfy` and
`DataLayout.dfy` say in numbers where each field stands, apart from the functions that put it there. Generators are methods that
write an `array<byte>` at an advancing offset, parsers are methods with the loops of the source;
both are proved against byte-sequence functions, and those to undo each other in both directions,
with exact conditions where they do not. Data frames are proved first at the level of words, in
every format, and then with the numbers that the words are turned into, for all formats but integer
and polar phasors: a count that is divided by its scale into a double, multiplied again and
truncated comes back only under the exact condition of `Doubles.RescaledIs`.

**Calendar and leap seconds** (`Calendar.dfy`, `LeapSeconds.dfy`): the proleptic Gregorian calendar of
section 3.2.1 of ISO 8601:2004 over 16-bit years, and UTC against system time for any list of leap
seconds and any tick.

**Receive buffer** (`TcpConnection.dfy`): the buffer a connection shifts in place between reads.

What the proofs show of the code as it is:

- Configuration frame 2 writes the count of all PMUs above the active ones only (`CountOfGenerated`).
- The generators write no SYNC into a buffer whose size, cut to 16 bits, is below 18; `src/pmu/Receiver.cpp:21`
  passes 65536 for a buffer (`GenerateCommonFrame`, `RoundTrip`).
- Byte 14 of a configuration frame is never written (`PutFixed`, `Regenerated`).
- A PMU that held 50 Hz keeps it when a 60 Hz frame is parsed into it (`DecodeOfEncode`, `CarriedWhole`).
- A frequency word 1001 in integer format is written again as 1000, and a fraction of 249 microseconds
  as 248 (`LostInRescaling`).
- The second word of an integer rectangular phasor is not stored (`PutPhasor`, `CarriedDataWhole`).
- Giving single-year rules a fixed day can leave a block out of order (`CanonicalCanUndoOrder`); the walk
  does not depend on that order (`CutBlocksCanBeWalked`).
- In such a block a lookup can miss a rule that has started (`SearchCanMiss`).
- A rule that resolves outside one of its years loses that moment if the year stands alone after cutting
  (`SplitKeepsMoments`, `YearEndLosesMoment`).
- Comparing month-day times of different zones goes wrong for times of day of two days and more
  (`CompareCanFail`).

## Model

| member | source | states |
|---|---|---|
| `Rules.NotAfterByNameThenKey` | ThirdParty/date/tz.cpp:1181-1194 | reading `!(y < x)` off the comparison chain: rules stand by name, and within a name by first year, month, last year and day of month |
| `Rules.NotAfterTransitive` | ThirdParty/date/tz.cpp:1181-1194 | sorting by the comparison is meaningful: not-after is transitive over names and keys |
| `RuleOrder.MonthsInOrder` | ThirdParty/date/tz.cpp:798-910 | rules of one name and first year that take effect in different months, each in the month its form names, stand in the order of their resolved days, whatever their forms |
| `RuleOrder.SameFormsInOrder` | ThirdParty/date/tz.cpp:1181-1194 | within a month, rules of one form and weekday with the same years stand in the order of their resolved days |
| `RuleOrder.OrderInMonth` | ThirdParty/date/tz.cpp:1190-1193 | within a month and the same years, rules stand by the day written in their forms; the last weekday counts as day 31 |
| `RuleOrder.StringLessAt` | ThirdParty/date/tz.cpp:1184-1187 | names are ordered at the first place where they differ, a beginning before what it begins |
| `RuleCuts.SplitConserves` | ThirdParty/date/tz.cpp:1303-1370 | one cut and sort leaves every additive quantity of the rules unchanged: what each year holds of each payload, the years covered, and any other sum over the years of rules |
| `RuleCuts.CountIs` | ThirdParty/date/tz.cpp:1303-1370 | what is conserved is, among others, the number of rules that cover a year with a payload, counted one by one |
| `RuleCuts.SameCounts` | ThirdParty/date/tz.cpp:1303-1370 | rule vectors of the same meaning give every year the same multiset of payloads, and cover the same years with the same multiplicity |
| `RuleCuts.TotalYearsAtLeast` | ThirdParty/date/tz.cpp:1372-1388 | non-empty rules are never more than the years they cover: the bound under which the growing loop ends |
| `RuleScan.ScanSplitLater` | ThirdParty/date/tz.cpp:1376-1388 | the invariant of the inner loop survives a cut of two rules with different first years, although the sort moves rules the loop has passed |
| `RuleScan.ScanSplitSame` | ThirdParty/date/tz.cpp:1376-1388 | the same for a cut of two rules with equal first years |
| `RuleScan.ScanDone` | ThirdParty/date/tz.cpp:1376-1388 | after the inner loop the first rule is final against all others: equal years or years entirely after it |
| `RuleScan.SettledAfterSplit` | ThirdParty/date/tz.cpp:1372-1388 | a rule that is final stays final when later rounds cut the rules after it |
| `RuleTables.RuleTable.SplitSameStart` | ThirdParty/date/tz.cpp:1316-1334 | the branch for equal first years replaces the two rules by exactly the pieces of both cut at each other's boundaries |
| `RuleTables.RuleTable.SplitLaterStart` | ThirdParty/date/tz.cpp:1335-1369 | the branch for a later second rule, with its one or two insertions in place, yields exactly the pieces |
| `RuleTables.RuleTable.Split` | ThirdParty/date/tz.cpp:1303-1370 | cutting two overlapping rules replaces them by their pieces, moves the end by the number of rules added, and touches nothing else |
| `RuleTables.RuleTable.Sort` | ThirdParty/date/tz.cpp:1384-1385 | `std::sort` by contract: a sorted permutation of the range, the rest untouched |
| `RuleTables.RuleTable.CutFirst` | ThirdParty/date/tz.cpp:1379-1387 | the inner loop, with its growing end, ends and leaves the scan invariant for the whole rest of the block |
| `RuleTables.RuleTable.CutBlock` | ThirdParty/date/tz.cpp:1372-1388 | from a sorted block of one name with non-empty rules, the double loop ends with any two rules having equal or disjoint years, sorted, the same meaning for every year, cut only and everywhere where a rule of the block begins or ends, and the rest of the vector untouched |
| `RuleTables.RuleTable.CanonicalizeBlock` | ThirdParty/date/tz.cpp:1389-1393 | exactly the single-year rules of the block get a fixed day, in place |
| `RuleTables.RuleTable.SplitBlock` | ThirdParty/date/tz.cpp:1372-1394 | cutting and canonicalizing one block: the canonical form of a partitioned, sorted block of the same meaning, whose rules span from one bound of the block to the next |
| `RuleTables.RuleTable.UpperBound` | ThirdParty/date/tz.cpp:1396-1410 | the end of the block of the name at a position, by contract of `std::upper_bound` |
| `RuleTables.RuleTable.SplitOverlaps` | ThirdParty/date/tz.cpp:1396-1432 | over the whole sorted table: names stay in blocks, same-named rules get equal or disjoint years and span from one bound of their name to the next, every year keeps its multiset of payloads, the result is the canonical form of that table, and it keeps the moments of every year exactly under the condition of `SplitKeepsMoments` |
| `RuleCuts.BoundsAfterSplit` | ThirdParty/date/tz.cpp:1303-1370 | one cut and sort neither adds nor loses a bound: a year in which a rule of the block begins, or just before which one ends |
| `RuleBounds.CutAtBounds` | ThirdParty/date/tz.cpp:1372-1388 | the rules of a cut block begin and end at bounds of the block and have none inside |
| `RuleBounds.CutIsDetermined` | ThirdParty/date/tz.cpp:1396-1432 | the cut table is determined by the table before: a rule stands in it as often as its payload holds in its first year if it spans from one bound of its name to the next, and not at all otherwise |
| `RuleBounds.SplitKeepsMoments` | ThirdParty/date/tz.cpp:1396-1432 | split_overlaps keeps the moments of every year exactly when no rule of the table passed in resolves outside one of its years y for which y and y + 1 are bounds of its name |
| `RuleRounds.WellCutIsSorted` | ThirdParty/date/tz.cpp:1396-1432 | a cut table is sorted by the full comparison |
| `MonthDayTimes.ResolvedDayIsNearest` | ThirdParty/date/tz.cpp:890-915 | a weekday form resolves to the nearest day with that weekday on its side of the anchor date, for every 16-bit year |
| `MonthDayTimes.ResolvedInItsWeek` | ThirdParty/date/tz.cpp:890-915 | the day has the weekday of the form and lies in the seven days from its day on, up to its day, or at the end of its month; a fixed day is itself |
| `MonthDayTimes.MidnightIsBetweenDays` | ThirdParty/date/tz.cpp:918-922 | the time point of 24:00 on a day is that of 0:00 on the next calendar day |
| `MonthDayTimes.CanonicalKeepsDay` | ThirdParty/date/tz.cpp:924-961 | canonicalizing keeps the resolved day of a year exactly when that day lies in the year; otherwise it moves it |
| `MonthDayTimes.LastWeekdayStaysInYear` | ThirdParty/date/tz.cpp:924-961 | the last-weekday form always resolves within its year, so it is always kept |
| `MonthDayTimes.CompareOrdersInstants` | ThirdParty/date/tz.cpp:813-853 | comparison orders two rule times as their instants in UTC exactly when zones agree, days are at most one apart, or the clocks (time of day less the zone's offset) do not make up for the days |
| `MonthDayTimes.CompareWithinTwoDays` | ThirdParty/date/tz.cpp:813-853 | with clocks less than two days apart, comparison orders two rule times as their instants in UTC |
| `MonthDayTimes.CompareCanFail` | ThirdParty/date/tz.cpp:1020-1022 | a pair for which it does not: 72:00 on January 1, UTC, compares before 0:00 on January 3, standard time; the parser accepts any hour count |
| `RuleMoments.SameMeaningSameMoments` | ThirdParty/date/tz.cpp:1372-1388 | cutting keeps, for every year, the moments at which rules take effect |
| `RuleMoments.CanonicalKeepsMoments` | ThirdParty/date/tz.cpp:1389-1393 | canonicalizing a table keeps the moments of every year exactly when no single-year rule resolves outside its year |
| `RuleMoments.CanonicalRuleIs` | ThirdParty/date/tz.cpp:924-961 | canonicalizing gives a single-year rule the month and day of the date on which it takes effect, and changes nothing else |
| `RuleMoments.OnlyYearEndsLeave` | ThirdParty/date/tz.cpp:924-961 | the only rules that resolve outside their year count forward from December 26 to 31, or back from January 1 to 6 |
| `RuleMoments.YearEndLosesMoment` | ThirdParty/date/tz.cpp:1389-1393 | a rule that loses its moment: Friday on or after December 31, 2020 is January 1, 2021 |
| `RuleMoments.CanonicalCanUndoOrder` | ThirdParty/date/tz.cpp:1389-1393 | a concrete block whose rules are partitioned and sorted before canonicalizing and out of order after it |
| `RuleMoments.CanonicalKeepsOrder` | ThirdParty/date/tz.cpp:1389-1393 | for rules that stay in their years and fixed days that exist, a partitioned block is still sorted after canonicalizing exactly when, before it, the rules of every single year stand in the order of their resolved days |
| `RuleWalk.FindNextRule` | ThirdParty/date/tz.cpp:1477-1499 | within a cut block the result is the next (rule, year) pair by year and position, or null exactly at the last |
| `RuleWalk.FindNextInTable` | ThirdParty/date/tz.cpp:1509-1533 | the same in the whole table, where the block ends are found by comparing names |
| `RuleWalk.FindPreviousRule` | ThirdParty/date/tz.cpp:1441-1466 | in the whole table the result is the previous pair by year and position, across groups and single-year groups |
| `RuleWalk.NextAndPrevious` | ThirdParty/date/tz.cpp:1441-1533 | a pair is next after another exactly when the other is previous to it |
| `RuleWalk.NeighboursAreUnique` | ThirdParty/date/tz.cpp:1441-1533 | a pair has one next and one previous pair at most, so the results of the functions are determined |
| `RuleWalk.PreviousUndoesNext` | ThirdParty/date/tz.cpp:1441-1533 | the pair previous to the next pair is the pair itself, and the other way round |
| `RuleWalk.Walk` | ThirdParty/date/tz.cpp:1567-1575 | following the next rule from the first rule's first year ends, and visits every year of every rule exactly once, by year and position |
| `RuleLookups.FindBefore` | ThirdParty/date/tz.cpp:1567-1575 | the search loop of both lookups ends with the last step before the first at which it stops, each step judged under the saving of the step before |
| `RuleLookups.FoundIsUnique` | ThirdParty/date/tz.cpp:1567-1575 | there is only one such step: the result of a search is determined |
| `RuleLookups.RiseBetweenNeighbours` | ThirdParty/date/tz.cpp:1567-1575 | times rise along a walk exactly when no step takes effect earlier than the rule before it in its year, the last rule of its group in the year before, or the last year of the group before |
| `RuleLookups.RiseWithinYears` | ThirdParty/date/tz.cpp:1567-1575 | when steps take effect within their years, times rise along a walk exactly when in every single year no rule takes effect earlier than the one that stands before it |
| `RuleLookups.FoundIsLast` | ThirdParty/date/tz.cpp:1567-1575 | when times rise along the walk, a search for a time finds the last step that takes effect before it, and none of those takes effect later |
| `RuleLookups.FallIsMissed` | ThirdParty/date/tz.cpp:1567-1575 | when some step takes effect earlier than one before it, the search for the time of the latter misses it |
| `RuleLookups.SearchIsRight` | ThirdParty/date/tz.cpp:1579-1616 | under one offset and saving, the second lookup answers every time point rightly exactly when times rise along the walk |
| `RuleLookups.SearchCanMiss` | ThirdParty/date/tz.cpp:1579-1616 | a block in which this happens: with October 28 before October 25, a search for October 26, 2020 finds nothing although the second rule has started |
| `RuleAnswers.FoundAmongTwo` | ThirdParty/date/tz.cpp:1551-1616 | among two rules of a year a lookup judges the first without a saving and the second under the saving of the first |
| `RuleAnswers.TwoRulesForZone` | ThirdParty/date/tz.cpp:1551-1577 | the first lookup among two rules of a year, in seconds of UTC: it answers the last that starts before the time, a minute of saving being 60 seconds |
| `RuleAnswers.TwoRulesAt` | ThirdParty/date/tz.cpp:1579-1616 | the second lookup among two rules of a year, in seconds: it answers the last whose time has been reached on the clock that its zone names |
| `RuleLookups.FindRuleForZone` | ThirdParty/date/tz.cpp:1551-1577 | the first lookup: the search under the comparison of month-day times; the last step before the given time of the given year when times rise and clocks are less than two days apart |
| `RuleLookups.FindRuleAt` | ThirdParty/date/tz.cpp:1579-1616 | the second lookup: the search in three time scales; the last step that has started at the time point when times rise |
| `RuleWalk.CutBlocksCanBeWalked` | ThirdParty/date/tz.cpp:1396-1533 | what the cutting leaves, canonicalized, meets everything the walk relies on, even where canonicalizing undid the order |
| `RuleCoverage.WalkTakesWhatHeld` | ThirdParty/date/tz.cpp:1372-1533 | the walk over a name of the cut table takes every payload in every year exactly as often as the table before the cut held it |
| `Calendar.FromToDays` | ThirdParty/date/date.h:2973-3103 | every valid date survives the way to its day number and back, negative eras included |
| `Calendar.ToFromDays` | ThirdParty/date/date.h:3087-3103 | a day number survives the way to its date and back exactly when it lies between the day numbers of the first and last storable year, and that date passes `ok()` exactly from January 1 of `year::min()` on |
| `Calendar.FromDaysWraps` | ThirdParty/date/date.h:3087-3103 | an existing date keeps month and day on the way to its day number and back, and its year by the low 16 bits, whole exactly from year -32768 to 32767 |
| `Calendar.ToDaysOrder` | ThirdParty/date/date.h:2973-3039 | day numbers order dates as dates are compared, and equal ones mean equal dates |
| `Calendar.NextDayIsNext` | ThirdParty/date/date.h:2737-2987 | the calendar successor of a date, by month lengths and leap rule, has the next day number |
| `Calendar.NextDayIsLeast` | ThirdParty/date/date.h:3032-3039 | that successor is the least date after it |
| `Calendar.WeekdayIsModular` | ThirdParty/date/date.h:1823-1827 | the weekday from a day number is (z + 4) modulo 7, for every 32-bit z, despite the unsigned wrap |
| `Calendar.WeekdaysTurn` | ThirdParty/date/date.h:1823-1827 | day 0 is a Thursday, and each 32-bit day number is followed by the next weekday |
| `Calendar.WeekdayMinus` | ThirdParty/date/date.h:1905-1910 | the difference of weekdays is the number in 0..6 that leads from one to the other |
| `Calendar.WeekdayPlus` | ThirdParty/date/date.h:1915-1920 | adding days, negative ones too, moves the weekday modulo 7 |
| `LeapSeconds.IsLeapSecond` | ThirdParty/date/tz.h:1905-1926 | the stepwise reading of a UTC time, with its reassigned locals, is the specification of what counts as an inserted second and how many have elapsed |
| `LeapSeconds.UtcToSys` | ThirdParty/date/tz.h:1944-1953 | the stepwise conversion to system time is its specification |
| `LeapSeconds.DateInUtc` | ThirdParty/date/tz.h:1889-1898 | at the i-th date UTC jumps over one second, i seconds having been inserted before |
| `LeapSeconds.SecondAtDate` | ThirdParty/date/tz.h:1905-1953 | that second is flagged as inserted, counted, and mapped to the last tick before the date, if each gap leaves room |
| `LeapSeconds.BackFromSys` | ThirdParty/date/tz.h:1889-1953 | for any increasing list of leap seconds and any tick, `to_sys(from_sys(t)) == t` for all t exactly when each gap is at least as many seconds as leap seconds precede it |
| `LeapSeconds.BackToUtc` | ThirdParty/date/tz.h:1889-1953 | under that condition `from_sys(to_sys(u)) == u` exactly for u outside inserted seconds |
| `LeapSeconds.RecognisedExactly` | ThirdParty/date/tz.h:1905-1926 | `is_leap_second` flags inserted seconds and nothing else exactly when each gap has room for its own second as well |
| `LeapSeconds.ToSysIsLatest` | ThirdParty/date/tz.h:1944-1953 | `to_sys(u)` is the latest system time whose UTC is not after u, under the same gap condition |
| `LeapSeconds.ToSysGrows` | ThirdParty/date/tz.h:1944-1953 | `to_sys` is non-decreasing when each gap has room for its own second as well |
| `LeapSeconds.ToSysFalls` | ThirdParty/date/tz.h:1944-1953 | with several ticks to the second, `to_sys` is non-decreasing exactly when each gap has room for its own second |
| `LeapSeconds.FromSysGrows` | ThirdParty/date/tz.h:1891-1898 | `from_sys` is strictly increasing |
| `Crc.CalculateCrc` | src/pmu/c37118.cpp:12-33 | the loop over all but the last two bytes computes the CRC of that prefix |
| `Crc.CrcIsDivision` | src/pmu/c37118.cpp:12-33 | the byte-wise shifts and exclusive-ors are bit-serial division by x^16 + x^12 + x^5 + 1, for every message and state |
| `Crc.CrcIsRemainder` | src/pmu/c37118.cpp:12-33 | the CRC is the remainder of long division of the message, its first 16 bits inverted and 16 zeros appended, by that polynomial |
| `Crc.GeneratorAndStart` | src/pmu/c37118.cpp:12-33 | read as numbers, the generator below its leading bit is 0x1021 and the state it starts from 0xFFFF |
| `Crc.CrcMatchesResidue` | src/pmu/c37118.cpp:53-63 | a message ends in its own big-endian CRC exactly when dividing all of it leaves residue 0 |
| `Crc.BitRunInjective` | src/pmu/c37118.cpp:12-33 | every message permutes the 65536 states |
| `Crc.BurstChangesState` | src/pmu/c37118.cpp:12-33 | messages that differ in a window of at most 16 bits lead to different states |
| `CommonFrames.ParseCommonFrame` | src/pmu/c37118.cpp:77-105 | the parser of the common frame: sync, size, checksum in this order, then the big-endian fields; short buffers are refused as soon as the source refuses them (`RefusedWhy` says which refusal) |
| `CommonFrames.AcceptedWhenNoResidue` | src/pmu/c37118.cpp:77-105 | a buffer is accepted exactly when it starts with SYNC, holds the declared frame, and that frame leaves residue 0 |
| `CommonFrames.RefusedWhy` | src/pmu/c37118.cpp:77-99 | which refusal: invalid sync exactly without 0xAA, length mismatch exactly when bytes 2 and 3 say more than there is, invalid checksum exactly when all is there and leaves a residue |
| `CommonFrames.RefusedEarly` | src/pmu/c37118.cpp:77-99 | which buffers can be parsed although the common fields are not all there, the ones refused by their first byte, their length or their residue |
| `CommonFrames.PrefixIsTooShort` | src/pmu/c37118.cpp:85-89 | every beginning of an accepted frame, of four bytes or more, is refused as length mismatch |
| `CommonFrames.BurstIsDetected` | src/pmu/c37118.cpp:77-105 | two accepted buffers of equal length that agree on bytes 0 to 3 and differ only in 16 consecutive bits, CHK included, hold the same frame |
| `CommonFrames.Finish` | src/pmu/c37118.cpp:53-63 | `addSize` then `addCRC` in place |
| `CommonFrames.FrameIsReadable` | src/pmu/c37118.cpp:53-105 | a frame finished by `addSize` and `addCRC` passes the parser with the fields written, if the buffer starts with SYNC, and is refused as invalid sync otherwise |
| `CommonFrames.SameFrames` | src/pmu/c37118.cpp:53-105 | a finished frame equals another accepted frame exactly when all but their CHK words agree |
| `CommonFrames.GenerateCommonFrame` | src/pmu/c37118.cpp:514-537 | SYNC and IDCODE are written exactly when the buffer size, cut to 16 bits, is at least 18; nothing else is touched |
| `CommonFrames.AddTime` | src/pmu/c37118.cpp:34-40 | SOC and FRACSEC are written big-endian in place |
| `CommonFrames.CommonFrameStarts` | src/pmu/c37118.cpp:514-537 | the bytes written read back as SYNC, type with version 1, and the big-endian IDCODE |
| `PmuConfigs.HeadFields` | src/pmu/c37118.cpp:559-603 | station name, source ID, format word and the three counts stand big-endian at bytes 0, 16, 18, 20, 22 and 24 of a PMU |
| `PmuConfigs.FormatBits` | src/pmu/c37118.cpp:582-586 | bits 3 to 0 of the format word tell frequency, analog, phasor format and polar coordinates |
| `PmuConfigs.Interpret24` | src/pmu/c37118.cpp:65-74 | the shifts sign-extend the low 24 bits |
| `PmuConfigs.DecodeOfEncode` | src/pmu/c37118.cpp:137-231 | parsing an encoded PMU, into whatever a PMU held before, gives what a frame carries of it: names cut or padded to 16 bytes, conversions by their low 24 bits, 50 Hz or the former frequency |
| `PmuConfigs.CarriedWhole` | src/pmu/c37118.cpp:559-681 | exactly which PMUs survive unchanged when parsed into any former PMU: 16-byte names, conversions in 24 bits, 50 Hz or the former frequency, the former active flag |
| `PmuConfigs.EncodeOfDecode` | src/pmu/c37118.cpp:137-231 | encoding a parsed block gives its bytes again exactly when the unused bits of the format and frequency words are zero and the frequency was not held before |
| `ConfigGenerator.GeneratePmuConfig` | src/pmu/c37118.cpp:559-681 | one PMU written at an offset is the encoding of the PMU, or nothing when the rest of the buffer is too short; no other byte changes |
| `ConfigGenerator.GetPmuConfigSize` | src/pmu/c37118.cpp:539-546 | the predicted size of a PMU modulo 2^16 |
| `ConfigGenerator.GetConfigSize` | src/pmu/c37118.cpp:548-556 | the predicted size of a frame with all PMUs modulo 2^16 |
| `ConfigGenerator.SizeAgrees` | src/pmu/c37118.cpp:548-720 | the predicted size is the size written exactly when no inactive PMU is left out |
| `ConfigGenerator.PutFixed` | src/pmu/c37118.cpp:690-699 | the fields before the PMUs, with byte 14 left as it stood |
| `ConfigGenerator.PutPmus` | src/pmu/c37118.cpp:700-708 | the loop over PMUs writes the active ones, or all, one after the other from byte 20 |
| `ConfigGenerator.GenerateConfig` | src/pmu/c37118.cpp:683-720 | the rest of the frame with size and CRC, or nothing when the buffer is too short |
| `ConfigGenerator.GenerateConfig1` | src/pmu/c37118.cpp:722-727 | the whole buffer after a configuration frame 1 was generated, and the size returned |
| `ConfigGenerator.GenerateConfig2` | src/pmu/c37118.cpp:729-733 | the whole buffer after a configuration frame 2 was generated from active PMUs only |
| `ConfigParser.ParsePmuConfig` | src/pmu/c37118.cpp:137-231 | the loops over names and units read exactly the block that its own counts announce, and nothing behind it |
| `ConfigParser.ParseConfigFrame` | src/pmu/c37118.cpp:232-258 | the parser of configuration frames 1 and 2, including the refusals and what a resized PMU vector keeps |
| `ConfigFrames.FixedFields` | src/pmu/c37118.cpp:690-699 | SOC, FRACSEC, TIME_BASE and NUM_PMU stand big-endian at bytes 6, 10, 15 and 18 of a frame, the time base by its low 24 bits |
| `ConfigFrames.TakeOfFlat` | src/pmu/c37118.cpp:250-254 | PMU blocks in a row are found again one after the other, whatever follows them |
| `ConfigFrames.ParseOfGenerated` | src/pmu/c37118.cpp:232-258 | parsing a generated frame gives what it carries of the configuration, for any number of PMUs and channels; whether it parses rests on what the buffer starts with |
| `ConfigFrames.RoundTrip` | src/pmu/c37118.cpp:232-258 | parse(generate(c)) is complete and carries c, whatever the buffer held, when the buffer size cut to 16 bits is at least 18; otherwise it is refused from a buffer without SYNC |
| `ConfigFrames.RoundTripIntoNew` | src/pmu/c37118.cpp:232-258 | parsed into a configuration without PMUs, a generated frame gives the same configuration exactly when names have 16 bytes, conversions and time base fit 24 bits, every PMU has 50 or 60 Hz, and all are active |
| `ConfigLayouts.HeadSays` | src/pmu/c37118.cpp:137-231 | byte for byte, the fixed fields that are read from a PMU, its size in terms of its counts, and FNOM and CFGCNT at its end |
| `ConfigLayouts.PhasorNameSays` | src/pmu/c37118.cpp:163-171 | where the i-th phasor name is read |
| `ConfigLayouts.AnalogNameSays` | src/pmu/c37118.cpp:173-180 | where the i-th analog name is read |
| `ConfigLayouts.DigitalNameSays` | src/pmu/c37118.cpp:181-188 | where the i-th of 16 names to a digital word is read |
| `ConfigLayouts.PhasorUnitSays` | src/pmu/c37118.cpp:190-199 | where the type and the 24-bit conversion factor of the i-th phasor are read |
| `ConfigLayouts.AnalogUnitSays` | src/pmu/c37118.cpp:201-212 | where the type and the conversion factor of the i-th analog value are read, the factor being signed |
| `ConfigLayouts.DigitalUnitSays` | src/pmu/c37118.cpp:213-223 | where the two masks of the i-th digital word are read |
| `ConfigLayouts.FrameSays` | src/pmu/c37118.cpp:240-249 | the types that are accepted, and the fixed fields of an accepted frame where they are read |
| `ConfigLayouts.PmuSays` | src/pmu/c37118.cpp:249-254 | each PMU is read behind the one before it, into the former PMU of its position or into a new one of 60 Hz that is active |
| `ConfigLayouts.RateSays` | src/pmu/c37118.cpp:256 | DATA_RATE is read behind the last PMU, signed |
| `ConfigLayouts.HoldsWhatFits` | src/pmu/c37118.cpp:249-255 | the parser stays in the buffer exactly when every PMU fits and two bytes follow the last |
| `ConfigLayouts.HeadWritten` | src/pmu/c37118.cpp:559-603 | byte for byte, the fixed fields that are written for a PMU, the station name padded with zeros, and FNOM and CFGCNT |
| `ConfigLayouts.RestWritten` | src/pmu/c37118.cpp:604-681 | names and units are written where they are read, and say what the frame carries of the PMU |
| `ConfigLayouts.StartWritten` | src/pmu/c37118.cpp:514-537 | a generated frame starts with 0xAA and type plus version 1, says its own size and IDCODE, leaves no residue, and touches nothing behind it |
| `ConfigLayouts.FixedWritten` | src/pmu/c37118.cpp:683-720 | where SOC, FRACSEC, TIME_BASE, NUM_PMU and DATA_RATE are written |
| `ConfigLayouts.ActiveEmitted` | src/pmu/c37118.cpp:702-708 | frame 2 has the active PMUs in their order |
| `ConfigLayouts.PmuWritten` | src/pmu/c37118.cpp:700-708 | each PMU is written behind those before it |
| `ConfigFrames.CountOfGenerated` | src/pmu/c37118.cpp:697-708 | NUM_PMU is the number of PMUs written exactly when no inactive PMU is left out |
| `ConfigRegeneration.Regenerated` | src/pmu/c37118.cpp:232-258 | generating a parsed frame gives its original bytes exactly when the frame is canonical and byte 14 of the buffer is the frame's |
| `PmuDatas.DecodeOfEncodedData` | src/pmu/c37118.cpp:364-475 | byte layout: the words of encoded measurements are read back from where they were written, cut to their widths, in every combination of formats |
| `PmuDatas.CarriedDataWhole` | src/pmu/c37118.cpp:738-847 | word by word, measurements that fit their formats are read back exactly when phasors are not integer rectangular, or their second words stood in the buffer already |
| `PmuDatas.EncodeOfDecodedData` | src/pmu/c37118.cpp:738-847 | writing the words of parsed measurements gives their bytes again under the same exact condition |
| `DataGenerator.PutPhasor` | src/pmu/c37118.cpp:748-802 | the words of a phasor in each format in place; of an integer rectangular one only the first word is stored |
| `DataGenerator.GetExpectedDataPacketLength` | src/pmu/c37118.cpp:345-362 | the expected size of a data frame |
| `DataGenerator.GeneratePmuDataFrame` | src/pmu/c37118.cpp:738-847 | the words of one PMU's measurements at an offset are their encoding over what stood there, of the expected size |
| `DataGenerator.AddTimeQuality` | src/pmu/c37118.cpp:42-51 | SOC, and FRACSEC as the time quality above the low 24 bits of the count |
| `DataGenerator.GenerateDataFrame` | src/pmu/c37118.cpp:849-868 | the whole buffer after a data frame was generated, and the size returned; nothing when the buffer is too short |
| `DataGenerator.DataSizeAgrees` | src/pmu/c37118.cpp:345-362 | the expected size is the size written exactly when the frame has measurements for every PMU |
| `DataParser.ParsePmuData` | src/pmu/c37118.cpp:364-475 | the loops read exactly the words of one PMU's measurements in each format |
| `DataParser.ParseDataFrame` | src/pmu/c37118.cpp:477-512 | the parser of data frames, with an ID mismatch noted but read on, a size mismatch refused, and every read inside the buffer |
| `DataFrames.ParseOfGeneratedData` | src/pmu/c37118.cpp:477-512 | reading a generated data frame gives the words it carries, for every configuration and format |
| `DataLayouts.PhasorSays` | src/pmu/c37118.cpp:364-428 | where the two words of the i-th phasor are read, of four bytes each or of two |
| `DataLayouts.FrequencySays` | src/pmu/c37118.cpp:430-447 | frequency and its rate of change are read behind the phasors |
| `DataLayouts.AnalogSays` | src/pmu/c37118.cpp:449-466 | where the i-th analog value is read |
| `DataLayouts.DigitalSays` | src/pmu/c37118.cpp:467-474 | where the i-th digital word is read |
| `DataLayouts.PhasorCarried` | src/pmu/c37118.cpp:748-802 | of a phasor that is written: both words, by 16 bits in integer format, but for the second word of an integer rectangular one, which is what stood there |
| `DataLayouts.FrameSays` | src/pmu/c37118.cpp:477-500 | where IDCODE, SOC, time quality and fraction of a data frame are read |
| `DataLayouts.PmuSays` | src/pmu/c37118.cpp:507-510 | the measurements of each PMU are read behind those before them |
| `DataLayouts.StartWritten` | src/pmu/c37118.cpp:514-525 | a data frame starts with 0xAA and 0x01, says its size and IDCODE, leaves no residue, and touches nothing behind it |
| `DataLayouts.TimeWritten` | src/pmu/c37118.cpp:42-51 | where SOC, time quality and the low 24 bits of the fraction are written |
| `DataLayouts.PmuWritten` | src/pmu/c37118.cpp:738-868 | the measurements of each PMU are written behind those before them, over what stood there |
| `DataFrames.WordsRoundTrip` | src/pmu/c37118.cpp:849-868 | the words of a frame without integer rectangular phasors are read back, whatever the buffer held, and nothing is parsed when the buffer size does not let SYNC be written and none stood there |
| `DataFrames.RegeneratedWords` | src/pmu/c37118.cpp:477-512 | writing the words of a parsed data frame gives its original bytes exactly when version, IDCODE and size are the ones generated and unstored second words stand in the buffer |
| `Doubles.RescaledIs` | src/pmu/c37118.cpp:432-447 | for all 32-bit counts and scales: a count divided by its scale into a double, multiplied again and truncated comes back exactly when the remainder of the division rounds up or is small enough, and comes back as one less otherwise |
| `DataNumbers.LostInRescaling` | src/pmu/c37118.cpp:805-811 | numbers that do not come back: frequency words 1001 and -1001 in integer format, and 249 microseconds |
| `DataNumbers.SignallingAre` | src/pmu/c37118.cpp:738-847 | which 32-bit words change on the way through double: those of signalling NaNs, 7F800001 to 7FBFFFFF and with the sign, which get one bit set |
| `DataNumbers.ResentThousandths` | src/pmu/c37118.cpp:432-447 | an integer frequency word read as thousandths and written again is the same word exactly when its magnitude survives |
| `DataNumbers.ResentIsSame` | src/pmu/c37118.cpp:738-847 | with rectangular float phasors or none: which measurements are written with the words they were read from, namely those without a signalling NaN among the floats and with surviving frequencies |
| `DataNumbers.DataRoundTrip` | src/pmu/c37118.cpp:849-868 | with rectangular float phasors, any frequency, analog and digital format: a frame that was read comes back whole, whatever the buffer held, exactly when all its numbers survive, the fraction of a second included |
| `DataNumbers.RegeneratedData` | src/pmu/c37118.cpp:477-512 | and writing a parsed frame gives its original bytes exactly when version, IDCODE and size are the ones generated and all its numbers survive |
| `Wire.Put` | src/pmu/c37118.cpp:34-40 | `memcpy` at an offset replaces those bytes and no others |
| `Wire.WordsInWords` | src/pmu/c37118.cpp:34-51 | big-endian: words of three and four bytes by the words of two bytes in them |
| `Wire.ChunksOfFlat` | src/pmu/c37118.cpp:161-189 | fixed-width items written in a row are read back |
| `Rows.PartsOfFlat` | src/pmu/c37118.cpp:507-510 | items of different sizes written in a row are read back |
| `TcpConnections.RunConserves` | src/pmu/TcpHelperClasses.cpp:89-131 | over any run of reads with any callbacks, the bytes used followed by those left over are the bytes delivered, and what is left over fits the buffer |
| `TcpConnections.StepConserves` | src/pmu/TcpHelperClasses.cpp:89-131 | one read keeps this, and the callback is shown exactly the unused part of the stream |
| `TcpConnections.DroppedLast` | src/pmu/TcpHelperClasses.cpp:89-131 | bytes can be dropped only by the last read of a run, when halted or aborted |
| `TcpConnections.RunUses` | src/pmu/TcpHelperClasses.cpp:89-131 | over any run, as many bytes are used as the callbacks returned in sum, each answer capped at what the callback was shown |
| `TcpConnections.RunTakesAll` | src/pmu/TcpHelperClasses.cpp:89-131 | over any run all bytes read are taken in, in order, but for those of a last read that was halted or aborted |
| `TcpConnections.RunGoesOn` | src/pmu/TcpHelperClasses.cpp:22-151 | the next read is under way exactly when no read of the run saw the halt flag or was aborted, and each that failed had a callback asking to go on |
| `TcpConnections.TcpConnection.MoveToFront` | src/pmu/TcpHelperClasses.cpp:100-104 | the overlapping copy moves what is left over to the front intact |
| `TcpConnections.TcpConnection.StartReceive` | src/pmu/TcpHelperClasses.cpp:22-58 | when a read is started, and the state it leaves |
| `TcpConnections.TcpConnection.HandleRead` | src/pmu/TcpHelperClasses.cpp:89-151 | one read through the normal, aborted, failed and halted paths is one step of the stream, whose use of bytes `RunUses` counts, and the buffer is cleared only after a full use without error |
| `TcpConnections.TcpConnection.HandleReads` | src/pmu/TcpHelperClasses.cpp:89-151 | a whole run in the buffer is the run of the stream |

## Left out

- ConfigGenerator.GenerateConfig1: requires a predicted size below 65536, beyond which the 16-bit counters of the source wrap and the buffer is overrun.
- ConfigGenerator.GenerateConfig2: the same bound.
- DataGenerator.GenerateDataFrame: requires an expected size below 65536, for the same reason, and measurements for no more PMUs than the configuration has, which the source indexes without a check.
- ConfigGenerator.GeneratePmuConfig: the same bound for one PMU.
- ConfigGenerator.GenerateConfig: the same bound.
- CommonFrames.ParseCommonFrame: requires the bytes the source looks at before it refuses, and of a frame that passes the checksum the 14 common bytes, and of one that is all there a declared size of 2 or more, below which the source reads outside the buffer.
- ConfigParser.ParseConfigFrame: requires that the PMUs announced lie in the buffer, which the source does not check.
- RuleTables.RuleTable.SplitOverlaps: sortedness is stated of the table before single-year rules get fixed days, since it can fail after; `RuleMoments.CanonicalKeepsOrder` says when it holds.
- MonthDayTimes.CompareOrdersInstants: comparing does not always follow the instants, so it is stated with the exact condition.
- DataFrames.WordsRoundTrip: states the layout of words, not the numbers they are turned into; `DataNumbers.DataRoundTrip` does.
- DataFrames.RegeneratedWords: the same; see `DataNumbers.RegeneratedData`.
- DataFrames.ParseOfGeneratedData: the same.
- PmuDatas.DecodeOfEncodedData: the same.
- PmuDatas.CarriedDataWhole: the same.
- PmuDatas.EncodeOfDecodedData: the same.
- DataGenerator.PutPhasor: takes words; the conversion of a phasor to them is not part of this model for integer and polar formats.
- DataGenerator.GeneratePmuDataFrame: takes words, for the same reason; `DataNumbers.Resent` gives those of the other numbers.
- DataGenerator.AddTimeQuality: takes the count; `DataNumbers.ResentFraction` gives it.
- DataParser.ParsePmuData: gives words, for the same reason.
- DataNumbers.DataRoundTrip: not for integer or polar phasors, whose factors of 1e-5 and library functions round several times, nor for a time base of 0, for which the source converts a NaN; doubles are those a frame was read into, and arithmetic is binary64 without extended precision.
- DataNumbers.RegeneratedData: the same.
- RuleMoments.CanonicalKeepsOrder: not for rules that leave their year or fixed days that do not exist, whose month and day say nothing about their resolved day.
- RuleLookups.FindRuleForZone: the lookup is not right for every block, so it is stated with its condition; `RuleLookups.FallIsMissed` is the converse.
- RuleLookups.FindRuleAt: the same.
- The trimming of rules to the configured first and last year in `split_overlaps`: with the configured years it removes nothing.
- Rules and month-day times are values inside the rule vector; aliasing between them is not modelled.
- `std::sort` and `std::upper_bound` are modelled by their contracts.
- `get_info`, the reading of the time-zone database, and everything that formats or parses dates.
- Command, header and extended frames, `generateTimeCodes`, and configuration frame 3, which the source does not implement.
- The JSON configuration, the PMU source classes, acceptors and servers: sockets, threads and futures.
- Atomics and trigger variables of the connection: what the halt flag shows is an input of each read, and closing from another thread is not modelled.
