# Verified models of the algorithmic cores of SubConverter-Extended

This project models the parts of the repository that compute something hard, and proves what they are for:

- **POSIX time zones** (`include/date/ptz.h`): the parser and printer of TZ strings and the mapping between UTC
  instants and wall-clock times, on top of the Gregorian calendar of `include/date/date.h`.
  `Gregorian` → `ZoneSchedule` (lookups over the yearly transitions) → `ZoneLocalTime` (local times) → `PosixZone`
  (rules and zones) → `PosixText` (strings) → `PosixReader` (the loops that read them). `ZoneRecords` says what the
  records of a zone hold, in the terms of its fields and rules; `PosixGrammar` says which strings denote which zone.
- **The inja template front end** (`include/inja.hpp`): tokens and trees in `InjaSyntax`; the shunting-yard
  expression parser in `InjaExpression`, its round trip in `InjaExpressionProof`, its grouping rules in
  `InjaOperatorOrder` and, by the names of the operators, in `InjaPrecedence`, why printing needs its parentheses in `InjaGrouping` and which sequences are accepted at all in
  `InjaAcceptance`; the statement parser with its cursor and its stacks in `InjaStatements`, its round trip in
  `InjaTemplateProof` and `InjaTemplateMemory`, when its cursor is right for any tokens in `InjaNesting` and when its
  memory holds a tree in `InjaNestedTree`; the lexer in `InjaLexer`, with what holds of every run in `InjaLexerProof`
  and what white space each scan takes in `InjaWhitespace`; the objects `Parser` and `Lexer` as they run in
  `InjaParser` and `InjaScanner`; the way from source text to tree in `InjaSourceText` and `InjaWritable`, and what
  the two meanings of a minus sign shut out in `InjaMinusSign` and `InjaMinusExact`.
- **Week dates and the Islamic calendar** (`include/date/iso_week.h`, `include/date/islamic.h`): `IsoWeek`, `Islamic`,
  with the weekday arithmetic that they have in common in `Weekdays`, and one day of each calendar in
  `CalendarEpochs`.
- **Global regex match and replace** (`include/jpcre2.hpp`): the search loop over an engine that is known only by a
  contract in `RegexSearch` and `RegexSearchProof`, the object and the splice in `RegexEvaluator`.
- **The field collector of the validation generator** (`scripts/generate_proxy_validation.go`): `FieldCollector`,
  `FieldCollectorProof`, `FieldRules`, `StructTag`.
- **The subscription bridge** (`bridge/mieru.go`, `bridge/preprocess.go`): links as they are printed and read in
  `UrlText` and `MieruLink`, configurations in `MieruProjection` and, with what a link tells
  its reader, in `MieruContent`, Base64 in `LooseBase64`, `LooseBase64Exact` and
  `StrictBase64`, subscriptions in `MieruExpansion` and
  `MieruStandard`, legacy links in `LegacyVmess` and `LegacyContent`; over `GoStrings` and `Decimals`.

`CppArithmetic` spells out C++ division and unsigned conversion, which differ from Dafny's; `Sequences` holds what the
string and token readers share.

Code that the source writes as expressions is a function here. Code that moves a cursor or fills fields is a method
or a class with the same fields, proved equal to a specification function; the theorems are about that function. In
the parser, nodes live in a `Memory`: statements have addresses in order of allocation, and the cursor
`current_block` is a `BlockRef`.

## What turned out to be conditional

- The lookup of an instant (`ptz.h:437-517`) is right for every instant exactly when the zone is northern or no
  transition of a year leaves it (`ZoneSchedule.SpillFreeIsExact`); `PosixZone.SpillingZoneFails` has a zone where it is
  not, every year.
- The lookup of a local time (`ptz.h:519-591`) is right for every local time exactly when each window of skipped or
  repeated times lies in the year of its transition (`ZoneLocalTime.WindowsAreExact`); `PosixZone.LateZoneFails` has a
  zone where it is not, every year.
- The stacks for if and for statements are independent, so statements that cross one another are accepted. For all
  tokens, and as far as they are accepted, the cursor has been in the current branch of the innermost open statement,
  and every open statement in that of the one around it, exactly as long as a single stack would have accepted the
  statements (`InjaNesting.CursorFollowsNesting`). A nested template ends with the cursor at the root. One that is not
  nested may leave it in an if that is closed (`InjaTemplateMemory.CrossingIsAccepted`), or may bring it back to the
  root by accident (`InjaTemplateMemory.CrossingMayReturn`).
- A nested template that is accepted leaves a tree in the memory exactly if every expression is there and no else-if
  comes after an else under which something stands (`InjaNestedTree.HoldsTreeExactly`). Two else branches are accepted
  and are one (`InjaNestedTree.TwoElsesAreOne`); an else-if after an else is accepted and leaves no tree
  (`InjaNestedTree.NoTreeAfterElse`).
- The expression parser does not ask for operators between operands. Which sequences of operands and operators it
  accepts is decided by their numbers, exactly (`InjaAcceptance.AcceptedExactly`): `a b +` and `+ a b` are read like
  `a + b`, and `a + b * not c` like `a * b + not c` (`InjaAcceptance.NotMovesOperator`). Operands with binary operators
  between them are always accepted, and read as the tree that is printed so (`InjaGrouping.AlternatingReads`).
- Whether `-` is an operator depends on the last symbol before it, even across delimiters, and a string or a negative
  number does not count as an operand (`InjaLexerProof.MinusMeaning`). So after `{{ a }}` the text `{{ -1 }}` is a
  subtraction from nothing (`InjaMinusSign.NegativeAfterNameIsSubtraction`), and `"a" - 1` is not a subtraction
  (`InjaMinusSign.StringMinusIsNoSubtraction`). Which templates cannot be written for that reason, in any source text,
  is decided exactly (`InjaMinusExact.WritableExactly`).
- With match options of the caller, the search for all matches asks the engine to start after the end of the subject
  and reports an error, exactly if there is a match and the pattern does not match at the end of the subject
  (`RegexSearchProof.CallerOptionsOverrun`).
- A match that starts between CR and LF is missed exactly if an empty match was found just before the CR and no other
  match starts there (`RegexSearchProof.SearchComplete`); `RegexSearchProof.SearchMisses` has such an engine.
- Expanding a subscription a second time changes nothing exactly if what the first time leaves does not decode, as
  Base64, to a text with standard links (`MieruStandard.SubscriptionTwice`). It can
  (`MieruStandard.HiddenSubscription`): an empty link may stand before a line that hides a whole subscription.

## Model

| member | source | states |
|---|---|---|
| Gregorian.DaysRoundTrip | SubConverter-Extended/include/date/date.h:3087-3103 | every day count gives a valid date that converts back to it, with division that truncates as written |
| Gregorian.DateRoundTrip | SubConverter-Extended/include/date/date.h:2973-2987 | every valid date survives the way through its day count |
| Gregorian.DateOrder | SubConverter-Extended/include/date/date.h:2973-2987 | dates and day counts have the same order |
| Gregorian.YearOfDay | SubConverter-Extended/include/date/date.h:3087-3103 | the year of a day is the one whose 1 January it has reached and whose successor's it has not |
| Gregorian.WeekdayFromDaysFloors | SubConverter-Extended/include/date/date.h:1823-1827 | the unsigned weekday formula is the floor remainder, for negative day counts too |
| Gregorian.NthWeekdayInMonth | SubConverter-Extended/include/date/date.h:3287-3292 | the n-th weekday has that weekday and lies in the n-th seven days of its month |
| Gregorian.LastWeekdayInMonth | SubConverter-Extended/include/date/date.h:3469-3473 | the last weekday has that weekday and lies in the month's final seven days |
| ZoneSchedule.InfoIsExact | SubConverter-Extended/include/date/ptz.h:437-517 | the record of an instant is the half-open stretch between the transitions around it, with the rule in force there, if and only if no southern standard period spills into the neighbouring UTC year at that instant |
| ZoneRecords.InfoNames | SubConverter-Extended/include/date/ptz.h:437-517 | unless its stretch has spilled, the record of an instant in daylight saving time has the offset plus the save, the save in minutes rounded up and the daylight abbreviation, and otherwise the offset, no save and the standard abbreviation |
| ZoneRecords.SpilledInfo | SubConverter-Extended/include/date/ptz.h:456-460 | a spilled instant gets the record of the stretch of daylight saving before or after it, with no transition between |
| ZoneSchedule.SpillFreeIsExact | SubConverter-Extended/include/date/ptz.h:456-460 | the lookup is right for all instants exactly for northern schedules and those whose transitions stay in their year |
| ZoneSchedule.SameInfo | SubConverter-Extended/include/date/ptz.h:437-517 | two instants get the same record exactly when no transition separates them |
| ZoneSchedule.NextInfo | SubConverter-Extended/include/date/ptz.h:437-517 | records tile the time line: the one found at the end of a record begins there |
| ZoneLocalTime.ClassificationIsExact | SubConverter-Extended/include/date/ptz.h:519-591 | a local time is called nonexistent, unique or ambiguous as 0, 1 or 2 instants show it, if and only if no transition of another year decides about it; for either sign of the save |
| ZoneLocalTime.ResultCountsInstants | SubConverter-Extended/include/date/ptz.h:519-591 | in well-formed schedules the answer is the number of instants that to_local shows as this local time: 0, 1 or 2 |
| ZoneLocalTime.WindowsAreExact | SubConverter-Extended/include/date/ptz.h:519-591 | all local times are classified rightly exactly when every window lies in its year |
| ZoneLocalTime.UniqueRecord | SubConverter-Extended/include/date/ptz.h:585-590 | the record of a unique local time is the one of its only instant |
| ZoneLocalTime.CrossingRecords | SubConverter-Extended/include/date/ptz.h:519-591 | otherwise the two records meet at the transition, are those of the instants just before and at it, and the sign of the change says which case it is |
| ZoneRecords.LocalInfoNames | SubConverter-Extended/include/date/ptz.h:519-591 | of the two records of a skipped or repeated local time one names daylight saving and the other standard time, in the order of the change |
| ZoneRecords.UniqueInfoNames | SubConverter-Extended/include/date/ptz.h:585-590 | the record of a unique local time names the rule in force at its instant, and the second record is empty |
| ZoneRecords.ForeignIsUnique | SubConverter-Extended/include/date/ptz.h:519-591 | where the classification is wrong the local time is taken for a unique one in standard time |
| ZoneRecords.ToSysExact | SubConverter-Extended/include/date/ptz.h:593-607 | converting a local time gives its only instant, or the error for no or for two instants, which carries the records |
| ZoneLocalTime.InstantRoundTrip | SubConverter-Extended/include/date/ptz.h:593-638 | the clock reading of an instant is never nonexistent, and converts back to it, or to it and one other instant |
| ZoneLocalTime.AmbiguousChoices | SubConverter-Extended/include/date/ptz.h:609-627 | the choices of an ambiguous local time are exactly its two instants, the earlier one first |
| ZoneLocalTime.NonexistentChoice | SubConverter-Extended/include/date/ptz.h:609-627 | a skipped local time is taken to the transition whose change jumps over it |
| PosixZone.RuleDay | SubConverter-Extended/include/date/ptz.h:137-163 | the day of every valid rule lies in its year, but that day 365 of a common year is the next 1 January |
| PosixZone.RuleBounds | SubConverter-Extended/include/date/ptz.h:289-336 | a rule takes effect between the start of its year and 25 hours after its end |
| ZoneRecords.RuleDayExact | SubConverter-Extended/include/date/ptz.h:137-163 | for every valid rule and year: the n-th weekday lies in the n-th seven days of the month and the fifth in its last seven, J skips 29 February, the other days count from 1 January, and the time of day is added |
| ZoneRecords.ZoneInfoExact | SubConverter-Extended/include/date/ptz.h:437-517 | in a well-formed zone with rules the record of an instant reaches from the last change of rule to the next, the starting rule read in standard time and the ending rule in daylight saving time, and names the rule in force |
| ZoneRecords.ZoneLocalExact | SubConverter-Extended/include/date/ptz.h:519-607 | in such a zone the records of a local time are those of its only instant, or of the instants on both sides of a change, and converting it gives that instant or the error for none or for two |
| ZoneRecords.ConstantZone | SubConverter-Extended/include/date/ptz.h:342-370 | a zone without rules has one record for all the years that the calendar counts, named after the abbreviation that it has |
| PosixZone.ScheduleKeepsCalendar | SubConverter-Extended/include/date/ptz.h:289-336 | the transitions of every constructible zone keep within days of their year, which is what the lookups rest on |
| PosixZone.ZoneRoundTrip | SubConverter-Extended/include/date/ptz.h:593-638 | in every well-formed zone, with rules or constant, an instant comes back from its reading: uniquely if no other instant shows it, else as one of two ordered choices |
| PosixZone.UsualIsWellFormed | SubConverter-Extended/include/date/ptz.h:372-435 | zones with month rules well inside the year are well-formed, in both hemispheres and with either sign of the save |
| PosixZone.SpillingZoneFails | SubConverter-Extended/include/date/ptz.h:456-460 | a constructible zone for which the record of an instant ends before that instant, every year |
| PosixZone.LateZoneFails | SubConverter-Extended/include/date/ptz.h:519-591 | a constructible zone in which a local time that occurs twice is reported as unique, every year |
| PosixText.ParsedIsValid | SubConverter-Extended/include/date/ptz.h:372-435 | every accepted string gives fields in their ranges |
| PosixText.NameRoundTrip | SubConverter-Extended/include/date/ptz.h:651-708 | the name of every valid zone is accepted and gives back all its fields: rule times, save, bracketed names, constant zones |
| PosixText.ConstructorRoundTrip | SubConverter-Extended/include/date/ptz.h:372-435 | for every accepted string, constructing again from the name gives a zone equal in all fields |
| PosixText.ConstructedZones | SubConverter-Extended/include/date/ptz.h:372-435 | the constructor builds exactly the valid zones |
| PosixText.DecimalReads | SubConverter-Extended/include/date/ptz.h:896-908 | a printed number is read back up to its last digit, within the digit limit |
| PosixGrammar.ParsedExactly | SubConverter-Extended/include/date/ptz.h:372-435 | a zone is built from a string if and only if the string says so: names, signed offsets with a plus, a minus or no sign, rules and times, one after the other, with all defaults |
| PosixGrammar.SignedReads | SubConverter-Extended/include/date/ptz.h:842-861 | a plus sign changes nothing and a minus sign negates |
| PosixGrammar.RuleReads | SubConverter-Extended/include/date/ptz.h:745-808 | a rule is read if and only if one of the three kinds of day stands there in its range, with a time after a slash or two o'clock |
| PosixGrammar.TimeErrors | SubConverter-Extended/include/date/ptz.h:863-894 | a missing part of a time is reported where it should stand, one out of range at its last digit |
| PosixGrammar.MonthErrors | SubConverter-Extended/include/date/ptz.h:762-775 | the same for a month and what follows it |
| PosixGrammar.WeekdayErrors | SubConverter-Extended/include/date/ptz.h:775-788 | the same for week and weekday |
| PosixGrammar.CommaErrors | SubConverter-Extended/include/date/ptz.h:372-435 | a missing comma before a rule, and text after the second rule, are reported where they stand |
| PosixGrammar.NameIs | SubConverter-Extended/include/date/ptz.h:651-708 | a name is printed in one way: no daylight saving without its abbreviation, no offset for it if it is an hour ahead, no rules if there are none |
| PosixGrammar.OffsetIs | SubConverter-Extended/include/date/ptz.h:669-690 | an offset is printed west of Greenwich, never with a plus, hours without needless zeros, minutes and seconds with two digits and only if they are needed |
| PosixGrammar.AbbrevIs | SubConverter-Extended/include/date/ptz.h:657-668 | an abbreviation stands in brackets exactly if it holds anything but letters |
| PosixGrammar.RuleIs | SubConverter-Extended/include/date/ptz.h:170-223 | a rule is printed with plain numbers, and with its time exactly if that is not two o'clock |
| PosixReader.ReadUnsignedLoop | SubConverter-Extended/include/date/ptz.h:896-908 | the digit loop computes what the recursive reader says, position and error included |
| PosixReader.ReadNameLoop | SubConverter-Extended/include/date/ptz.h:810-840 | the same for plain and bracketed names |
| PosixReader.ReadUnsignedTimeAt | SubConverter-Extended/include/date/ptz.h:863-894 | the same for hours, minutes and seconds |
| PosixReader.ReadSignedTimeAt | SubConverter-Extended/include/date/ptz.h:842-861 | the same for a signed time |
| PosixReader.ReadDateAt | SubConverter-Extended/include/date/ptz.h:745-808 | the same for the three kinds of date rule |
| PosixReader.Construct | SubConverter-Extended/include/date/ptz.h:372-435 | the constructor as it moves its cursor, with all its error exits |
| CalendarEpochs.UnixEpoch | SubConverter-Extended/include/date/date.h:2973-2987 | day 0 is Thursday, 1 January 1970 |
| CalendarEpochs.IslamicEpoch | SubConverter-Extended/include/date/islamic.h:2139-2156 | the first day of the Islamic calendar is 19 July 622 of the Gregorian one |
| CalendarEpochs.WeekEpoch | SubConverter-Extended/include/date/iso_week.h:1486-1500 | day 0 is the fourth day of week 1 of 1970 |
| IsoWeek.DaysRoundTrip | SubConverter-Extended/include/date/iso_week.h:1509-1527 | every day gives a valid week date that converts back to it |
| IsoWeek.WeekDateRoundTrip | SubConverter-Extended/include/date/iso_week.h:1486-1500 | every valid week date survives the way through its day |
| IsoWeek.OneCorrection | SubConverter-Extended/include/date/iso_week.h:1513-1523 | the single correction of the Gregorian year always finds the week year |
| IsoWeek.OrderIsDayOrder | SubConverter-Extended/include/date/iso_week.h:1545-1555 | the order of week dates is the order of days |
| IsoWeek.YearLength | SubConverter-Extended/include/date/iso_week.h:604-613 | a week year is 371 days long exactly when it is a leap year, and has seven times as many days as weeks |
| IsoWeek.FirstThursday | SubConverter-Extended/include/date/iso_week.h:1486-1492 | week 1 holds the first Thursday of the Gregorian year |
| IsoWeek.LastWeekIsNumbered | SubConverter-Extended/include/date/iso_week.h:1328-1342 | a day of the last week is the day of the same weekday in the week with that number |
| IsoWeek.WeekdayPlusDays | SubConverter-Extended/include/date/iso_week.h:527-541 | adding days to a weekday, in unsigned arithmetic, follows the calendar in both directions |
| Islamic.DaysRoundTrip | SubConverter-Extended/include/date/islamic.h:2249-2267 | every day gives a valid date that converts back to it |
| Islamic.DateRoundTrip | SubConverter-Extended/include/date/islamic.h:2139-2156 | every valid date survives the way through its day |
| Islamic.OrderIsDayOrder | SubConverter-Extended/include/date/islamic.h:2198-2208 | the order of dates is the order of days |
| Islamic.YearLength | SubConverter-Extended/include/date/islamic.h:1049-1074 | a year has 355 days exactly when the list of leap years has it, and 354 otherwise |
| Islamic.YearOfEraExact | SubConverter-Extended/include/date/islamic.h:2249-2267 | the quotient formula for the year of the era is exact on every day of every year |
| Islamic.WeekdayDateRoundTrip | SubConverter-Extended/include/date/islamic.h:2431-2450 | every day comes back from its month, weekday and index, which are valid |
| Islamic.WeekdayDateReverse | SubConverter-Extended/include/date/islamic.h:2431-2450 | every valid weekday date comes back from its day |
| Islamic.WeekdayDateOkIsInMonth | SubConverter-Extended/include/date/islamic.h:2418-2429 | for a valid month and weekday and an index from 1, `ok` holds exactly when the day lies in the month |
| Islamic.LastWeekdayIsGreatest | SubConverter-Extended/include/date/islamic.h:2615-2622 | the last weekday of a month is its greatest day with that weekday |
| InjaExpressionProof.ExpressionRoundTrip | SubConverter-Extended/include/inja.hpp:1603-1870 | every tree of literals, variables, calls, binary operators and `not`, printed with parentheses only where the stacks need them, is parsed as itself, and all tokens are read |
| InjaExpressionProof.ReadsClosed | SubConverter-Extended/include/inja.hpp:1603-1870 | the same inside a longer token sequence, up to the token that ends the expression |
| InjaExpressionProof.AddRoot | SubConverter-Extended/include/inja.hpp:1532-1545 | once its operands are on the stack, applying an operator gives the operation with its operands in order |
| InjaExpressionProof.ReduceSpine | SubConverter-Extended/include/inja.hpp:1603-1870 | the operators that wait for a printed tree are applied from the top, and rebuild it |
| InjaOperatorOrder.ChainNests | SubConverter-Extended/include/inja.hpp:1778-1787 | the loop that makes room: for all pairs of binary operators the first is applied before the second if its number in the table is higher, or equal and the second is not a power |
| InjaPrecedence.Groups | SubConverter-Extended/include/inja.hpp:527-619 | by name: logical, relational, additive, multiplicative, power, dot, from the loosest to the tightest; the tighter operator takes the middle operand, of two of one family the first, of two powers the second |
| InjaPrecedence.NotBefore | SubConverter-Extended/include/inja.hpp:527-533 | a `not` before an operation takes its first operand, but before a power or a dot all of it |
| InjaPrecedence.NotAfter | SubConverter-Extended/include/inja.hpp:1778-1787 | after a logical, relational or additive operator a `not` takes the second operand; after the others it is an error |
| InjaPrecedence.NotNot | SubConverter-Extended/include/inja.hpp:1778-1787 | two `not` in a row are an error |
| InjaPrecedence.SignsRead | SubConverter-Extended/include/inja.hpp:1713-1775 | an operand, one of the sixteen signs and words, and an operand are read as the operation of that name |
| InjaPrecedence.OperandsRead | SubConverter-Extended/include/inja.hpp:1621-1702 | numbers, strings and three names are read as literals, and every name that is no word of an operator as data |
| InjaOperatorOrder.PipeTakesLastOperand | SubConverter-Extended/include/inja.hpp:1811-1849 | a pipe after any expression makes a call of its last operand only, so it binds more strongly than all operators |
| InjaGrouping.AlternatingReads | SubConverter-Extended/include/inja.hpp:1603-1870 | operands with a binary operator between any two are always accepted and read as a tree that prints as these tokens |
| InjaGrouping.LeftParensNeeded | SubConverter-Extended/include/inja.hpp:1778-1787 | a left operand that is printed in parentheses needs them: the same tokens without this pair are read as another tree, which is given |
| InjaGrouping.RightParensNeeded | SubConverter-Extended/include/inja.hpp:1778-1787 | the same after an operator, `not` included: another tree is read, or the tokens are rejected because a `not` comes too early |
| InjaAcceptance.AcceptedExactly | SubConverter-Extended/include/inja.hpp:1603-1870 | for all sequences of operands and operators in any order: they are accepted, and read to the end, if and only if there is one operand more than operators of two and there are enough operands wherever an operator makes others apply |
| InjaAcceptance.AfterBoth | SubConverter-Extended/include/inja.hpp:1532-1545 | an operator after its two operands is read as if it stood between them |
| InjaAcceptance.BeforeBoth | SubConverter-Extended/include/inja.hpp:1532-1545 | an operator before its two operands is read as if it stood between them |
| InjaAcceptance.NotMovesOperator | SubConverter-Extended/include/inja.hpp:1778-1787 | a `not` after a product applies the product to what stands before it |
| InjaTemplateProof.CloseIfBalances | SubConverter-Extended/include/inja.hpp:1913-1927 | one endif pops the whole else-if chain and restores the cursor and both stacks as they were before the if |
| InjaTemplateProof.ReadsBlock | SubConverter-Extended/include/inja.hpp:2058-2118 | the parser reads any printed block, wherever it stands, and changes its memory as the tree says |
| InjaTemplateMemory.TemplateRoundTrip | SubConverter-Extended/include/inja.hpp:1872-2011 | the printed tokens of every tree of text, output, set, if / else-if / else and for parse to a memory that holds this tree; at the end both stacks are empty and the cursor is at the root |
| InjaTemplateMemory.BlockBuilt | SubConverter-Extended/include/inja.hpp:1872-2011 | building a block adds its statements to the current block, with right parents and flags, and touches nothing else that is allocated |
| InjaTemplateMemory.SameNodes | SubConverter-Extended/include/inja.hpp:1872-2011 | a memory holds at most one tree; an else-if is not an else branch with an if in it |
| InjaTemplateMemory.PrintingIsInjective | SubConverter-Extended/include/inja.hpp:2058-2118 | two templates with the same tokens are the same |
| InjaTemplateMemory.CrossingIsAccepted | SubConverter-Extended/include/inja.hpp:1913-1927 | one if and one for that cross are accepted, with both stacks empty and the cursor in the true branch of the closed if |
| InjaTemplateMemory.CrossingMayReturn | SubConverter-Extended/include/inja.hpp:1913-1927 | the same inside another for: accepted, and the cursor is at the root again |
| InjaNesting.CursorFollowsNesting | SubConverter-Extended/include/inja.hpp:1872-2011 | for all tokens and every number of accepted items, none of them a `block`: the cursor stood in the current branch of the innermost open statement, each in that of the one around it, in every turn so far, if and only if the items are nested by one common stack |
| InjaNesting.NestedEndsAtTop | SubConverter-Extended/include/inja.hpp:2058-2118 | every accepted template that is nested ends with the cursor at the root |
| InjaNestedTree.HoldsTreeExactly | SubConverter-Extended/include/inja.hpp:2058-2118 | for all tokens that are accepted and nested: the memory holds a tree if and only if all expressions are there and each else-if finds the else branch empty |
| InjaNestedTree.TreeIsClean | SubConverter-Extended/include/inja.hpp:1872-2011 | an accepted template whose memory holds a tree is clean in this sense, nested or not |
| InjaNestedTree.ItemChanges | SubConverter-Extended/include/inja.hpp:2058-2118 | every accepted item changes the memory by the one change that its tokens name |
| InjaNestedTree.RunLinked | SubConverter-Extended/include/inja.hpp:1872-2011 | after every accepted run each statement has its node in the block it stands in, and what spoils a tree stays |
| InjaNestedTree.TwoElsesAreOne | SubConverter-Extended/include/inja.hpp:1890-1899 | an if with two else branches is accepted and holds the tree with both in one |
| InjaNestedTree.NoTreeAfterElse | SubConverter-Extended/include/inja.hpp:1890-1911 | an else-if after an else with text is accepted and holds no tree |
| InjaParser.Parser.ApplyOperator | SubConverter-Extended/include/inja.hpp:1532-1545 | the loop that pops arguments does what the two-stack step says |
| InjaParser.Parser.PushOperator | SubConverter-Extended/include/inja.hpp:1778-1787 | operators that give way are applied before the new one is pushed |
| InjaParser.Parser.ParseExpr | SubConverter-Extended/include/inja.hpp:1603-1870 | the loop over tokens with its two local stacks gives the tree, position or error that the expression parser defines |
| InjaParser.Parser.CloseIfStatement | SubConverter-Extended/include/inja.hpp:1913-1927 | the loop pops nested ifs and never empties the stack too early |
| InjaParser.Parser.ParseStmt | SubConverter-Extended/include/inja.hpp:1872-2011 | a statement changes the fields as specified, with nodes added before their condition is read and filled in after |
| InjaParser.Parser.ParseTemplate | SubConverter-Extended/include/inja.hpp:2058-2118 | the main loop ends, and leaves the memory or the error that the statement parser defines |
| InjaLexerProof.ScanIsGood | SubConverter-Extended/include/inja.hpp:1327-1460 | each scan moves on, its token lies between the old and the new position, and only blanks are left out |
| InjaLexerProof.EofStays | SubConverter-Extended/include/inja.hpp:1327-1334 | once the end is reported it is reported for ever |
| InjaLexerProof.LexemesOrdered | SubConverter-Extended/include/inja.hpp:1327-1460 | every input and every setting reaches the end in at most one scan more than there are characters; spans are ordered and disjoint |
| InjaLexerProof.OnlyBlanksAreDropped | SubConverter-Extended/include/inja.hpp:1264-1305 | every character outside the spans is white space, so whitespace control deletes nothing else |
| InjaLexerProof.TextStopsAtFirstOpen | SubConverter-Extended/include/inja.hpp:1337-1391 | a text token runs up to the first opening delimiter, less the blanks stripped before it |
| InjaLexerProof.MinusMeaning | SubConverter-Extended/include/inja.hpp:1115-1134 | in every run a minus sign is an operator exactly when the last symbol before it, anywhere, ends an operand |
| InjaWhitespace.TextScan | SubConverter-Extended/include/inja.hpp:1337-1424 | for every input and setting: which opener follows a text, and that the text ends there, or before the spaces of its last line if that line holds nothing else and the opener strips, by its spelling or by lstrip_blocks; the opener's token and the body that follows |
| InjaWhitespace.StatementScan | SubConverter-Extended/include/inja.hpp:1436-1437 | the token at which a statement closes takes all white space if it is spelled with the trimming delimiter, else the rest of its line if trim_blocks is set, else nothing; every other token of the body starts at the first character that is not skipped |
| InjaWhitespace.ExpressionScan | SubConverter-Extended/include/inja.hpp:1432-1433 | the same for an expression, which trim_blocks does not touch |
| InjaWhitespace.LineScan | SubConverter-Extended/include/inja.hpp:1434-1435 | a line statement closes at the end of its line and takes no more |
| InjaWhitespace.CommentScan | SubConverter-Extended/include/inja.hpp:1438-1460 | a comment reaches to its first closing delimiter and takes the rest of the line if trim_blocks is set or the trimming delimiter stands one character earlier |
| InjaWhitespace.TokensReach | SubConverter-Extended/include/inja.hpp:1213-1258 | names, numbers and strings reach as far as they can: which characters go on a name or a number, and that a string ends at the first quote after an even number of backslashes |
| InjaWhitespace.DefaultStrips | SubConverter-Extended/include/inja.hpp:859-874 | by default an opener strips exactly if a minus sign follows it |
| InjaScanner.SkipsNoOpen | SubConverter-Extended/include/inja.hpp:879-905 | searching for the first characters of delimiters misses no delimiter |
| InjaScanner.Lexer.FindOpen | SubConverter-Extended/include/inja.hpp:1337-1380 | the fast scan stops exactly at the first opening delimiter |
| InjaScanner.Lexer.ClearFinalLine | SubConverter-Extended/include/inja.hpp:1292-1305 | the blanks of the last line are dropped only if it holds nothing else |
| InjaScanner.Lexer.ScanString | SubConverter-Extended/include/inja.hpp:1242-1258 | a string ends after the first quote that is not escaped |
| InjaScanner.Lexer.ScanSymbol | SubConverter-Extended/include/inja.hpp:1115-1211 | the symbol, its end and the new state of the minus sign are those of the state machine |
| InjaScanner.Lexer.ScanBodyToken | SubConverter-Extended/include/inja.hpp:1078-1211 | blanks are skipped, closing delimiters are met, symbols are scanned as specified |
| InjaScanner.Lexer.ScanToken | SubConverter-Extended/include/inja.hpp:1327-1460 | one scan of the object is one step of the state machine |
| InjaScanner.MarkGoes | SubConverter-Extended/include/inja.hpp:1321-1324 | one byte order mark in front of a text goes, and nothing else |
| InjaScanner.Lexer.Start | SubConverter-Extended/include/inja.hpp:1314-1325 | a byte order mark is dropped and the machine starts anew |
| InjaSourceText.SymbolReads | SubConverter-Extended/include/inja.hpp:1115-1211 | every symbol is read as it is spelled, whole, and leaves the right state for a minus sign |
| InjaSourceText.LexerRoundTrip | SubConverter-Extended/include/inja.hpp:1327-1460 | the lexer gives back every token sequence that is written out with blanks inside delimiters |
| InjaSourceText.SourceRoundTrip | SubConverter-Extended/include/inja.hpp:2058-2118 | source text that is written from a tree is lexed and parsed to that tree |
| InjaWritable.ExpressionLexable | SubConverter-Extended/include/inja.hpp:1115-1134 | an expression can be written in front of anything that fits after it: names, numbers, strings spelled rightly, subtractions after operands, negative numbers elsewhere |
| InjaWritable.WrittenRoundTrip | SubConverter-Extended/include/inja.hpp:2058-2118 | from characters to tree: every template of this kind, negative numbers included, written as source text, is read as itself |
| InjaMinusExact.RunFits | SubConverter-Extended/include/inja.hpp:1115-1211 | in every run on every source text each subtraction comes after an operand and each negative number does not, with brackets and braces counted |
| InjaMinusExact.WritableExactly | SubConverter-Extended/include/inja.hpp:1115-1134 | a template of rightly spelled parts has some source text, whatever it is, with its tokens if and only if its minus signs fit |
| InjaMinusSign.NegativeAfterNameIsSubtraction | SubConverter-Extended/include/inja.hpp:1115-1134 | for every name and number, the number of a second output is read as a minus sign and a number |
| InjaMinusSign.StringMinusIsNoSubtraction | SubConverter-Extended/include/inja.hpp:1115-1134 | for every string and number, the minus sign between them is read as a number of its own |
| InjaMinusSign.TheTwoTexts | SubConverter-Extended/include/inja.hpp:1115-1134 | with `a` and `1` the texts of the two lemmas above are exactly `{{ a }}{{ -1 }}` and `{{ "a" - 1 }}`, and are spelled rightly |
| RegexSearchProof.SearchStaysInside | SubConverter-Extended/include/jpcre2.hpp:4994-5090 | without options of the caller every search starts inside the subject and, in UTF-8 mode, at the start of a character; the loop ends |
| RegexSearchProof.SearchOrdered | SubConverter-Extended/include/jpcre2.hpp:4994-5090 | recorded matches are ordered, apart and distinct |
| RegexSearchProof.SearchComplete | SubConverter-Extended/include/jpcre2.hpp:4994-5090 | for an engine that finds the leftmost match: where a match can be found, one is recorded that starts or runs there, if and only if the place is not in the middle of a CRLF after an empty match with nothing else to be found before it |
| RegexSearchProof.SearchFindsAll | SubConverter-Extended/include/jpcre2.hpp:4994-5090 | if the engine finds another match before each end of line in the middle of which one can start, nothing that can match is missed |
| RegexSearchProof.SearchMisses | SubConverter-Extended/include/jpcre2.hpp:5035-5047 | an engine and a subject for which a match is missed |
| RegexSearchProof.CallerOptionsOverrun | SubConverter-Extended/include/jpcre2.hpp:5032-5034 | with options of the caller the loop passes the end and reports an error, if and only if a match is found from the start offset and none at the end of the subject |
| RegexSearchProof.AnchoredSeesEnd | SubConverter-Extended/include/jpcre2.hpp:5032-5034 | anchored engines meet the assumption of the theorem before |
| RegexSearchProof.OverrunByLastMatch | SubConverter-Extended/include/jpcre2.hpp:5032-5034 | the same for any engine, in terms of the matches that are recorded |
| RegexSearchProof.CallerOptionsMatter | SubConverter-Extended/include/jpcre2.hpp:5032-5034 | one engine and subject for which an option of the caller makes the difference |
| RegexEvaluator.MatchEvaluator.NextOffset | SubConverter-Extended/include/jpcre2.hpp:5035-5047 | the place to go on after a vain search is the next character, or the one after a CRLF |
| RegexEvaluator.MatchEvaluator.Match | SubConverter-Extended/include/jpcre2.hpp:4808-5096 | the vectors hold the matches of the search in order, the count is their number, and an error is kept |
| RegexEvaluator.MatchEvaluator.NReplace | SubConverter-Extended/include/jpcre2.hpp:4617-4672 | the result interleaves unmatched pieces with callback results exactly when no match starts too early; after a match this always holds, so the error branch is not taken |
| RegexEvaluator.SplicePieces | SubConverter-Extended/include/jpcre2.hpp:4617-4672 | for every callback the result is the text before each match and what the callback makes of it, once, in order, and the text after the last |
| RegexEvaluator.FillKeepsSubject | SubConverter-Extended/include/jpcre2.hpp:2056-2062 | the callback that returns group 0 leaves the subject as it is |
| RegexEvaluator.EraseKeepsUnmatched | SubConverter-Extended/include/jpcre2.hpp:2046-2048 | the callback that returns nothing leaves exactly the code units that belong to no match |
| FieldCollector.Collector.CollectFields | SubConverter-Extended/scripts/generate_proxy_validation.go:307-339 | the walk ends on cyclic graphs, restores `visiting`, and fills the shared table as specified |
| FieldCollectorProof.CollectedKeys | SubConverter-Extended/scripts/generate_proxy_validation.go:307-339 | the keys are exactly the named fields of structs reachable through untagged embeddings, and every rule comes from such a field |
| FieldCollectorProof.LastOccurrenceWins | SubConverter-Extended/scripts/generate_proxy_validation.go:307-339 | if a key occurs more than once the rule is that of its last occurrence in the order of the walk, for all keys of all graphs |
| FieldCollectorProof.CollectComplete | SubConverter-Extended/scripts/generate_proxy_validation.go:308-310 | skipping types that are being visited misses nothing |
| FieldRules.EmbeddingField | SubConverter-Extended/scripts/generate_proxy_validation.go:313-319 | an untagged field without names embeds the named type behind any number of pointers, and nothing else |
| FieldRules.TaggedField | SubConverter-Extended/scripts/generate_proxy_validation.go:322-338 | a tagged field gets its name, the kind of its type behind any number of pointers, and is required exactly if it is a server or port that is not omitted when empty |
| StructTag.NextStructTagLoop | SubConverter-Extended/scripts/generate_proxy_validation.go:376-402 | the loop finds the key, the value and the rest of a tag as specified |
| StructTag.ProxyFieldLoop | SubConverter-Extended/scripts/generate_proxy_validation.go:352-374 | the loop over a tag gives the name and the option of its first proxy entry |
| StructTag.NextExactly | SubConverter-Extended/scripts/generate_proxy_validation.go:376-402 | a tag has a next entry if and only if it begins, after spaces, with a key and a value that is quoted rightly, and it is read as it stands there |
| StructTag.FirstProxyDecides | SubConverter-Extended/scripts/generate_proxy_validation.go:352-374 | in a tag written by convention the first proxy entry is found, whatever stands around it |
| StructTag.NameAndOptionOf | SubConverter-Extended/scripts/generate_proxy_validation.go:366-371 | options do not change the name, and omitempty is found wherever it stands |
| MieruExpansion.ExpandLoop | SubConverter-Extended/bridge/mieru.go:35-63 | the loop over lines computes the expansion |
| MieruExpansion.LinkLine | SubConverter-Extended/bridge/mieru.go:47-59 | a link is expanded without the blanks and carriage returns at the end of its line |
| MieruExpansion.ExpandedLines | SubConverter-Extended/bridge/mieru.go:35-63 | the lines of the result are those of the source in order, with each link line replaced by all of its links or by none |
| MieruExpansion.NoLinkIsLeft | SubConverter-Extended/bridge/mieru.go:35-72 | no standard link line is left |
| MieruExpansion.UnchangedWithoutLinks | SubConverter-Extended/bridge/mieru.go:35-43 | text with a link line always changes; text without one, raw or decoded, never does |
| MieruExpansion.ExpandTwice | SubConverter-Extended/bridge/mieru.go:35-63 | for any expansion of links to plain lines: a second expansion changes nothing if no links are hidden in what is left |
| MieruStandard.ExpandStandardUrl | SubConverter-Extended/bridge/mieru.go:74-96 | a standard link gives the links of the configuration that it carries, or none |
| MieruStandard.PayloadExact | SubConverter-Extended/bridge/mieru.go:74-86 | a standard link carries some bytes exactly if it is, but for line ends, what these are printed as, and both limits are kept |
| MieruStandard.StandardRoundTrip | SubConverter-Extended/bridge/mieru.go:74-96 | the two limits agree: every acceptable configuration of at most 768 KiB survives its link |
| MieruStandard.StandardIsGood | SubConverter-Extended/bridge/mieru.go:74-131 | all links that come from a standard link are single lines and no standard links |
| MieruStandard.ExpandSubscriptionLoop | SubConverter-Extended/bridge/mieru.go:35-63 | the loop over lines, with the actual decoder and expander, computes the expansion that the rows below speak of |
| MieruStandard.SubscriptionLines | SubConverter-Extended/bridge/mieru.go:35-72 | for every subscription: other lines stay in order, each standard link gives way to all of its links or to nothing, none is left |
| MieruStandard.SubscriptionTwice | SubConverter-Extended/bridge/mieru.go:35-72 | a second expansion changes nothing if and only if what the first leaves does not decode to standard links |
| MieruStandard.HiddenSubscription | SubConverter-Extended/bridge/mieru.go:35-72 | every hidden subscription is expanded by the second call only, if an empty link stands before it |
| StrictBase64.StrictExact | SubConverter-Extended/bridge/mieru.go:83 | strict decoding gives some bytes if and only if the text without line ends is what they are printed as |
| MieruProjection.ProjectClientConfig | SubConverter-Extended/bridge/mieru.go:98-131 | links are given exactly for acceptable configurations: names distinct, each profile usable, at most 16384 port bindings in all, the active profile present |
| MieruProjection.ProjectProfile | SubConverter-Extended/bridge/mieru.go:133-210 | a profile gives all of its links and its number of bindings exactly if name, credentials, options and all servers are acceptable; its name is taken only once |
| MieruProjection.ProjectServer | SubConverter-Extended/bridge/mieru.go:212-267 | a server gives the link of its host, options and bindings exactly if its addresses and all bindings are acceptable |
| MieruProjection.LinkOfServer | SubConverter-Extended/bridge/mieru.go:98-210 | one link for each server, in the order of profiles and servers |
| MieruProjection.LinksDiffer | SubConverter-Extended/bridge/mieru.go:259-265 | no two servers of a configuration get the same link |
| MieruProjection.LinksWithinBudget | SubConverter-Extended/bridge/mieru.go:107-120 | there are never more links than port bindings |
| MieruLink.LinkReadsBack | SubConverter-Extended/bridge/mieru.go:259-266 | a printed link determines its parts, whatever bytes they hold |
| MieruLink.LinkIsOneLine | SubConverter-Extended/bridge/mieru.go:259-266 | a printed link has no line end and is not a standard link |
| MieruContent.PortExact | SubConverter-Extended/bridge/mieru.go:269-294 | a binding is accepted if and only if it has a known protocol and either a port or a range in order, from 1 to 65535; what is printed gives the same ports, and the protocol as TCP or UDP |
| MieruContent.LinkTells | SubConverter-Extended/bridge/mieru.go:212-267 | every link of an acceptable profile, read back, has the name, the password, the host with brackets around an address of version 6, each option under its key or not at all, and the ports and protocols of the bindings in order |
| MieruContent.ServerExact | SubConverter-Extended/bridge/mieru.go:212-234 | a server is accepted if and only if it has a plain host name or an address, no text that is no address in the place of one, and 1 to 256 good bindings |
| MieruContent.ProfileExact | SubConverter-Extended/bridge/mieru.go:133-192 | a profile is accepted if and only if name, user name and password are plain and not too long, a hash fits, nothing unsupported is set, and 1 to 256 servers are all good |
| MieruContent.ConfigExact | SubConverter-Extended/bridge/mieru.go:98-131 | a configuration is accepted if and only if its 1 to 256 profiles are good and have different names, the active one is among them, the logging level is known and there are at most 16384 bindings |
| UrlText.EscapeReadsBack | SubConverter-Extended/bridge/mieru.go:259-265 | escaping loses nothing, in any part of a link |
| UrlText.EscapesByte | SubConverter-Extended/bridge/mieru.go:259-265 | which bytes stand for themselves in which part of a link, and that all others become two upper-case hexadecimal digits, or a plus for a blank in the query |
| UrlText.PieceReads | SubConverter-Extended/bridge/preprocess.go:83-86 | a piece of a query is a key and a value around its first equals sign, or a key alone; a semicolon or a bad escape spoils it |
| UrlText.QueryReadsBack | SubConverter-Extended/bridge/mieru.go:235-263 | a printed query is read back pair by pair |
| LooseBase64.DecodeLooseBase64 | SubConverter-Extended/bridge/preprocess.go:157-171 | the loop returns what the first accepting decoder gives |
| LooseBase64Exact.LooseExactly | SubConverter-Extended/bridge/preprocess.go:157-171 | a text is decoded if and only if, without line ends, it is digits of one of the two alphabets with the padding of its last group or with none, whatever the last digit has left over; and to the bytes that its bits make up |
| LooseBase64Exact.LineEndsGo | SubConverter-Extended/bridge/preprocess.go:165 | line ends go, wherever they stand |
| LooseBase64.LooseRoundTrip | SubConverter-Extended/bridge/preprocess.go:157-171 | bytes in any of the four encodings come back, whichever decoder accepts the text first |
| LooseBase64.DecodersAgree | SubConverter-Extended/bridge/preprocess.go:158-163 | a decoder reads the text of another encoding as the same bytes or not at all |
| LegacyContent.RewrittenExactly | SubConverter-Extended/bridge/preprocess.go:44-155 | a link is rewritten if and only if Base64 of a server stands before its first question mark and a query after it |
| LegacyContent.ServerFound | SubConverter-Extended/bridge/preprocess.go:67-83 | a server is found if and only if there are an id, a host and a port that is a number |
| LegacyContent.HostAndPort | SubConverter-Extended/bridge/preprocess.go:173-179 | host and port are split at the last colon, and the brackets around an address of version 6 go |
| LegacyContent.ServerKeys | SubConverter-Extended/bridge/preprocess.go:129-136 | the object holds version, host, port, id and cipher under their keys |
| LegacyContent.NameKeys | SubConverter-Extended/bridge/preprocess.go:88-91 | the name and the alter id come from the first of their keys that shows anything, or are host and port, and 0 |
| LegacyContent.SecurityKeys | SubConverter-Extended/bridge/preprocess.go:118-148 | TLS is on for three words, and SNI and ALPN are there exactly if the query gives them |
| LegacyContent.WebSocketKeys | SubConverter-Extended/bridge/preprocess.go:97-102 | network, header, host and path under a WebSocket obfuscation |
| LegacyContent.NetworkKeys | SubConverter-Extended/bridge/preprocess.go:103-111 | the same without an obfuscation, with the defaults tcp and none |
| LegacyContent.HeaderKeys | SubConverter-Extended/bridge/preprocess.go:112-116 | any other obfuscation is the header of plain TCP |
| LegacyVmess.LegacyRoundTrip | SubConverter-Extended/bridge/preprocess.go:44-155 | a legacy link in any of the four encodings becomes the link of the object that its server and query determine |
| LegacyVmess.NormalizeTwice | SubConverter-Extended/bridge/preprocess.go:44-155 | rewriting a legacy link is idempotent |
| LegacyVmess.ServerReadsBack | SubConverter-Extended/bridge/preprocess.go:67-83 | cipher, id, host and port are found again, with separators allowed wherever the code looks past them |

## Left out

- PosixZone.UsualIsWellFormed: gives a sufficient condition; the exact one is `ZoneSchedule.WellFormed`, and is what the theorems ask for.
- PosixText.ConstructorRoundTrip: error messages are kept as reasons with a position, not as text; letters and digits are those of the C locale.
- InjaTemplateMemory.TemplateRoundTrip: comments and line statements are parsed but not printed.
- InjaNesting.CursorFollowsNesting: the tokens may be any, but `block` and `endblock`, for which the source keeps a third stack (inja.hpp:1928-1957), end in an error of the model, as do `include` and `extends`; an item with one of them is no accepted item.
- InjaNesting.NestedEndsAtTop: the same; templates with `block` statements are not accepted by the model.
- InjaNestedTree.HoldsTreeExactly: the same.
- InjaParser.Parser.ParseStmt: `block`, `endblock`, `include` and `extends` end in an error of the model.
- InjaParser.Parser.ParseExpr: bracket and brace literals, which the source counts in the same loop, are not modelled.
- InjaWritable.WrittenRoundTrip: default delimiters without trimming, and one blank between tokens.
- InjaMinusExact.WritableExactly: is about the tokens of a template; that texts are spelled rightly is required, so what trimming does to a text is not part of it.
- RegexEvaluator.MatchEvaluator.Match: numbered substrings are modelled for group 0; named substrings and an output vector that is too small are not.
- RegexEvaluator.MatchEvaluator.NReplace: of the kinds of callbacks the one that sees group 0 is modelled.
- RegexSearchProof.SearchStaysInside: an engine is assumed to give matches in the subject, at the starts of characters and not before the place it is asked for, as PCRE2 does for patterns without `\K`. That it finds the leftmost match is assumed for completeness only, so that `\G` and anchored patterns are covered elsewhere.
- RegexSearchProof.CallerOptionsOverrun: an empty match at the end is assumed to be found there too when the engine is asked there, which a pattern that refers to the start offset could break; `RegexSearchProof.OverrunByLastMatch` does without.
- FieldCollector.Collector.CollectFields: a field holds its tag as `proxyField` reads it; the reading itself is `StructTag`.
- MieruExpansion.ExpandedLines: is stated for any expansion to plain lines; `MieruStandard` shows that the actual one is such.
- MieruProjection.ProjectProfile: IP addresses, UTF-8, hashes of passwords and the validity of traffic patterns are answers of an abstract world. The query is printed with its keys already in alphabetical order.
- MieruStandard.ExpandStandardUrl: decoding a protocol buffer and looking for unknown fields is one abstract function.
- MieruLink.LinkReadsBack: the reader percent-decodes every part; Go's own parser also refuses some escapes in a host.
- LegacyVmess.LegacyRoundTrip: lower case and the printing of JSON are abstract functions.
- Sub-second durations, overflow of the 16-bit year and of 32-bit day counts, stream output, composition operators and the in-place arithmetic wrappers of the calendar headers.
- Equality of zones by `operator==`, which ignores rule times; the round trips here compare all fields.
- In inja: bracket and brace literals, the parsing of literals as JSON, rendering, includes, source positions and the text of error messages. A pipe without an argument, which is undefined in the source, is an error here.
- Bytes outside ASCII given to `isalpha` and `isdigit` count as neither.
- PCRE2, protobuf decoding and `strconv.Unquote`: parameters with a contract, or abstract functions.
- `preprocessSubscription`: a loop over independent lines, which would only add easy members.
- The conversion of whole subscriptions, parsing Go source, the web server and all input and output.
