# Event planner core in Dafny

This project models the core of a Kotlin desktop event planner in Dafny.

- **Domain records.** `Event`, `Venue`, `Participant` and `Session` are modelled with the checks their constructors run. Event registration and the two `durationMinutes` readings are included.
- **Validators.** The field validators in `ValidationUtils` are modelled. The model includes the behaviour of `java.time`'s `H:mm` and `yyyy-M-d` patterns under the default SMART resolver: `24:00` reads as midnight, and a day past the end of the month is clamped to the month's length.
- **In-memory store.** `DataStore` holds the four lists. It supports look-ups, add, update and delete, and registering or unregistering participants.
- **Session form.** The time-format check of the session screen and the way its add and update buttons build a `Session`.

Each Kotlin exception becomes an `Errors.Result` failure, and the model keeps the message the code throws. `Int` arithmetic and `toInt` are modelled on the 32-bit range: `Text.ParseInt` and `Text.WrapInt` do this. Strings are `seq<char>`. `isBlank` and `trim` use the JVM's `Char.isWhitespace` set (`Text.IsWhitespace`). Identifiers that the source draws from `UUID.randomUUID()` become ordinary parameters.

Modules follow the source files:

| module | file | models |
|---|---|---|
| `Text` | `text.dfy` | `isBlank`, `trim`, `toIntOrNull`, `toString`, `padStart`, `split`/join |
| `Seqs` | `seqs.dfy` | `find`, `indexOfFirst`, `filter`/`removeIf`, `remove`, `mapNotNull` |
| `Calendar` | `calendar.dfy` | `LocalTime` and `LocalDate` parsing with the two patterns |
| `Validation` | `validation.dfy` | `ValidationUtils` |
| `ValidationExamples` | `validation_examples.dfy` | the validators' unit-test cases |
| `Durations` | `durations.dfy` | the shared `durationMinutes` reading |
| `Events`, `Venues`, `Participants`, `Sessions` | one file each | the domain classes |
| `Store` | `datastore.dfy` | `DataStore` without its file I/O |
| `SessionForm` | `sessionview.dfy` | `validateTimeFormat` and the session screen's add/update path |

The code is followed where it differs from its own wording:
- The date error message says `YYYY-MM-DD`, but the pattern is `yyyy-M-d`. It accepts one-digit months and days, so `2024-3-5` is valid.
- The time message says `HH:MM`, but the pattern is `H:mm`. It accepts `9:30`, `009:30` and `24:00`.

## Model

| member | source | states |
|---|---|---|
| Text.Trim | kotlin-app/src/main/kotlin/com/eventplanner/service/ValidationUtils.kt:113 | the result is empty exactly when the input is blank; otherwise it starts and ends with a non-whitespace character and is the input with its leading and trailing whitespace runs cut off |
| Text.TrimIdempotent | kotlin-app/src/main/kotlin/com/eventplanner/service/ValidationUtils.kt:113 | trimming twice is trimming once |
| Text.TrimBlank | kotlin-app/src/main/kotlin/com/eventplanner/ui/SessionView.kt:201 | a trimmed text is blank exactly when the original is, so the constructor's blank check means the same before and after `trim` |
| Text.ParseIntToString | kotlin-app/src/main/kotlin/com/eventplanner/service/ValidationUtils.kt:64 | `toIntOrNull` reads back every `Int` from its decimal text |
| Text.ParseIntShape | kotlin-app/src/main/kotlin/com/eventplanner/service/ValidationUtils.kt:64 | an accepted number is an optional sign followed by ASCII digits, and the sign decides which side of zero it lies |
| Text.ParseInt | kotlin-app/src/main/kotlin/com/eventplanner/service/ValidationUtils.kt:64 | a number read by `toIntOrNull` lies in the `Int` range (its exact reading is Text.ParseIntExact) |
| Text.ParseIntExact | kotlin-app/src/main/kotlin/com/eventplanner/service/ValidationUtils.kt:64 | a text is read exactly when it is an optional `+` or `-` followed by at least one ASCII digit and its signed value fits an `Int`, and then it reads as that value |
| Text.ParseIntRefusesOverflow | kotlin-app/src/main/kotlin/com/eventplanner/service/ValidationUtils.kt:64 | a decimal numeral beyond the `Int` range is refused, unsigned or with a sign, rather than wrapped |
| Text.ParseIntExamples | kotlin-app/src/main/kotlin/com/eventplanner/service/ValidationUtils.kt:64 | `+7` reads as 7 and `-007` as -7; a lone sign and the empty text are not numbers |
| Text.SplitPieces | kotlin-app/src/main/kotlin/com/eventplanner/domain/Event.kt:58 | no piece of `split(":")` contains a colon |
| Text.Split | kotlin-app/src/main/kotlin/com/eventplanner/domain/Event.kt:58 | `split` always gives at least one piece |
| Text.JoinSplit | kotlin-app/src/main/kotlin/com/eventplanner/domain/Event.kt:58-59 | joining the pieces of `split` with the separator gives back the original text |
| Text.WrapInt | kotlin-app/src/main/kotlin/com/eventplanner/domain/Event.kt:60-62 | 32-bit arithmetic keeps an in-range value and always lands in the `Int` range |
| Text.WrapIntCongruent | kotlin-app/src/main/kotlin/com/eventplanner/domain/Event.kt:60-62 | the wrapped value differs from the exact one by a multiple of 2^32 |
| Seqs.FirstIndex | kotlin-app/src/main/kotlin/com/eventplanner/persistence/DataStore.kt:78 | `indexOfFirst` gives the first index whose element matches, or nothing when none matches |
| Seqs.FirstIndexIsFirst | kotlin-app/src/main/kotlin/com/eventplanner/persistence/DataStore.kt:78 | an index is the first match exactly when `indexOfFirst` returns it |
| Seqs.Find | kotlin-app/src/main/kotlin/com/eventplanner/persistence/DataStore.kt:70 | `find` returns the first matching element, and nothing exactly when no element matches |
| Seqs.FindAppend | kotlin-app/src/main/kotlin/com/eventplanner/persistence/DataStore.kt:70-73 | after appending, `find` still gives the earlier match, or the new element when it is the only match |
| Seqs.Filter | kotlin-app/src/main/kotlin/com/eventplanner/persistence/DataStore.kt:144-145 | `filter` keeps only matching elements of the list and every matching one |
| Seqs.FilterAppend | kotlin-app/src/main/kotlin/com/eventplanner/persistence/DataStore.kt:144-145 | `filter` distributes over concatenation, so it keeps the list's order |
| Seqs.FilterCommute | kotlin-app/src/main/kotlin/com/eventplanner/persistence/DataStore.kt:160-163 | two filters commute |
| Seqs.ReplaceFirst | kotlin-app/src/main/kotlin/com/eventplanner/persistence/DataStore.kt:77-83 | the list keeps its length; only the first matching position takes the new value; without a match the list is unchanged |
| Seqs.FindReplaceOther | kotlin-app/src/main/kotlin/com/eventplanner/persistence/DataStore.kt:77-83 | replacing the first match of one id does not change what `find` gives for another |
| Seqs.RemoveFirst | kotlin-app/src/main/kotlin/com/eventplanner/domain/Event.kt:49-51 | `remove` of a listed value takes out its first occurrence and keeps the rest in order; an absent value leaves the list unchanged |
| Seqs.RemoveFirstIsFilter | kotlin-app/src/main/kotlin/com/eventplanner/domain/Event.kt:49-51 | on a duplicate-free list, removing a value is filtering it out |
| Seqs.MapNotNull | kotlin-app/src/main/kotlin/com/eventplanner/persistence/DataStore.kt:187 | `mapNotNull` gives no more results than inputs |
| Seqs.MapNotNullAppend | kotlin-app/src/main/kotlin/com/eventplanner/persistence/DataStore.kt:187 | `mapNotNull` distributes over concatenation, so it keeps the input's order |
| Seqs.MapNotNullTotal | kotlin-app/src/main/kotlin/com/eventplanner/persistence/DataStore.kt:187 | when no input maps to null, the results are the mapped inputs one to one |
| Seqs.MapNotNullSources | kotlin-app/src/main/kotlin/com/eventplanner/persistence/DataStore.kt:187 | every result is the image of some input |
| Calendar.ResolveTime | kotlin-app/src/main/kotlin/com/eventplanner/service/ValidationUtils.kt:33-34 | an hour and a minute resolve exactly when the minute is at most 59 and the hour is at most 23, or is 24 with minute 0; `24:00` becomes midnight |
| Calendar.ParseTimeOfParts | kotlin-app/src/main/kotlin/com/eventplanner/service/ValidationUtils.kt:33-34 | one to nineteen hour digits, a colon and two minute digits parse as their resolved values |
| Calendar.ResolveDate | kotlin-app/src/main/kotlin/com/eventplanner/service/ValidationUtils.kt:19-20 | a date resolves exactly when the year is at least 1, the month is 1 to 12 and the day is 1 to 31; a day past the month's end is clamped to its last day |
| Calendar.ParseDateOfParts | kotlin-app/src/main/kotlin/com/eventplanner/service/ValidationUtils.kt:19-20 | four year digits, a month numeral and a day numeral joined by dashes parse as their resolved date |
| Calendar.ResolveValidDate | kotlin-app/src/main/kotlin/com/eventplanner/service/ValidationUtils.kt:19-20 | every real calendar date resolves to itself |
| Calendar.ParseTime | kotlin-app/src/main/kotlin/com/eventplanner/service/ValidationUtils.kt:33-34 | a parsed time comes from one to nineteen hour digits, a colon and two minute digits, and is a real time |
| Calendar.ParseDate | kotlin-app/src/main/kotlin/com/eventplanner/service/ValidationUtils.kt:19-20 | a parsed date comes from four year digits, a month numeral and a day numeral joined by dashes, is a real date, and has a year from 1 to 9999 |
| Validation.ValidateDate | kotlin-app/src/main/kotlin/com/eventplanner/service/ValidationUtils.kt:11-24 | blank input is "required"; anything else that fails reports the format message; an accepted date is a real date with a four-digit year |
| Validation.ValidateDateOfParts | kotlin-app/src/main/kotlin/com/eventplanner/service/ValidationUtils.kt:11-24 | a text of four year digits, a month numeral and a day numeral is accepted exactly when its numbers resolve to a date, and then gives that resolved date; otherwise the format message with the field name |
| Validation.ValidateTime | kotlin-app/src/main/kotlin/com/eventplanner/service/ValidationUtils.kt:27-38 | blank input is "required"; anything else that fails reports the format message; an accepted time is a real time read from hour digits, a colon and two minute digits |
| Validation.ValidateTimeRange | kotlin-app/src/main/kotlin/com/eventplanner/service/ValidationUtils.kt:41-48 | the start's error comes first, then the end's; the range is accepted exactly when both read and the end is strictly later in the day, and otherwise fails with "End time must be after start time" |
| Validation.EmptyRangeRejected | kotlin-app/src/main/kotlin/com/eventplanner/service/ValidationUtils.kt:41-48 | a range that starts and ends at the same text is always refused |
| Validation.ValidatePositiveInt | kotlin-app/src/main/kotlin/com/eventplanner/service/ValidationUtils.kt:59-74 | the checks run in order: `null` or blank, then not a number, then not positive; an accepted value is what `toIntOrNull` reads and lies in 1..2^31-1 |
| Validation.ValidatePositiveIntRoundTrip | kotlin-app/src/main/kotlin/com/eventplanner/service/ValidationUtils.kt:59-74 | every positive `Int` written in decimal is accepted as itself |
| Validation.ValidatePositiveIntRejectsNonPositive | kotlin-app/src/main/kotlin/com/eventplanner/service/ValidationUtils.kt:69-71 | every zero or negative `Int` written in decimal is refused as not positive |
| Validation.ValidatePositiveIntRejectsOverflow | kotlin-app/src/main/kotlin/com/eventplanner/service/ValidationUtils.kt:64-67 | a numeral beyond `Int.MAX_VALUE` is refused as not a number |
| Validation.ValidateEmail | kotlin-app/src/main/kotlin/com/eventplanner/service/ValidationUtils.kt:95-106 | accepted exactly when the text is not blank and contains both an '@' and a '.', and then it is returned unchanged |
| Validation.ValidateRequired | kotlin-app/src/main/kotlin/com/eventplanner/service/ValidationUtils.kt:109-114 | accepted exactly when the value is present and not blank; the result is the trimmed value |
| Validation.ValidateRequiredIdempotent | kotlin-app/src/main/kotlin/com/eventplanner/service/ValidationUtils.kt:109-114 | validating an accepted value again gives the same value |
| Validation.BlankIsRequired | kotlin-app/src/main/kotlin/com/eventplanner/service/ValidationUtils.kt:11-114 | every validator reports a blank or missing input as "<field> is required" |
| Validation.FormatTime | kotlin-app/src/main/kotlin/com/eventplanner/service/ValidationUtils.kt:116-122 | fails exactly when `validateTime` fails and with its error; otherwise the result is two digits, a colon and two digits, the first two reading as the parsed hour and the last two as the parsed minute |
| Validation.TimeTextParses | kotlin-app/src/main/kotlin/com/eventplanner/service/ValidationUtils.kt:119-121 | the zero-padded `HH:MM` text of a time parses back to that time |
| Validation.TimeTextValidates | kotlin-app/src/main/kotlin/com/eventplanner/service/ValidationUtils.kt:116-122 | `validateTime` accepts the padded text of every time and returns it |
| Validation.FormatTimeIdempotent | kotlin-app/src/main/kotlin/com/eventplanner/service/ValidationUtils.kt:116-122 | formatting an already formatted time changes nothing |
| Validation.FormatDate | kotlin-app/src/main/kotlin/com/eventplanner/service/ValidationUtils.kt:124-131 | the corrected `formatDate`, with a four-digit year: fails exactly when `validateDate` fails; otherwise the result is `YYYY-MM-DD` whose three numerals read as the parsed year, month and day |
| Validation.DateTextParses | kotlin-app/src/main/kotlin/com/eventplanner/service/ValidationUtils.kt:127-130 | the `YYYY-MM-DD` text of every date in years 1..9999 parses back to that date |
| Validation.DateTextValidates | kotlin-app/src/main/kotlin/com/eventplanner/service/ValidationUtils.kt:124-131 | `validateDate` accepts the padded text of every such date and returns it |
| Validation.FormatDateIdempotent | kotlin-app/src/main/kotlin/com/eventplanner/service/ValidationUtils.kt:124-131 | formatting an already formatted date changes nothing |
| Validation.FormatDateAsWritten | kotlin-app/src/main/kotlin/com/eventplanner/service/ValidationUtils.kt:124-131 | `formatDate` as written fails exactly when `validateDate` fails; otherwise its text is the year as `toString` prints it followed by the corrected text's `-MM-DD`, which is the corrected text from year 1000 on and a text `validateDate` refuses below it |
| Validation.UnpaddedDateText | kotlin-app/src/main/kotlin/com/eventplanner/service/ValidationUtils.kt:127-130 | the text with an unpadded year is that year followed by the padded text's `-MM-DD`; it equals the padded text exactly from year 1000 on, and is refused below it |
| Validation.FormatDateAsWrittenShortYear | kotlin-app/src/main/kotlin/com/eventplanner/service/ValidationUtils.kt:127 | as written, `0999-3-5` is printed as `999-03-05`, which `validateDate` then refuses |
| ValidationExamples.DateAccepted | kotlin-app/src/test/kotlin/com/eventplanner/service/ValidationUtilsTest.kt:12-18 | `2024-03-15` is 15 March 2024 |
| ValidationExamples.DateRefused | kotlin-app/src/test/kotlin/com/eventplanner/service/ValidationUtilsTest.kt:20-25 | the day-first date `15-03-2024` is refused |
| ValidationExamples.DateMissing | kotlin-app/src/test/kotlin/com/eventplanner/service/ValidationUtilsTest.kt:27-32 | the empty date is "Date is required" |
| ValidationExamples.TimeAccepted | kotlin-app/src/test/kotlin/com/eventplanner/service/ValidationUtilsTest.kt:34-39 | `09:30` is half past nine |
| ValidationExamples.TimeRefused | kotlin-app/src/test/kotlin/com/eventplanner/service/ValidationUtilsTest.kt:41-53 | `9:30 AM` and `25:00` are refused |
| ValidationExamples.RangeExamples | kotlin-app/src/test/kotlin/com/eventplanner/service/ValidationUtilsTest.kt:55-73 | nine to five is a range; five to nine and nine to nine report "End time must be after start time" |
| ValidationExamples.FiftyAccepted | kotlin-app/src/test/kotlin/com/eventplanner/service/ValidationUtilsTest.kt:75-78 | `50` is accepted as fifty |
| ValidationExamples.NonPositiveRefused | kotlin-app/src/test/kotlin/com/eventplanner/service/ValidationUtilsTest.kt:80-92 | `0` and `-5` are refused as not positive |
| ValidationExamples.LettersRefused | kotlin-app/src/test/kotlin/com/eventplanner/service/ValidationUtilsTest.kt:94-99 | `abc` is refused as not a number |
| ValidationExamples.EmailAccepted | kotlin-app/src/test/kotlin/com/eventplanner/service/ValidationUtilsTest.kt:118-121 | `test@example.com` is returned as typed |
| ValidationExamples.EmailRefused | kotlin-app/src/test/kotlin/com/eventplanner/service/ValidationUtilsTest.kt:123-135 | an address without '@' and one without '.' are refused |
| ValidationExamples.RequiredExamples | kotlin-app/src/test/kotlin/com/eventplanner/service/ValidationUtilsTest.kt:137-154 | a filled-in value comes back as typed; empty and missing values are required |
| ValidationExamples.FormatTimeExamples | kotlin-app/src/test/kotlin/com/eventplanner/service/ValidationUtilsTest.kt:156-160 | `9:00` prints as `09:00`; `14:30` prints unchanged |
| ValidationExamples.FormatDateExample | kotlin-app/src/test/kotlin/com/eventplanner/service/ValidationUtilsTest.kt:162-165 | `2024-3-5` prints as `2024-03-05` |
| Durations.PartToInt | kotlin-app/src/main/kotlin/com/eventplanner/domain/Event.kt:60 | `parts[i].toInt()` throws index-out-of-bounds exactly when the part is missing, and number-format exactly when the part is not an `Int` |
| Durations.Difference | kotlin-app/src/main/kotlin/com/eventplanner/domain/Event.kt:62 | the start's error comes before the end's; with both read, the result is `end - start` wrapped to 32 bits: congruent to it modulo 2^32, in the `Int` range, and equal to it when it fits |
| Durations.PartsMinutes | kotlin-app/src/main/kotlin/com/eventplanner/domain/Event.kt:59-60 | `parts[0].toInt() * 60 + parts[1].toInt()` throws the first piece's error before the second's, and reads a value exactly when both pieces read |
| Durations.PartsMinutesValue | kotlin-app/src/main/kotlin/com/eventplanner/domain/Event.kt:59-60 | the value read is `hours * 60 + minutes` wrapped to 32 bits: congruent to it modulo 2^32, and equal to it when it fits in an `Int` |
| Durations.WrapTwice | kotlin-app/src/main/kotlin/com/eventplanner/domain/Event.kt:59-60 | wrapping `hours * 60` before adding the minutes and wrapping again gives the wrap of the exact sum |
| Durations.MinutesOf | kotlin-app/src/main/kotlin/com/eventplanner/domain/Event.kt:57-60 | the minutes of `time.split(":")` throw the first piece's error, then the second's, and are read exactly when both pieces read as `Int`s, so `"ab:30"` fails with number-format |
| Durations.MinutesOfValue | kotlin-app/src/main/kotlin/com/eventplanner/domain/Event.kt:57-60 | the minutes read are `hours * 60 + minutes` of the first two pieces, wrapped to 32 bits |
| Durations.DurationMinutes | kotlin-app/src/main/kotlin/com/eventplanner/domain/Event.kt:57-63 | the start time's error comes first, then the end time's; a duration is read exactly when both times read, and is always in the `Int` range |
| Durations.DurationMinutesValue | kotlin-app/src/main/kotlin/com/eventplanner/domain/Event.kt:57-63 | a duration that is read is `endMinutes - startMinutes` wrapped to 32 bits, for any texts `toInt` reads |
| Durations.DurationMinutesFacts | kotlin-app/src/main/kotlin/com/eventplanner/domain/Event.kt:57-63 | the error order, the `Int` range and the clock-text value, stated together for the two classes that delegate to `durationMinutes` |
| Durations.SplitClockText | kotlin-app/src/main/kotlin/com/eventplanner/domain/Event.kt:58 | a clock text splits into its hour digits and its minute digits |
| Durations.MinutesOfClockText | kotlin-app/src/main/kotlin/com/eventplanner/domain/Event.kt:58-60 | a clock text reads as its minute of the day |
| Durations.DurationOfClockTexts | kotlin-app/src/main/kotlin/com/eventplanner/domain/Event.kt:57-63 | between two clock texts the duration is the difference of their minutes of the day |
| Durations.DurationOfValidRange | kotlin-app/src/main/kotlin/com/eventplanner/domain/Event.kt:57-63 | two clock texts that form a valid range have a duration between 1 and 1439 minutes |
| Durations.DurationMissingColon | kotlin-app/src/main/kotlin/com/eventplanner/domain/Event.kt:58-60 | a start time without a colon throws index-out-of-bounds for part 1 |
| Durations.ValidateClockText | kotlin-app/src/main/kotlin/com/eventplanner/service/ValidationUtils.kt:27-38 | `validateTime` accepts every clock text with the same minute of the day, and any other text it accepts denotes midnight |
| Durations.HourTwentyFour | kotlin-app/src/main/kotlin/com/eventplanner/service/ValidationUtils.kt:41-48 | `24:00` validates as midnight but counts as minute 1440, so 22:00–24:00 lasts 120 minutes yet is refused as a range |
| Durations.DurationExample | kotlin-app/src/test/kotlin/com/eventplanner/domain/EventTest.kt:143-155 | 09:00 to 11:30 lasts 150 minutes |
| Events.NewEvent | kotlin-app/src/main/kotlin/com/eventplanner/domain/Event.kt:21-28 | an event is built exactly when title, date, start and end are not blank and the capacity is positive; each failure has its message, checked in source order |
| Events.NewEventAllSlotsFree | kotlin-app/src/main/kotlin/com/eventplanner/domain/Event.kt:16-28 | a new event with the default list has every place free, keeps the registration invariant, and is a scheduled workshop |
| Events.ConstructorTrustsTheList | kotlin-app/src/main/kotlin/com/eventplanner/domain/Event.kt:21-28 | the constructor accepts a list passed in that already breaks the invariant, with a duplicate id and negative free places |
| Events.AvailableSlots | kotlin-app/src/main/kotlin/com/eventplanner/domain/Event.kt:31 | free places plus registered ids equal the capacity |
| Events.HasAvailableCapacity | kotlin-app/src/main/kotlin/com/eventplanner/domain/Event.kt:34 | there is room exactly when fewer ids are registered than the capacity |
| Events.RegisterParticipant | kotlin-app/src/main/kotlin/com/eventplanner/domain/Event.kt:41-46 | succeeds exactly when there is room and the id is new; the id is then appended, otherwise nothing changes, and no other field ever changes |
| Events.RegisterPreservesInvariant | kotlin-app/src/main/kotlin/com/eventplanner/domain/Event.kt:41-46 | registering keeps the list free of duplicates and within capacity |
| Events.RegisterTakesOneSlot | kotlin-app/src/main/kotlin/com/eventplanner/domain/Event.kt:41-46 | a successful registration takes exactly one place, a refused one none; afterwards the id is registered exactly when it succeeded or was already there |
| Events.FullEventRefuses | kotlin-app/src/main/kotlin/com/eventplanner/domain/Event.kt:42 | a full event refuses everyone and is left unchanged |
| Events.UnregisterParticipant | kotlin-app/src/main/kotlin/com/eventplanner/domain/Event.kt:49-51 | reports whether the id was listed; the list then loses the first occurrence of it, with the ids before and after kept in order, and nothing else changes |
| Events.UnregisterPreservesInvariant | kotlin-app/src/main/kotlin/com/eventplanner/domain/Event.kt:49-51 | unregistering keeps the invariant |
| Events.UnregisterRemovesOnlyThat | kotlin-app/src/main/kotlin/com/eventplanner/domain/Event.kt:49-51 | on a duplicate-free list, unregistering removes that id and keeps every other id in order |
| Events.RegisterThenUnregister | kotlin-app/src/main/kotlin/com/eventplanner/domain/Event.kt:41-51 | unregistering right after a successful registration restores the event |
| Events.DisplayString | kotlin-app/src/main/kotlin/com/eventplanner/domain/Event.kt:54 | the text is the title, " - ", the date, a space, the start time, "-" and the end time |
| Events.DisplayStringDeterminesTimes | kotlin-app/src/main/kotlin/com/eventplanner/domain/Event.kt:54 | for a known title and date, and a start time of known length, the display text determines both times |
| Events.DurationMinutes | kotlin-app/src/main/kotlin/com/eventplanner/domain/Event.kt:57-63 | a malformed start time throws its error first, then a malformed end time; a duration is in the `Int` range, and for clock-text times it is the end's minute of the day minus the start's |
| Events.DisplayStringExample | kotlin-app/src/test/kotlin/com/eventplanner/domain/EventTest.kt:157-169 | the annual meeting prints as `Annual Meeting - 2024-03-15 14:00-16:00` |
| Events.DurationExample | kotlin-app/src/test/kotlin/com/eventplanner/domain/EventTest.kt:143-155 | the workshop from 09:00 to 11:30 lasts 150 minutes |
| Events.CapacityExample | kotlin-app/src/test/kotlin/com/eventplanner/domain/EventTest.kt:110-125 | a two-place event takes two participants, refuses the third and is then full |
| Venues.NewVenue | kotlin-app/src/main/kotlin/com/eventplanner/domain/Venue.kt:17-23 | a venue is built exactly when the name is not blank, the capacity is positive and the location is not blank; each failure has its message, checked in source order |
| Venues.CapacityIsLargestFit | kotlin-app/src/main/kotlin/com/eventplanner/domain/Venue.kt:26 | the capacity is the largest head count that fits; fitting is downward closed and not fitting is upward closed |
| Venues.NewVenueHoldsOne | kotlin-app/src/main/kotlin/com/eventplanner/domain/Venue.kt:13-26 | a newly built venue fits one person, is available and has no facilities |
| Venues.DisplayString | kotlin-app/src/main/kotlin/com/eventplanner/domain/Venue.kt:29 | the text is the name, " (", the location, ") - Capacity: " and the capacity |
| Venues.DisplayStringCapacity | kotlin-app/src/main/kotlin/com/eventplanner/domain/Venue.kt:29 | the capacity can be read back from the display text |
| Venues.CanAccommodateExample | kotlin-app/src/test/kotlin/com/eventplanner/domain/VenueTest.kt:56-64 | a fifty-seat room fits 30 and 50 but not 51 or 100 |
| Participants.NewParticipant | kotlin-app/src/main/kotlin/com/eventplanner/domain/Participant.kt:16-20 | a participant is built exactly when the name and the email are not blank and the email has an '@' and a '.'; each failure has its message |
| Participants.EmailChecksAgree | kotlin-app/src/main/kotlin/com/eventplanner/domain/Participant.kt:23-25 | the constructor's email check and `validateEmail` accept the same addresses |
| Participants.BothCharactersNeeded | kotlin-app/src/main/kotlin/com/eventplanner/domain/Participant.kt:23-25 | an address needs both characters: `user@domain` and `user.domain` fail, `user@domain.com` passes |
| Participants.DisplayString | kotlin-app/src/main/kotlin/com/eventplanner/domain/Participant.kt:28 | the text is the name, " (", the email and ")" |
| Participants.DisplayStringDeterminesEmail | kotlin-app/src/main/kotlin/com/eventplanner/domain/Participant.kt:28 | for a known name, the display text determines the email |
| Participants.InvalidEmailExample | kotlin-app/src/test/kotlin/com/eventplanner/domain/ParticipantTest.kt:42-47 | `invalid-email` is refused with "Invalid email format" |
| Participants.DisplayStringExample | kotlin-app/src/test/kotlin/com/eventplanner/domain/ParticipantTest.kt:55-63 | Jane Smith prints as `Jane Smith (jane@company.org)` |
| Sessions.NewSession | kotlin-app/src/main/kotlin/com/eventplanner/domain/Session.kt:20-24 | a session is built exactly when the title, start and end are not blank; each failure has its message |
| Sessions.DisplayString | kotlin-app/src/main/kotlin/com/eventplanner/domain/Session.kt:29 | the text is the title, " (", the start time, "-", the end time and ")" |
| Sessions.DisplayStringDeterminesTimes | kotlin-app/src/main/kotlin/com/eventplanner/domain/Session.kt:29 | for a known title and a start time of known length, the display text determines both times |
| Sessions.DurationMinutes | kotlin-app/src/main/kotlin/com/eventplanner/domain/Session.kt:34-40 | a malformed start time throws its error first, then a malformed end time; a duration is in the `Int` range, and for clock-text times it is the end's minute of the day minus the start's |
| Sessions.BackwardsSession | kotlin-app/src/main/kotlin/com/eventplanner/domain/Session.kt:20-40 | a session from 10:00 to 09:00 is built and lasts -60 minutes |
| Sessions.MalformedTimesConstruct | kotlin-app/src/main/kotlin/com/eventplanner/domain/Session.kt:20-40 | a session with non-numeric times is built, but its duration throws number-format |
| Store.EventById | kotlin-app/src/main/kotlin/com/eventplanner/persistence/DataStore.kt:70 | the result is the first stored event with that id, and nothing is found exactly when no stored event has it |
| Store.VenueById | kotlin-app/src/main/kotlin/com/eventplanner/persistence/DataStore.kt:94 | the result is the first stored venue with that id, and nothing is found exactly when no stored venue has it |
| Store.ParticipantById | kotlin-app/src/main/kotlin/com/eventplanner/persistence/DataStore.kt:117 | the result is the first stored participant with that id, and nothing is found exactly when no stored participant has it |
| Store.SessionsByEventId | kotlin-app/src/main/kotlin/com/eventplanner/persistence/DataStore.kt:144-145 | the result holds exactly the stored sessions of that event; order and multiplicity are those of the store (Store.SessionsByEventIdInOrder) |
| Store.SessionsByEventIdInOrder | kotlin-app/src/main/kotlin/com/eventplanner/persistence/DataStore.kt:144-145 | the filter distributes over concatenation and keeps a single session exactly when it belongs to the event, so it keeps the store's order and multiplicity |
| Store.AddEvent | kotlin-app/src/main/kotlin/com/eventplanner/persistence/DataStore.kt:72-75 | the event is appended and the other lists are untouched |
| Store.AddEventThenGet | kotlin-app/src/main/kotlin/com/eventplanner/persistence/DataStore.kt:70-75 | after adding, the id finds the new event unless an earlier one shadows it; other ids find what they found before |
| Store.AddVenue | kotlin-app/src/main/kotlin/com/eventplanner/persistence/DataStore.kt:96-99 | the venue is appended and the other lists are untouched |
| Store.AddVenueThenGet | kotlin-app/src/main/kotlin/com/eventplanner/persistence/DataStore.kt:94-99 | after adding, the id finds the new venue unless an earlier one shadows it; other ids are unaffected |
| Store.AddParticipant | kotlin-app/src/main/kotlin/com/eventplanner/persistence/DataStore.kt:119-122 | the participant is appended and the other lists are untouched |
| Store.AddParticipantThenGet | kotlin-app/src/main/kotlin/com/eventplanner/persistence/DataStore.kt:117-122 | after adding, the id finds the new participant unless an earlier one shadows it; other ids are unaffected |
| Store.AddSession | kotlin-app/src/main/kotlin/com/eventplanner/persistence/DataStore.kt:147-150 | the session is appended and the other lists are untouched |
| Store.AddSessionThenList | kotlin-app/src/main/kotlin/com/eventplanner/persistence/DataStore.kt:144-150 | the event's session list gains the new session at its end |
| Store.UpdateEvent | kotlin-app/src/main/kotlin/com/eventplanner/persistence/DataStore.kt:77-83 | the first stored event with the new one's id is replaced by it, every other entry of the list stays as it was, and the other lists are untouched |
| Store.UpdateEventThenGet | kotlin-app/src/main/kotlin/com/eventplanner/persistence/DataStore.kt:77-83 | a known id then finds the new event; an unknown id leaves the store unchanged; every other id finds what it found before |
| Store.UpdateVenue | kotlin-app/src/main/kotlin/com/eventplanner/persistence/DataStore.kt:101-107 | the first stored venue with the new one's id is replaced by it, every other entry of the list stays as it was, and the other lists are untouched |
| Store.UpdateVenueThenGet | kotlin-app/src/main/kotlin/com/eventplanner/persistence/DataStore.kt:101-107 | a known id then finds the new venue; an unknown id leaves the store unchanged; every other id finds what it found before |
| Store.UpdateParticipant | kotlin-app/src/main/kotlin/com/eventplanner/persistence/DataStore.kt:124-130 | the first stored participant with the new one's id is replaced by it, every other entry of the list stays as it was, and the other lists are untouched |
| Store.UpdateParticipantThenGet | kotlin-app/src/main/kotlin/com/eventplanner/persistence/DataStore.kt:124-130 | a known id then finds the new participant; an unknown id leaves the store unchanged; every other id finds what it found before |
| Store.UpdateSession | kotlin-app/src/main/kotlin/com/eventplanner/persistence/DataStore.kt:152-158 | the first stored session with the new one's id is replaced by it, every other entry of the list stays as it was, and the other lists are untouched |
| Store.UpdateSessionThenFind | kotlin-app/src/main/kotlin/com/eventplanner/persistence/DataStore.kt:152-158 | after updating a stored session, its id finds the new session; every other id finds what it found before |
| Store.UpdateUnknownSession | kotlin-app/src/main/kotlin/com/eventplanner/persistence/DataStore.kt:152-158 | updating a session whose id is not stored changes nothing |
| Store.DeleteEvent | kotlin-app/src/main/kotlin/com/eventplanner/persistence/DataStore.kt:85-89 | no event with the id and no session of that event remain, every other event and session remains and nothing is invented; venues and participants are untouched; order is kept (Store.DeleteEventInOrder) |
| Store.DeleteEventInOrder | kotlin-app/src/main/kotlin/com/eventplanner/persistence/DataStore.kt:85-89 | both filters distribute over concatenation and keep a single event or session exactly when it does not belong to the deleted event, so survivors keep their stored order and multiplicity |
| Store.DeleteEventThenGet | kotlin-app/src/main/kotlin/com/eventplanner/persistence/DataStore.kt:85-89 | the id no longer finds an event or any sessions; other ids find what they found before |
| Store.DeleteVenue | kotlin-app/src/main/kotlin/com/eventplanner/persistence/DataStore.kt:109-112 | no venue with the id remains, every other venue remains and nothing is invented; the other lists are untouched; order is kept (Store.DeleteVenueInOrder) |
| Store.DeleteVenueInOrder | kotlin-app/src/main/kotlin/com/eventplanner/persistence/DataStore.kt:109-112 | the filter distributes over concatenation and keeps a single venue exactly when it has another id, so survivors keep their stored order and multiplicity |
| Store.DeleteVenueThenGet | kotlin-app/src/main/kotlin/com/eventplanner/persistence/DataStore.kt:109-112 | the id no longer finds a venue, other ids are unaffected, and events that name the venue stay as they were |
| Store.DeleteSession | kotlin-app/src/main/kotlin/com/eventplanner/persistence/DataStore.kt:160-163 | no session with the id remains, every remaining session was stored, every stored session with another id remains, and the other lists are untouched |
| Store.DeleteSessionInOrder | kotlin-app/src/main/kotlin/com/eventplanner/persistence/DataStore.kt:160-163 | deleting distributes over concatenation and drops a single session exactly when it has the id, so the others keep their order |
| Store.DeleteSessionThenList | kotlin-app/src/main/kotlin/com/eventplanner/persistence/DataStore.kt:160-163 | listing an event's sessions after deleting one gives the event's old list with that session taken out, in the same order |
| Store.DeleteParticipant | kotlin-app/src/main/kotlin/com/eventplanner/persistence/DataStore.kt:132-139 | no participant with the id remains, every remaining one was stored and every other stored one remains; every event loses the first occurrence of the id; venues and sessions are untouched |
| Store.DeleteParticipantInOrder | kotlin-app/src/main/kotlin/com/eventplanner/persistence/DataStore.kt:132-133 | deleting distributes over concatenation and drops a single participant exactly when it has the id, so the others keep their order |
| Store.UnregisterEverywhere | kotlin-app/src/main/kotlin/com/eventplanner/persistence/DataStore.kt:135-137 | every event, in place, has the participant unregistered as `remove` does |
| Store.DeleteParticipantUnregisters | kotlin-app/src/main/kotlin/com/eventplanner/persistence/DataStore.kt:132-139 | under the store invariant, a deleted participant is found nowhere and is registered for no event |
| Store.ClearAllData | kotlin-app/src/main/kotlin/com/eventplanner/persistence/DataStore.kt:197-200 | all four lists are empty |
| Store.ClearedStoreIsEmpty | kotlin-app/src/main/kotlin/com/eventplanner/persistence/DataStore.kt:197-200 | after clearing, no look-up finds anything and no registration succeeds |
| Store.RegisterParticipantForEvent | kotlin-app/src/main/kotlin/com/eventplanner/persistence/DataStore.kt:166-176 | succeeds exactly when the event and participant exist, the event has room and the id is new; on success only the first event with that id changes, by registering the participant; on refusal nothing changes |
| Store.RegisterThenGet | kotlin-app/src/main/kotlin/com/eventplanner/persistence/DataStore.kt:166-176 | after a registration the event is the old one with the id registered and one more entry |
| Store.RegisterTwiceRefused | kotlin-app/src/main/kotlin/com/eventplanner/persistence/DataStore.kt:170-171 | registering the same id again is refused |
| Store.RegisterThenListed | kotlin-app/src/main/kotlin/com/eventplanner/persistence/DataStore.kt:166-192 | after a registration the participant is listed for the event and the event for the participant |
| Store.UnregisterParticipantFromEvent | kotlin-app/src/main/kotlin/com/eventplanner/persistence/DataStore.kt:178-183 | succeeds exactly when the event exists and lists the id; on success only the first event with that id changes, by unregistering the participant; on failure nothing changes |
| Store.UnregisterThenGet | kotlin-app/src/main/kotlin/com/eventplanner/persistence/DataStore.kt:178-183 | after unregistering, the event is the old one minus one occurrence of the id |
| Store.RegisterThenUnregister | kotlin-app/src/main/kotlin/com/eventplanner/persistence/DataStore.kt:166-183 | unregistering right after a registration succeeds and restores the store |
| Store.ParticipantsForEvent | kotlin-app/src/main/kotlin/com/eventplanner/persistence/DataStore.kt:185-188 | an unknown event has no participants; a known one gets its registered ids mapped to their participants in registration order, skipping ids with no participant |
| Store.ParticipantsOfIds | kotlin-app/src/main/kotlin/com/eventplanner/persistence/DataStore.kt:187 | there are never more participants than ids |
| Store.ParticipantsOfIdsInOrder | kotlin-app/src/main/kotlin/com/eventplanner/persistence/DataStore.kt:187 | the mapping distributes over concatenation, and one id gives its first participant or nothing, so registration order is kept and missing participants are skipped |
| Store.ParticipantsForEventSound | kotlin-app/src/main/kotlin/com/eventplanner/persistence/DataStore.kt:185-188 | every participant listed is stored, and its id is registered for the event |
| Store.ParticipantsForEventComplete | kotlin-app/src/main/kotlin/com/eventplanner/persistence/DataStore.kt:185-188 | when every registered id has a stored participant, the list matches the ids one to one, in order |
| Store.EventsForParticipant | kotlin-app/src/main/kotlin/com/eventplanner/persistence/DataStore.kt:190-192 | the result holds exactly the stored events that list the id; order and multiplicity are those of the store (Store.EventsForParticipantInOrder) |
| Store.EventsForParticipantInOrder | kotlin-app/src/main/kotlin/com/eventplanner/persistence/DataStore.kt:191 | the filter distributes over concatenation and keeps a single event exactly when it lists the id, so it keeps the store's order and multiplicity |
| Store.EmptyStoreInvariant | kotlin-app/src/main/kotlin/com/eventplanner/persistence/DataStore.kt:13-18 | the empty store satisfies the invariant that every event's list is duplicate-free and within capacity |
| Store.AddEventPreservesInvariant | kotlin-app/src/main/kotlin/com/eventplanner/persistence/DataStore.kt:72-75 | adding an event that keeps its own invariant keeps the store invariant |
| Store.UpdateEventPreservesInvariant | kotlin-app/src/main/kotlin/com/eventplanner/persistence/DataStore.kt:77-83 | updating with such an event keeps the store invariant |
| Store.DeleteEventPreservesInvariant | kotlin-app/src/main/kotlin/com/eventplanner/persistence/DataStore.kt:85-89 | deleting an event keeps the store invariant |
| Store.RegisterPreservesInvariant | kotlin-app/src/main/kotlin/com/eventplanner/persistence/DataStore.kt:166-176 | registering keeps the store invariant |
| Store.UnregisterPreservesInvariant | kotlin-app/src/main/kotlin/com/eventplanner/persistence/DataStore.kt:178-183 | unregistering keeps the store invariant |
| Store.DeleteParticipantPreservesInvariant | kotlin-app/src/main/kotlin/com/eventplanner/persistence/DataStore.kt:132-139 | deleting a participant keeps the store invariant |
| SessionForm.ValidateTimeFormat | kotlin-app/src/main/kotlin/com/eventplanner/ui/SessionView.kt:280-288 | accepted exactly when the text matches the screen's pattern: an hour 0 to 23 in one or two digits (00 to 19 may carry a leading zero), a colon, and minutes 00 to 59; the empty text is "required", any other failure reports the format message |
| SessionForm.RegexIsShortClockText | kotlin-app/src/main/kotlin/com/eventplanner/ui/SessionView.kt:284-285 | the pattern matches exactly the clock texts of at most five characters |
| SessionForm.RegexNotBlank | kotlin-app/src/main/kotlin/com/eventplanner/ui/SessionView.kt:284-287 | a matching time is never blank, so it passes the constructor's blank check |
| SessionForm.RegexAcceptedValidates | kotlin-app/src/main/kotlin/com/eventplanner/ui/SessionView.kt:284-287 | every text the pattern accepts is accepted by `validateTime`, and both `validateTime` and `durationMinutes` read it as the same minute of the day |
| SessionForm.ValidateTimeAcceptsMore | kotlin-app/src/main/kotlin/com/eventplanner/ui/SessionView.kt:284 | `validateTime` accepts `24:00` and `009:30`, which the pattern refuses |
| SessionForm.RegexRejects | kotlin-app/src/main/kotlin/com/eventplanner/ui/SessionView.kt:280-288 | `24:00`, `9:5` and `09:00 AM` are refused, the empty text is "required", and a blank one gets the format message |
| SessionForm.SessionOfForm | kotlin-app/src/main/kotlin/com/eventplanner/ui/SessionView.kt:195-207 | adding succeeds exactly when both trimmed times match the pattern and the title is not blank, and the session holds the trimmed fields; otherwise the start time's message comes first ("is required" when empty, else the format message), then the end time's, then the constructor's blank-title message |
| SessionForm.FormSessionDuration | kotlin-app/src/main/kotlin/com/eventplanner/ui/SessionView.kt:196-197 | a session whose times pass the pattern, as every session the form builds does, has clock-text times, so its duration never throws and is the end's minute of the day minus the start's: zero or negative when the end is not later |
| SessionForm.FormIgnoresTimeOrder | kotlin-app/src/main/kotlin/com/eventplanner/ui/SessionView.kt:196-207 | swapping the start and end fields never changes whether adding succeeds: the two times are not compared |
| SessionForm.FormAcceptsBackwardsTimes | kotlin-app/src/main/kotlin/com/eventplanner/ui/SessionView.kt:196-207 | the form accepts a session from 10:00 to 09:00, which lasts -60 minutes, because add checks only the format and never that the end comes after the start |
| SessionForm.UpdatedSessionOfForm | kotlin-app/src/main/kotlin/com/eventplanner/ui/SessionView.kt:225-236 | updating succeeds under the same condition as adding and keeps the selected session's id and event id |
| SessionForm.UpdateIsAddUnderSameIds | kotlin-app/src/main/kotlin/com/eventplanner/ui/SessionView.kt:225-236 | updating gives exactly what adding the same form would under the selected session's ids, so update too never compares the two times |
| SessionForm.FormBuildsReady | kotlin-app/src/main/kotlin/com/eventplanner/ui/SessionView.kt:195-207 | every session that adding builds has trimmed fields, times that match the pattern and a non-blank title |
| SessionForm.FormRoundTrip | kotlin-app/src/main/kotlin/com/eventplanner/ui/SessionView.kt:229-268 | filling the form from such a session and pressing update gives that session back unchanged |

## Left out

- Identifiers: `UUID.randomUUID()` defaults are not modelled. Every id is a parameter.
- `loadData` and `saveData` are not modelled. They do JSON file I/O, and `saveData`'s possible failure would be an I/O exception. Every store operation is a pure function from the old store to the new one.
- The `getAll*` functions are left out. They only return copies of the lists; the model's store is a value, so the lists are read directly.
- Aliasing is not modelled. `getEventById` returns the stored object itself, and `copy` shares the mutable list of registered ids. Updates go through the store operations instead.
- `Venue.hourlyRate` and its `hourlyRate >= 0` check, and `validateNonNegativeDouble`, are left out because they are floating point.
- `validateFutureDate` is left out because it reads the system clock.
- Years written with a sign and more than four digits (`+10000-1-1`) are not accepted. Digits outside ASCII are not accepted in numbers, although `toIntOrNull` accepts any Unicode decimal digit. For dates and times this is exact: the `java.time` patterns use the standard decimal style, which reads only ASCII digits.
- UTF-16 is not modelled. A Dafny `char` is a Unicode scalar value, so a character outside the Basic Multilingual Plane has length 1 here and 2 on the JVM. No modelled result depends on the length of non-ASCII text.
- `EventType` and `EventStatus` appear as plain enumerations. Their JSON names are not modelled.
- The rest of the session screen is not modelled: the JavaFX widgets, alerts, table loading, confirmation dialogs and `clearForm`. Only `validateTimeFormat` and the add/update paths are, with the form's text fields as a `Form` value.
- Events.DurationMinutes and Sessions.DurationMinutes: their own contracts give the error order, the `Int` range and the value for clock texts, but not the value for other texts that `toInt` reads, such as `"+7:-5"`. That value is stated once, on the shared code, in Durations.DurationMinutesValue, Durations.MinutesOfValue and Durations.PartsMinutesValue, as the 32-bit wrap of `endMinutes - startMinutes` and of `hours * 60 + minutes`. Repeating it on both classes makes their proofs several times larger.

## Findings

| source | as written | input that shows it | evidently intended | confidence | as-written member | corrected member |
|---|---|---|---|---|---|---|
| kotlin-app/src/main/kotlin/com/eventplanner/service/ValidationUtils.kt:127 | the year is printed with `toString()`, without padding to four digits | `formatDate("0999-3-5")` gives `999-03-05`, which `validateDate` refuses as not `YYYY-MM-DD` | the year padded to four digits, like month and day, so that the output is `YYYY-MM-DD` and validates again | not executed | Validation.FormatDateAsWritten, Validation.FormatDateAsWrittenShortYear | Validation.FormatDate, Validation.FormatDateIdempotent |
