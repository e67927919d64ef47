# Tuition sessions and the student registry, modelled in Dafny

This project models the core of a tuition-management address book: the date
and time of a tuition session (`SessionDate`), plain and weekly recurring
sessions, the rule that deletes one date of a recurring session by splitting
it, the `Student` record that owns a mutable list of sessions, and the
`UniqueStudentList` registry in which no two students share a name.

Modules, leaves first:

- `Wrappers` (Wrappers.dfy): `Option`, `Result` and `Outcome`, standing for the source's exceptions.
- `Calendar` (Calendar.dfy): the proleptic Gregorian calendar. A date is a day number (days since 0000-01-01). It is proved that this numbering and calendar dates are inverse to each other over the years 0000-9999. It is also proved that adding one to a day number steps the calendar date by the rule of `LocalDate.plusDays`: the next day of the month, else the 1st of the next month, else 1 January of the next year.
- `IsoFormat` (IsoFormat.dfy): strict parsing and printing of `YYYY-MM-DD` (ISO 8601:2004 section 4.1.2.2), `HH:MM` (section 4.2.2.3) and `YYYY-MM-DDTHH:MM` (section 4.3.2), as java.time's ISO formatters do. Printing then parsing gives the value back. A date or time text that parses is exactly the printed form of its value. A combined text that parses is the printed form too, except that a lower-case `t` designator prints back as `T`.
- `SessionDates` (SessionDate.dfy): `SessionDate`, a `LocalDateTime` of a day number and a minute of the day. It has its two constructors (as `Result`-returning functions), `getDateTime`, `equals`, `addDays` and `minusDays`.
- `Sessions` (Session.dfy): `Session = Plain(date, details) | Recurring(first, last, details)`, its weekly invariant, the dates it stands for, and `DeleteOccurrence`, the split that returns 0, 1 or 2 replacements.
- `Students` (Student.dfy): class `Student`. It has seven `const` fields and one mutable `sessions` sequence, plus `addSession`, `isSameStudent` (weak equality) and `equals` (strong equality).
- `Registry` (UniqueStudentList.dfy): class `UniqueStudentList` over a `seq<Student>`. Its invariant is that names are distinct. It has `add`, `remove`, `setStudent`, both `setStudents`, `contains`, `hasName`, `hasSession` and `deleteSessionInRecurringSession`, which rewrites a student's session list in place.
- `RegistryScenarios` (RegistryScenarios.dfy): each assertion of UniqueStudentListTest.java, stated for arbitrary students, dates and details, and proved from the contracts above.

Modelling decisions:

- The behaviour of `UniqueStudentList`, `Session` and `RecurringSession` is taken from the assertions of UniqueStudentListTest.java. `contains` and the duplicate checks compare names (`isSameStudent`), while `setStudent` and `remove` locate their target with `equals`, as `List.indexOf` and `List.remove` do.
- A recurring session's invariant is: first date <= last date, a whole number of weeks apart, at the same time of day. The tests always build both ends with the same time.
- Deleting a date that the session does not stand for is refused with an error, and the list is left unchanged. No test fixes the behaviour in that case. If the session at the index is plain, it is removed when its date is the one given.
- The session index is the zero-based position.
- `deleteSessionInRecurringSession` edits the session list of the `Student` passed in. It does not look that student up in the registry, so a student who is not in the list is edited all the same.
- Session attributes other than dates (duration, subject, fee) are an opaque `SessionDetails` value. Session equality is value equality.
- Test-side mutations are modelled on new students copied from the given ones. These are `getListOfSessions().clear()` and the varargs `addSessions`, and the model assigns the expected list directly. Registry equality (`assertEquals` on two registries) becomes equality of the entry sequences.

## Model

| member | source | states |
|---|---|---|
| Calendar.CivilFromDayNumber | src/main/java/seedu/address/model/session/SessionDate.java:28 | a valid calendar date (month 1-12, a day its month has, year 0000-9999) converts to a day number and back unchanged |
| Calendar.DayNumberOfCivil | src/main/java/seedu/address/model/session/SessionDate.java:28 | every day number in the years 0000-9999 is the number of exactly one valid calendar date |
| Calendar.DayNumberInjective | src/main/java/seedu/address/model/session/SessionDate.java:70 | distinct calendar dates have distinct day numbers, so comparing day numbers compares LocalDates |
| Calendar.YearOfFinds | src/main/java/seedu/address/model/session/SessionDate.java:28 | walking year lengths from a start year finds the year and offset of any day |
| Calendar.YearOfBounds | src/main/java/seedu/address/model/session/SessionDate.java:28 | the year found is at or after the start, and year lengths plus offset add back up to the day |
| Calendar.MonthOfFinds | src/main/java/seedu/address/model/session/SessionDate.java:28 | the month search returns the month whose days contain the day of the year |
| Calendar.MonthOfBounds | src/main/java/seedu/address/model/session/SessionDate.java:28 | whatever month the search returns contains the day of the year |
| Calendar.StepsUndoEachOther | src/test/java/seedu/address/model/student/UniqueStudentListTest.java:254-257 | for any valid date, the day after the day before, and the day before the day after, is that date |
| Calendar.NextDayWithinYear | src/test/java/seedu/address/model/student/UniqueStudentListTest.java:207-208 | before 31 December, the next calendar date is valid and has the next day number |
| Calendar.NextDayAtYearEnd | src/test/java/seedu/address/model/student/UniqueStudentListTest.java:207-208 | the day numbered one after 31 December of a year is 1 January of the following year |
| Calendar.NextDayOfDayNumber | src/test/java/seedu/address/model/student/UniqueStudentListTest.java:207-208 | the day numbered k + 1 is the calendar date after the day numbered k |
| Calendar.PreviousDayOfDayNumber | src/test/java/seedu/address/model/student/UniqueStudentListTest.java:230-231 | the day numbered k - 1 is the calendar date before the day numbered k |
| Calendar.DaysLaterOfDayNumber | src/test/java/seedu/address/model/student/UniqueStudentListTest.java:257 | adding n to a day number moves its calendar date n days forward, one calendar step at a time |
| Calendar.DaysEarlierOfDayNumber | src/test/java/seedu/address/model/student/UniqueStudentListTest.java:254 | subtracting n from a day number moves its calendar date n days back, one calendar step at a time |
| Calendar.YearOfMonotone | src/main/java/seedu/address/model/session/SessionDate.java:28 | a later day number never falls in an earlier year |
| Calendar.FourDigitYearsDownward | src/main/java/seedu/address/model/session/SessionDate.java:28 | every day number between 0 and a day in the years 0000-9999 is itself in those years |
| Calendar.YearsSpanStep | src/main/java/seedu/address/model/session/SessionDate.java:28 | the days of years lo..hi are those of lo..hi-1 plus the length of year hi |
| Calendar.YearsSpanSplit | src/main/java/seedu/address/model/session/SessionDate.java:28 | counting the days of a span of years splits at any year in between |
| Calendar.WeekEitherSide | src/test/java/seedu/address/model/student/UniqueStudentListTest.java:245-257 | one week before 2021-04-22 is 2021-04-15 and one week after is 2021-04-29 |
| Calendar.WeekAcrossLeapDayAndYearEnd | src/test/java/seedu/address/model/student/UniqueStudentListTest.java:299-301 | a week after 2024-02-26 is 2024-03-04 (across 29 February) and a week before 2021-01-03 is 2020-12-27 |
| IsoFormat.LocalDateRoundTrip | src/main/java/seedu/address/model/session/SessionDate.java:28 | parsing the printed YYYY-MM-DD form of a day gives that day back |
| IsoFormat.ParseLocalDate | src/main/java/seedu/address/model/session/SessionDate.java:28 | a date text parses only when it is exactly the printed YYYY-MM-DD form of the day it denotes, a day in the years 0000-9999 |
| IsoFormat.LocalTimeRoundTrip | src/main/java/seedu/address/model/session/SessionDate.java:29 | parsing the printed HH:MM form of a time gives that time back |
| IsoFormat.ParseLocalTime | src/main/java/seedu/address/model/session/SessionDate.java:29 | a time text parses only when it is exactly the printed HH:MM form of a time 00:00-23:59 |
| IsoFormat.LocalDateTimeRoundTrip | src/main/java/seedu/address/model/session/SessionDate.java:45 | parsing the printed YYYY-MM-DDTHH:MM form gives the day and time back |
| IsoFormat.ParseLocalDateTime | src/main/java/seedu/address/model/session/SessionDate.java:45 | a combined text parses only when it has 16 characters with T or t at position 10, the part before is the printed date and the part after the printed time |
| IsoFormat.LocalDateTimeCanonical | src/main/java/seedu/address/model/session/SessionDate.java:45 | a combined text that parses prints back as itself with the designator written T, so exactly as itself when it was written with T |
| SessionDates.FromDateAndTime | src/main/java/seedu/address/model/session/SessionDate.java:26-36 | success exactly when both texts parse; the result prints back as exactly the given date and time; a failure carries the date text if the date is bad, otherwise the time text |
| SessionDates.FromDateTime | src/main/java/seedu/address/model/session/SessionDate.java:43-50 | success exactly when the combined text parses; the result prints back as its date and time parts; a failure carries the text |
| SessionDates.FromDateAndTimeOfPrinted | src/main/java/seedu/address/model/session/SessionDate.java:26-32 | construction from the printed date and time of any SessionDate yields that SessionDate, so getDateTime returns what was written |
| SessionDates.FromDateTimeOfPrinted | src/main/java/seedu/address/model/session/SessionDate.java:43-46 | construction from the printed combined form of any SessionDate yields it |
| SessionDates.ConstructorsAgree | src/main/java/seedu/address/model/session/SessionDate.java:26-50 | the two constructors succeed on the same inputs (date, T, time) and build the same value |
| SessionDates.SessionDate.GetDateTime | src/main/java/seedu/address/model/session/SessionDate.java:52-54 | the LocalDateTime handed out is the whole state: the SessionDate is rebuilt from it unchanged |
| SessionDates.SessionDate.GetDate | src/test/java/seedu/address/model/student/UniqueStudentListTest.java:254 | the LocalDate part, which together with the time of day makes up the LocalDateTime |
| SessionDates.SessionDate.Equals | src/main/java/seedu/address/model/session/SessionDate.java:59-72 | equals holds exactly when the other object is a SessionDate with the same LocalDate and LocalTime, that is, the same value |
| SessionDates.EqualsIsEquivalence | src/main/java/seedu/address/model/session/SessionDate.java:59-72 | equals is reflexive, symmetric and transitive, and false for an object of another class |
| SessionDates.SessionDate.AddDays | src/test/java/seedu/address/model/student/UniqueStudentListTest.java:207-208 | the result has the same time of day and a day number n higher; inside the years 0000-9999 its calendar date is the one reached by stepping n days forward through month ends, year ends and leap days |
| SessionDates.SessionDate.MinusDays | src/test/java/seedu/address/model/student/UniqueStudentListTest.java:230-231 | the result has the same time of day and a day number n lower; inside the years 0000-9999 its calendar date is the one reached by stepping n days back through month starts, year starts and leap days |
| SessionDates.MinusDaysUndoesAddDays | src/test/java/seedu/address/model/student/UniqueStudentListTest.java:254-257 | adding then subtracting n days, or the reverse, returns the original SessionDate |
| SessionDates.AddDaysCompose | src/test/java/seedu/address/model/student/UniqueStudentListTest.java:299-301 | adding m days then n days is adding m + n days |
| Sessions.WeeklyRun | src/test/java/seedu/address/model/student/UniqueStudentListTest.java:283-306 | a run of weekly dates becomes a plain session when it has one date and a recurring one otherwise (so it is plain exactly when it stands for one date), and stands for exactly those dates |
| Sessions.DeleteOccurrence | src/test/java/seedu/address/model/student/UniqueStudentListTest.java:193-306 | refused exactly when the date is not one of the session's; at most two replacements, carrying the original details; none exactly when the session had one date; two exactly when the date lies strictly inside the series, the earlier piece first and a one-week gap around the deleted date; each replacement is plain exactly when it stands for a single date, recurring otherwise |
| Sessions.DeleteOccurrenceRemovesExactlyTarget | src/test/java/seedu/address/model/student/UniqueStudentListTest.java:193-306 | the replacements stand for exactly the original dates minus the deleted one |
| Sessions.DeleteFirstOccurrence | src/test/java/seedu/address/model/student/UniqueStudentListTest.java:193-214 | deleting the first date of a series of three or more dates leaves one recurring session from the second date to the last |
| Sessions.DeleteLastOccurrence | src/test/java/seedu/address/model/student/UniqueStudentListTest.java:217-238 | deleting the last date leaves one recurring session from the first date to the week before the last |
| Sessions.DeleteMiddleOccurrence | src/test/java/seedu/address/model/student/UniqueStudentListTest.java:241-264 | deleting an inner date d leaves recurring first..d-7 and then recurring d+7..last, in that order |
| Sessions.DeleteOnlyOccurrence | src/test/java/seedu/address/model/student/UniqueStudentListTest.java:267-281 | deleting the only date of a one-date series leaves nothing |
| Sessions.DeleteSecondOccurrence | src/test/java/seedu/address/model/student/UniqueStudentListTest.java:284-306 | deleting the second date leaves a plain session on the first date, then recurring from the third date to the last |
| Sessions.DeleteFromTwoDateSeries | src/test/java/seedu/address/model/student/UniqueStudentListTest.java:284-306 | deleting either date of a two-date series leaves a plain session on the other |
| Students.Student.constructor | src/main/java/seedu/address/model/student/Student.java:34-45 | the seven fields are the given values and the session list starts empty |
| Students.Student.WithSessions | src/main/java/seedu/address/model/student/Student.java:58-69 | the seven fields and the session list are the given values |
| Students.Student.GetListOfSessions | src/main/java/seedu/address/model/student/Student.java:99-101 | the list handed out is the student's current session list, in the order the sessions were added |
| Students.Student.AddSession | src/main/java/seedu/address/model/student/Student.java:107-110 | the session is appended: the list grows by one, the earlier sessions and every const field are unchanged |
| Students.Student.IsSameStudent | src/main/java/seedu/address/model/student/Student.java:116-123 | true exactly when the other student is not null and has the same name |
| Students.Student.Equals | src/main/java/seedu/address/model/student/Student.java:129-148 | true exactly when the other object is a Student whose name, phone, email, address, study level, guardian phone, relationship and session list are all equal |
| Students.SameStudentIsEquivalence | src/main/java/seedu/address/model/student/Student.java:116-123 | isSameStudent is reflexive, symmetric and transitive, and false for null |
| Students.EqualsImpliesSameStudent | src/main/java/seedu/address/model/student/Student.java:122-147 | strong equality implies weak equality |
| Students.EqualsIsSymmetric | src/main/java/seedu/address/model/student/Student.java:129-148 | equals is reflexive and symmetric |
| Registry.IndexOf | src/test/java/seedu/address/model/student/UniqueStudentListTest.java:126-137 | -1 exactly when no entry is equal to the target; otherwise the first position whose entry is equal |
| Registry.AnySameStudentSharesName | src/test/java/seedu/address/model/student/UniqueStudentListTest.java:51-57 | the anyMatch over isSameStudent finds an entry exactly when some entry has the checked student's name |
| Registry.AnyNamedFinds | src/test/java/seedu/address/model/student/UniqueStudentListTest.java:180-190 | the name scan succeeds exactly when some entry has that name |
| Registry.AnyHasSessionFinds | src/test/java/seedu/address/model/student/UniqueStudentListTest.java:308-324 | the session scan succeeds exactly when some entry's session list holds that session |
| Registry.StudentsAreUnique | src/test/java/seedu/address/model/student/UniqueStudentListTest.java:168-172 | the pairwise isSameStudent check returns true exactly when no two entries share a name (an entry listed twice fails it) |
| Registry.NamesDistinctWithout | src/test/java/seedu/address/model/student/UniqueStudentListTest.java:131-137 | removing one entry keeps the names distinct |
| Registry.ReplaceAtIndexCovers | src/test/java/seedu/address/model/student/UniqueStudentListTest.java:211 | replacing an entry with sessions that stand for its dates minus one leaves the list standing for the same dates minus that one |
| Registry.UniqueStudentList.constructor | src/test/java/seedu/address/model/student/UniqueStudentListTest.java:33 | a new registry is empty and satisfies the distinct-names invariant |
| Registry.UniqueStudentList.Contains | src/test/java/seedu/address/model/student/UniqueStudentListTest.java:40-57 | true exactly when some entry has the checked student's name, whatever its other fields |
| Registry.UniqueStudentList.HasName | src/test/java/seedu/address/model/student/UniqueStudentListTest.java:180-190 | true exactly when some entry has that name |
| Registry.UniqueStudentList.HasSession | src/test/java/seedu/address/model/student/UniqueStudentListTest.java:308-324 | true exactly when some entry's session list holds that session |
| Registry.UniqueStudentList.Add | src/test/java/seedu/address/model/student/UniqueStudentListTest.java:45-68 | refused as a duplicate, leaving the list unchanged, exactly when a student with that name is present; otherwise appended; names stay distinct |
| Registry.UniqueStudentList.SetStudent | src/test/java/seedu/address/model/student/UniqueStudentListTest.java:80-119 | not found when no entry equals the target; duplicate when the edited student has a different name that an entry already has; otherwise the target's entry is replaced in place; names stay distinct |
| Registry.UniqueStudentList.Remove | src/test/java/seedu/address/model/student/UniqueStudentListTest.java:126-137 | not found when no entry equals the student; otherwise the first equal entry is removed and the rest keep their order |
| Registry.UniqueStudentList.SetStudentsFrom | src/test/java/seedu/address/model/student/UniqueStudentListTest.java:144-151 | the contents become exactly the other registry's contents |
| Registry.UniqueStudentList.SetStudents | src/test/java/seedu/address/model/student/UniqueStudentListTest.java:158-172 | refused as a duplicate, list unchanged, exactly when two given students share a name; otherwise the contents become exactly the given list |
| Registry.UniqueStudentList.DeleteSessionInRecurringSession | src/test/java/seedu/address/model/student/UniqueStudentListTest.java:193-306 | an index past the end is refused; otherwise the entry at the index is replaced in place by the split's replacements, the entries around it keep their order, and the list then stands for exactly its former dates minus the deleted one in that entry; any refusal leaves the list unchanged |
| RegistryScenarios.WithAddress | src/test/java/seedu/address/model/student/UniqueStudentListTest.java:54-55 | an edited copy has the same name and the new address |
| RegistryScenarios.ContainsByName | src/test/java/seedu/address/model/student/UniqueStudentListTest.java:40-57 | contains is false before adding, true after, and true for a copy with a different address |
| RegistryScenarios.AddDuplicate | src/test/java/seedu/address/model/student/UniqueStudentListTest.java:64-68 | the second add of the same student is refused as a duplicate |
| RegistryScenarios.SetStudentNotInList | src/test/java/seedu/address/model/student/UniqueStudentListTest.java:80-83 | setStudent on an empty registry is not found |
| RegistryScenarios.SetStudentToItself | src/test/java/seedu/address/model/student/UniqueStudentListTest.java:85-92 | setting a student to itself leaves the registry holding just that student |
| RegistryScenarios.SetStudentSameIdentity | src/test/java/seedu/address/model/student/UniqueStudentListTest.java:94-103 | setting a student to a same-name copy with another address leaves just the copy |
| RegistryScenarios.SetStudentDifferentIdentity | src/test/java/seedu/address/model/student/UniqueStudentListTest.java:105-112 | setting a student to another student leaves just the other student |
| RegistryScenarios.SetStudentNonUniqueIdentity | src/test/java/seedu/address/model/student/UniqueStudentListTest.java:114-119 | setting one student to another registered student is refused as a duplicate and both stay |
| RegistryScenarios.RemoveAbsent | src/test/java/seedu/address/model/student/UniqueStudentListTest.java:126-129 | removing from an empty registry is not found |
| RegistryScenarios.RemoveOnlyStudent | src/test/java/seedu/address/model/student/UniqueStudentListTest.java:131-137 | removing the only student leaves an empty registry |
| RegistryScenarios.SetStudentsFromRegistry | src/test/java/seedu/address/model/student/UniqueStudentListTest.java:144-151 | taking over a registry holding only Bob leaves only Bob |
| RegistryScenarios.SetStudentsFromList | src/test/java/seedu/address/model/student/UniqueStudentListTest.java:158-166 | taking over the list [Bob] leaves only Bob |
| RegistryScenarios.SetStudentsWithDuplicates | src/test/java/seedu/address/model/student/UniqueStudentListTest.java:168-172 | taking over [Alice, Alice] is refused as a duplicate and the registry stays empty |
| RegistryScenarios.HasNameAfterAdd | src/test/java/seedu/address/model/student/UniqueStudentListTest.java:180-190 | after adding Alice, Bob's name is absent and Alice's present |
| RegistryScenarios.HasSessionAfterAdd | src/test/java/seedu/address/model/student/UniqueStudentListTest.java:308-324 | a session of a registered student is found and a different session is not |
| RegistryScenarios.DeleteFromSeries | src/test/java/seedu/address/model/student/UniqueStudentListTest.java:192-306 | the common frame of the deletion tests: the deletion succeeds exactly when the date is in the series, and Amy's list is then the split's replacements |
| RegistryScenarios.DeleteAtSeriesStart | src/test/java/seedu/address/model/student/UniqueStudentListTest.java:192-214 | after deleting the first date, Amy's sessions equal Bob's expected [first+7..last] |
| RegistryScenarios.DeleteAtSeriesEnd | src/test/java/seedu/address/model/student/UniqueStudentListTest.java:216-238 | after deleting the last date, Amy's sessions equal Bob's expected [first..last-7] |
| RegistryScenarios.DeleteInSeriesMiddle | src/test/java/seedu/address/model/student/UniqueStudentListTest.java:240-264 | after deleting an inner date, Amy's sessions equal Bob's two expected halves |
| RegistryScenarios.DeleteSingleDaySeries | src/test/java/seedu/address/model/student/UniqueStudentListTest.java:266-281 | after deleting the only date, both lists are empty |
| RegistryScenarios.DeleteLeavingPlainFirstHalf | src/test/java/seedu/address/model/student/UniqueStudentListTest.java:283-306 | after deleting the second date, Amy's sessions equal Bob's expected plain first date then recurring from the third |

## Left out

- The monthly fee engine is not modelled. This covers MonthlyFeeListPanel.java, GetMonthlyFeeCommandTest.java, FeeUtil and ModelManager.getFeePerStudent. It is JavaFX wiring, reads the wall clock, sums fees as doubles and formats them with two decimals. FeeUtil and ModelManager.getFeePerStudent are outside the modelled core.
- Null-argument checks and their NullPointerException tests are not modelled: Dafny references used here are non-null by type.
- asUnmodifiableObservableList (a JavaFX read-only view), Student.hashCode and Student.toString are not modelled.
- Name, Phone, Email and Address validation is not modelled: these classes are not part of this model; they are opaque values with equality.
- Parsing accepts only the YYYY-MM-DD, HH:MM and YYYY-MM-DDTHH:MM forms with years 0000-9999. java.time also accepts seconds, fractions of a second, a year with a leading minus sign ("-0001-01-01"), and a year of more than four digits with a sign. Those wider inputs are reported as failures here.
- IsoFormat.FormatLocalDate: requires a day in the years 0000-9999. java.time prints a negative year with a minus sign and at least four digits ("-0001"), and a year after 9999 with a plus sign.
- SessionDates.SessionDate.AddDays: day numbers are unbounded. java.time throws DateTimeException beyond year ±999999999, and that is not modelled. The calendar reading of the result is proved only inside the years 0000-9999, and the same holds for SessionDates.SessionDate.MinusDays.
- Students.Student.GetListOfSessions: returns the session list as a value. The source hands out its mutable ArrayList, and the constructor that takes a list keeps the caller's list. That aliasing is not modelled.
- SessionDate.java defines no compareTo, so no ordering is modelled.
