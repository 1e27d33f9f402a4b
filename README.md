# Hamster hotel reservation server, modelled in Dafny

This project models the core of `server.js`, a small Node.js HTTP server for a hamster boarding site. The server does two jobs. It takes reservation requests at `POST /api/reservations`, validates them and appends the accepted ones to a reservation log. It also serves the site's static files from its own directory.

The model covers:

- **Date helpers** (`dates.dfy`, over `calendar.dfy`):
  - `parseDateValue`, `addDays` and `formatDateInputValue`.
  - A JavaScript `Date` is modelled as a calendar day: a day number counted from 1970-01-01, or the Invalid Date.
  - The `Date` constructor is modelled as ECMAScript defines it (MakeDay, MakeFullYear, TimeClip). So months and days roll over (`2024-02-30` is 1 March), years 0 to 99 are read as 1900 to 1999, and dates beyond ±100,000,000 days become the Invalid Date.
- **`validateReservation`** (`validation.dfy`, `validation_facts.dfy`):
  - The method builds the error messages in the order the source pushes them.
  - It is proved equal to a specification function, `ValidationErrors`.
  - Lemmas state what each error means, that the errors are cumulative, and in which order they come.
  - The email regular expression `^[^\s@]+@[^\s@]+\.[^\s@]+$` is modelled twice: as a pattern (three runs joined by `@` and `.`) and as a direct test. The two are proved equivalent.
- **`getSafeFilePath` and `extname`** (`paths.dfy`):
  - POSIX `path.join`, `path.normalize` and `path.extname`.
  - The final `startsWith(ROOT)` test is a string-prefix test, as written.
- **The request handler** (`server.dfy`):
  - A class `ReservationServer` holds the reservation log as a sequence field.
  - Its methods decide each response: status, content type and JSON body, or file bytes.
  - The submission method decides whether one log record is appended.

Dafny's standard library is not used. `js_text.dfy` models the few JavaScript built-ins the server relies on: `split`, `trim`, `Number` on digit strings, `String(n)`, `padStart`, `startsWith`, `includes` and `toLowerCase`. It also holds the `Option` type, whose `None` stands for `null`.

Inputs that come from outside the code become parameters:

- The current calendar day (`today`) and the timestamp of a log record (`now`).
- The result of reading a file (`readFile`).
- Whether the log append succeeded (`appendSucceeds`).
- The results of `JSON.parse` and `URLSearchParams` (`parseJson`, `parseForm`).
- The pathname after `decodeURIComponent` (a request field).

## Model

| member | source | states |
|---|---|---|
| `JsText.TrimEmptyIffBlank` | server.js:50 | `!s.trim()` holds exactly when the string is empty or whitespace only |
| `JsText.JoinOfSplit` | server.js:27 | joining the pieces of `split("-")` gives the text back |
| `JsText.SplitOfJoin` | server.js:27 | pieces without the separator, joined, split back into themselves |
| `JsText.SplitPiecesPlain` | server.js:27 | no piece of `split(sep)` holds the separator |
| `JsText.SplitAtSeparator` | server.js:131 | splitting two texts joined by `/` splits each of them |
| `JsText.SplitWithoutSeparator` | server.js:131 | a text without the separator is one piece |
| `JsText.ToNumber` | server.js:27-28 | `Number(part)` is a number exactly for digit strings, and then the value of its digits |
| `JsText.NumberOfString` | server.js:27-28 | `Number` reads back what `String(n)` prints, and reads the empty string as 0 |
| `JsText.NatToString` | server.js:40-41 | `String(n)` gives digits without a leading zero whose value is `n` |
| `JsText.ShortNatToString` | server.js:40-41 | a month or day number (below 100) prints as at most two digits |
| `JsText.PadStart` | server.js:40-41 | `padStart(2, "0")` keeps the text as a suffix, fills the front and reaches the length |
| `JsText.ZeroPaddingKeepsValue` | server.js:40-41 | zero padding keeps the value of a digit string |
| `JsText.IncludesIffOccurs` | server.js:101 | `includes` holds exactly when the text occurs at some index |
| `JsText.ToLowerAscii` | server.js:165 | lower-casing keeps the length; the case folding is stated by `LowerAsciiFolds` |
| `JsText.LowerAsciiFolds` | server.js:165 | the result holds no ASCII capital, a string without capitals is kept, and strings that differ only in ASCII case give the same result |
| `Calendar.CivilOf` | server.js:39-41 | `getFullYear`, `getMonth` and `getDate` give a valid calendar date whose day number is the date's |
| `Calendar.CivilOfDayOf` | server.js:33 | the calendar date of a date's day number is that date |
| `Calendar.DayOfInjective` | server.js:39-41 | two valid calendar dates with the same day number are the same date |
| `Calendar.YearMonotone` | server.js:57 | a later day is never in an earlier year |
| `Calendar.DayOfMonotone` | server.js:66 | later calendar dates have larger day numbers, so comparing dates compares days |
| `Calendar.MakeDayOfCivil` | server.js:33-34 | MakeDay reads a calendar date shifted by `k` days as its day number plus `k` |
| `Dates.NewDate` | server.js:29 | `new Date(year, monthIndex, date)` as ECMAScript defines it (MakeFullYear, MakeDay, TimeClip); what it means is stated by `ConstructorReadsCivil`, `DayRollsOver`, `DecemberRollsOver`, `MonthRollsOver`, `TwoDigitYears`, `DatesInRange` and `FarYearIsInvalid` |
| `Dates.DayRollsOver` | server.js:29 | a day past the end of a month (January to November) is the matching day of the next month |
| `Dates.DecemberRollsOver` | server.js:29 | a day past 31 December is the matching day of January of the next year |
| `Dates.MonthRollsOver` | server.js:29 | month index 12 is January of the next year, and month index -1 December of the previous year |
| `Dates.LeapFebruaryRollsOver` | server.js:25-30 | `2024-02-30` is read as the same date as `2024-03-01` |
| `Calendar.MakeDayMonthEnd` | server.js:29 | MakeDay counts a day past the end of a month into the next month |
| `Dates.TwoDigitYears` | server.js:29 | the constructor reads a year from 0 to 99 as the same year of the 1900s |
| `Dates.DatesInRange` | server.js:29-36 | every Date the constructor or `addDays` builds has a time value within ±100,000,000 days |
| `Dates.SetDate` | server.js:34 | `setDate` keeps year and month and rolls the day over; stated through `AddDaysShifts` |
| `Dates.AddDays` | server.js:32-36 | `addDays`; its meaning is stated by `AddDaysShifts` and `AddDaysPastRange` |
| `Dates.AddDaysPastRange` | server.js:32-36 | moving a date past ±100,000,000 days gives the Invalid Date, and adding days to the Invalid Date keeps it invalid |
| `Dates.ParseDateValue` | server.js:25-30 | `parseDateValue`; its contract is stated by `ParseDateValueAccepts`, `ParseDateText` and `ParseOfFormat` |
| `Dates.FormatDateInputValue` | server.js:38-43 | `formatDateInputValue`; its contract is stated by `FormatIsDateText`, `ParseOfFormat` and `ValidationFacts.FormattedNotBlank` |
| `Dates.ParseDateValueAccepts` | server.js:25-30 | `parseDateValue` gives a date exactly for three digit runs joined by `-` |
| `Dates.ParseDateText` | server.js:25-30 | three digit runs give `new Date(year, month - 1, day)` |
| `Dates.SplitsIntoThree` | server.js:27 | three runs without `-` split into exactly those three parts |
| `Dates.AddDaysShifts` | server.js:32-36 | `addDays` moves a date by whole days |
| `Dates.ParseOfFormat` | server.js:25-43 | `parseDateValue` reads what `formatDateInputValue` prints back as the same day |
| `Dates.FormatIsDateText` | server.js:38-43 | the printed form is the year, the month and the day joined by `-`, the month and the day exactly two digits each |
| `Dates.ConstructorReadsCivil` | server.js:29 | the constructor builds a calendar date from year 100 on as that very day |
| `Dates.FarYearIsInvalid` | server.js:29 | from year 300000 on the constructor gives the Invalid Date whatever the month and day |
| `Validation.EmailMatchesIffPattern` | server.js:74 | the direct email test accepts exactly the strings of the regular expression |
| `Validation.MatchesHasPattern` | server.js:74 | a string the direct test accepts splits into the three runs of the pattern |
| `Validation.PatternMatches` | server.js:74 | every string of the pattern passes the direct test |
| `Validation.CheckRequired` | server.js:47-53 | the loop over the required fields pushes the messages of `MissingFieldErrors` |
| `Validation.CheckDates` | server.js:59-71 | the four date checks push the messages of `DateErrors` in order |
| `Validation.CheckParsed` | server.js:59-64 | the two "must be a valid date" checks push their messages, check-in first |
| `Validation.CheckCompared` | server.js:66-71 | the lead-time check, whose message carries the printed earliest date, then the ordering check |
| `Validation.ValidationErrors` | server.js:45-79 | the errors of `validateReservation` in order; `ValidateReservation` is proved to push exactly their messages, and the lemmas of `ValidationFacts` state what they mean |
| `Validation.ValidateReservation` | server.js:45-79 | the pushed messages are those of `ValidationErrors`, in order |
| `ValidationFacts.MissingFieldsAreBlank` | server.js:49-53 | "is required." errors name exactly the listed fields that are absent or whitespace only |
| `ValidationFacts.MissingFieldsInOrder` | server.js:49-53 | those errors follow the list order, so in a list without repeats each field appears at most once |
| `ValidationFacts.RequiredFieldsDistinct` | server.js:47 | the five required field names are distinct |
| `ValidationFacts.RequiredComeFirst` | server.js:45-79 | all required-field errors come before every other error |
| `ValidationFacts.RequiredError` | server.js:49-53 | a field is reported as required iff it is one of the five and is blank |
| `ValidationFacts.DateChecks` | server.js:59-71 | each date error is present iff its condition holds; a missing date turns off the checks that use it |
| `ValidationFacts.ErrorsByStage` | server.js:45-79 | an error is in the list iff one of the three stages reports it |
| `ValidationFacts.InvalidDateError` | server.js:55-71 | an unparsable check-in or check-out adds its "valid date" error and suppresses the lead-time and ordering errors |
| `ValidationFacts.MissingCheckIn` | server.js:49-64 | a missing check-in is reported twice: required, and not a valid date |
| `ValidationFacts.LeadDateIsTwoDaysAhead` | server.js:57 | the earliest check-in is today plus two days, and its printed form reads back as that day |
| `ValidationFacts.TooSoonAndOutOfOrderReported` | server.js:66-71 | a check-in before the lead date and a check-out not after it draw both the lead-time and the ordering error, in that order, between the required errors and the email error |
| `ValidationFacts.LeadTimeError` | server.js:55-68 | the lead-time error, carrying the earliest date as printed, is present iff check-in parses to a day before today plus two |
| `ValidationFacts.OrderingError` | server.js:69-71 | the ordering error is present iff both dates parse and check-out is not after check-in |
| `ValidationFacts.EmailError` | server.js:73-76 | the email error is present iff the email is non-empty and does not match the pattern |
| `ValidationFacts.BlankEmail` | server.js:49-76 | a whitespace-only email gets both the required and the format error |
| `ValidationFacts.NoDateErrors` | server.js:59-71 | no date error iff both dates parse, check-in is not too soon and check-out is after check-in |
| `ValidationFacts.NoMissingFields` | server.js:49-53 | no required-field error iff no required field is blank |
| `ValidationFacts.AcceptedIff` | server.js:45-79 | the error list is empty iff no field is blank, no date check fails and the email matches |
| `ValidationFacts.FormattedNotBlank` | server.js:38-43 | a printed date is never blank |
| `ValidationFacts.AcceptsWellFormedBooking` | server.js:45-79 | a booking with printed dates at least two days ahead and in order, names and a valid email, is accepted |
| `ValidationFacts.InvalidDatesPass` | server.js:59-71 | an Invalid Date counts as a date and draws no date error |
| `Paths.Normalize` | server.js:131 | `path.normalize` on an absolute path; stated by `NormalizeIdempotent`, `NormalizedSegments` and `NamesOfPathOf` |
| `Paths.PathJoin` | server.js:131 | `path.join(ROOT, cleanPath)`; stated by `JoinNames`, `ClimbThenDescend` and `SiblingJoin` |
| `Paths.GetSafeFilePath` | server.js:128-134 | `getSafeFilePath`; stated by `SafeFilePath`, `ServesNamesBelowRoot`, `IndexForSlash`, `ParentRefused`, `ParentDirRefused` and `SiblingPasses` |
| `Paths.NormalizeIdempotent` | server.js:131 | `normalize` gives an absolute path that it leaves unchanged |
| `Paths.NormalizedSegments` | server.js:131 | a normalized path has no `.` or `..` segment |
| `Paths.ResolveNames` | server.js:131 | plain names are appended in order |
| `Paths.ResolveAppend` | server.js:131 | reading segments in two runs is reading them all |
| `Paths.ResolveGivesNames` | server.js:131 | only plain names are left after resolving `.` and `..` |
| `Paths.NamesOfPathOf` | server.js:131 | a path built from names reads back as those names |
| `Paths.JoinNames` | server.js:131 | joining a path of names onto a directory appends the names |
| `Paths.SafeFilePath` | server.js:128-134 | the result is the normalized join when it starts with the root, else null; a result is normalized and has no `..` segment |
| `Paths.PrefixOfBelow` | server.js:132 | a directory path is a string prefix of every path below it |
| `Paths.ServesNamesBelowRoot` | server.js:128-134 | a request for plain names is served from below the root |
| `Paths.IndexForSlash` | server.js:130-131 | `/` is served as `index.html` in the root |
| `Paths.ParentRefused` | server.js:128-134 | the decoded path `/..` climbs above the root and is refused |
| `Paths.ParentDirRefused` | server.js:128-134 | the decoded path `/../`, which `/..%2F` decodes to, climbs above the root and is refused |
| `Paths.ClimbThenDescend` | server.js:131 | `..` after the root removes its last name before the rest is appended |
| `Paths.SiblingPasses` | server.js:132 | `/../<last>-x/secret` (what `/..%2F<last>-x%2Fsecret` decodes to) passes the string test, though the path is not under `root/` |
| `Paths.SiblingJoin` | server.js:131 | joining `/../<last>-x/secret` onto the root climbs to its parent and descends into the sibling `<root>-x` |
| `Paths.SiblingPrefix` | server.js:132 | `<root>-x/secret` starts with the root as a string but not with `root/` |
| `Paths.LastDot` | server.js:165 | finds the last `.` of a name, or reports that there is none |
| `Paths.LastDotAt` | server.js:165 | a `.` with no `.` after it is the last one |
| `Paths.StripTrailingSlashes` | server.js:165 | the result is the path without its trailing `/` characters: a prefix of it, followed in it only by `/`, and not ending in `/` |
| `Paths.ExtName` | server.js:165 | `path.extname`; stated by `ExtNameShape`, `ExtNameOfFile` and `NoExtension` |
| `Paths.ExtNameShape` | server.js:165 | an extension is empty, or a `.` followed by text without `.` or `/` |
| `Paths.ExtNameOfFile` | server.js:165 | the extension of `dir/stem.ext` is `.ext` |
| `Paths.NoExtension` | server.js:165 | a name without a `.`, or a dot file, has no extension |
| `Server.ContentTypeFor` | server.js:165-166 | the MIME lookup with its octet-stream default; stated by `ContentTypeOfFile`, `ContentTypeKnown` and `ExtensionCaseIgnored` |
| `Server.ContentTypeOfFile` | server.js:165-166 | a file is served with the type of its lower-cased extension, or with octet-stream |
| `Server.ContentTypeKnown` | server.js:166 | a served content type is one of the table's or the default |
| `Server.ExtensionCaseIgnored` | server.js:165-166 | two extensions that differ only in ASCII case give the same content type |
| `Server.UpperCaseHtml` | server.js:165-166 | `INDEX.HTML` is served as `text/html; charset=utf-8` |
| `Server.IndexIsHtml` | server.js:165-166 | `index.html` is served as `text/html; charset=utf-8` |
| `Server.ServeStatic` | server.js:149-171 | the static file answer for GET and HEAD; stated by `StaticStatuses`, `HeadLikeGet` and `IndexServed` |
| `Server.StaticResponse` | server.js:144-171 | 405 for other methods, else the static file answer; stated by `MethodNotAllowed` and `StaticStatuses` |
| `Server.SubmittedPayload` | server.js:97-106 | the payload read from the body by its content type; stated by `EmptyJsonBody` and `FormBodyAnswered` |
| `Server.SubmitOutcome` | server.js:108-124 | unreadable, invalid with the validator's messages, or valid; stated by `SubmissionResponses` and `SubmissionLog` |
| `Server.SubmissionResponses` | server.js:95-126 | 500 iff the body cannot be read or parsed; 400 iff there are validation errors, with `error` = `errors[0]`; 201 otherwise; always JSON |
| `Server.SubmissionLog` | server.js:108-122 | a rejected submission leaves the log unchanged; an accepted one with a successful append adds exactly one record holding the payload as received |
| `Server.EmptyJsonBody` | server.js:101-102 | an empty JSON body is parsed as `{}` |
| `Server.FormBodyAnswered` | server.js:103-105 | a form body that arrives is answered with 201 or 400, never 500 |
| `Server.MethodNotAllowed` | server.js:144-147 | methods other than GET and HEAD get 405 |
| `Server.HeadLikeGet` | server.js:166-171 | HEAD gets the status and content type of GET, without the bytes |
| `Server.StaticStatuses` | server.js:149-171 | the static statuses and what each says about the path and the read; a 200 path starts with the root |
| `Server.IndexServed` | server.js:128-166 | `GET /` serves the root's `index.html` as HTML |
| `Server.ParentPathRefused` | server.js:149-153 | a GET whose pathname decodes to `/../` (such as `/..%2F`) is answered 400 "Invalid path." |
| `Server.ReservationServer.HandleReservationSubmit` | server.js:95-126 | the response is that of the submission's outcome; the log grows by one record only for an accepted submission whose append succeeds |
| `Server.ReservationServer.HandleRequest` | server.js:136-172 | API POSTs go to the submission handler; everything else gets the static response and leaves the log unchanged |

## Left out

- `collectBody` is not modelled. Its outcome is a request field: the body text, or a failure (stream error, or more than 1,000,000 characters). The handler answers a failure with 500, as the code does. A size limit reported as a client error is not what the code does.
- `JSON.parse`, `URLSearchParams`, `decodeURIComponent` and `new URL` are library parsers. Their results are parameters: `parseJson`, `parseForm`, and the request's `pathname` and `decodedPath`. A malformed percent escape, which makes `decodeURIComponent` throw outside any `try`, is not modelled.
- `new URL` resolves `.` and `..` segments, and their percent-encoded forms, before the handler sees the pathname. A literal `GET /..` therefore arrives as `/` and is served `index.html`. A climb reaches `getSafeFilePath` only through an encoded slash, as in `/..%2F`. The model takes the pathname as given and does not relate it to the raw request URL.
- Server.SubmittedPayload: takes the JSON payload as a map of strings. A JSON value that is not an object of strings is not modelled, for example a number in `check-in` that makes `split` throw (answered 500 by the `catch`).
- Dates.ParseDateValue: reads a part as a number only when it is a run of ASCII digits (the empty run being 0). The rest of `Number`'s coercion is not modelled: surrounding whitespace, signs, decimals, exponents, hex and `Infinity`. Such parts are read as NaN. So `Infinity-01-01`, which the code turns into the Invalid Date and then accepts without a date error, is rejected by the model as not a valid date.
- Time zones and daylight-saving time are not modelled. A date is its local calendar day, and `new Date()` is given as that day (`today`).
- `fs.readFile`, `fs.appendFile`, `http.createServer`, `server.listen` and `console.log` are I/O. A read is an abstract result: contents, missing file, or other failure. An append is a flag saying whether it succeeded. The log's line format (`JSON.stringify(record)` plus a newline) and the ISO timestamp are not modelled. The timestamp is the string `now`.
- Server.ContentTypeFor: lower-cases only the ASCII letters of the extension. Full Unicode `toLowerCase` is not modelled.
- Dates.DayRollsOver, Dates.DecemberRollsOver, Dates.MonthRollsOver: stated for years from 100 (101 for a month index of -1) on. For years 0 to 99 the constructor re-reads the year as 1900 to 1999 (see TwoDigitYears), so a rollover there does not land in the next year of the same century.
- ValidationFacts.LeadTimeError: is stated for a `today` from the year 100 on. For years 0 to 99, `addDays` re-reads the year as 1900 to 1999.
- Dates.ParseOfFormat: is stated from the year 100 on for the same reason.
- `Paths.Normalize` is modelled for absolute paths only. `path.join` always gives it one, because the root is absolute.
- app.js, the browser script, is not part of this model.

A note on two places where the code is followed:

- An out-of-range date (a year of 300000, say) parses to the Invalid Date. The Invalid Date is truthy and never compares as earlier or later, so it draws no date error at all (`Dates.FarYearIsInvalid`, `ValidationFacts.InvalidDatesPass`).
- The path check is a string-prefix test. A sibling directory whose name extends the root's passes it (`Paths.SiblingPasses`). A description of this check as directory containment would not match the code.
