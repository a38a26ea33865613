# Study-room reservation client: a verified model

This project models the client side of a university study-room booking web
application, written in React/Next.js with a zustand store. The browser is taken
to run in Korea Standard Time (UTC+9, no daylight saving time), and every `Date`
getter and setter becomes integer arithmetic on milliseconds since the epoch.

What is modelled:

- **Slot engine.** The modules `Clock`, `ReservationStore`, `SlotEngine`, `TodayBooking`,
  `TomorrowBooking` and `BookingForm` cover this part.
  - A day is a grid of ten-minute slots from 00:00 to 23:50, plus a display-only 23:59 entry.
  - Every instant snaps down to its slot key.
  - The store rebuilds a per-room index of occupied slot instants. It does this from scratch, from every RESERVED reservation.
  - The components read the index for several things:
    - slot colours (past, reserved, available);
    - the conflict walk, which includes the start and excludes the end;
    - start options from the current time rounded up;
    - end options of one or two hours;
    - the booking modal's form state and its submit guard.
- **Reservation lists.**
  - `ReservationHistory`: the cancel gate of one history row, which is open while its end is after now.
  - `ReservationList`: the "my reservations" page. Cancelled entries are hidden, the rest are sorted newest start first and grouped by local day.
  - `AfterLoginBanner`: the home banner's upcoming list, its single open modal, and its cancel sequence.
  - `AdminReservations`: the admin page of reservations by creation day, and the admin force-cancel.
  - `AdminSuggestions`: the admin suggestions page, covering the query builder, record defaults and day buckets.
  - `RoomManagement`: the admin room page, covering status normalisation, the fetch merge, and the optimistic status change with rollback.
- **Validators, decoders and formatters.**
  - `Credentials`: the school e-mail and password expressions.
  - `LoginErrors`: the login error-message table.
  - `ImageSniff`: the magic-byte MIME sniffer and the header-or-sniffed choice.
  - `Anonymize`: anonymous comment names given in order of first appearance.
  - `Suggest`: the suggestion form's file merge, limits, location check, submit guards and upload retry loop.
  - `Verification`: the e-mail code verification state machine. The sign-up page and the reset-password page share it.
  - `PostCard`: the post card's relative-time text.

`Seqs` and `Text` hold the list and string operations of JavaScript that these
build on, such as `filter`, a stable sort, grouping, `String(n)`, `padStart`,
`trim`, `toUpperCase` and `includes`.

Where the source changes state, the model does too:

- The store, the booking form, the verification form and the pages are classes with the source's state as fields.
- Loops are methods with invariants, each proved equal to a specification function.
- Server answers, the current time, the confirm dialog outcome and credentials are method parameters.
- Each promised property is a lemma about those functions.

## Where the intended behaviour and the code differ

The intended behaviour here is the service's booking and listing rules:
- bookings of one or two hours, with times chosen in ten-minute steps, as the service manual says (src/app/service-manual/page.jsx:374-375);
- never in the past;
- never in a room under maintenance, which the room-management page labels `예약 불가(점검 중)` ("not bookable, under maintenance", src/app/admin/room-management/page.jsx:19);
- no conflict with an existing reservation;
- the 23:59 entry for display only, as the comment at src/components/common/ReservationComponent.jsx:113 says;
- the admin buckets newest first, as the comment on the admin page's sort says;
- the service manual's note that a reservation whose start has passed may not be cancellable (src/app/service-manual/page.jsx:321).

Where the code does otherwise, the model follows the code:

- **No maintenance check when booking.** The room-management page labels a room under maintenance as not bookable. The booking components never read the room status, so the model has no such check.
- **No alignment or past-time check at submit.** Bookings should start and end on ten-minute boundaries and never lie in the past. At submit, the code checks only that both times are chosen and that the duration is 60 or 120 minutes. Alignment and "not in the past" hold only because the option lists offer nothing else.
- **The stored duration is trusted.** `BookingForm.StoredDurationWins` shows that a stored 60- or 120-minute duration lets a range of any length through. Without a stored duration, a range that is not one or two hours long is refused.
- **No conflict re-check at submit.** Conflicts are filtered only in the start and end option lists. The submit handler does not re-check them.
- **23:59 is offered as a start for tomorrow.** The 23:59 entry is marked display-only in the booking component, so it should never be bookable. The tomorrow component offers it as a start. See Findings.
- **The admin buckets are not sorted by creation time.** The admin page sorts each bucket by `new Date(...createdAt)`, which reads the 1-based month as a month index and the nanoseconds as milliseconds. `AdminReservations.Page.Load` sorts by that key, as the page does. `AdminReservations.IntendedBucket` is the intended sort by the creation instant. See Findings.
- **Cancelling stays open until the end.** The service manual warns that a reservation whose start has passed may not be cancellable. `ReservationHistory.CancelGateIsStrict` shows that the cancel button stays while now is before the reservation's end, so a started reservation can still be cancelled.

## Model

| member | source | states |
|---|---|---|
| Credentials.StrictEmailSplit | src/constants/regex.js:1 | an address is accepted exactly when it is a non-empty local part over `[A-Za-z0-9._%+-]` followed by `@mju.ac.kr` |
| Credentials.StrictEmailOneAt | src/constants/regex.js:1 | an accepted address has exactly one `@`, the one that opens the domain |
| Credentials.StrictEmailCaseSensitive | src/constants/regex.js:1 | the domain is matched case-sensitively: `@MJU.AC.KR` is rejected |
| Credentials.PasswordRejectsSpace | src/constants/regex.js:3-4 | a password holding any white-space character is invalid |
| Credentials.PasswordNeedsSpecial | src/constants/regex.js:3-4 | a password made only of letters and digits is invalid |
| Credentials.PasswordRejectsTilde | src/constants/regex.js:3-8 | a character outside the listed specials (`~`, backtick) makes `isValidPassword` false |
| Credentials.PasswordAccepted | src/constants/regex.js:3-8 | any string of at least eight allowed characters with a letter, a digit and a special anywhere in it is accepted |
| Credentials.PasswordExtends | src/constants/regex.js:3-8 | appending or prepending allowed characters keeps a password valid |
| Credentials.PasswordExample | src/constants/regex.js:3-8 | an instance: `abcdef1!` is accepted |
| LoginErrors.BadRequestMessage | src/utils/errorMessages.js:10-26 | the 400 branch: password words first, then e-mail words, then credential words; otherwise the server text, or the default for an empty one |
| LoginErrors.LoginErrorMessage | src/utils/errorMessages.js:1-51 | no response gives the network message; 400 goes through the bad-request reading of the server text; 401, 403, 404 and 429 each give their fixed text; 500, 502, 503 and 504 give the server-trouble text; any other or missing status shows the server text, or the generic text when that is empty |
| LoginErrors.LoginErrorMessageNonEmpty | src/utils/errorMessages.js:1-51 | every failure gets a non-empty message |
| LoginErrors.OtherStatusUsesServerMessage | src/utils/errorMessages.js:46-49 | any other or missing status (501, say) passes the server message through, or the generic default when it is empty |
| LoginErrors.BadRequestOrder | src/utils/errorMessages.js:10-17 | the 400 checks are ordered: a message naming both password and email reports a wrong password |
| Anonymize.FlatCons | src/utils/anonymizeUser.js:5-14 | flattening a thread is the comment, its direct replies, then the flattening of the rest |
| Anonymize.FlatMembers | src/utils/anonymizeUser.js:5-14 | a comment is in the flattened list exactly when it is a top-level comment or a direct reply of one (one level deep) |
| Anonymize.FlattenComments | src/utils/anonymizeUser.js:5-16 | the push loop builds exactly the flattened list, whose length is the comments plus their direct replies |
| Anonymize.AnonLabelInjective | src/utils/anonymizeUser.js:30 | different counters give different labels `익명n` |
| Anonymize.LabelsSpec | src/utils/anonymizeUser.js:28-35 | the label map sends the user of the n-th first appearance to `익명n` and holds one entry per distinct user |
| Anonymize.AssignLabels | src/utils/anonymizeUser.js:28-33 | the forEach loop builds exactly that map; the counter ends one past the number of users |
| Anonymize.LabelStepSeen | src/utils/anonymizeUser.js:29 | a comment by a user already seen changes neither the map nor the counter |
| Anonymize.LabelStepNew | src/utils/anonymizeUser.js:29-31 | a comment by a new user adds that user with the next label |
| Anonymize.AnonymizeUsers | src/utils/anonymizeUser.js:1-36 | the map labels the users of the time-ordered flattened copy by first appearance and its size is the number of distinct users |
| Anonymize.DistinctCard | src/utils/anonymizeUser.js:35 | a list without repeats has as many members as elements |
| Anonymize.LabelsDistinct | src/utils/anonymizeUser.js:28-35 | distinct users get distinct labels, each `익명n` with n at most the number of users |
| Anonymize.FirstKeysPositions | src/utils/anonymizeUser.js:28-33 | the user first seen earlier has a comment placed before every comment of a user first seen later |
| Anonymize.LabelOrderFollowsTime | src/utils/anonymizeUser.js:18-33 | a lower label goes to a user whose earliest comment is not later in the time order |
| Anonymize.AnonymousName | src/utils/anonymizeUser.js:38-40 | the mapped label when there is one, otherwise `익명${userId}`; never empty |
| Anonymize.FallbackCollides | src/utils/anonymizeUser.js:38-40 | an unlabelled user whose id is the number in another user's label is shown under that user's label |
| Anonymize.NameCollisionNeedsFallback | src/utils/anonymizeUser.js:38-40 | under a map of distinct non-empty labels, two different users share a name only when exactly one of them is unlabelled |
| Anonymize.FallbackCanCollide | src/utils/anonymizeUser.js:38-40 | an instance: user 2 unmapped and the second labelled user both read `익명2` |
| PostCard.AgeOf | src/components/community/PostCard.jsx:13-21 | every difference falls in exactly one branch (under an hour, under a day, under thirty days, older), and the count shown is the whole number of minutes, hours or days that have passed |
| PostCard.FormatDate | src/components/community/PostCard.jsx:8-22 | `''` for a non-array. An Invalid Date gives the calendar text. Otherwise: under an hour, whole minutes `분 전`; under a day, whole hours `시간 전`; under thirty days, whole days `일 전`; from then on, the calendar text |
| PostCard.MinutesBucket | src/components/community/PostCard.jsx:10-18 | a post written k whole minutes ago (k < 60) shows `k분 전`, missing hour and minute counting as midnight |
| PostCard.CalendarBucket | src/components/community/PostCard.jsx:20-21 | a post thirty or more days old shows its calendar text |
| PostCard.CalendarFields | src/components/community/PostCard.jsx:21 | for a four-digit year, a month and a day, the text is `YYYY.MM.DD` and each field reads back from its place |
| PostCard.PartsDefault | src/components/community/PostCard.jsx:10-11 | a missing month or day counts as 1 and a missing hour or minute as 0 |
| PostCard.CategoryName | src/components/community/PostCard.jsx:24 | category 1 is `일반 게시판`, every other value `분실물 게시판` |
| ImageSniff.SniffMime | src/components/admin/ProtectedImage.jsx:30-50 | the result is one of the four image types or the empty string |
| ImageSniff.SniffMimeSignatures | src/components/admin/ProtectedImage.jsx:30-50 | each type is given exactly when its magic bytes are present (FF D8 FF, 89 50 4E 47, 47 49 46 38, `RIFF` at 0 with `WEBP` at 8), and `''` exactly when none is |
| ImageSniff.Signature3 | src/components/admin/ProtectedImage.jsx:34-35 | a three-byte signature is present exactly when its three bytes match |
| ImageSniff.Signature4 | src/components/admin/ProtectedImage.jsx:37-45 | a four-byte signature is present exactly when its four bytes match |
| ImageSniff.ShortRiffUnknown | src/components/admin/ProtectedImage.jsx:43-49 | a RIFF buffer shorter than twelve bytes is not recognised |
| ImageSniff.HeaderContentType | src/components/admin/ProtectedImage.jsx:66-69 | the lower-case header wins, then the capitalised one; empty only when both are |
| ImageSniff.ChooseMime | src/components/admin/ProtectedImage.jsx:70-74 | an `image/` header is used as is, otherwise the sniffed type, otherwise `application/octet-stream` |
| ImageSniff.ChooseMimeNonEmpty | src/components/admin/ProtectedImage.jsx:71-74 | the chosen type is never empty |
| ImageSniff.ChooseMimeImage | src/components/admin/ProtectedImage.jsx:70-76 | the choice starts with `image/` exactly when the header or the bytes name an image |
| Verification.MmssRoundTrip | src/app/login/sign-up-step1/page.jsx:68-72 | within the countdown's range `mmss` is `MM:SS`, two digits each side, and reads back as the seconds left |
| Verification.AcceptedCases | src/app/login/sign-up-step1/page.jsx:142-144 | a 200 status is accepted whatever the body; otherwise `verified` decides when present, else `success` |
| Verification.Form.constructor | src/app/login/sign-up-step1/page.jsx:24-36 | empty fields and messages, no code sent, the countdown at zero with no interval, Next disabled |
| Verification.Form.EditEmail | src/app/login/sign-up-step1/page.jsx:213-224 | the field takes the value; the error is cleared for an empty or accepted address and set otherwise; nothing else changes |
| Verification.Form.StartTimer | src/app/login/sign-up-step1/page.jsx:48-51 | the countdown is set to 300 seconds and its interval runs; nothing else changes |
| Verification.Form.Tick | src/app/login/sign-up-step1/page.jsx:51-59 | a tick at one second or less sets zero and stops the interval, otherwise it subtracts one; the count never goes negative and never increases |
| Verification.Form.SendCode | src/app/login/sign-up-step1/page.jsx:74-103 | messages and the verified flag are cleared; an address the expression rejects sets the error and sends nothing; a sent code starts a 300-second countdown; a failed send clears `codeSent` and zeroes the countdown; sending ends on every path |
| Verification.Form.NumberChange | src/app/login/sign-up-step1/page.jsx:105-115 | white space is stripped, the verified flag and message reset, and the format error set exactly for a non-empty value that is not six digits |
| Verification.Form.VerifyCode | src/app/login/sign-up-step1/page.jsx:117-162 | the guards run in order (not sent, expired, bad format) and the request is made exactly when `canVerify` held; the code is verified exactly on an accepted answer, with the message for each outcome |
| Verification.VerifyButtonsAgree | src/app/login/reset-password-step1/page.jsx:257-263 | the reset page's written-out button condition equals the sign-up page's `!canVerify \|\| isVerifying \|\| isSending` |
| Verification.FormatErrorDisablesVerify | src/app/login/sign-up-step1/page.jsx:269 | while the format error is showing, the verify button is disabled |
| Suggest.MergeFiles | src/app/suggest/page.jsx:72-80 | the merged list has at most five files, no two sharing name and size, each taken from the current or the picked files |
| Suggest.MergeFilesKeepsExisting | src/app/suggest/page.jsx:74-79 | files already attached keep their places at the head of the list |
| Suggest.MergeFilesKeepsAll | src/app/suggest/page.jsx:74-79 | when at most five distinct files are involved, every name-and-size pair of the current and picked files survives |
| Suggest.MergeFilesDuplicate | src/app/suggest/page.jsx:75-78 | picking a file whose name and size are already attached changes nothing |
| Suggest.NormalizeLocation | src/app/suggest/page.jsx:30 | the normalised location holds no white space |
| Suggest.RoomLabel | src/app/suggest/page.jsx:16-30 | a label `<room> <n>` normalises to `<room><n>` |
| Suggest.PlacesAllowed | src/app/suggest/page.jsx:16-30 | every location the select offers normalises into the accepted list, so `createSuggestion` never throws for it |
| Suggest.UploadSucceeds | src/app/suggest/page.jsx:241-264 | the retries return data exactly when some shape is accepted with every earlier one refused without a server error; otherwise the last error is rethrown |
| Suggest.UploadSingleImage | src/app/suggest/page.jsx:184-265 | the loop tries the six shapes in order, stops at the first accepted one or at a status of 500 or more, and its outcome is the retry function's; the number of requests and the refusals before the last are stated |
| Suggest.Form.constructor | src/app/suggest/page.jsx:45-55 | the first category and location, empty fields and no files: no limit is exceeded |
| Suggest.Form.HandleFileChange | src/app/suggest/page.jsx:72-80 | the files become the merge of the old files and the picked ones, at most five and without duplicates; nothing else changes |
| Suggest.Form.RemoveFile | src/app/suggest/page.jsx:82-91 | every file with that name and size is removed, the rest keep their order, and that name's progress entry is deleted |
| Suggest.Form.Submit | src/app/suggest/page.jsx:287-315 | a post is made exactly when no limit is exceeded, title and content are not blank and the location is accepted; each refusal sets its message in order; success resets title, content, files and progress, and a failure keeps them and shows the error |
| AdminSuggestions.Serialize | src/app/admin/suggestions/page.jsx:55 | the query string is empty exactly when there are no parameters |
| AdminSuggestions.BuildQuery | src/app/admin/suggestions/page.jsx:45-57 | the step-by-step `params.set` calls build the URL of the candidate filters that apply, in order |
| AdminSuggestions.QueryFilter | src/app/admin/suggestions/page.jsx:47-54 | the applying filters are exactly the non-empty `suggest_id`, `user_id`, `category`, `location`, then `is_answered` only as `true` or `false`, in that order |
| AdminSuggestions.CandidatesIncluded | src/app/admin/suggestions/page.jsx:47-54 | each candidate applies exactly under its own test |
| AdminSuggestions.QuerySpec | src/app/admin/suggestions/page.jsx:45-57 | with no filter the path has no `?`; otherwise the path, `?` and the serialised filters; every value sent is non-empty; `is_answered` is sent exactly as `true` or `false`; `category` exactly when non-empty |
| AdminSuggestions.Nullish | src/app/admin/suggestions/page.jsx:524-530 | `a ?? b ?? d` is the first present alternative, or the default when none is |
| AdminSuggestions.FirstSome | src/app/admin/suggestions/page.jsx:524-525 | without a default the chain is absent exactly when every alternative is, otherwise one of them |
| AdminSuggestions.NullishFirst | src/app/admin/suggestions/page.jsx:524-530 | the first present alternative wins over all later ones |
| AdminSuggestions.FirstTruthy | src/app/admin/suggestions/page.jsx:517-522 | the `\|\|` chain of creation fields gives a truthy alternative or the empty array |
| AdminSuggestions.NormalizeDefaults | src/app/admin/suggestions/page.jsx:516-533 | a record without those fields normalises to not answered, empty category, location, title and content, and an empty creation array |
| AdminSuggestions.NoneDefault | src/app/admin/suggestions/page.jsx:526-530 | a chain whose alternatives are all absent gives its default |
| AdminSuggestions.NoTruthy | src/app/admin/suggestions/page.jsx:517-522 | with no truthy creation field the creation stamp is `[]` |
| AdminSuggestions.DateOnly | src/app/admin/suggestions/page.jsx:545-549 | `''` for anything but an array of at least three elements |
| AdminSuggestions.TimeFields | src/app/admin/suggestions/page.jsx:557-561 | a full date array is read with its month made 0-based, and its local day and hour are the array's |
| AdminSuggestions.TimeNonArray | src/app/admin/suggestions/page.jsx:557-559 | `toDate` of a value that is not an array is the epoch, and an empty array counts as 0 |
| AdminSuggestions.Page.constructor | src/app/admin/suggestions/page.jsx:16-26 | loading, no error, no buckets and empty filters |
| AdminSuggestions.Page.Load | src/app/admin/suggestions/page.jsx:59-90 | on an answer the error clears, the bucket names are the records' filing days, each bucket is that day's records newest first, and the day names are sorted latest first; a failure shows the `parseError` text of its candidates and keeps the buckets; loading ends |
| AdminSuggestions.ParseError | src/app/admin/suggestions/page.jsx:535-543 | the error text is never empty: it is the first non-empty candidate (server message, server error, string body, the error's message), or the default `요청 처리 중 오류가 발생했습니다.` when every candidate is empty |
| AdminSuggestions.BucketsSpec | src/app/admin/suggestions/page.jsx:69-81 | every suggestion is in exactly one bucket, that of its day, as often as it occurs; each bucket is newest first; the day names are distinct, name every bucket, and run latest first |
| AdminDates.DateKeyValue | src/app/admin/reservations-by-date/page.jsx:58-60 | `new Date(name)` on a bucket name is a time exactly when the name has the `YYYY-MM-DD` form |
| AdminDates.DateOnlyFields | src/app/admin/reservations-by-date/page.jsx:180-183 | for a four-digit year, a month and a day the name is `YYYY-MM-DD` and each field reads back from its place |
| AdminDates.DateFieldTexts | src/app/admin/reservations-by-date/page.jsx:182 | the year text has four digits and the padded month and day two each, reading back as the fields |
| AdminDates.FieldPositions | src/app/admin/reservations-by-date/page.jsx:182 | where the year, separators, month and day sit in the joined text |
| AdminDates.DateKeyRoundTrip | src/app/admin/reservations-by-date/page.jsx:58-60 | a bucket name made from a real date reads back as midnight UTC of that day |
| AdminDates.DateOnlyInjective | src/app/admin/reservations-by-date/page.jsx:180-183 | two real dates share a bucket exactly when they are the same day |
| AdminDates.ClockFields | src/app/admin/reservations-by-date/page.jsx:195-199 | `formatHM` of an array with an hour and a minute is `HH:MM`, zero-padded, each field reading back from its place; a non-array is `''` |
| AdminDates.ClockPositions | src/app/admin/reservations-by-date/page.jsx:198 | where the hour, the colon and the minute sit in the joined clock text |
| AdminDates.ClockDefaults | src/app/admin/suggestions/page.jsx:563-569 | a missing hour and minute default to 0 and show as `00:00`, also after the date in the full text |
| AdminDates.FullDateFields | src/app/admin/suggestions/page.jsx:563-569 | for a full array the text is the `YYYY-MM-DD` name, a blank and the zero-padded `HH:MM`, sixteen characters; a non-array is `''` |
| AdminDates.TimeRangeFields | src/app/admin/reservations-by-date/page.jsx:201-203 | the range text is the start's clock text, ` ~ `, and the end's clock text, thirteen characters in all |
| AdminReservations.CreatedStampOfDay | src/app/admin/reservations-by-date/page.jsx:53-55 | the creation instant of a well-formed array is that day's local midnight plus its time of day in whole milliseconds |
| AdminReservations.CreatedKeyMonotone | src/app/admin/reservations-by-date/page.jsx:52-56 | within one day a later time of day never gets an earlier creation key, so the bucket sort is by creation time |
| AdminReservations.AsWrittenStampOfDay | src/app/admin/reservations-by-date/page.jsx:53-55 | the written key of a well-formed array is the start of the day its 1-based month names as a month index, plus the time of day with the nanoseconds counted as milliseconds |
| AdminReservations.AsWrittenOrderOfDay | src/app/admin/reservations-by-date/page.jsx:52-56 | on one day the written sort ranks `a` above `b` exactly when `a`'s nanoseconds exceed `b`'s by more than a thousand per second `b` was created after `a` |
| AdminReservations.AsWrittenMisorders | src/app/admin/reservations-by-date/page.jsx:52-56 | for every same-day pair where `a` was created in an earlier second but has enough more nanoseconds, `a` is the older entry yet the written sort ranks it above `b` |
| AdminReservations.AsWrittenMisordersExample | src/app/admin/reservations-by-date/page.jsx:53-55 | an instance: two entries of 2025-03-10, 4.2 seconds apart, are misordered |
| AdminReservations.SameDayName | src/app/admin/reservations-by-date/page.jsx:180-183 | arrays that agree on year, month and day share a bucket name |
| AdminReservations.LaterSecondLater | src/app/admin/reservations-by-date/page.jsx:53-55 | an array of a later whole second has a later time of day in nanoseconds and in whole milliseconds |
| AdminReservations.LaterSecondLaterMillis | src/app/admin/reservations-by-date/page.jsx:53-55 | a later whole second is later in nanoseconds and in whole milliseconds, whatever the nanoseconds |
| AdminReservations.IntendedBucketNewestFirst | src/app/admin/reservations-by-date/page.jsx:51-56 | the intended sort lists a bucket's entries, each of that day and from the list, newest first to the millisecond |
| AdminReservations.BucketMember | src/app/admin/reservations-by-date/page.jsx:44-48 | an entry of a sorted bucket comes from the list and has that bucket's day |
| AdminReservations.SameDayStamps | src/app/admin/reservations-by-date/page.jsx:51-56 | two well-formed entries of one bucket have creation instants that differ by their times of day |
| AdminReservations.SameDayCreated | src/app/admin/reservations-by-date/page.jsx:51-56 | two well-formed arrays of one day have creation instants that differ by their times of day in whole milliseconds |
| AdminReservations.Page.constructor | src/app/admin/reservations-by-date/page.jsx:11-15 | no buckets, loading, no error, nothing in flight |
| AdminReservations.Page.Load | src/app/admin/reservations-by-date/page.jsx:38-70 | on an answer whose entries all carry a creation array: the bucket names are their days; each bucket is that day's entries sorted by the written `new Date(...createdAt)`, largest first; the names are sorted latest first. A failure sets the error and keeps the buckets. Loading ends either way |
| AdminReservations.Page.RemoveReservation | src/app/admin/reservations-by-date/page.jsx:76-85 | every bucket loses exactly the entries with that id and keeps its name; nothing else changes |
| AdminReservations.Page.BeginForceCancel | src/app/admin/reservations-by-date/page.jsx:87-92 | a falsy id or a declined confirm does nothing; otherwise the id is marked in flight |
| AdminReservations.Page.FinishForceCancel | src/app/admin/reservations-by-date/page.jsx:94-116 | the entry is removed locally only after the server accepts; on both paths the id stops being in flight |
| AdminReservations.Page.ForceCancel | src/app/admin/reservations-by-date/page.jsx:87-119 | the whole handler, with no time input: a started cancel removes the id on success, leaves the buckets on failure, and always clears the in-flight mark |
| AdminReservations.GroupsSpec | src/app/admin/reservations-by-date/page.jsx:44-56 | each entry is in exactly one bucket, that of its creation day, as often as it occurs; each bucket runs by the written key, largest first; the names are distinct and name every bucket |
| AdminReservations.SortedDatesSpec | src/app/admin/reservations-by-date/page.jsx:58-60 | the names run latest first, and for names of real dates a later calendar day sorts first |
| AdminReservations.RemovalSpec | src/app/admin/reservations-by-date/page.jsx:76-85 | removing an id drops exactly its occurrences, keeps every other entry, and keeps the written-key order the bucket was sorted into |
| RoomManagement.NormalizeStatus | src/app/admin/room-management/page.jsx:23-26 | `IDLE` exactly when the upper-cased value is `IDLE`, `OCCUPIED` exactly when it is `OCCUPIED`, otherwise `MAINTENANCE` |
| RoomManagement.NameUpper | src/app/admin/room-management/page.jsx:25 | the three names are already upper case |
| RoomManagement.NormalizeStatusName | src/app/admin/room-management/page.jsx:23-26 | each name normalises to its own status |
| RoomManagement.NormalizeStatusIgnoresCase | src/app/admin/room-management/page.jsx:24 | the test ignores case |
| RoomManagement.NormalizeStatusDefault | src/app/admin/room-management/page.jsx:24-25 | anything unrecognised, the missing value included, is `MAINTENANCE` |
| RoomManagement.RoomInfo | src/app/admin/room-management/page.jsx:59-87 | a failed fetch gives the idle default; a missing status is `IDLE`, a present one is normalised; a falsy name becomes `스터디룸 ${id}`; the image is always the default |
| RoomManagement.FetchResults | src/app/admin/room-management/page.jsx:72-89 | one pair per room id, in id order, holding that room's record |
| RoomManagement.MergeResults | src/app/admin/room-management/page.jsx:90-94 | the loop over the results gives each id its record and keeps every other key |
| RoomManagement.MergeFetched | src/app/admin/room-management/page.jsx:72-94 | the five rooms get their fetched or default records and every other key keeps its own |
| RoomManagement.Page.constructor | src/app/admin/room-management/page.jsx:32-43 | the five rooms, each idle with its default name; loading; nothing saving |
| RoomManagement.Page.FetchAll | src/app/admin/room-management/page.jsx:70-98 | the map gains the five rooms with their records, every other entry unchanged; loading ends; the five rooms stay present |
| RoomManagement.Page.BeginStatusChange | src/app/admin/room-management/page.jsx:104-129 | an unchanged status or a declined confirm does nothing; otherwise the room is marked saving, its previous record returned, and only its status switched |
| RoomManagement.Page.FinishStatusChange | src/app/admin/room-management/page.jsx:131-157 | a refused request restores exactly the previous record; the room stops saving on both paths |
| RoomManagement.Page.ChangeStatus | src/app/admin/room-management/page.jsx:104-160 | the whole handler: an accepted change switches that room's status alone, a refused one leaves every room as it was, and the room is not saving afterwards |
| RoomManagement.OptimisticTouchesOnlyStatus | src/app/admin/room-management/page.jsx:125-143 | the optimistic write changes only the target's status, and writing the previous record back restores the map |
| Reservations.NumberValue | src/stores/useReservationStore.js:77 | a parsed date is a number exactly unless it is an Invalid Date; a valid one is its instant |
| Reservations.PartsToDate | src/stores/useReservationStore.js:7-9 | an array of fewer than three numbers is an Invalid Date, every longer one a valid date |
| Reservations.ParseToDate | src/stores/useReservationStore.js:5-12 | `null` exactly for a falsy value; an array goes through the array reading |
| Reservations.ParseToDateFields | src/stores/useReservationStore.js:7-9 | an array date reads back as the local day, hour and minute it names, with the month 1-based |
| Reservations.ParseToDateMidnight | src/stores/useReservationStore.js:8 | a missing hour and minute mean midnight |
| ReservationStore.Span | src/stores/useReservationStore.js:71-80 | only a RESERVED entry whose start and end both parse has an interval in the index |
| ReservationStore.IndexMembers | src/stores/useReservationStore.js:68-91 | an instant is in a room's list exactly when some RESERVED entry of that room with valid dates visits it, `start + 10k < end` |
| ReservationStore.IndexListsNonEmpty | src/stores/useReservationStore.js:85-86 | a room gets a list only when something is pushed onto it |
| ReservationStore.AddReservationCount | src/stores/useReservationStore.js:82-88 | a contributing entry adds exactly the ceiling of its length over ten minutes to its own room and nothing to another |
| ReservationStore.IndexIgnoresOthers | src/stores/useReservationStore.js:71-80 | entries that are not RESERVED or have a missing or invalid date leave no trace on the index |
| ReservationStore.Upcoming | src/stores/useReservationStore.js:49-56 | exactly the RESERVED entries whose `endTime` is after now, each as often as fetched, earliest start first |
| ReservationStore.Latest | src/stores/useReservationStore.js:31-34 | `None` exactly for an empty list; otherwise an entry of the list with the greatest `new Date(createdAt)`. A string reads as its parse. An array reads as the engine's parse of its comma-joined text. An Invalid Date counts as 0 |
| ReservationStore.PushSlots | src/stores/useReservationStore.js:82-88 | the while loop pushes exactly the walk from start to end onto the room's list |
| ReservationStore.Store.constructor | src/stores/useReservationStore.js:15-17 | no latest reservation, no user reservations, an empty index |
| ReservationStore.Store.SetUserReservations | src/stores/useReservationStore.js:22-23 | replaces the user's list and nothing else |
| ReservationStore.Store.FetchLatestReservation | src/stores/useReservationStore.js:25-39 | nothing without credentials; the latest entry on success, `null` on failure; other fields unchanged |
| ReservationStore.Store.RefetchAfterBooking | src/components/common/ReservationComponent.jsx:167-171 | the latest entry, the user's upcoming list and the occupancy index are each replaced by their own answer |
| ReservationStore.Store.FetchAllUserReservations | src/stores/useReservationStore.js:41-62 | nothing without credentials; the upcoming list on success, `[]` on failure; other fields unchanged |
| ReservationStore.Store.FetchAllReservedTimes | src/stores/useReservationStore.js:64-96 | the loops rebuild the index from scratch as the function of the fetched list; a failed fetch empties it; other fields unchanged |
| Clock.UnitsAgree | src/components/common/ReservationComponent.jsx:118 | a fact about the constants: the millisecond constants are the products of the units they name, the slot is ten minutes and the KST offset nine hours |
| Clock.Hours | src/components/common/ReservationComponent.jsx:23 | `getHours()` is between 0 and 23 |
| Clock.Minutes | src/components/common/ReservationComponent.jsx:23 | `getMinutes()` is between 0 and 59 |
| Clock.FloorMinute | src/components/common/ReservationComponent.jsx:28 | `setSeconds(0, 0)` gives the whole minute at or before the instant |
| Clock.WallFields | src/components/common/ReservationComponent.jsx:77 | the instant whose local clock reads a day, hour and minute reads them back through the getters |
| Clock.LocalMidnight | src/components/common/ReservationComponent.jsx:38-43 | `setHours(0, 0, 0, 0)` gives the local 00:00 of the same day, slot-aligned and within a day before the instant |
| Clock.MinuteDigit | src/components/common/ReservationComponent.jsx:29-30 | the local minute's last digit equals the UTC minute's, since the offset is whole ten-minute blocks |
| Clock.OffsetMinutes | src/components/common/ReservationComponent.jsx:13-14 | the local minute count is the UTC one plus 540 |
| Clock.SlotKey | src/components/common/ReservationComponent.jsx:26-32 | `slotKey10m` gives the aligned instant of the ten-minute slot that holds the instant |
| Clock.SlotKeyIdempotent | src/components/common/ReservationComponent.jsx:26-32 | snapping an already snapped instant changes nothing |
| Clock.SlotKeyUnique | src/components/common/ReservationComponent.jsx:26-32 | every instant of a slot has that slot's start as its key, and no other aligned instant |
| Clock.WalkMembers | src/components/common/ReservationComponent.jsx:101-105 | the walker visits exactly the instants `start + 10k` minutes below the end |
| Clock.WalkLength | src/components/common/ReservationComponent.jsx:101-105 | the walker takes the ceiling of the span over ten minutes steps, none for an empty span |
| Clock.WalkSteps | src/components/common/ReservationComponent.jsx:104 | the i-th value of the walk is `start + 10i` minutes |
| Clock.WalkSplit | src/components/common/ReservationComponent.jsx:101-105 | a walk splits at any aligned midpoint into the two walks on either side |
| Clock.WalkSuffix | src/components/common/ReservationComponent.jsx:200-207 | a walk starting later on the same ten-minute lattice visits exactly the tail of the longer walk |
| Clock.RoundedUpNow | src/components/common/ReservationComponent.jsx:184-191 | `kstRoundedUpNow` is slot-aligned and within ten minutes after the start of the current minute |
| Clock.RoundedUpNowLeast | src/components/common/ReservationComponent.jsx:184-191 | it is the least aligned instant at or after the current minute |
| Clock.DaysFromCivilEpoch | src/stores/useReservationStore.js:8 | an anchor of the count: 1970-01-01 is day 0 |
| Clock.DaysFromCivilNextDay | src/stores/useReservationStore.js:8 | the day count grows by one from every calendar day to the next: within a month, from a month's last day to the next month's first, and across a year's end |
| Clock.NextDayInMonth | src/stores/useReservationStore.js:8 | within a month the count grows by one a day |
| Clock.NextMonthFirst | src/stores/useReservationStore.js:8 | the first of every month but March follows the last day of the month before |
| Clock.NewYearsDay | src/stores/useReservationStore.js:8 | the first of January follows the 31st of December |
| Clock.MarchFirst | src/stores/useReservationStore.js:8 | the first of March follows the last of February, the 28th or the 29th by the Gregorian leap-year rule |
| Clock.MarchFirstOfEra | src/stores/useReservationStore.js:8 | the same where the year opens a new 400-year era |
| Clock.MarchFirstInEra | src/stores/useReservationStore.js:8 | the same inside an era |
| Clock.EraOf | src/stores/useReservationStore.js:8 | the era and the place in the era of a year, by Euclidean division |
| Clock.EraResidues | src/stores/useReservationStore.js:8 | a year and its place in its era agree modulo 4, 100 and 400 |
| Clock.YearOfEraStep | src/stores/useReservationStore.js:8 | within an era the leap days before a year grow by one exactly at a leap year |
| Clock.DivStep4 | src/stores/useReservationStore.js:8 | the quotient by 4 steps up exactly at a multiple of 4 |
| Clock.DivStep100 | src/stores/useReservationStore.js:8 | the quotient by 100 steps up exactly at a multiple of 100 |
| Clock.MakeLocalFields | src/stores/useReservationStore.js:8 | `new Date(y, m, d, h, mi)` for an in-range month, hour and minute reads back with that day, hour and minute |
| Clock.FormatHM | src/components/common/ReservationComponent.jsx:22-23 | the clock text has five characters with a colon in the middle |
| Clock.FormatHMParses | src/components/common/ReservationComponent.jsx:22-23 | the two digit fields of the clock text read back as the hour and the minute |
| Seqs.Filter | src/stores/useReservationStore.js:49-52 | `filter` keeps exactly the elements that pass the test and never lengthens the list |
| Seqs.FilterConcat | src/app/admin/reservations-by-date/page.jsx:80 | filtering a concatenation filters each part |
| Seqs.FilterCons | src/app/admin/reservations-by-date/page.jsx:80 | filtering a list with one more element in front |
| Seqs.FilterCount | src/stores/useReservationStore.js:49-52 | filtering keeps every passing occurrence as often as it appears, and no failing one |
| Seqs.FilterIncreasing | src/components/common/ReservationComponent.jsx:201-205 | filtering an increasing list keeps it increasing |
| Seqs.Insert | src/stores/useReservationStore.js:54-56 | one insertion step adds exactly the one element |
| Seqs.InsertBound | src/stores/useReservationStore.js:54-56 | a lower bound on every key survives the insertion of an element above it |
| Seqs.InsertSorted | src/stores/useReservationStore.js:54-56 | inserting into a sorted list keeps it sorted |
| Seqs.SortByKey | src/stores/useReservationStore.js:54-56 | the ascending sort is a permutation of its input, sorted by the key |
| Seqs.SortByKeyDesc | src/app/admin/reservations-by-date/page.jsx:52-56 | the descending sort is a permutation of its input, with keys never increasing |
| Seqs.FilterAgree | src/stores/useReservationStore.js:54-56 | filtering by two tests that agree on every element gives the same list |
| Seqs.InsertKeepsTies | src/stores/useReservationStore.js:54-56 | the inserted element comes before every element of its own key, and the elements of other keys keep their order |
| Seqs.SortByKeyStable | src/stores/useReservationStore.js:54-56 | the sort is stable: for every key, the elements with that key come out in their input order |
| Seqs.SortByKeyDescStable | src/app/admin/reservations-by-date/page.jsx:52-56 | the descending sort is stable in the same sense |
| Seqs.KeySetPermutation | src/app/admin/reservations-by-date/page.jsx:58-60 | reordering a list keeps the set of its keys |
| Seqs.KeysStep | src/app/admin/reservations-by-date/page.jsx:44-49 | one more element adds its key to the key set, and to the first-appearance order when it is new |
| Seqs.FirstKeysSpec | src/app/admin/reservations-by-date/page.jsx:58 | `Object.keys` of the grouped object lists every key exactly once |
| Seqs.BucketCount | src/app/admin/reservations-by-date/page.jsx:44-49 | each element lands in the bucket of its own key, as often as it occurs, and in no other |
| Seqs.BucketNonIncreasing | src/app/admin/reservations-by-date/page.jsx:52-56 | a bucket of a descending list is descending |
| Seqs.FilterNonIncreasing | src/app/admin/reservations-by-date/page.jsx:76-85 | filtering a descending list keeps it descending |
| Seqs.BucketStep | src/app/admin/reservations-by-date/page.jsx:44-49 | one more element extends only the bucket of its own key |
| Seqs.BucketEmpty | src/app/admin/reservations-by-date/page.jsx:44-49 | a key no element has gets an empty bucket |
| Seqs.GroupBy | src/app/admin/reservations-by-date/page.jsx:44-49 | the grouping loop builds one bucket per key, each the in-order elements with that key, and lists the keys in first-appearance order |
| Seqs.GroupStep | src/app/admin/reservations-by-date/page.jsx:45-48 | one turn of the grouping loop keeps every bucket equal to the bucket of the prefix seen so far |
| Seqs.UpdateListed | src/app/admin/reservations-by-date/page.jsx:52-56 | the `forEach` over the keys rewrites every listed bucket with the function and leaves the rest |
| Seqs.FilterEach | src/app/admin/reservations-by-date/page.jsx:76-85 | the removal loop filters every bucket and keeps every date key |
| Seqs.DedupBy | src/app/suggest/page.jsx:72-80 | de-duplication keeps a sub-list of the input |
| Seqs.DedupByKeys | src/app/suggest/page.jsx:72-80 | de-duplication keeps every key |
| Seqs.DedupByDistinct | src/app/suggest/page.jsx:72-80 | after de-duplication no key occurs twice |
| Seqs.KeySetConcat | src/app/suggest/page.jsx:74 | the keys of a concatenation are the keys of both parts |
| Seqs.DedupByIdentity | src/app/suggest/page.jsx:72-80 | a list whose keys are already distinct is unchanged |
| Seqs.DedupByPrefix | src/app/suggest/page.jsx:72-80 | the files already chosen stay in front, in order, when new ones are added |
| Text.DigitChar | src/components/common/ReservationComponent.jsx:23 | each digit value has a digit character |
| Text.DigitValue | src/components/common/ReservationComponent.jsx:23 | the value of a digit character is below ten and renders back as that character |
| Text.NatToString | src/components/common/ReservationComponent.jsx:23 | `String(n)` of a non-negative number is a non-empty run of digits with no leading zero |
| Text.IntToString | src/components/community/PostCard.jsx:16-18 | `String(i)` starts with a minus sign exactly for a negative number |
| Text.ParseNatToString | src/components/common/ReservationComponent.jsx:23 | reading the decimal text of a number gives the number back |
| Text.NatToStringInjective | src/components/common/ReservationComponent.jsx:23 | different numbers have different texts |
| Text.IntToStringInjective | src/utils/anonymizeUser.js:40 | different integers have different decimal texts |
| Text.NatToStringLength | src/components/community/PostCard.jsx:21 | one digit below 10, two below 100, three below 1000, four below 10000 |
| Text.Pad2 | src/components/common/ReservationComponent.jsx:23 | `padStart(2, '0')` keeps the text at the end and puts only zeros in front, up to two characters |
| Text.Pad2Nat | src/components/common/ReservationComponent.jsx:23 | a padded number below 100 is two digits that read back as the number |
| Text.RemoveSpaces | src/app/suggest/page.jsx:30 | `replace(/\s+/g, '')` leaves no white space |
| Text.RemoveSpacesMembers | src/app/suggest/page.jsx:30 | exactly the characters that are not white space survive |
| Text.RemoveSpacesConcat | src/app/login/sign-up-step1/page.jsx:106 | removing white space works piece by piece |
| Text.RemoveSpacesFixed | src/app/login/sign-up-step1/page.jsx:106 | text without white space is unchanged, so the removal is idempotent |
| Text.TrimStart | src/components/common/ReservationList.jsx:25 | trimming the front removes only leading white space and stops at a non-space |
| Text.TrimEnd | src/components/common/ReservationList.jsx:25 | trimming the back removes only trailing white space and stops at a non-space |
| Text.TrimEmpty | src/app/suggest/page.jsx:293-294 | `s.trim()` is empty exactly when the text is blank |
| Text.ToUpperAscii | src/components/common/ReservationList.jsx:24 | `toUpperCase` keeps the length and maps exactly the lower-case ASCII letters to upper case |
| Text.UpperFixed | src/components/common/ReservationList.jsx:24 | text without lower-case letters is its own upper case |
| Text.UpperIdempotent | src/components/common/ReservationList.jsx:24 | upper-casing twice is upper-casing once |
| Text.TrimFixed | src/components/common/ReservationList.jsx:25 | text that neither starts nor ends with white space is its own trim |
| Text.ContainsAt | src/utils/errorMessages.js:12-13 | `includes` holds exactly when the fragment occurs at some position |
| SlotEngine.ReservedKeys | src/components/common/ReservationComponent.jsx:63-70 | the loop collects exactly the slot keys of the instants the index holds for the room; a room without a list gives no keys |
| SlotEngine.ReservedKeysMembers | src/components/common/ReservationComponent.jsx:63-70 | a key is reserved exactly when some RESERVED entry of that room with valid dates visits an instant with that key |
| SlotEngine.FreeWalkIsFilter | src/components/common/ReservationComponent.jsx:200-207 | collecting free steps while walking is filtering the walk by the reserved-key test |
| SlotEngine.IsRangeAvailable | src/components/common/ReservationComponent.jsx:98-107 | the walk returns true exactly when no ten-minute step from the start before the end falls in a reserved slot |
| SlotEngine.RangeFreeStep | src/components/common/ReservationComponent.jsx:102-105 | a non-empty range is free exactly when its first slot is free and the rest of the range is |
| SlotEngine.RangeFreeSplit | src/components/common/ReservationComponent.jsx:97-107 | with the end exclusive, a range is free exactly when both halves around an aligned midpoint are free |
| SlotEngine.AlignedOnWalk | src/components/common/ReservationComponent.jsx:101-104 | every step of a walk from an aligned start is its own slot key |
| SlotEngine.ConflictHasOverlap | src/components/common/ReservationComponent.jsx:97-107 | a busy aligned range overlaps some contributing reservation of the room |
| SlotEngine.OverlapMeet | src/components/common/ReservationComponent.jsx:97-107 | when two aligned intervals overlap, the later start lies on both walks |
| SlotEngine.OverlapHasConflict | src/components/common/ReservationComponent.jsx:97-107 | a contributing reservation of the room that overlaps an aligned range makes the range busy |
| SlotEngine.RangeFreeIffNoOverlap | src/components/common/ReservationComponent.jsx:97-107 | for slot-aligned reservations, a range is free exactly when no contributing reservation of the room overlaps it |
| SlotEngine.TimeSlots | src/components/common/ReservationComponent.jsx:73-89 | the day grid is the walk from midnight to 23:50 followed by the display-only 23:59 |
| SlotEngine.GridShape | src/components/common/ReservationComponent.jsx:76-83 | from midnight the grid holds exactly 144 aligned starts, ten minutes apart, all on the same day, the last at 23:50 |
| SlotEngine.DisplayLastShape | src/components/common/ReservationComponent.jsx:84-86 | the display entry reads 23:59, is not aligned, shares the 23:50 slot key, and no grid start reads minute 59 |
| SlotEngine.EndOptions | src/components/common/ReservationComponent.jsx:217-232 | no end before a start is chosen; otherwise exactly those of start + 60 and start + 120 minutes whose ranges are free |
| SlotEngine.EndOptionsNested | src/components/common/ReservationComponent.jsx:220-225 | whenever the two-hour end is offered the one-hour end is offered too |
| TodayBooking.TodayStatus | src/components/common/ReservationComponent.jsx:110-126 | a slot is past exactly when it is not the 23:59 entry and its ten minutes are over; otherwise reserved exactly when its key is taken; otherwise available |
| TodayBooking.TodayStatusMonotone | src/components/common/ReservationComponent.jsx:110-126 | as time goes on a past slot stays past, and a slot that is not yet past keeps its colour |
| TodayBooking.TodayGridStatus | src/components/common/ReservationComponent.jsx:113-123 | on today's grid the 23:59 entry is never past and a grid start is past exactly when its slot has ended |
| TodayBooking.StartOptions | src/components/common/ReservationComponent.jsx:194-214 | the loop collects exactly the start candidates of the current time |
| TodayBooking.AlignedBeforeFloor | src/components/common/ReservationComponent.jsx:187 | an aligned instant at or before now is at or before the start of the current minute |
| TodayBooking.MidnightBeforeRounded | src/components/common/ReservationComponent.jsx:184-197 | today's midnight is at or before the rounded current time, on the same ten-minute lattice |
| TodayBooking.TodayStartCandidatesSpec | src/components/common/ReservationComponent.jsx:194-207 | the start options are exactly today's grid starts from the rounded current time on whose slot is not reserved |
| TodayBooking.TodayStartCandidatesIncreasing | src/components/common/ReservationComponent.jsx:199-207 | the start options come in increasing order |
| TomorrowBooking.TomorrowBase | src/components/common/TomorrowReservationComponent.jsx:51-56 | tomorrow is the local midnight after today's, the next day number, and later than now |
| TomorrowBooking.TomorrowStatus | src/components/common/TomorrowReservationComponent.jsx:108-114 | tomorrow's grid is never past; an entry is reserved exactly when its slot key is taken |
| TomorrowBooking.TomorrowStatusIsTodayStatus | src/components/common/TomorrowReservationComponent.jsx:108-110 | for an entry after now the tomorrow colouring is the today colouring |
| TomorrowBooking.TomorrowGridIsFuture | src/components/common/TomorrowReservationComponent.jsx:79-94 | every entry of tomorrow's grid lies after now, so dropping the past state loses nothing |
| TomorrowBooking.AsWrittenAddsDisplayLast | src/components/common/TomorrowReservationComponent.jsx:227-235 | the options as written are the free grid starts plus the display-only 23:59 whenever the 23:50 slot is free |
| TomorrowBooking.AsWrittenOffersDisplayLast | src/components/common/TomorrowReservationComponent.jsx:227-235 | with 23:50 free, 23:59 is offered as a start although it is not slot-aligned and an hour after it is the next day |
| TomorrowBooking.TomorrowStartOptionsMembers | src/components/common/TomorrowReservationComponent.jsx:227-229 | the corrected options are exactly the free grid starts of tomorrow, each aligned and on tomorrow's day |
| TomorrowBooking.TomorrowStartOptionsOrder | src/components/common/TomorrowReservationComponent.jsx:227-229 | the corrected options are increasing and are what the walker of the today component collects over tomorrow's grid |
| BookingForm.MinutesBetween | src/components/common/ReservationComponent.jsx:361-363 | the minute count exists exactly when the range is a whole number of minutes, and then is that number |
| BookingForm.AutoLength | src/components/common/ReservationComponent.jsx:338-342 | `tryAuto` uses the remembered duration when it is set, 60 minutes when it is not |
| BookingForm.Decide | src/components/common/ReservationComponent.jsx:141-181 | missing times stop the submit; otherwise a duration other than 60 or 120 stops it; otherwise the chosen range is booked exactly when the post succeeds |
| BookingForm.BookedRangeWithoutStoredDuration | src/components/common/ReservationComponent.jsx:147-155 | without a remembered duration, a booked range is exactly one or two hours long |
| BookingForm.StoredDurationWins | src/components/common/ReservationComponent.jsx:149-155 | the remembered duration is trusted: with 60 or 120 remembered, a range of any length is booked when the request succeeds; without it, a range that is not one or two hours long is refused |
| BookingForm.StoredDurationExample | src/components/common/ReservationComponent.jsx:149-155 | an instance: with 60 remembered a 30-minute range is booked, without it it is refused |
| BookingForm.Form.constructor | src/components/common/ReservationComponent.jsx:46-50 | the modal starts closed with nothing chosen |
| BookingForm.Form.OpenModal | src/components/common/ReservationComponent.jsx:128-134 | with an access token the modal opens, without one the login prompt does; the choices are kept |
| BookingForm.Form.OnStartChange | src/components/common/ReservationComponent.jsx:324-343 | the start is recorded; the end becomes start plus the auto length and that length is remembered exactly when that range is free, else the end is cleared |
| BookingForm.Form.OnEndChange | src/components/common/ReservationComponent.jsx:357-366 | the end is recorded; the duration is remembered only when a start is chosen and the range is exactly 60 or 120 minutes |
| BookingForm.Form.Submit | src/components/common/ReservationComponent.jsx:141-181 | alerts and changes nothing unless booked; a booked range refetches the three store lists, closes the modal and clears the choices |
| BookingForm.BookedRangeIsAllowed | src/components/common/ReservationComponent.jsx:141-155 | in a form whose end follows from its remembered duration, every booked range is one or two hours long |
| ReservationHistory.CancelGateIsStrict | src/components/common/ReservationHistory.jsx:21-22 | with a valid end, the row can be cancelled exactly while now is before the end; a booking ending exactly now cannot, one millisecond earlier it can |
| ReservationHistory.RowEndFallback | src/components/common/ReservationHistory.jsx:3 | the end falls back to `reservationEndTime` exactly when `endTime` is falsy |
| ReservationHistory.UpcomingIsCancellable | src/components/common/ReservationHistory.jsx:21-22 | every booking the store lists as upcoming can be cancelled from its row |
| ReservationHistory.FormatTime | src/components/common/ReservationHistory.jsx:16-19 | `--:--` exactly for a missing date; otherwise `HH:MM` whose fields read back as the hour and minute |
| AfterLoginBanner.AtMostOneOpen | src/components/common/AfterLoginBanner.jsx:129-131 | among rows with distinct ids at most one cancellation modal is open, and only when an id is selected |
| AfterLoginBanner.Banner.constructor | src/components/common/AfterLoginBanner.jsx:10 | no modal is open at first |
| AfterLoginBanner.Banner.OpenModal | src/components/common/AfterLoginBanner.jsx:123-126 | a row's cancel button opens that row's modal |
| AfterLoginBanner.Banner.CloseModal | src/components/common/AfterLoginBanner.jsx:131 | closing leaves no modal open |
| AfterLoginBanner.Banner.FetchUpcoming | src/components/common/AfterLoginBanner.jsx:37-55 | no request without credentials; on success the store gets exactly the upcoming list, earliest start first; a failure leaves it; nothing else in the store changes |
| AfterLoginBanner.Banner.Cancel | src/components/common/AfterLoginBanner.jsx:61-75 | a successful cancel closes the modal, refetches the user's list and then rebuilds the index; a failed one leaves the modal and the store as they were |
| ReservationList.ToDateFromRaw | src/components/common/ReservationList.jsx:12-20 | `null` for a falsy value and for a string that does not parse; an Invalid Date exactly for an empty array |
| ReservationList.ListDateAgreesWithStore | src/components/common/ReservationList.jsx:14-16 | for a three- to five-part array the page reads the same instant as the store's `parseToDate` |
| ReservationList.NormIgnoresCase | src/components/common/ReservationList.jsx:22-25 | `norm` gives the same text for a status and its upper-case form |
| ReservationList.NormIgnoresLeadingBlank | src/components/common/ReservationList.jsx:22-25 | `norm` ignores a leading space |
| ReservationList.NormReserved | src/components/common/ReservationList.jsx:22-25 | `norm` of `RESERVED` is `RESERVED` |
| ReservationList.NormFixed | src/components/common/ReservationList.jsx:22-25 | a non-empty upper-case word is its own `norm` |
| ReservationList.ReservedIsNotCanceled | src/components/common/ReservationList.jsx:27-32 | a RESERVED entry without a cancellation stamp is not cancelled |
| ReservationList.DateKeyOf | src/components/common/ReservationList.jsx:34-47 | an entry gets a day bucket exactly when its start parses, and then the local day of that start; otherwise the `Invalid Date` bucket |
| ReservationList.VisibleSortedSpec | src/components/common/ReservationList.jsx:92-95 | the visible list holds every entry that is not cancelled as often as fetched and no cancelled one, latest start first with a missing start as 0 |
| ReservationList.BuildGrouped | src/components/common/ReservationList.jsx:92-97 | the groups are the buckets of the visible sorted list by start day, with the day names in first-appearance order |
| ReservationList.GroupedSpec | src/components/common/ReservationList.jsx:34-50 | each bucket holds exactly the visible entries of its day, each as often as fetched, latest start first; no day name appears twice |
| ReservationList.Page.constructor | src/components/common/ReservationList.jsx:57-59 | the page starts with no groups, loading, and no modal |
| ReservationList.Page.Shown | src/components/common/ReservationList.jsx:189-191 | the rendered dates are exactly the bucket names other than `Invalid Date` |
| ReservationList.Page.Load | src/components/common/ReservationList.jsx:99-149 | without a token or user id, or on a failed fetch, the page shows nothing; otherwise it shows the grouping of the fetched list; loading ends either way |
| ReservationList.Page.OpenCancel | src/components/common/ReservationList.jsx:151-153 | the row's reservation becomes the modal's data and nothing else changes |
| ReservationList.Page.ConfirmCancel | src/components/common/ReservationList.jsx:155-175 | nothing without modal data or a user id; a failed cancel keeps the modal; a successful one closes it and, when the refetch succeeds, shows the new grouping and rebuilds the index |
| ReservationList.Page.Refresh | src/components/common/ReservationList.jsx:168-170 | the groups become the grouping of the refetched list, then the store's index is rebuilt; the store's other lists are unchanged |

## Left out

- HTTP requests, `await`, `setInterval`/`setTimeout` (the 10-second index polling, the 100 ms and 50 ms auth delays, the countdown interval as a timer) and React re-rendering are not modelled: every request's answer or failure is a method parameter, a countdown tick is the method `Verification.Form.Tick`, and handlers run one at a time.
- `alert`, `confirm`, `console` and navigation are left out; a confirm dialog's answer is a parameter, and the alert texts, which come from the server or are fixed strings, are not part of the state.
- The current time (`new Date()`, `nowInKST()`) is a parameter; `toLocaleString` with a time zone, `toISOString`, `toLocaleDateString` and ISO string round trips are not modelled: instants are compared as numbers, which is what the code does after parsing.
- The client runs in UTC+9; another browser time zone, daylight saving time and the `TimeClip` limits of ECMAScript dates are not modelled.
- Date strings (as opposed to arrays) are not parsed: such a field carries the parse result it would give, or `None` for one that does not parse.
- `new Date(createdAt)` on an array, in the sort of `fetchLatestReservation`, parses the array's comma-joined text (`"2025,3,10,9,0"`). Section 21.4.3.2 of ECMA-262 leaves the parse of such a string to the engine, so it is a parameter of `ReservationStore.Latest`. This model does not say what any engine produces.
- An Invalid Date in a sort comparator yields `NaN`, which leaves the order to the engine; the model sorts it as 0.
- `toUpperCase` is modelled on ASCII letters only; string lengths count code points, not UTF-16 code units.
- Session storage, the token store's rehydration and `jwtDecode` of `ReservationList.jsx` are reduced to one signed-in flag and one has-user-id flag.
- The month-and-day texts of `AfterLoginBanner.jsx` and `ReservationList.jsx` (`M월 D일`) are left out: they are display only and would need the inverse of the day count.
- The image viewer's loading effect, object URLs and `Blob` handling are left out; only the MIME choice is modelled.
- `typeof` checks and other inputs of the wrong JavaScript type (a user list that is not an array, a missing reservations field other than as an empty list) are not modelled.
- Upload progress events, `uploadAllImages` and `fetchLatestSuggestionId` of the suggestion page are left out; the retry loop of one upload is modelled with each attempt's status as a parameter.
- The form encoding of `URLSearchParams` in the admin suggestions page is not modelled: it is the unconstrained parameter `encode` of `AdminSuggestions.Serialize`, `QueryUrl` and `BuildQuery`.
- `RoomManagement.Page.BeginStatusChange`: requires the room to be in the map. The buttons exist only for the five room ids, which the page's map always holds; the source's fallback to `IDLE` for a missing record is not modelled.
- `RoomManagement.Page.ChangeStatus`: the same requirement as `BeginStatusChange`, for the same reason.
- Styling, layout, modals as components, the MUI stepper and the pages outside the named files are not part of this model.

## Findings

| source | as written | input that shows it | evidently intended | confidence | as-written member | corrected member |
|---|---|---|---|---|---|---|
| src/components/common/TomorrowReservationComponent.jsx:227-235 | start options are every entry of `timeSlots` whose slot is free, the display-only 23:59 entry included | tomorrow with the 23:50 slot free: 23:59 is offered, a start that is not slot-aligned and whose one-hour end is on the next day | the display entry is never bookable, as in the today component, which walks the grid only | not executed | TomorrowBooking.AsWrittenOffersDisplayLast | TomorrowBooking.TomorrowStartOptionsMembers |
| src/app/admin/reservations-by-date/page.jsx:52-56 | buckets are sorted by `new Date(...createdAt)`, passing the 1-based month as the month index and the seventh element (nanoseconds) as milliseconds | `[2025, 3, 10, 10, 0, 0, 900000000]` and `[2025, 3, 10, 10, 0, 5, 100000000]`: the earlier creation sorts as the newer; `AsWrittenMisorders` states this for every same-day pair with that gap | newest creation first by the actual creation time | not executed | AdminReservations.AsWrittenMisorders | AdminReservations.IntendedBucketNewestFirst |
