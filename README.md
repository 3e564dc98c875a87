# Task assignment app: calendar engine, task and user store, link editor

This project models the logic of a task-assignment web application in which
an admin invites students, assigns them tasks with deadlines, and students
submit image proof for their tasks. It has four parts.

- **Dashboard week engine** (`frontend/src/pages/Dashboard.jsx`). This covers:
  - the Monday that starts a date's week, and the seven dates of that week;
  - the week a navigation offset selects, and the `D/M/YYYY - D/M/YYYY` heading;
  - the Sunday-first mini calendar of a month;
  - the split of the user's tasks into one bucket per day;
  - the highlighting predicates, and the rule that disables "Send Proof".
- **Task handlers** (`server/controller/taskController.js`). Admin-only task
  creation with its notification, the task list, the status update, and the
  proof state machine: pending, then submitted on upload, then pending again
  when the proof is removed.
- **User handlers** (`server/controller/userController.js`). Inviting a user
  with unique emails, the session check, the student list, the profile
  update, an admin's view of a user's tasks, and the picture path.
- **Profile link editor** (`frontend/src/pages/Profile.jsx`). Guarded append
  to, and removal from, the list of social links.

Dates are day numbers: 0 is 1970-01-01, and `Calendar` converts them to and
from (year, month 0..11, day) by the proleptic Gregorian rules. JavaScript's
`new Date(y, m, d)` is `Week.NewDate`. Like the JavaScript constructor, it
rolls an overflowing month or day into the next month or year, and it reads
a year 0..99 as 1900..1999. `setDate` is `Week.SetDate`, which keeps the year
as it is. A Date that the page copies and then moves is modelled as the day
number it ends up holding.

The server's document store is the class `Store.Database`. It holds maps
from ids to users, tasks and notifications, and hands out fresh ids. Each
handler is a method that changes the database in one atomic step and returns
a `Response`: HTTP status, success flag and message. The profile editor is
pure: each handler maps an editor state to a new one.

Modules, one per file:
- `Optional` and `Calendar`: the support types and the date conversion.
- `Base64`: the encoding of section 4 of RFC 4648 that proof images use.
- `Store`: the records and the database.
- `TaskController` and `UserController`: the server handlers.
- `Week`, `WeekLabel`, `MonthCalendar` and `WeekTasks`: the dashboard.
- `Profile`: the link editor.

`getMonthMatrix` does not pad the first row of the mini calendar: it skips
the cells before the first day of the month (Dashboard.jsx:39), so the
first row holds only 7 − weekday(first day) cells (`MonthCalendar.GridShape`).
`handlePrevWeek` and `handleNextWeek` change only the week offset and leave
the selected day index as it is, so the navigation state is the offset alone.

## Model

| member | source | states |
|---|---|---|
| Calendar.Weekday | frontend/src/pages/Dashboard.jsx:13 | getDay(): a weekday from 0 (Sunday) to 6 (Saturday) |
| Calendar.FromCivil | frontend/src/pages/Dashboard.jsx:31 | the constructor's day arithmetic, overflowing months and days included; FromToCivil, ToFromCivil and MonthSpan state what it computes |
| Calendar.ToCivil | frontend/src/pages/Dashboard.jsx:60-62 | the getters: a month 0..11 and a day of at least 1; FromToCivil and ToCivilInjective state that the fields name the day exactly |
| Calendar.MonthLength | frontend/src/pages/Dashboard.jsx:32 | a month has 28 to 31 days, and February has 29 exactly in a Gregorian leap year |
| Calendar.FromToCivil | frontend/src/pages/Dashboard.jsx:14-16 | the getters' (year, month, day) of any date is a valid date, and building a date from it gives the same day back |
| Calendar.ToFromCivil | frontend/src/pages/Dashboard.jsx:31-32 | building a valid (year, month, day) and reading the getters gives the same fields back |
| Calendar.ToCivilInjective | frontend/src/pages/Dashboard.jsx:159-163 | two days have equal year, month and day exactly when they are the same day |
| Calendar.MonthSpan | frontend/src/pages/Dashboard.jsx:32 | the first of the next month lies exactly the month's Gregorian length after the first of the month, for any overflowing month number |
| Calendar.NormalSpan | frontend/src/pages/Dashboard.jsx:32 | for a normalized month, the first of the next month lies the month's Gregorian length after its first day |
| Week.SetDate | frontend/src/pages/Dashboard.jsx:16 | setDate(dom) moves the date by dom minus its current day of month, rolling over month ends |
| Week.NewDate | frontend/src/pages/Dashboard.jsx:73 | new Date(y, m, d): the Gregorian day of (y, m, d) with a year 0..99 read as 1900..1999; NewDateDayShift and DayOfMonthCell state its day arithmetic |
| Week.NewDateDayShift | frontend/src/pages/Dashboard.jsx:73 | moving the day argument of the constructor by j moves the date by j days, in every year |
| Week.StartOfWeek | frontend/src/pages/Dashboard.jsx:12-17 | the week start is a Monday, on or before the date and at most six days earlier; a Sunday maps to the Monday six days before it |
| Week.StartOfWeekUnique | frontend/src/pages/Dashboard.jsx:12-17 | any Monday at most six days before a date is that date's week start |
| Week.MondaysOfWeek | frontend/src/pages/Dashboard.jsx:12-17 | two Mondays each at most six days before the same date are the same day |
| Week.WeekDates | frontend/src/pages/Dashboard.jsx:20-27 | seven dates; the first is the week start, a Monday; each is one day after the previous one; the last is a Sunday; the base date lies among them |
| Week.DaysFrom | frontend/src/pages/Dashboard.jsx:22-26 | the i-th copy of the start moved with setDate(start's day + i) is the start plus i days |
| Week.WeekWindow | frontend/src/pages/Dashboard.jsx:73-75 | the window for an offset has seven dates |
| Week.BaseDate | frontend/src/pages/Dashboard.jsx:73 | today's year, month and day with seven days per week of offset added to the day, through the constructor; BaseDatesApart and BaseDateShift state where it lands |
| Week.BaseDatesApart | frontend/src/pages/Dashboard.jsx:73 | for every today, including one in the years 0..99, the base dates of offsets k and 0 are 7·k days apart |
| Week.BaseDateShift | frontend/src/pages/Dashboard.jsx:73 | outside the years 0..99 the base date is today plus seven days per week of offset |
| Week.StartOfWeekShift | frontend/src/pages/Dashboard.jsx:12-17 | moving a date by k weeks moves its week start by k weeks |
| Week.WeeksApart | frontend/src/pages/Dashboard.jsx:20-27 | the weeks of two dates k weeks apart are k weeks apart, date by date |
| Week.WindowOfShift | frontend/src/pages/Dashboard.jsx:73-75 | outside the years 0..99 the window for offset k is the week of today + 7·k |
| Week.WindowShift | frontend/src/pages/Dashboard.jsx:73-75 | the window for offset k is the window for offset 0 moved by 7·k days |
| Week.AdjacentWindows | frontend/src/pages/Dashboard.jsx:73-75 | the window for offset k + 1 is the window for k moved by seven days and begins the day after it ends |
| Week.WeekNavigator.constructor | frontend/src/pages/Dashboard.jsx:72 | the offset starts at 0 |
| Week.WeekNavigator.Window | frontend/src/pages/Dashboard.jsx:73-75 | the shown window is the window for the current offset, seven dates, so WindowShift and AdjacentWindows apply to it |
| Week.WeekNavigator.PrevWeek | frontend/src/pages/Dashboard.jsx:140 | the offset goes down by one |
| Week.WeekNavigator.NextWeek | frontend/src/pages/Dashboard.jsx:141 | the offset goes up by one |
| Week.PrevThenNext | frontend/src/pages/Dashboard.jsx:140-141 | previous then next week restores the offset and the shown window |
| Week.IsSameDay | frontend/src/pages/Dashboard.jsx:159-163 | both dates present and their year, month and day equal; IsSameDayIff states that this is day equality |
| Week.IsInCurrentWeek | frontend/src/pages/Dashboard.jsx:164 | some date of the week is the same day as the cell; IsInCurrentWeekIff states the range it accepts |
| Week.IsToday | frontend/src/pages/Dashboard.jsx:165 | the cell is the same day as today; TodayInCurrentWeek relates it to the week highlight |
| Week.IsSameDayIff | frontend/src/pages/Dashboard.jsx:159-163 | isSameDay holds exactly when both dates are present and equal; an empty cell is never the same day |
| Week.IsInCurrentWeekIff | frontend/src/pages/Dashboard.jsx:164 | a cell is in the current week exactly when it holds a date from the week's Monday through its Sunday |
| Week.ConsecutiveWeekIff | frontend/src/pages/Dashboard.jsx:164 | for seven consecutive dates, membership is exactly the range from the first to the seventh |
| Week.TodayInCurrentWeek | frontend/src/pages/Dashboard.jsx:164-165 | the cell highlighted as today is also highlighted as in today's week |
| WeekLabel.NatToString | frontend/src/pages/Dashboard.jsx:151 | a number is written as at least one decimal digit |
| WeekLabel.NatToStringRoundTrip | frontend/src/pages/Dashboard.jsx:151 | reading back the digits of n gives n |
| WeekLabel.IntToStringRoundTrip | frontend/src/pages/Dashboard.jsx:151 | reading back the text of any integer year, negative ones included, gives the year |
| WeekLabel.CivilLabelRoundTrip | frontend/src/pages/Dashboard.jsx:151 | the D/M/Y label, month counted from 1, names its day, month and year exactly |
| WeekLabel.CivilLabelChars | frontend/src/pages/Dashboard.jsx:151 | a label consists of digits, '/' and '-' only |
| WeekLabel.LabelsRoundTrip | frontend/src/pages/Dashboard.jsx:151 | two labels joined by " - " split back into the two dates |
| WeekLabel.WeekRange | frontend/src/pages/Dashboard.jsx:151 | the labels of the first and the seventh date joined by " - "; WeekRangeRoundTrip states that it names both dates exactly |
| WeekLabel.WeekRangeRoundTrip | frontend/src/pages/Dashboard.jsx:151 | the week heading reads back as the getters' fields of the first and the seventh date of the window |
| WeekLabel.DateLabelIdentifies | frontend/src/pages/Dashboard.jsx:151 | a date's label determines the date itself |
| WeekLabel.HeadingOfJuly9th2025 | frontend/src/pages/Dashboard.jsx:151 | in the week of Wednesday 9 July 2025 the heading reads "7/7/2025 - 13/7/2025" |
| WeekLabel.WeekOfJuly9th2025 | frontend/src/pages/Dashboard.jsx:12-27 | the week of 9 July 2025 runs from Monday 7 to Sunday 13 July |
| MonthCalendar.LastDateIsMonthLength | frontend/src/pages/Dashboard.jsx:32 | "day 0 of the next month" is the last day of the month: its getDate() is the Gregorian month length, 29 for a leap February |
| MonthCalendar.NewDateStep | frontend/src/pages/Dashboard.jsx:39 | new Date(y, m, d) is d − 1 days after the first of the month |
| MonthCalendar.DayOfMonthCell | frontend/src/pages/Dashboard.jsx:39 | for every d of the month, new Date(y, m, d) reads back as day d of that month |
| MonthCalendar.MonthGrid | frontend/src/pages/Dashboard.jsx:30-52 | the layout of the month that new Date(year, month, 1) begins, with the constructor's month length; MonthGridSpec states its shape and cells |
| MonthCalendar.MonthMatrix | frontend/src/pages/Dashboard.jsx:30-52 | the two loops build exactly the month layout MonthGrid, whose properties the lemmas below state |
| MonthCalendar.FillFirstWeek | frontend/src/pages/Dashboard.jsx:38-41 | the first loop builds exactly the first row, the days from the first of the month up to Saturday, and leaves day one past them |
| MonthCalendar.FillWeek | frontend/src/pages/Dashboard.jsx:43-49 | one pass of the inner loop builds row r: seven cells of consecutive days, empty once the last day is placed; day moves on by seven or to one past the last day |
| MonthCalendar.GridOfRows | frontend/src/pages/Dashboard.jsx:41-49 | rows agreeing with the layout one by one, and as many of them, are the layout |
| MonthCalendar.GridShape | frontend/src/pages/Dashboard.jsx:38-49 | the first row has 7 − weekday(first) cells and no empty one; later rows have seven cells; empty cells form a trailing run of the last row only; the last row begins with a day |
| MonthCalendar.FirstRowDays | frontend/src/pages/Dashboard.jsx:38-41 | the first row lists the first 7 − weekday(first) days of the month |
| MonthCalendar.LaterRowDays | frontend/src/pages/Dashboard.jsx:43-49 | each later row lists seven consecutive days, or the days left up to the last one |
| MonthCalendar.GridPrefixDays | frontend/src/pages/Dashboard.jsx:41-49 | the first c + 1 rows list the month's first days in order, as many as fit |
| MonthCalendar.GridDays | frontend/src/pages/Dashboard.jsx:30-52 | the non-empty cells, row by row, are the n days of the month in order |
| MonthCalendar.MonthGridSpec | frontend/src/pages/Dashboard.jsx:30-52 | the grid's non-empty cells are days 1..n of the month in order, with n the Gregorian month length; the row shape is as in GridShape |
| MonthCalendar.DateInItsMonth | frontend/src/pages/Dashboard.jsx:202 | every valid date outside the years 0..99 is a cell of its month's grid |
| MonthCalendar.OwnMonth | frontend/src/pages/Dashboard.jsx:31-39 | for a valid date outside the years 0..99 the constructor keeps the month, its length is the Gregorian one, and the date is the first of the month plus day − 1 |
| MonthCalendar.BaseDateShown | frontend/src/pages/Dashboard.jsx:154-156 | the mini calendar built for the base date's year and month shows the base date |
| MonthCalendar.July2025 | frontend/src/pages/Dashboard.jsx:30-52 | July 2025 has 31 days, a first row of five cells and four later rows |
| WeekTasks.OnDate | frontend/src/pages/Dashboard.jsx:59-62 | the filter callback for one date, comparing year, month and day of the deadline; OnDateIff states which tasks it accepts |
| WeekTasks.Filter | frontend/src/pages/Dashboard.jsx:58-62 | tasks.filter: never longer than the list; FilterMembership and FilterAppend state its contents and order |
| WeekTasks.SameCalendarDayIff | frontend/src/pages/Dashboard.jsx:59-62 | the filter's year/month/day comparison holds exactly when the deadline is that date; a missing deadline never matches |
| WeekTasks.FilterMembership | frontend/src/pages/Dashboard.jsx:58-63 | a task passes the filter exactly when it is in the list and the callback accepts it |
| WeekTasks.FilterAppend | frontend/src/pages/Dashboard.jsx:58-63 | filtering a concatenation filters each part and keeps them in order |
| WeekTasks.OnDateIff | frontend/src/pages/Dashboard.jsx:59-62 | the per-date callback accepts exactly the tasks whose deadline is that date |
| WeekTasks.DueOn | frontend/src/pages/Dashboard.jsx:58-63 | a bucket is no longer than the task list |
| WeekTasks.GroupTasksByWeek | frontend/src/pages/Dashboard.jsx:55-65 | one bucket per input date, the i-th holding the filter for the i-th date |
| WeekTasks.DueOnMembership | frontend/src/pages/Dashboard.jsx:58-63 | a task is in a date's bucket exactly when it is one of the tasks and its deadline is that date |
| WeekTasks.DueOnAppend | frontend/src/pages/Dashboard.jsx:58-63 | the bucket of a concatenation is the concatenation of the buckets, so a bucket keeps the tasks' order |
| WeekTasks.DueOnSingle | frontend/src/pages/Dashboard.jsx:58-63 | a single task is kept exactly when its deadline is the date |
| WeekTasks.BucketMembership | frontend/src/pages/Dashboard.jsx:55-65 | bucket i holds exactly the tasks due on the i-th date; a task without a deadline is in no bucket |
| WeekTasks.AtMostOneBucket | frontend/src/pages/Dashboard.jsx:55-65 | for pairwise distinct dates, a task is in at most one bucket |
| WeekTasks.CountDueInAdd | frontend/src/pages/Dashboard.jsx:55-65 | adding a new day to a set of days adds the size of a filter that keeps exactly that day's tasks to the number of tasks due in the set |
| WeekTasks.TotalIsCount | frontend/src/pages/Dashboard.jsx:55-65 | for distinct dates, the bucket sizes add up to the number of tasks due on one of the dates |
| WeekTasks.BucketsTotalBound | frontend/src/pages/Dashboard.jsx:55-65 | for distinct dates, the bucket sizes add up to at most the number of tasks |
| WeekTasks.WeekBucketsTotal | frontend/src/pages/Dashboard.jsx:91 | on the dashboard, the day buckets of a week together hold at most as many entries as there are tasks |
| WeekTasks.SendProofDisabled | frontend/src/pages/Dashboard.jsx:291 | the button is disabled for a completed task or one with a proof; the two lemmas below state how upload and removal change it |
| WeekTasks.UploadDisablesSendProof | frontend/src/pages/Dashboard.jsx:291 | after a proof upload the Send Proof button is disabled |
| WeekTasks.RemoveProofEnablesSendProof | frontend/src/pages/Dashboard.jsx:291 | after a proof removal the button is disabled exactly when the task had no proof and is completed |
| Base64.Encode | server/controller/taskController.js:107 | toString('base64'): groups of three bytes as four characters, a final group padded with '='; EncodeTestVectors, EncodeLength and DecodeEncode state what it produces |
| Base64.EncodeTestVectors | server/controller/taskController.js:107 | the RFC 4648 test vectors: "f" encodes to "Zg==", "fo" to "Zm8=" and "foobar" to "Zm9vYmFy" |
| Base64.EncodeLength | server/controller/taskController.js:107 | the encoding has four characters per started group of three bytes |
| Base64.EncodeAlphabet | server/controller/taskController.js:107 | the encoding consists of alphabet characters and '=' only, so it holds no comma |
| Base64.DecodeEncode | server/controller/taskController.js:107 | decoding the encoding gives back exactly the bytes |
| Store.Populate | server/controller/taskController.js:46-49 | populating yields at most one task per id, each of them a stored task that an id of the list refers to |
| Store.PopulateComplete | server/controller/taskController.js:46-49 | when every id refers to a stored task, populating yields one task per id in list order |
| Store.Database.constructor | server/controller/taskController.js:23 | an empty store is valid: fresh ids, unique emails, task lists that refer to stored tasks |
| Store.Database.NewId | server/controller/taskController.js:23 | a new document gets an id no stored user, task or notification has |
| TaskController.HasAllFields | server/controller/taskController.js:19-21 | name, instructions, deadline, category and assignee all present and non-empty, the test whose failure AddTask answers with 403 |
| TaskController.NewTask | server/controller/taskController.js:23-25 | the created task holds exactly the five given fields, status pending and no proof |
| TaskController.AssignedNotice | server/controller/taskController.js:27-33 | the notification goes to the assignee, refers to the task, has type task_assigned and the message "You have been assigned to a new task: " followed by the name |
| TaskController.WithTask | server/controller/taskController.js:26 | the assignee's task list gets the new id at its end, and nothing else of the user changes |
| TaskController.ProofUrl | server/controller/taskController.js:107 | "data:" followed by the MIME type, ";base64," and the encoded bytes, each at its position |
| TaskController.ProofImageOfProofUrl | server/controller/taskController.js:107 | the stored data URL decodes back to exactly the uploaded bytes, whatever the MIME type |
| TaskController.WithProof | server/controller/taskController.js:112-113 | after an upload the task is submitted and holds a proof that decodes to the file's bytes; no other field changes |
| TaskController.WithoutProof | server/controller/taskController.js:138-141 | removing a proof leaves no proof; a task with one goes back to pending; a task without one is unchanged |
| TaskController.WithoutProofIdempotent | server/controller/taskController.js:138-143 | removing a proof twice is removing it once |
| TaskController.WithoutProofUndoesUpload | server/controller/taskController.js:112-113 | removing a just-uploaded proof leaves the task pending without proof and otherwise as before the upload |
| TaskController.AddTask | server/controller/taskController.js:12-40 | a non-admin or unknown requester gets 403 and the store is unchanged; a missing field gives 403 "Missing information" and the store is unchanged; otherwise one new pending task, the id appended to the assignee's list, and one task_assigned notification; the store stays valid |
| TaskController.CreateTask | server/controller/taskController.js:22-33 | the store stays valid; the task gets the next fresh id and is stored as NewTask says; its id is appended to the assignee's list when the assignee exists; the notification gets the following id |
| TaskController.CreateKeepsValid | server/controller/taskController.js:22-33 | storing the task, appending its id to the assignee and storing the notification keep ids fresh, emails unique and every listed task id stored |
| TaskController.GetTasks | server/controller/taskController.js:43-59 | an unknown requester gets 404; otherwise the requester's tasks in list order, one per id in a valid store |
| TaskController.UpdateTaskStatus | server/controller/taskController.js:76-89 | admin only (403 otherwise, store unchanged); sets the status to the given value unchecked, and no other field or record changes |
| TaskController.UploadProof | server/controller/taskController.js:92-123 | 404 for an unknown requester or task; 400 without a file, task unchanged; with a file the task becomes submitted with the file's data URL |
| TaskController.RemoveProof | server/controller/taskController.js:126-148 | 404 for an unknown requester or task; otherwise success, with the proof cleared and the status pending when there was a proof, and the task untouched when there was none |
| UserController.Invited | server/controller/userController.js:18 | a new user has the given fields, status invited, no tasks and no links |
| UserController.AddUsers | server/controller/userController.js:6-26 | a missing name, email or role fails with "Missing details"; an email already in use fails with "User already exists!"; both leave the store unchanged; otherwise exactly one new invited user; emails stay unique |
| UserController.IsAuth | server/controller/userController.js:29-41 | succeeds with the user's record exactly when the requester is a stored user |
| UserController.Students | server/controller/userController.js:61 | exactly the users whose role is student, with their records |
| UserController.GetUserList | server/controller/userController.js:59-68 | answers with exactly the students |
| UserController.UpdatedProfile | server/controller/userController.js:78-83 | a non-empty name replaces the name, supplied links replace the links, and nothing else changes |
| UserController.UpdatedProfileNoChange | server/controller/userController.js:78-83 | an update with no name and no links changes nothing |
| UserController.UpdatedProfileIdempotent | server/controller/userController.js:78-83 | applying the same update twice is applying it once |
| UserController.UpdateUserInfo | server/controller/userController.js:71-90 | 404 "No user found" for an unknown requester, store unchanged; otherwise only the requester's profile changes, as UpdatedProfile says |
| UserController.GetTasksForUser | server/controller/userController.js:93-111 | 403 for a requester who is not an admin, 404 for an unknown target; otherwise the target's tasks in list order |
| UserController.PicturePath | server/controller/userController.js:120 | the path is "/uploads/" followed by the file name |
| UserController.UploadPicture | server/controller/userController.js:114-127 | 404 for an unknown user; without a file the error answer and no change; otherwise only the picture becomes the upload path |
| Profile.AddLink | frontend/src/pages/Profile.jsx:57-61 | with label and url both filled in, the link is appended at the end, the old links keep their order and the input is cleared; otherwise nothing changes |
| Profile.AddLinkKeepsComplete | frontend/src/pages/Profile.jsx:58-59 | adding never puts a link with an empty field into the list |
| Profile.AddLinkTwice | frontend/src/pages/Profile.jsx:60 | a second press right after an add changes nothing, since the input is cleared |
| Profile.KeepWhere | frontend/src/pages/Profile.jsx:65 | filtering by index keeps at most all the links |
| Profile.RemoveLinkAsWritten | frontend/src/pages/Profile.jsx:65 | the filter with the callback as written; RemoveLinkAsWrittenEmpties states what it leaves |
| Profile.RemoveLink | frontend/src/pages/Profile.jsx:65 | the filter with the intended callback; RemoveLinkDropsOne states what it leaves |
| Profile.RemoveLinkAsWrittenEmpties | frontend/src/pages/Profile.jsx:64-66 | as written, removing any link empties the list |
| Profile.RemoveLinkAsWrittenLosesOthers | frontend/src/pages/Profile.jsx:64-66 | with two links, removing the first loses the second as well, where the intended removal keeps it |
| Profile.RemoveLinkDropsOne | frontend/src/pages/Profile.jsx:64-66 | the intended removal drops exactly the link at the index and keeps the others in order; an index outside the list removes nothing |
| Profile.RemoveLinkKeepsComplete | frontend/src/pages/Profile.jsx:64-66 | removing keeps a list of complete links complete |
| Profile.RemoveLinkAt | frontend/src/pages/Profile.jsx:64-66 | removing an index in range shortens the list by one, out of range changes nothing, and the input stays |
| Profile.AddThenRemove | frontend/src/pages/Profile.jsx:57-66 | adding a link and then removing it at its index restores the list |

## Findings

| source | as written | input that shows it | evidently intended | confidence | as-written member | corrected member |
|---|---|---|---|---|---|---|
| frontend/src/pages/Profile.jsx:65 | the filter callback `(_, i) => {i !== idx}` has a block body with no `return`, so it returns undefined and filter keeps no link | links [GitHub, Blog], idx 0: the list becomes [] instead of [Blog] | `(_, i) => i !== idx`, which drops only the link at idx | not executed | Profile.RemoveLinkAsWrittenEmpties | Profile.RemoveLinkDropsOne |

The editor's removal (`Profile.RemoveLinkAt`) uses the corrected filter.

## Left out

- Network, HTTP and the browser: axios calls, Express routing, cookies, JWT and the authentication middleware are not modelled. The requester is a parameter. The logout handler only clears a cookie, and is left out.
- Database errors: a malformed id, or any other exception, ends in the handler's catch answer in the source: status 500 in most handlers, and 401 in `addUsers`, `isAuth` and `logout` (userController.js:22, :38, :53). The model has no such failures. Where the source dereferences a missing value, as `req.file.filename` does without a file, the model gives the catch branch's answer.
- Files: multer configuration, reading the uploaded file from disk and deleting it are left out. An upload is a MIME type and its bytes. The route keeps uploads in memory while the handler reads `req.file.path`; that mismatch is I/O and outside the model. The user routes keep picture uploads in memory too, so the deployed `uploadPicture` reads an undefined `req.file.filename` and stores "/uploads/undefined"; the model takes the file name as the handler expects it.
- Projections: `populate` selects only some task fields, and `getUserList` drops two user fields; the model returns whole records. `getUserList` answers with an array in the order the database returns it, and the model (`UserController.Students`, `UserController.GetUserList`) returns the students as a map from id to record, so that order is not modelled.
- Time: time of day, time zones, daylight saving and the finite range of JavaScript dates are not modelled. Dates are calendar days.
- Today's date: the clock is a parameter (`today`).
- Deadlines: a stored deadline is a day, or None when it is missing or not a date. JavaScript reads a null deadline as 1970-01-01; that case is not modelled.
- Week.BaseDateShift, Week.WindowOfShift, MonthCalendar.DateInItsMonth and MonthCalendar.BaseDateShown assume the date lies outside the years 0..99. For those years the Date constructor reads the year as 1900..1999, as `Week.NewDate` models, so the base date is not today plus seven days per week of offset. The lemmas that compare offsets with each other (`Week.BaseDatesApart`, `Week.WindowShift`, `Week.AdjacentWindows`) hold for every today.
- UserController.GetUserList, TaskController.UpdateTaskStatus, UserController.GetTasksForUser and UserController.UploadPicture: the source answers these without a message; the model's message is empty.
- Rendering: React rendering, dialogs, the expanded task, toasts, dark mode, and the dialog's selected day are left out. The "n tasks" count on a day card is the bucket size.
- The profile page's save and picture upload only call the server handlers modelled above, and are left out.
- Notifications: reading notifications is not part of this model.
