# Practice-record bookkeeping of the speech trainer

This project models the bookkeeping at the centre of the speech trainer's
Django handlers. Students practise a catalogue of exercises. Each day they
get a check-in: a "homework book" for that student and date. Every practice
leaves a practice record: an uploaded recording, or a mark without a
recording. A student submits a day's check-in to the teacher. Other users
can like a check-in. Students read announcements, and teachers see who has
read each one.

The database is the class `Database.Store`:

- The users, exercises and announcements are fixed catalogues.
- The check-in, practice-record and read-record tables are `seq` fields,
  which the handlers replace or extend in place.
- A row's primary key is its position in its table. So an ORM `.first()`
  without an ordering is the match with the lowest position.
- `Store.Valid()` holds the model's invariants:
  - the catalogues are keyed by position;
  - at most one check-in exists per (student, date);
  - at most one read record exists per (announcement, student);
  - every foreign key points at an existing row;
  - a record's check-in belongs to the record's student.

Every handler that writes is a method that keeps `Valid()`. Its new tables
are stated as a pure function of the old ones (`CheckInsWith`,
`WeeklyUpsert`, `SubmittedCheckIns`, `RecordedRecords`, `ReadsWith`). The
properties the application relies on are proved as lemmas about those
functions.

Modules:

- `Dates`: week arithmetic over day numbers. A date is a proleptic Gregorian
  ordinal (day 1 is 0001-01-01, a Monday), so the weekday is `(d + 6) % 7`.
  An instant is a count of seconds on the same line, and its date is the
  instant divided by 86400.
- `Seqs`, `Dicts`, `Sorting`: the Python building blocks the handlers use.
  - `Seqs.Filter` is an ORM `filter`.
  - `Dicts` is an insertion-ordered `dict`, held as a sequence of pairs.
  - `Sorting.SortBy` is a stable `sorted` on lexicographic integer keys.
    `reverse=True` becomes a negated key, which gives the same order,
    stability included.
- `Models`: the record shapes and the uniqueness disciplines.
- `Reports`: the weekly report of a check-in and the date-grouped
  recording history.
- `Dashboards`: the student's progress ("all done"), the ordered exercise
  list, the `is_finished` flag, the teacher's ranked per-student statistics
  and the announcement read/unread split.
- `Database`: the store and `get_or_create` on check-ins.
- `WebViews`: the handlers of `training/views.py` that write.
- `MiniProgram`: the handlers of `training/api_views.py`.

Handlers take the current time `now` as a parameter, and "today" is its date.
The signed-in user is a parameter too, `None` when the request is
anonymous. A view's outcome is a `Reply`. The reply is `Ok` with the data
the view returns, or `Error` with the message of an error JSON reply.
`Raised` is an ORM exception: the JSON handlers catch it and reply with the
exception's text, while a page view turns `NotFound` into a 404. `Redirect`
names the page a view redirects to.

Behaviour of the code that the model keeps, which a reader might not expect:

- `submit_daily_checkin` opens today's check-in (`get_or_create`) before it
  counts the week's records. Its "nothing uploaded this week" error can
  therefore leave a new draft check-in behind. It does not leave the tables
  unchanged.
- The web handlers take "today" from the local date, while the mini-program
  handlers take it from `timezone.now().date()`. The model has one clock.
- The web upload and mark-complete re-point an existing weekly record to
  today's check-in. The table can then hold two records of one (check-in,
  exercise) pair. The mini-program's `get_or_create` on that pair would then
  raise `MultipleObjectsReturned`. `MiniProgram.UploadRecording` models this
  branch. It proves that the branch cannot arise while the table keeps
  `UniquePerCheckIn`.
- The conflict also runs the other way. The mini-program upload keys its
  `get_or_create` on (check-in, exercise), and each day has its own
  check-in. An upload of an exercise on Monday and another on Tuesday
  therefore leave two records of one (student, exercise) pair in the same
  week, which the web handlers' weekly discipline rules out
  (`MiniProgram.RecordedCanBreakWeeklyUnique`).
- The mini-program routes are commented out in
  `training/urls.py`, so the two upsert disciplines do not meet in the
  deployed application.
- The ORM queries order by `submitted_at` or by `order` alone. The model
  breaks ties between equal keys by table position (a stable sort of the
  rows in primary-key order).
- A teacher's comment saves its practice record, and `submitted_at` is
  stamped on every save. Commenting therefore moves a record to the
  comment's date. The comment handlers are not modelled (see "Left out").

## Model

| member | source | states |
|---|---|---|
| Dates.DateOf | training/views.py:41 | the date of an instant is the day whose 86400 seconds contain it |
| Dates.Weekday | training/views.py:23 | `weekday()` lies in 0..6, and going back that many days lands on a Monday |
| Dates.WeekStart | training/views.py:21-24 | the week start is a Monday, on or before the date and at most six days earlier |
| Dates.WeekStartUnique | training/views.py:21-24 | the Monday within the six days up to a date is unique, so it is the week start |
| Dates.SameWeek | training/views.py:241 | two dates have the same week start exactly when the second lies in the first's Monday-to-Sunday week |
| Dates.WeekStartIdempotent | training/views.py:241 | the week start of a Monday is that Monday |
| Dates.WeekStartMonotone | training/views.py:21-24 | a later date never has an earlier week start |
| Seqs.Filter | training/views.py:39-42 | a query result holds only rows of the table that satisfy its condition, holds every such row, and is no longer than the table |
| Seqs.FilterCounts | training/views.py:120-130 | a query keeps each satisfying row exactly as many times as the table holds it and no other row, so `.count()` counts the matching rows |
| Seqs.FilterInOrder | training/views.py:39-42 | a query result lists its rows in table order |
| Seqs.FirstIndex | training/views.py:380-384 | `.first()` gives the lowest-keyed matching row, or nothing exactly when no row matches |
| Seqs.FilterNonEmpty | training/views.py:51 | `.exists()` holds exactly when some row satisfies the condition |
| Seqs.FilterCountMonotone | training/views.py:120-130 | a query with a stronger condition never counts more rows |
| Seqs.FilterPartitionCount | training/views.py:572-573 | a condition and its complement split a table's rows between them |
| Dicts.Assign | training/views.py:254 | assigning a key overwrites its value in place, or appends the key at the end; other keys and distinct keys are kept |
| Sorting.SortBy | training/views.py:258 | `sorted` returns a permutation of its input |
| Sorting.SortBySorted | training/views.py:156 | `sorted` returns its input in non-decreasing key order |
| Sorting.SortByStable | training/views.py:156 | `sorted` is stable: the items with equal keys keep their input order |
| Sorting.LexPair | training/views.py:156 | a pair key compares by its first component, then its second |
| Models.Toggle | training/views.py:288-289 | the user likes after the toggle exactly when they did not like before; other likes are unchanged |
| Models.ToggleTwice | training/views.py:288-289 | toggling a like twice restores the like set |
| Models.ToggleCount | training/models.py:37-38 | `total_likes` goes down by one when the user liked, and up by one otherwise |
| Models.TotalLikes | training/models.py:37-38 | `total_likes()` is zero exactly when nobody likes the check-in, and each liker adds one |
| Models.StatusLabel | training/models.py:41 | the label is "✅已提交" exactly for submitted check-ins, and "📝草稿中" exactly for drafts |
| Models.WeeklyUniqueLater | training/views.py:380-384 | a one-record-per-pair guarantee since a Monday holds since every later Monday |
| Reports.WeekRecords | training/views.py:245-248 | the week's query holds exactly the student's records dated on or after the Monday, each as often as the table holds it |
| Reports.LatestByExercise | training/views.py:252-254 | the exercise-keyed map has distinct keys |
| Reports.LatestByExerciseKeyed | training/views.py:252-254 | each map entry is keyed by its record's exercise and is the last record of that exercise in the input |
| Reports.LatestByExerciseCovers | training/views.py:252-254 | every exercise with a record in the input has an entry in the map |
| Reports.ReportFromWindow | training/views.py:245-248 | every report record is one of the student's records dated on or after the week's Monday, later weeks included |
| Reports.ReportOnePerExercise | training/views.py:252-258 | the report holds at most one record per exercise |
| Reports.ReportCoversWindow | training/views.py:245-254 | every exercise with a record in the window appears in the report |
| Reports.ReportLatestOfWindow | training/views.py:248-254 | the report's record of an exercise was submitted no earlier than any window record of that exercise |
| Reports.ReportOrderedByExercise | training/views.py:258 | the report is sorted by `exercise.order` |
| Reports.WeeklyReport | training/views.py:244-258 | the report has at most one entry per record of the week's query |
| Reports.ReportLastOfWeek | training/views.py:244-254 | each reported record is the last record of its exercise in the week's records taken in `submitted_at` order |
| Reports.CollectLatest | training/views.py:244-258 | the loop builds the weekly report, with the six properties above |
| Reports.DailyReport | training/views.py:237-271 | an unknown check-in id is a 404; otherwise the check-in's weekly report with the six properties above, the viewer's like, teacher and owner flags, the like count and the number of check-ins of that date |
| Reports.GroupByDate | training/views.py:308-313 | the date-keyed map has distinct keys |
| Reports.GroupByDateCovers | training/views.py:308-313 | every record's date has a group |
| Reports.GroupByDateCorrect | training/views.py:308-313 | each group is non-empty and holds exactly the records of its date, in input order |
| Reports.HistoryNewestDateFirst | training/views.py:316 | history groups are in strictly descending date order |
| Reports.HistoryGroupsMatch | training/views.py:302-316 | each group holds exactly the student's recordings of its date, newest first |
| Reports.HistoryGroupsAll | training/views.py:302-316 | every recording of the student lies in the group of its date |
| Reports.AudioHistory | training/views.py:302-305 | the history query holds exactly the student's records with audio, each as often as the table holds it, newest first |
| Reports.HistoryOf | training/views.py:301-316 | the history has at most one group per recording |
| Reports.History | training/views.py:299-321 | the loop builds the date-grouped history, with the three properties above, and counts the student's recordings |
| Reports.TeacherStudentHistory | training/views.py:324-351 | a non-staff viewer is redirected; an unknown or staff student is a 404; otherwise that student's date-grouped history with the three properties above and the recording count |
| Dashboards.ExercisesOfQuery | training/views.py:39-43 | the set of exercise ids of a query holds exactly the exercises that have a row satisfying the query |
| Dashboards.CompletedOnDay | training/views.py:39-43 | the completed set holds exactly the exercises the student has a record of dated that day |
| Dashboards.CompletedInCheckIn | training/api_views.py:65-66 | the completed set holds exactly the exercises with a record under the check-in |
| Dashboards.ExerciseIds | training/views.py:36-37 | the ids of a position-keyed catalogue are exactly 0 up to its size |
| Dashboards.ExerciseIdsCount | training/views.py:37 | a catalogue of n exercises has n ids |
| Dashboards.AllDoneIffEveryExercise | training/views.py:45 | "all done" holds exactly when the catalogue is non-empty and every exercise id is completed |
| Dashboards.AllDoneIffEveryExerciseHasRecord | training/views.py:43-45 | over a table of catalogue exercises, "all done" holds exactly when every exercise has a record |
| Dashboards.AllDoneIffEveryExerciseMatches | training/api_views.py:65-81 | "all done" holds exactly when the catalogue is non-empty and every exercise has a record matching the query |
| Dashboards.ItemList | training/api_views.py:62-76 | the list has one item per exercise, and an item is done exactly when its id is completed |
| Dashboards.ItemListOnce | training/api_views.py:69-76 | every exercise appears exactly once in the exercise list, with its title |
| Dashboards.ItemListOrdered | training/api_views.py:62 | the exercise list is in `order` sequence |
| Dashboards.BuildItems | training/api_views.py:69-76 | the loop lists each exercise once, in `order` sequence, with `isDone` exactly when its id is completed |
| Dashboards.RecordFor | training/api_views.py:118 | `.first()` on (check-in, exercise) gives the lowest-keyed record of the pair, or nothing exactly when the pair has no record |
| Dashboards.IsFinished | training/api_views.py:118-128 | `is_finished` holds only when the pair has a record with audio |
| Dashboards.IsFinishedIff | training/api_views.py:118-128 | with one record per (check-in, exercise), `is_finished` holds exactly when that pair has a record with audio |
| Dashboards.StatsOf | training/views.py:113-144 | a student's row is theirs, its counts are bounded by the tables they count, and a submitted check-in today is a row of the table |
| Dashboards.StatsConsistent | training/views.py:113-144 | today's recordings ≤ the week's ≤ all; a submitted check-in today implies a submitted one this week |
| Dashboards.PerStudent | training/views.py:95-153 | there is one statistics row per non-staff user |
| Dashboards.PerStudentRow | training/views.py:95-153 | each row belongs to a non-staff user and holds that user's statistics |
| Dashboards.RankedStats | training/views.py:95-156 | the ranked rows are a permutation of the per-student rows, one per non-staff user |
| Dashboards.RankedStatsDescending | training/views.py:156 | the rows are in non-increasing (week check-ins, week records) order |
| Dashboards.RankedStatsCoverStudents | training/views.py:95-153 | every non-staff user has a row holding their statistics |
| Dashboards.RankedStatsRowOwner | training/views.py:95-153 | every row belongs to a non-staff user and holds that user's statistics |
| Dashboards.RankedStatsRows | training/views.py:95-153 | one row per non-staff student, with their statistics |
| Dashboards.RankedStatsStable | training/views.py:95-156 | rows with equal sort keys stay in username order |
| Dashboards.TeacherDashboard | training/views.py:89-156 | a non-staff viewer is redirected to the student dashboard; otherwise the loop yields the ranked per-student statistics |
| Dashboards.ReadersOf | training/views.py:571-573 | the readers are exactly the students with a read record of the announcement |
| Dashboards.AnnouncementStats | training/views.py:567-580 | a non-staff viewer is redirected; an unknown announcement is a 404; otherwise the read and unread lists split the students by whether they have a read record, and the counts agree |
| Dashboards.ReadSplitHolds | training/views.py:570-573 | the read list holds students with a read record, the unread list students without one; the lists are disjoint, together cover every non-staff user, and the counts add up to the number of students |
| Database.Store.Valid | training/models.py:44-96 | a valid store has at most one check-in per (student, date) (`unique_together` at line 47) and at most one read record per (announcement, student) (line 96) |
| Database.FindCheckIn | training/views.py:35 | the lookup finds a check-in of the (student, date) pair, or nothing exactly when the pair has none |
| Database.FindCheckInUnique | training/models.py:47 | with one check-in per (student, date), the lookup finds that check-in |
| Database.CheckInsWith | training/views.py:35 | get-or-create keeps every row, adds at most one, and leaves a check-in for the pair |
| Database.CheckInsWithFacts | training/views.py:35 | get-or-create finds the pair's check-in, keeps every row, keeps (student, date) unique and is idempotent; it returns the table unchanged when the pair has a check-in, and otherwise appends one unliked draft (training/models.py:22-32) |
| Database.Store.GetOrCreateCheckIn | training/views.py:35 | returns the pair's check-in; the table becomes the get-or-create result and the store stays valid |
| WebViews.WeeklyRecord | training/views.py:380-384 | `.first()` finds the lowest-keyed record of the (student, exercise) pair dated on or after this week's Monday, or nothing exactly when there is none |
| WebViews.WeeklyUpsert | training/views.py:380-400 | the upsert adds at most one record and leaves a record of the pair stamped now under the check-in, carrying the upload's file when there is one |
| WebViews.UpsertResult | training/views.py:380-449 | after the upsert the pair has a weekly record stamped now under today's check-in; after an upload that record carries the file |
| WebViews.UpsertCount | training/views.py:386-400 | an existing weekly record is updated in place; otherwise exactly one record is appended |
| WebViews.UpsertLeavesOthers | training/views.py:380-449 | only the pair's `.first()` weekly record is rewritten: every other record is unchanged, those of other (student, exercise) pairs included |
| WebViews.MarkKeepsAudio | training/views.py:387-391 | marking complete never changes an existing record's audio, and a record it creates has none |
| WebViews.UpsertKeepsWeeklyUnique | training/views.py:380-449 | the upsert keeps one record per (student, exercise) since the week's Monday |
| WebViews.WeeklyRecordIsOnly | training/views.py:380-384 | under that discipline, two weekly records of a pair are the same record |
| WebViews.StoreUpsert | training/views.py:386-400 | writes the upsert into the store, keeping its foreign keys valid |
| WebViews.MarkPracticeComplete | training/views.py:363-406 | non-POST and unknown exercises are errors with no change; otherwise opens today's check-in and marks the weekly record, with the matching message |
| WebViews.UploadCheck | training/views.py:412-422 | an unknown posted user, no user, a missing file or id, and an unknown exercise are each reported exactly in their case, in the code's order |
| WebViews.UploadPractice | training/views.py:409-453 | each failed check is reported with no state change; otherwise opens today's check-in and upserts the weekly record with the file |
| WebViews.WeekCount | training/views.py:464 | the week's count is at most the table's size, and is non-zero exactly when the student has a record dated on or after this week's Monday |
| WebViews.SubmittedCheckIns | training/views.py:462-469 | submitting opens today's check-in and never changes any check-in's student, date or likes |
| WebViews.SubmitIdempotent | training/views.py:462-469 | submitting a second time changes nothing more |
| WebViews.SubmitOutcome | training/views.py:462-469 | with records this week, today's check-in is submitted; with none, the only change is a possible new draft check-in |
| WebViews.SubmitDailyCheckIn | training/views.py:457-472 | non-POST is an error with no change; otherwise the table becomes the submit result and the reply reports whether the week had records |
| WebViews.ToggleLike | training/views.py:286-290 | an unknown check-in is a 404; otherwise toggles the user's like and returns whether they now like it and the new total |
| WebViews.ReadsWith | training/views.py:563 | after the visit the pair has a read record; the table only grows, by at most one |
| WebViews.ReadsWithFacts | training/views.py:563 | recording a read keeps one read record per pair, holds this pair exactly once and only appends |
| WebViews.AnnouncementDetail | training/views.py:560-564 | an unknown announcement is a 404; a student's visit records the read; a staff visit records nothing |
| WebViews.StudentDashboard | training/views.py:31-73 | opens today's check-in; the completed set is today's exercises; "all done" holds exactly when every exercise has a record today; submitted-to-teacher holds exactly when a check-in this week is submitted |
| MiniProgram.DashboardData | training/api_views.py:44-95 | an anonymous request is an error with no change; otherwise opens today's check-in, lists every exercise once in order with its done flag, and "all done" holds exactly when every exercise has a record under the check-in |
| MiniProgram.ExerciseDetail | training/api_views.py:99-137 | anonymous and unknown-exercise requests are errors with no change; otherwise `is_finished` holds exactly when the pair's record has audio |
| MiniProgram.UniqueMeansNoMultiple | training/api_views.py:166-170 | with one record per (check-in, exercise), the pair has at most one record, so `get_or_create` cannot find two |
| MiniProgram.RecordedRecords | training/api_views.py:163-175 | the upload keeps the table's size when the pair has a record and otherwise appends exactly one; every record other than the pair's `.first()` record is unchanged; a record of the pair holds the file, stamped now |
| MiniProgram.RecordedResult | training/api_views.py:166-175 | after the upload, the pair's record holds the file and is stamped now |
| MiniProgram.RecordedKeepsUnique | training/api_views.py:166-175 | the upload keeps one record per (check-in, exercise) |
| MiniProgram.RecordedCanBreakWeeklyUnique | training/api_views.py:166-175 | a record under one day's check-in plus an upload of the same exercise under the next day's check-in gives two records of one (student, exercise) pair in the same week, so the upload does not keep the weekly discipline |
| MiniProgram.RecordForIsOnly | training/api_views.py:166-170 | under that discipline, two records of a pair are the same record |
| MiniProgram.StoreRecorded | training/api_views.py:166-175 | writes the upload into the store, keeping its foreign keys valid |
| MiniProgram.UploadRecording | training/api_views.py:141-180 | non-POST, anonymous, missing-file and unknown-exercise requests fail with no change; two records of the pair raise; otherwise the pair's record gets the file, and uniqueness rules out the raise |
| MiniProgram.SubmitDaily | training/api_views.py:184-210 | non-POST and anonymous requests are errors; with no check-in today it reports "今日尚未开始练习" with no change; otherwise today's check-in alone becomes submitted |

## Left out

- The gamification engine (levels, streaks, achievements, buddies) is not part of this model. Its classes are imported by `training/admin.py` but not defined in `training/models.py`.
- Authentication is not modelled: `login_required`, `csrf_exempt`, `authenticate`, `login`, `logout`, `register` and the mini-program login. The current user is a parameter.
- Template rendering and context keys that only feed a template are left out:
  - `student_dashboard`'s `total_today_checkins`, `latest_records` and `latest_announcement`;
  - `teacher_dashboard`'s list of each student's latest submitted check-in and its announcement list;
  - the strftime-formatted `todayDate`.
- File storage, audio download and URL building are left out. An audio file is its storage name.
- `exercise_detail` in `training/views.py`, `daily_share_poster`, `get_report_audio_urls` and the `api_*` stubs only read rows and render them. They are not modelled.
- `teacher_summary_view` and `submit_teacher_summary` write the teacher's summary text, and `edit_announcement` rewrites an announcement's text. No modelled decision reads those columns, so they are not modelled.
- `create_announcement` (training/views.py:524-535) and `delete_announcement` (training/views.py:551-557) are not modelled. Creating adds an announcement row. Deleting removes the row and, through `on_delete=CASCADE` (training/models.py:89), every read record of it. Both change what `announcement_detail`, `announcement_stats` and the read/unread split see. The model holds the announcement catalogue constant, so it covers only the stores between such changes.
- `review_submission` and `shared_record_detail` are not modelled. They save a practice record with a teacher comment, and the save re-stamps `submitted_at` (`auto_now=True`, training/models.py:60) with the comment time. So a comment moves a record into the week and the date of the comment, which changes the weekly counts, the weekly report and the history groups. It can also give one (student, exercise) pair two records in the same week: a record from last week plus a new one this week, once the old one is commented on.
- Models.WeeklyUnique: the one-record-per-(student, exercise)-per-week discipline is kept by the web upload and mark-complete (`WebViews.UpsertKeepsWeeklyUnique`) only. The mini-program upload can add a second record of a pair within one week (`MiniProgram.RecordedCanBreakWeeklyUnique`), and a teacher comment can also break it, as described above.
- The `__str__` text of a check-in (training/models.py:42), "[date] username (status)", is not modelled. Only the status label it embeds (training/models.py:41) is, by Models.StatusLabel.
- Exercise content, demo audio, the comment text and audio, and announcement bodies are left out. No modelled decision reads them.
- Malformed requests are left out: a request body that is not JSON, and an exercise or user id that is not an integer. Ids are integers, or absent where the code accepts absence.
- The two clocks (local date against `timezone.now().date()`) are not separated. One `now` drives both.
- Concurrency is left out. Each handler runs alone against the store.
- The catalogues (users, exercises, announcements) are constant, because no modelled handler changes them.
- Dashboards.UsernameKey: `order_by('username')` compares by code points here. The database collation may order usernames differently.
- Reports.WeeklyReport: `order_by('submitted_at')` and `order_by('-submitted_at')` (training/views.py:248, :305) and `order_by('order')` (training/api_views.py:62) leave ties to the database. The model breaks ties by primary key (a stable sort of the table). The same holds for Reports.HistoryOf and Dashboards.ItemList.
- Seqs.Filter: its own contract gives membership and a length bound. Multiplicity is stated by Seqs.FilterCounts and table order by Seqs.FilterInOrder.
- `.first()` on a query without an ordering is taken to be the match with the lowest primary key, which is what the ORM asks the database for.
- Dates.DateOf: `submitted_at__date` is the floor of the seconds count divided by 86400. Time zones and daylight-saving shifts are not modelled.
