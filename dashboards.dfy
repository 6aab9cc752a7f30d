/**
 * The read-only dashboard computations: a student's progress for the
 * day (`student_dashboard` on the web, `dashboard_data` in the
 * mini-program), the mini-program's exercise list, whether an exercise
 * is finished under today's check-in (the mini-program's
 * `exercise_detail`), the teacher's per-student statistics
 * (`teacher_dashboard`) and the read/unread split of an announcement's
 * audience (`announcement_stats`).
 */
module Dashboards {
  import opened Wrappers
  import opened Dates
  import opened Seqs
  import opened Sorting
  import opened Models
  import opened Reports

  // ---------------------------------------------------------------
  // Progress of the day
  // ---------------------------------------------------------------

  /** The distinct exercises that occur in `rs`: `set(... exercise_id ...)`. */
  function ExercisesOf(rs: seq<PracticeRecord>): set<ExerciseId>
  {
    set i | 0 <= i < |rs| :: rs[i].exercise
  }

  /** The ids of a catalog of `n` exercises keyed by position. */
  function ExerciseIds(n: nat): (ids: set<ExerciseId>)
    ensures forall e :: e in ids <==> 0 <= e < n
  {
    if n == 0 then {} else ExerciseIds(n - 1) + {n - 1}
  }

  lemma {:induction false} ExerciseIdsCount(n: nat)
    ensures |ExerciseIds(n)| == n
  {
    if n > 0 {
      assert ExerciseIds(n) == ExerciseIds(n - 1) + {n - 1};
      assert n - 1 !in ExerciseIds(n - 1);
      ExerciseIdsCount(n - 1);
    }
  }

  /** `len(completed_ids) >= total_exercises and total_exercises > 0`. */
  predicate AllDone(completedCount: nat, total: nat)
  {
    completedCount >= total && total > 0
  }

  /**
   * Completed ids are ids of existing exercises, so the count test says
   * exactly that every exercise is completed and the catalog is not empty.
   */
  lemma {:induction false} AllDoneIffEveryExercise(completed: set<ExerciseId>, total: nat)
    requires completed <= ExerciseIds(total)
    ensures AllDone(|completed|, total) <==> total > 0 && ExerciseIds(total) <= completed
  {
    var all := ExerciseIds(total);
    ExerciseIdsCount(total);
    assert completed * all == completed;
    assert |all - completed| == |all| - |completed|;
    if |completed| >= total {
      assert all - completed == {};
    }
  }

  /** Some row of `rs` is for exercise `e`. */
  ghost predicate HasExercise(rs: seq<PracticeRecord>, e: ExerciseId)
  {
    exists i :: 0 <= i < |rs| && rs[i].exercise == e
  }

  /** Some row of `records` satisfies the query `p` and is for exercise `e`. */
  ghost predicate HasMatch(records: seq<PracticeRecord>, p: PracticeRecord -> bool, e: ExerciseId)
  {
    exists i :: 0 <= i < |records| && p(records[i]) && records[i].exercise == e
  }

  /** Every exercise of the catalog has a row of `records` that satisfies the query `p`. */
  ghost predicate EveryExerciseMatched(records: seq<PracticeRecord>, p: PracticeRecord -> bool, catalog: seq<Exercise>)
  {
    forall k :: 0 <= k < |catalog| ==> HasMatch(records, p, catalog[k].id)
  }

  /** All done holds exactly when every exercise of the catalog has a record among `rs`. */
  lemma {:induction false} AllDoneIffEveryExerciseHasRecord(rs: seq<PracticeRecord>, catalog: seq<Exercise>)
    requires ExercisesKeyed(catalog)
    requires forall i :: 0 <= i < |rs| ==> 0 <= rs[i].exercise < |catalog|
    ensures AllDone(|ExercisesOf(rs)|, |catalog|) <==>
      |catalog| > 0 && forall k :: 0 <= k < |catalog| ==> HasExercise(rs, catalog[k].id)
  {
    var completed := ExercisesOf(rs);
    AllDoneIffEveryExercise(completed, |catalog|);
    if ExerciseIds(|catalog|) <= completed {
      forall k | 0 <= k < |catalog| ensures HasExercise(rs, catalog[k].id) {
        assert catalog[k].id == k && k in completed;
      }
    }
    if forall k :: 0 <= k < |catalog| ==> HasExercise(rs, catalog[k].id) {
      forall e | e in ExerciseIds(|catalog|) ensures e in completed {
        assert catalog[e].id == e && HasExercise(rs, catalog[e].id);
        var i :| 0 <= i < |rs| && rs[i].exercise == catalog[e].id;
      }
    }
  }

  /** An exercise has a record among the query's rows exactly when some row of the table satisfies the query and is for it. */
  lemma {:induction false} HasRecordInQuery(records: seq<PracticeRecord>, p: PracticeRecord -> bool, e: ExerciseId)
    ensures HasExercise(Filter(records, p), e) <==> HasMatch(records, p, e)
  {
    var f := Filter(records, p);
    if HasExercise(f, e) {
      var i :| 0 <= i < |f| && f[i].exercise == e;
      var j :| 0 <= j < |records| && records[j] == f[i];
      assert p(records[j]) && records[j].exercise == e;
    }
    if HasMatch(records, p, e) {
      var i :| 0 <= i < |records| && p(records[i]) && records[i].exercise == e;
      assert records[i] in f;
      var j :| 0 <= j < |f| && f[j] == records[i];
      assert f[j].exercise == e;
    }
  }

  /** The exercises of a query's rows are exactly those with a matching row in the table. */
  lemma {:induction false} ExercisesOfQuery(records: seq<PracticeRecord>, p: PracticeRecord -> bool)
    ensures forall e :: e in ExercisesOf(Filter(records, p)) <==> HasMatch(records, p, e)
  {
    var f := Filter(records, p);
    forall e ensures e in ExercisesOf(f) <==> HasMatch(records, p, e) {
      HasRecordInQuery(records, p, e);
      if HasExercise(f, e) {
        var i :| 0 <= i < |f| && f[i].exercise == e;
        assert e in ExercisesOf(f);
      }
    }
  }

  /** The same, for the records of a query over the whole table. */
  lemma {:induction false} AllDoneIffEveryExerciseMatches(records: seq<PracticeRecord>, p: PracticeRecord -> bool, catalog: seq<Exercise>)
    requires ExercisesKeyed(catalog)
    requires forall i :: 0 <= i < |records| ==> 0 <= records[i].exercise < |catalog|
    ensures AllDone(|ExercisesOf(Filter(records, p))|, |catalog|) <==> |catalog| > 0 && EveryExerciseMatched(records, p, catalog)
  {
    var f := Filter(records, p);
    forall i | 0 <= i < |f| ensures 0 <= f[i].exercise < |catalog| {
      assert f[i] in records;
    }
    AllDoneIffEveryExerciseHasRecord(f, catalog);
    forall k | 0 <= k < |catalog| ensures HasExercise(f, catalog[k].id) <==> HasMatch(records, p, catalog[k].id) {
      HasRecordInQuery(records, p, catalog[k].id);
    }
  }

  function OnDayPred(student: UserId, day: Date): PracticeRecord -> bool
  {
    (r: PracticeRecord) => r.student == student && DateOf(r.submittedAt) == day
  }

  /** `student_dashboard`: the exercises of the student's records submitted on `day`, with or without audio. */
  function CompletedOnDay(records: seq<PracticeRecord>, student: UserId, day: Date): (done: set<ExerciseId>)
    ensures forall e :: e in done <==> HasMatch(records, OnDayPred(student, day), e)
  {
    ExercisesOfQuery(records, OnDayPred(student, day));
    ExercisesOf(Filter(records, OnDayPred(student, day)))
  }

  function InCheckInPred(c: CheckInId): PracticeRecord -> bool
  {
    (r: PracticeRecord) => r.checkin == Some(c)
  }

  /** `dashboard_data`: the exercises of the records attached to check-in `c`. */
  function CompletedInCheckIn(records: seq<PracticeRecord>, c: CheckInId): (done: set<ExerciseId>)
    ensures forall e :: e in done <==> HasMatch(records, InCheckInPred(c), e)
  {
    ExercisesOfQuery(records, InCheckInPred(c));
    ExercisesOf(Filter(records, InCheckInPred(c)))
  }

  // ---------------------------------------------------------------
  // The mini-program's exercise list
  // ---------------------------------------------------------------

  datatype ExerciseItem = ExerciseItem(id: ExerciseId, title: string, isDone: bool)

  function ExerciseOrderKey(e: Exercise): Key
  {
    [e.order]
  }

  function ExerciseIdOf(e: Exercise): int
  {
    e.id
  }

  /** `Exercise.objects.all().order_by('order')`; equal orders keep table order. */
  function ByOrder(catalog: seq<Exercise>): seq<Exercise>
  {
    SortBy(catalog, ExerciseOrderKey)
  }

  /** What `dashboard_data` lists: one item per exercise, in display order. */
  function ItemList(catalog: seq<Exercise>, completed: set<ExerciseId>): (items: seq<ExerciseItem>)
    ensures |items| == |catalog|
    ensures forall i :: 0 <= i < |items| ==> (items[i].isDone <==> items[i].id in completed)
  {
    var ordered := ByOrder(catalog);
    seq(|ordered|, i requires 0 <= i < |ordered| => ExerciseItem(ordered[i].id, ordered[i].title, ordered[i].id in completed))
  }

  ghost predicate ListsEveryExerciseOnce(items: seq<ExerciseItem>, catalog: seq<Exercise>)
  {
    && |items| == |catalog|
    && (forall k :: 0 <= k < |catalog| ==>
          exists i :: 0 <= i < |items| && items[i].id == catalog[k].id && items[i].title == catalog[k].title)
    && (forall i, j :: 0 <= i < j < |items| ==> items[i].id != items[j].id)
  }

  ghost predicate InCatalogOrder(items: seq<ExerciseItem>, catalog: seq<Exercise>)
  {
    forall i, j :: 0 <= i < j < |items| ==> OrderOf(catalog, items[i].id) <= OrderOf(catalog, items[j].id)
  }

  ghost predicate DoneExactlyWhenCompleted(items: seq<ExerciseItem>, completed: set<ExerciseId>)
  {
    forall i :: 0 <= i < |items| ==> (items[i].isDone <==> items[i].id in completed)
  }

  /** An exercise in display order is an exercise of the catalog, found at the position its id names. */
  lemma {:induction false} ByOrderElement(catalog: seq<Exercise>, i: nat)
    requires ExercisesKeyed(catalog) && i < |ByOrder(catalog)|
    ensures 0 <= ByOrder(catalog)[i].id < |catalog| && catalog[ByOrder(catalog)[i].id] == ByOrder(catalog)[i]
  {
    var ordered := ByOrder(catalog);
    assert ordered[i] in multiset(catalog);
    var m :| 0 <= m < |catalog| && catalog[m] == ordered[i];
  }

  lemma {:induction false} ItemListOnce(catalog: seq<Exercise>, completed: set<ExerciseId>)
    requires ExercisesKeyed(catalog)
    ensures ListsEveryExerciseOnce(ItemList(catalog, completed), catalog)
  {
    var ordered := ByOrder(catalog);
    var items := ItemList(catalog, completed);
    forall k | 0 <= k < |catalog|
      ensures exists i :: 0 <= i < |items| && items[i].id == catalog[k].id && items[i].title == catalog[k].title
    {
      assert catalog[k] in multiset(ordered);
      var i :| 0 <= i < |ordered| && ordered[i] == catalog[k];
      assert items[i].id == catalog[k].id;
    }
    assert DistinctBy(catalog, ExerciseIdOf);
    SortByDistinct(catalog, ExerciseOrderKey, ExerciseIdOf);
    assert forall i, j :: 0 <= i < j < |items| ==> ExerciseIdOf(ordered[i]) != ExerciseIdOf(ordered[j]);
  }

  lemma {:induction false} ItemListOrdered(catalog: seq<Exercise>, completed: set<ExerciseId>)
    requires ExercisesKeyed(catalog)
    ensures InCatalogOrder(ItemList(catalog, completed), catalog)
  {
    var ordered := ByOrder(catalog);
    var items := ItemList(catalog, completed);
    SortBySorted(catalog, ExerciseOrderKey);
    forall i, j | 0 <= i < j < |items|
      ensures OrderOf(catalog, items[i].id) <= OrderOf(catalog, items[j].id)
    {
      ByOrderElement(catalog, i);
      ByOrderElement(catalog, j);
      assert LexLe(ExerciseOrderKey(ordered[i]), ExerciseOrderKey(ordered[j]));
      LexSingle(ordered[i].order, ordered[j].order);
    }
  }

  /**
   * The loop that builds `exercises_data`: every exercise once, in
   * display order, marked done exactly when its id is completed.
   */
  method BuildItems(catalog: seq<Exercise>, completed: set<ExerciseId>) returns (items: seq<ExerciseItem>)
    requires ExercisesKeyed(catalog)
    ensures items == ItemList(catalog, completed)
    ensures ListsEveryExerciseOnce(items, catalog)
    ensures InCatalogOrder(items, catalog)
    ensures DoneExactlyWhenCompleted(items, completed)
  {
    var exercises := ByOrder(catalog);
    items := [];
    for n := 0 to |exercises|
      invariant |items| == n
      invariant forall i :: 0 <= i < n ==> items[i] == ItemList(catalog, completed)[i]
    {
      var ex := exercises[n];
      var isDone := ex.id in completed;
      items := items + [ExerciseItem(ex.id, ex.title, isDone)];
    }
    ItemListOnce(catalog, completed);
    ItemListOrdered(catalog, completed);
  }

  // ---------------------------------------------------------------
  // Is an exercise finished under a check-in?
  // ---------------------------------------------------------------

  function ForCheckInPred(c: CheckInId, e: ExerciseId): PracticeRecord -> bool
  {
    (r: PracticeRecord) => r.checkin == Some(c) && r.exercise == e
  }

  /** `PracticeRecord.objects.filter(daily_checkin=c, exercise=e).first()`. */
  function RecordFor(records: seq<PracticeRecord>, c: CheckInId, e: ExerciseId): (r: Option<nat>)
    ensures r.Some? ==> r.value < |records| && records[r.value].checkin == Some(c) && records[r.value].exercise == e
    ensures r.Some? ==> forall j :: 0 <= j < r.value ==> records[j].checkin != Some(c) || records[j].exercise != e
    ensures r.None? <==> forall j :: 0 <= j < |records| ==> records[j].checkin != Some(c) || records[j].exercise != e
  {
    FirstIndex(records, ForCheckInPred(c, e))
  }

  /** `is_finished`: the record exists and holds a recording. */
  function IsFinished(records: seq<PracticeRecord>, c: CheckInId, e: ExerciseId): (r: bool)
    ensures r ==> exists i :: 0 <= i < |records| && records[i].checkin == Some(c) && records[i].exercise == e && records[i].audio.Some?
  {
    match RecordFor(records, c, e)
    case Some(i) => records[i].audio.Some?
    case None => false
  }

  /**
   * With at most one record per (check-in, exercise), an exercise is
   * finished exactly when some record of it under the check-in has audio.
   */
  lemma {:induction false} IsFinishedIff(records: seq<PracticeRecord>, c: CheckInId, e: ExerciseId)
    requires UniquePerCheckIn(records)
    ensures IsFinished(records, c, e) <==>
      exists i :: 0 <= i < |records| && records[i].checkin == Some(c) && records[i].exercise == e && records[i].audio.Some?
  {
    if exists i :: 0 <= i < |records| && records[i].checkin == Some(c) && records[i].exercise == e && records[i].audio.Some? {
      var i :| 0 <= i < |records| && records[i].checkin == Some(c) && records[i].exercise == e && records[i].audio.Some?;
      assert ForCheckInPred(c, e)(records[i]);
      var f := RecordFor(records, c, e).value;
      assert f <= i;
      if f < i {
        assert false;
      }
    }
  }

  // ---------------------------------------------------------------
  // Teacher statistics
  // ---------------------------------------------------------------

  datatype StudentStats = StudentStats(
    student: User,
    weekCheckins: nat,
    weekRecords: nat,
    totalRecords: nat,
    todayCheckin: bool,
    todayRecords: nat)

  predicate IsStudent(u: User)
  {
    !u.isStaff
  }

  function UsernameKey(u: User): Key
  {
    CodePoints(u.username)
  }

  /** `User.objects.filter(is_staff=False).order_by('username')`. */
  function Students(users: seq<User>): seq<User>
  {
    SortBy(Filter(users, IsStudent), UsernameKey)
  }

  function SubmittedSincePred(student: UserId, monday: Date): CheckIn -> bool
  {
    (c: CheckIn) => c.student == student && c.date >= monday && c.isSubmitted
  }

  function SubmittedOnPred(student: UserId, day: Date): CheckIn -> bool
  {
    (c: CheckIn) => c.student == student && c.date == day && c.isSubmitted
  }

  function RecordingSincePred(student: UserId, monday: Date): PracticeRecord -> bool
  {
    (r: PracticeRecord) => r.student == student && DateOf(r.submittedAt) >= monday && r.audio.Some?
  }

  function RecordingOnPred(student: UserId, day: Date): PracticeRecord -> bool
  {
    (r: PracticeRecord) => r.student == student && DateOf(r.submittedAt) == day && r.audio.Some?
  }

  /** The five counts of one student's row, for the week of `today`. */
  function StatsOf(checkins: seq<CheckIn>, records: seq<PracticeRecord>, student: User, today: Date): (st: StudentStats)
    ensures st.student == student
    ensures st.weekCheckins <= |checkins| && st.totalRecords <= |records|
    ensures st.todayCheckin ==> exists i :: 0 <= i < |checkins| && checkins[i].student == student.id && checkins[i].date == today && checkins[i].isSubmitted
  {
    FilterNonEmpty(checkins, SubmittedOnPred(student.id, today));
    var monday := WeekStart(today);
    StudentStats(
      student,
      |Filter(checkins, SubmittedSincePred(student.id, monday))|,
      |Filter(records, RecordingSincePred(student.id, monday))|,
      |Filter(records, RecordingPred(student.id))|,
      |Filter(checkins, SubmittedOnPred(student.id, today))| > 0,
      |Filter(records, RecordingOnPred(student.id, today))|)
  }

  /** Today's recordings are among the week's, which are among all of them; a check-in submitted today counts for the week. */
  lemma {:induction false} StatsConsistent(checkins: seq<CheckIn>, records: seq<PracticeRecord>, student: User, today: Date)
    ensures StatsOf(checkins, records, student, today).todayRecords <= StatsOf(checkins, records, student, today).weekRecords
    ensures StatsOf(checkins, records, student, today).weekRecords <= StatsOf(checkins, records, student, today).totalRecords
    ensures StatsOf(checkins, records, student, today).todayCheckin ==> StatsOf(checkins, records, student, today).weekCheckins > 0
  {
    var monday := WeekStart(today);
    FilterCountMonotone(records, RecordingOnPred(student.id, today), RecordingSincePred(student.id, monday));
    FilterCountMonotone(records, RecordingSincePred(student.id, monday), RecordingPred(student.id));
    FilterCountMonotone(checkins, SubmittedOnPred(student.id, today), SubmittedSincePred(student.id, monday));
  }

  /** `reverse=True` on `(week_checkins, week_records)`, as a stable sort on the negated pair. */
  function StatsKey(s: StudentStats): Key
  {
    [-(s.weekCheckins as int), -(s.weekRecords as int)]
  }

  /** The rows in the order of the student query, before sorting. */
  function PerStudent(users: seq<User>, checkins: seq<CheckIn>, records: seq<PracticeRecord>, today: Date): (rows: seq<StudentStats>)
    ensures |rows| == |Filter(users, IsStudent)|
  {
    var students := Students(users);
    seq(|students|, i requires 0 <= i < |students| => StatsOf(checkins, records, students[i], today))
  }

  function RankedStats(users: seq<User>, checkins: seq<CheckIn>, records: seq<PracticeRecord>, today: Date): (stats: seq<StudentStats>)
    ensures multiset(stats) == multiset(PerStudent(users, checkins, records, today))
    ensures |stats| == |Filter(users, IsStudent)|
  {
    SortBy(PerStudent(users, checkins, records, today), StatsKey)
  }

  /** Most submitted check-ins first; among equals, most recordings first. */
  ghost predicate RankedDescending(stats: seq<StudentStats>)
  {
    forall i, j :: 0 <= i < j < |stats| ==>
      stats[i].weekCheckins > stats[j].weekCheckins
      || (stats[i].weekCheckins == stats[j].weekCheckins && stats[i].weekRecords >= stats[j].weekRecords)
  }

  /** One row per non-staff user, each holding that user's counts. */
  ghost predicate OneRowPerStudent(stats: seq<StudentStats>, users: seq<User>, checkins: seq<CheckIn>, records: seq<PracticeRecord>, today: Date)
  {
    && |stats| == |Filter(users, IsStudent)|
    && (forall k :: 0 <= k < |users| && IsStudent(users[k]) ==>
          exists i :: 0 <= i < |stats| && stats[i] == StatsOf(checkins, records, users[k], today))
    && (forall i :: 0 <= i < |stats| ==>
          stats[i].student in users && IsStudent(stats[i].student) && stats[i] == StatsOf(checkins, records, stats[i].student, today))
  }

  /** Two rows in `StatsKey` order are in descending (week check-ins, week records) order. */
  lemma {:induction false} StatsKeyDescending(a: StudentStats, b: StudentStats)
    requires LexLe(StatsKey(a), StatsKey(b))
    ensures a.weekCheckins > b.weekCheckins || (a.weekCheckins == b.weekCheckins && a.weekRecords >= b.weekRecords)
  {
    LexPair(-(a.weekCheckins as int), -(a.weekRecords as int), -(b.weekCheckins as int), -(b.weekRecords as int));
  }

  lemma {:induction false} RankedStatsDescending(users: seq<User>, checkins: seq<CheckIn>, records: seq<PracticeRecord>, today: Date)
    ensures RankedDescending(RankedStats(users, checkins, records, today))
  {
    var stats := RankedStats(users, checkins, records, today);
    SortBySorted(PerStudent(users, checkins, records, today), StatsKey);
    assert SortedBy(stats, StatsKey);
    forall i, j | 0 <= i < j < |stats|
      ensures stats[i].weekCheckins > stats[j].weekCheckins
           || (stats[i].weekCheckins == stats[j].weekCheckins && stats[i].weekRecords >= stats[j].weekRecords)
    {
      StatsKeyDescending(stats[i], stats[j]);
    }
  }

  lemma {:induction false} RankedStatsCoverStudents(users: seq<User>, checkins: seq<CheckIn>, records: seq<PracticeRecord>, today: Date, k: nat)
    requires k < |users| && IsStudent(users[k])
    ensures exists i :: 0 <= i < |RankedStats(users, checkins, records, today)|
                     && RankedStats(users, checkins, records, today)[i] == StatsOf(checkins, records, users[k], today)
  {
    var students := Students(users);
    var rows := PerStudent(users, checkins, records, today);
    var stats := RankedStats(users, checkins, records, today);
    assert users[k] in Filter(users, IsStudent);
    assert users[k] in multiset(students);
    var b :| 0 <= b < |students| && students[b] == users[k];
    assert rows[b] in multiset(stats);
  }

  lemma {:induction false} RankedStatsRowOwner(users: seq<User>, checkins: seq<CheckIn>, records: seq<PracticeRecord>, today: Date, i: nat)
    requires i < |Filter(users, IsStudent)|
    ensures i < |RankedStats(users, checkins, records, today)|
    ensures var row := RankedStats(users, checkins, records, today)[i];
      row.student in users && IsStudent(row.student) && row == StatsOf(checkins, records, row.student, today)
  {
    var rows := PerStudent(users, checkins, records, today);
    var stats := RankedStats(users, checkins, records, today);
    assert stats[i] in multiset(rows);
    var b :| 0 <= b < |rows| && rows[b] == stats[i];
    PerStudentRow(users, checkins, records, today, b);
  }

  /** Each per-student row belongs to a non-staff user and holds that user's statistics. */
  lemma {:induction false} PerStudentRow(users: seq<User>, checkins: seq<CheckIn>, records: seq<PracticeRecord>, today: Date, b: nat)
    requires b < |PerStudent(users, checkins, records, today)|
    ensures var row := PerStudent(users, checkins, records, today)[b];
      row.student in users && IsStudent(row.student) && row == StatsOf(checkins, records, row.student, today)
  {
    var students := Students(users);
    assert students[b] in multiset(Filter(users, IsStudent));
  }

  lemma {:induction false} RankedStatsRows(users: seq<User>, checkins: seq<CheckIn>, records: seq<PracticeRecord>, today: Date)
    ensures OneRowPerStudent(RankedStats(users, checkins, records, today), users, checkins, records, today)
  {
    var stats := RankedStats(users, checkins, records, today);
    forall k | 0 <= k < |users| && IsStudent(users[k])
      ensures exists i :: 0 <= i < |stats| && stats[i] == StatsOf(checkins, records, users[k], today)
    {
      RankedStatsCoverStudents(users, checkins, records, today, k);
    }
    forall i | 0 <= i < |stats|
      ensures stats[i].student in users && IsStudent(stats[i].student) && stats[i] == StatsOf(checkins, records, stats[i].student, today)
    {
      RankedStatsRowOwner(users, checkins, records, today, i);
    }
  }

  /** Rows with equal counts keep the username order of the student query. */
  lemma {:induction false} RankedStatsStable(users: seq<User>, checkins: seq<CheckIn>, records: seq<PracticeRecord>, today: Date, k: Key)
    ensures WithKey(RankedStats(users, checkins, records, today), StatsKey, k)
         == WithKey(PerStudent(users, checkins, records, today), StatsKey, k)
  {
    SortByStable(PerStudent(users, checkins, records, today), StatsKey, k);
  }

  /**
   * `teacher_dashboard`'s statistics: staff only; one row per student
   * built in a loop over the students by user name, then ranked.
   */
  method TeacherDashboard(viewer: User, users: seq<User>, checkins: seq<CheckIn>, records: seq<PracticeRecord>, today: Date)
    returns (reply: Reply<seq<StudentStats>>)
    ensures !viewer.isStaff ==> reply == Redirect(StudentDashboardPage)
    ensures viewer.isStaff ==> reply == Ok(RankedStats(users, checkins, records, today))
    ensures reply.Ok? ==> RankedDescending(reply.value) && OneRowPerStudent(reply.value, users, checkins, records, today)
  {
    if !viewer.isStaff {
      return Redirect(StudentDashboardPage);
    }
    var students := Students(users);
    var rows: seq<StudentStats> := [];
    for n := 0 to |students|
      invariant rows == PerStudent(users, checkins, records, today)[..n]
    {
      rows := rows + [StatsOf(checkins, records, students[n], today)];
    }
    assert rows == PerStudent(users, checkins, records, today);
    reply := Ok(SortBy(rows, StatsKey));
    RankedStatsDescending(users, checkins, records, today);
    RankedStatsRows(users, checkins, records, today);
  }

  // ---------------------------------------------------------------
  // Who has read an announcement
  // ---------------------------------------------------------------

  datatype ReadStats = ReadStats(readList: seq<User>, unreadList: seq<User>, readCount: nat, totalCount: nat)

  /** The student ids of the read records of announcement `a`. */
  function ReadersOf(readRecords: seq<ReadRecord>, a: AnnouncementId): (readers: set<UserId>)
    ensures forall i :: 0 <= i < |readRecords| && readRecords[i].announcement == a ==> readRecords[i].student in readers
    ensures forall u :: u in readers ==> HasRead(readRecords, a, u)
  {
    set i | 0 <= i < |readRecords| && readRecords[i].announcement == a :: readRecords[i].student
  }

  function ReaderPred(readers: set<UserId>): User -> bool
  {
    (u: User) => u.id in readers
  }

  function NonReaderPred(readers: set<UserId>): User -> bool
  {
    (u: User) => u.id !in readers
  }

  ghost predicate HasRead(readRecords: seq<ReadRecord>, a: AnnouncementId, student: UserId)
  {
    exists i :: 0 <= i < |readRecords| && readRecords[i].announcement == a && readRecords[i].student == student
  }

  /**
   * The read list holds the students with a read record, the unread list
   * the others; every non-staff user is in one of them.
   */
  ghost predicate ReadSplit(st: ReadStats, users: seq<User>, readRecords: seq<ReadRecord>, a: AnnouncementId)
  {
    && (forall i :: 0 <= i < |st.readList| ==>
          st.readList[i] in users && IsStudent(st.readList[i]) && HasRead(readRecords, a, st.readList[i].id))
    && (forall i :: 0 <= i < |st.unreadList| ==>
          st.unreadList[i] in users && IsStudent(st.unreadList[i]) && !HasRead(readRecords, a, st.unreadList[i].id))
    && (forall k :: 0 <= k < |users| && IsStudent(users[k]) ==> users[k] in st.readList || users[k] in st.unreadList)
    && (forall i, j :: 0 <= i < |st.readList| && 0 <= j < |st.unreadList| ==> st.readList[i] != st.unreadList[j])
    && st.readCount == |st.readList|
    && st.readCount + |st.unreadList| == st.totalCount == |Filter(users, IsStudent)|
  }

  /** `announcement_stats`: staff only, 404 for an unknown announcement. */
  function AnnouncementStats(viewer: User, announcementCount: nat, users: seq<User>, readRecords: seq<ReadRecord>, a: int): (reply: Reply<ReadStats>)
    ensures !viewer.isStaff ==> reply == Redirect(StudentDashboardPage)
    ensures viewer.isStaff && !(0 <= a < announcementCount) ==> reply == Raised(NotFound)
    ensures viewer.isStaff && 0 <= a < announcementCount ==> reply.Ok? && ReadSplit(reply.value, users, readRecords, a)
  {
    if !viewer.isStaff then Redirect(StudentDashboardPage)
    else if !(0 <= a < announcementCount) then Raised(NotFound)
    else
      var students := Filter(users, IsStudent);
      var readers := ReadersOf(readRecords, a);
      var readList := Filter(students, ReaderPred(readers));
      var unreadList := Filter(students, NonReaderPred(readers));
      ReadSplitHolds(users, readRecords, a);
      Ok(ReadStats(readList, unreadList, |readList|, |students|))
  }

  lemma {:induction false} ReadSplitHolds(users: seq<User>, readRecords: seq<ReadRecord>, a: AnnouncementId)
    ensures
      var students := Filter(users, IsStudent);
      var readers := ReadersOf(readRecords, a);
      var readList := Filter(students, ReaderPred(readers));
      ReadSplit(ReadStats(readList, Filter(students, NonReaderPred(readers)), |readList|, |students|), users, readRecords, a)
  {
    var students := Filter(users, IsStudent);
    var readers := ReadersOf(readRecords, a);
    var readList := Filter(students, ReaderPred(readers));
    var unreadList := Filter(students, NonReaderPred(readers));
    forall u: UserId ensures u in readers <==> HasRead(readRecords, a, u) {
      if HasRead(readRecords, a, u) {
        var i :| 0 <= i < |readRecords| && readRecords[i].announcement == a && readRecords[i].student == u;
      }
    }
    forall k | 0 <= k < |users| && IsStudent(users[k]) ensures users[k] in readList || users[k] in unreadList {
      assert users[k] in students;
      var b :| 0 <= b < |students| && students[b] == users[k];
    }
    FilterPartitionCount(students, ReaderPred(readers), NonReaderPred(readers));
  }
}
