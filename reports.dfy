/**
 * The two read-only views over practice records: the weekly report of a
 * check-in (`daily_report_view`), which shows the latest record of each
 * exercise since the Monday of the check-in's week, and the recording
 * history (`student_history`, `teacher_student_history`), which groups a
 * student's recordings by calendar date, newest date first.
 */
module Reports {
  import opened Wrappers
  import opened Dates
  import opened Seqs
  import opened Sorting
  import opened Dicts
  import opened Models

  // ---------------------------------------------------------------
  // Weekly report
  // ---------------------------------------------------------------

  /** The report's query: records of `student` submitted on or after `monday`, with no upper bound. */
  predicate InWeekOf(r: PracticeRecord, student: UserId, monday: Date)
  {
    r.student == student && DateOf(r.submittedAt) >= monday
  }

  function InWeekPred(student: UserId, monday: Date): PracticeRecord -> bool
  {
    r => InWeekOf(r, student, monday)
  }

  /** The report's query, in table order. */
  function WeekWindow(records: seq<PracticeRecord>, student: UserId, monday: Date): seq<PracticeRecord>
  {
    Filter(records, InWeekPred(student, monday))
  }

  function SubmittedKey(r: PracticeRecord): Key
  {
    [r.submittedAt]
  }

  function ExerciseOf(r: PracticeRecord): int
  {
    r.exercise
  }

  /** The query result, ordered by `submitted_at`, oldest first. */
  function WeekRecords(records: seq<PracticeRecord>, student: UserId, monday: Date): (w: seq<PracticeRecord>)
    ensures multiset(w) == multiset(WeekWindow(records, student, monday))
  {
    SortBy(WeekWindow(records, student, monday), SubmittedKey)
  }

  /**
   * `latest_record_map[record.exercise.id] = record` over `rs` in order:
   * a later record of an exercise overwrites the earlier one in place.
   */
  function LatestByExercise(rs: seq<PracticeRecord>): (d: Dict<ExerciseId, PracticeRecord>)
    ensures DistinctKeys(d)
    ensures |d| <= |rs|
  {
    if rs == [] then []
    else Assign(LatestByExercise(rs[..|rs| - 1]), rs[|rs| - 1].exercise, rs[|rs| - 1])
  }

  /** `v` occurs in `rs` and no later element of `rs` is for the same exercise. */
  ghost predicate IsLastFor(rs: seq<PracticeRecord>, v: PracticeRecord)
  {
    exists a :: 0 <= a < |rs| && rs[a] == v && forall j :: a < j < |rs| ==> rs[j].exercise != v.exercise
  }

  /**
   * Last write wins: each entry of the dictionary is keyed by its
   * record's exercise and holds the last record of that exercise.
   */
  lemma {:induction false} LatestByExerciseKeyed(rs: seq<PracticeRecord>)
    ensures forall i :: 0 <= i < |LatestByExercise(rs)| ==>
      LatestByExercise(rs)[i].1.exercise == LatestByExercise(rs)[i].0 && IsLastFor(rs, LatestByExercise(rs)[i].1)
  {
    if rs != [] {
      var init, last := rs[..|rs| - 1], rs[|rs| - 1];
      LatestByExerciseKeyed(init);
      var d := LatestByExercise(init);
      var d' := LatestByExercise(rs);
      assert d' == Assign(d, last.exercise, last);
      var p := if Find(d, last.exercise).Some? then Find(d, last.exercise).value else |d|;
      assert p < |d'| && d'[p] == (last.exercise, last);
      assert rs == init + [last];
      forall i | 0 <= i < |d'|
        ensures d'[i].1.exercise == d'[i].0 && IsLastFor(rs, d'[i].1)
      {
        if d'[i].0 == last.exercise {
          assert i == p;
          IsLastForLast(init, last);
        } else {
          assert i < |d| && d'[i] == d[i];
          IsLastForSnoc(init, last, d[i].1);
        }
      }
    }
  }

  /** The last element of a sequence is the last one for its exercise. */
  lemma {:induction false} IsLastForLast(init: seq<PracticeRecord>, last: PracticeRecord)
    ensures IsLastFor(init + [last], last)
  {
    assert (init + [last])[|init|] == last;
  }

  /** Appending a record of another exercise keeps a record the last for its exercise. */
  lemma {:induction false} IsLastForSnoc(init: seq<PracticeRecord>, last: PracticeRecord, v: PracticeRecord)
    requires IsLastFor(init, v) && v.exercise != last.exercise
    ensures IsLastFor(init + [last], v)
  {
    var rs := init + [last];
    var a :| 0 <= a < |init| && init[a] == v && forall j :: a < j < |init| ==> init[j].exercise != v.exercise;
    assert rs[a] == v;
    forall j | a < j < |rs| ensures rs[j].exercise != v.exercise {
      if j < |init| {
        assert rs[j] == init[j];
      }
    }
  }

  /** Every exercise that occurs in `rs` has an entry. */
  lemma {:induction false} LatestByExerciseCovers(rs: seq<PracticeRecord>)
    ensures forall j :: 0 <= j < |rs| ==>
      exists i :: 0 <= i < |LatestByExercise(rs)| && LatestByExercise(rs)[i].0 == rs[j].exercise
  {
    if rs != [] {
      var init, last := rs[..|rs| - 1], rs[|rs| - 1];
      LatestByExerciseCovers(init);
      var d := LatestByExercise(init);
      assert LatestByExercise(rs) == Assign(d, last.exercise, last);
      var p := if Find(d, last.exercise).Some? then Find(d, last.exercise).value else |d|;
      assert p < |LatestByExercise(rs)| && LatestByExercise(rs)[p].0 == last.exercise;
      forall j | 0 <= j < |rs|
        ensures exists i :: 0 <= i < |LatestByExercise(rs)| && LatestByExercise(rs)[i].0 == rs[j].exercise
      {
        if rs[j].exercise == last.exercise {
          assert LatestByExercise(rs)[p].0 == rs[j].exercise;
        } else {
          assert rs[j] == init[j];
          var i :| 0 <= i < |d| && d[i].0 == init[j].exercise;
          assert LatestByExercise(rs)[i] == d[i];
        }
      }
    }
  }

  /** The exercise's display order; exercise rows always exist, so the fallback is never used on a consistent store. */
  function OrderOf(catalog: seq<Exercise>, e: ExerciseId): int
  {
    if 0 <= e < |catalog| then catalog[e].order else 0
  }

  function OrderKey(catalog: seq<Exercise>): PracticeRecord -> Key
  {
    (r: PracticeRecord) => [OrderOf(catalog, r.exercise)]
  }

  /** What `daily_report_view` lists for `checkin`. */
  function WeeklyReport(records: seq<PracticeRecord>, catalog: seq<Exercise>, checkin: CheckIn): (r: seq<PracticeRecord>)
    ensures |r| <= |WeekWindow(records, checkin.student, WeekStart(checkin.date))|
  {
    SortBy(Values(LatestByExercise(WeekRecords(records, checkin.student, WeekStart(checkin.date)))), OrderKey(catalog))
  }

  /** Each reported record is the last record of its exercise in the week's records. */
  lemma {:induction false} ReportElement(records: seq<PracticeRecord>, catalog: seq<Exercise>, checkin: CheckIn, i: nat)
    requires i < |WeeklyReport(records, catalog, checkin)|
    ensures IsLastFor(WeekRecords(records, checkin.student, WeekStart(checkin.date)), WeeklyReport(records, catalog, checkin)[i])
  {
    var w := WeekRecords(records, checkin.student, WeekStart(checkin.date));
    var d := LatestByExercise(w);
    var r := WeeklyReport(records, catalog, checkin);
    assert r == SortBy(Values(d), OrderKey(catalog));
    SortedValueInDict(d, OrderKey(catalog), i);
    var p :| 0 <= p < |d| && d[p].1 == r[i];
    LatestByExerciseKeyed(w);
  }

  /** An entry of the sorted values of a dictionary is the value of one of its pairs. */
  lemma {:induction false} SortedValueInDict(d: Dict<ExerciseId, PracticeRecord>, key: PracticeRecord -> Key, i: nat)
    requires i < |SortBy(Values(d), key)|
    ensures exists p :: 0 <= p < |d| && d[p].1 == SortBy(Values(d), key)[i]
  {
    var v := Values(d);
    var x := SortBy(v, key)[i];
    assert x in multiset(v);
    var p :| 0 <= p < |v| && v[p] == x;
    assert d[p].1 == v[p];
  }

  /** A record of the week's window occurs in the ordered week records. */
  lemma {:induction false} WindowInWeekRecords(records: seq<PracticeRecord>, student: UserId, monday: Date, k: nat)
    requires k < |records| && InWeekOf(records[k], student, monday)
    ensures exists b :: 0 <= b < |WeekRecords(records, student, monday)| && WeekRecords(records, student, monday)[b] == records[k]
  {
    var f := WeekWindow(records, student, monday);
    assert records[k] in f;
    assert records[k] in multiset(WeekRecords(records, student, monday));
  }

  /** The reported record of an exercise carries the latest submission time of that exercise in the window. */
  lemma {:induction false} ReportLatest(records: seq<PracticeRecord>, catalog: seq<Exercise>, checkin: CheckIn, i: nat, k: nat)
    requires i < |WeeklyReport(records, catalog, checkin)| && k < |records|
    requires InWeekOf(records[k], checkin.student, WeekStart(checkin.date))
    requires records[k].exercise == WeeklyReport(records, catalog, checkin)[i].exercise
    ensures records[k].submittedAt <= WeeklyReport(records, catalog, checkin)[i].submittedAt
  {
    var monday := WeekStart(checkin.date);
    var w := WeekRecords(records, checkin.student, monday);
    var r := WeeklyReport(records, catalog, checkin);
    ReportElement(records, catalog, checkin, i);
    var a :| 0 <= a < |w| && w[a] == r[i] && forall j :: a < j < |w| ==> w[j].exercise != r[i].exercise;
    WindowInWeekRecords(records, checkin.student, monday, k);
    var b :| 0 <= b < |w| && w[b] == records[k];
    assert b <= a;
    SortBySorted(WeekWindow(records, checkin.student, monday), SubmittedKey);
    SortedBySubmitted(w, b, a);
  }

  /** In a sequence sorted by submission time, an earlier position is submitted no later. */
  lemma {:induction false} SortedBySubmitted(w: seq<PracticeRecord>, b: nat, a: nat)
    requires SortedBy(w, SubmittedKey) && b <= a < |w|
    ensures w[b].submittedAt <= w[a].submittedAt
  {
    if b < a {
      assert LexLe(SubmittedKey(w[b]), SubmittedKey(w[a]));
      LexSingle(w[b].submittedAt, w[a].submittedAt);
    }
  }

  /** Every exercise with a record in the window is reported. */
  lemma {:induction false} ReportCovers(records: seq<PracticeRecord>, catalog: seq<Exercise>, checkin: CheckIn, k: nat)
    requires k < |records| && InWeekOf(records[k], checkin.student, WeekStart(checkin.date))
    ensures exists i :: 0 <= i < |WeeklyReport(records, catalog, checkin)|
                     && WeeklyReport(records, catalog, checkin)[i].exercise == records[k].exercise
  {
    var monday := WeekStart(checkin.date);
    var w := WeekRecords(records, checkin.student, monday);
    var d := LatestByExercise(w);
    WindowInWeekRecords(records, checkin.student, monday, k);
    var b :| 0 <= b < |w| && w[b] == records[k];
    LatestByExerciseCovers(w);
    LatestByExerciseKeyed(w);
    var p :| 0 <= p < |d| && d[p].0 == w[b].exercise;
    ReportHasLatest(records, catalog, checkin, p);
  }

  /** Every value of the exercise-keyed map is a report entry. */
  lemma {:induction false} ReportHasLatest(records: seq<PracticeRecord>, catalog: seq<Exercise>, checkin: CheckIn, p: nat)
    requires p < |LatestByExercise(WeekRecords(records, checkin.student, WeekStart(checkin.date)))|
    ensures exists i :: 0 <= i < |WeeklyReport(records, catalog, checkin)|
                     && WeeklyReport(records, catalog, checkin)[i] == LatestByExercise(WeekRecords(records, checkin.student, WeekStart(checkin.date)))[p].1
  {
    var d := LatestByExercise(WeekRecords(records, checkin.student, WeekStart(checkin.date)));
    var v := Values(d);
    var r := WeeklyReport(records, catalog, checkin);
    assert v[p] == d[p].1;
    assert v[p] in multiset(r);
  }

  /** No exercise is reported twice. */
  lemma {:induction false} ReportDistinct(records: seq<PracticeRecord>, catalog: seq<Exercise>, checkin: CheckIn)
    ensures DistinctBy(WeeklyReport(records, catalog, checkin), ExerciseOf)
  {
    var w := WeekRecords(records, checkin.student, WeekStart(checkin.date));
    var d := LatestByExercise(w);
    LatestByExerciseKeyed(w);
    assert DistinctBy(Values(d), ExerciseOf);
    SortByDistinct(Values(d), OrderKey(catalog), ExerciseOf);
  }

  /** The report is ordered by exercise order. */
  lemma {:induction false} ReportOrdered(records: seq<PracticeRecord>, catalog: seq<Exercise>, checkin: CheckIn, i: nat, j: nat)
    requires i < j < |WeeklyReport(records, catalog, checkin)|
    ensures OrderOf(catalog, WeeklyReport(records, catalog, checkin)[i].exercise)
         <= OrderOf(catalog, WeeklyReport(records, catalog, checkin)[j].exercise)
  {
    var w := WeekRecords(records, checkin.student, WeekStart(checkin.date));
    var r := WeeklyReport(records, catalog, checkin);
    SortBySorted(Values(LatestByExercise(w)), OrderKey(catalog));
    assert LexLe(OrderKey(catalog)(r[i]), OrderKey(catalog)(r[j]));
    LexSingle(OrderOf(catalog, r[i].exercise), OrderOf(catalog, r[j].exercise));
  }

  /** Every reported record belongs to the week's window. */
  ghost predicate FromWindow(report: seq<PracticeRecord>, records: seq<PracticeRecord>, student: UserId, monday: Date)
  {
    forall i :: 0 <= i < |report| ==> report[i] in records && InWeekOf(report[i], student, monday)
  }

  /** No exercise is reported twice. */
  ghost predicate OnePerExercise(report: seq<PracticeRecord>)
  {
    forall i, j :: 0 <= i < j < |report| ==> report[i].exercise != report[j].exercise
  }

  /** Every exercise with a record in the window is reported. */
  ghost predicate CoversWindow(report: seq<PracticeRecord>, records: seq<PracticeRecord>, student: UserId, monday: Date)
  {
    forall k :: 0 <= k < |records| && InWeekOf(records[k], student, monday) ==>
      exists i :: 0 <= i < |report| && report[i].exercise == records[k].exercise
  }

  /** No record of the window is newer than the reported record of its exercise. */
  ghost predicate LatestOfWindow(report: seq<PracticeRecord>, records: seq<PracticeRecord>, student: UserId, monday: Date)
  {
    forall i, k ::
      (0 <= i < |report| && 0 <= k < |records| && InWeekOf(records[k], student, monday) && records[k].exercise == report[i].exercise)
      ==> records[k].submittedAt <= report[i].submittedAt
  }

  /** Non-decreasing exercise order. */
  ghost predicate OrderedByExercise(report: seq<PracticeRecord>, catalog: seq<Exercise>)
  {
    forall i, j :: 0 <= i < j < |report| ==> OrderOf(catalog, report[i].exercise) <= OrderOf(catalog, report[j].exercise)
  }

  lemma {:induction false} ReportFromWindow(records: seq<PracticeRecord>, catalog: seq<Exercise>, checkin: CheckIn)
    ensures FromWindow(WeeklyReport(records, catalog, checkin), records, checkin.student, WeekStart(checkin.date))
  {
    var monday := WeekStart(checkin.date);
    var report := WeeklyReport(records, catalog, checkin);
    forall i | 0 <= i < |report|
      ensures report[i] in records && InWeekOf(report[i], checkin.student, monday)
    {
      ReportElement(records, catalog, checkin, i);
      var f := WeekWindow(records, checkin.student, monday);
      assert report[i] in multiset(f);
    }
  }

  lemma {:induction false} ReportOnePerExercise(records: seq<PracticeRecord>, catalog: seq<Exercise>, checkin: CheckIn)
    ensures OnePerExercise(WeeklyReport(records, catalog, checkin))
  {
    ReportDistinct(records, catalog, checkin);
    var report := WeeklyReport(records, catalog, checkin);
    assert forall i, j :: 0 <= i < j < |report| ==> ExerciseOf(report[i]) != ExerciseOf(report[j]);
  }

  lemma {:induction false} ReportCoversWindow(records: seq<PracticeRecord>, catalog: seq<Exercise>, checkin: CheckIn)
    ensures CoversWindow(WeeklyReport(records, catalog, checkin), records, checkin.student, WeekStart(checkin.date))
  {
    forall k | 0 <= k < |records| && InWeekOf(records[k], checkin.student, WeekStart(checkin.date))
      ensures exists i :: 0 <= i < |WeeklyReport(records, catalog, checkin)|
                       && WeeklyReport(records, catalog, checkin)[i].exercise == records[k].exercise
    {
      ReportCovers(records, catalog, checkin, k);
    }
  }

  lemma {:induction false} ReportLatestOfWindow(records: seq<PracticeRecord>, catalog: seq<Exercise>, checkin: CheckIn)
    ensures LatestOfWindow(WeeklyReport(records, catalog, checkin), records, checkin.student, WeekStart(checkin.date))
  {
    var report := WeeklyReport(records, catalog, checkin);
    forall i, k | 0 <= i < |report| && 0 <= k < |records|
      && InWeekOf(records[k], checkin.student, WeekStart(checkin.date)) && records[k].exercise == report[i].exercise
      ensures records[k].submittedAt <= report[i].submittedAt
    {
      ReportLatest(records, catalog, checkin, i, k);
    }
  }

  lemma {:induction false} ReportOrderedByExercise(records: seq<PracticeRecord>, catalog: seq<Exercise>, checkin: CheckIn)
    ensures OrderedByExercise(WeeklyReport(records, catalog, checkin), catalog)
  {
    var report := WeeklyReport(records, catalog, checkin);
    forall i, j | 0 <= i < j < |report|
      ensures OrderOf(catalog, report[i].exercise) <= OrderOf(catalog, report[j].exercise)
    {
      ReportOrdered(records, catalog, checkin, i, j);
    }
  }

  /** Each reported record is the last record of its exercise in the week's records, ordered by `submitted_at`. */
  ghost predicate LastOfWeek(report: seq<PracticeRecord>, records: seq<PracticeRecord>, student: UserId, monday: Date)
  {
    forall i :: 0 <= i < |report| ==> IsLastFor(WeekRecords(records, student, monday), report[i])
  }

  lemma {:induction false} ReportLastOfWeek(records: seq<PracticeRecord>, catalog: seq<Exercise>, checkin: CheckIn)
    ensures LastOfWeek(WeeklyReport(records, catalog, checkin), records, checkin.student, WeekStart(checkin.date))
  {
    forall i | 0 <= i < |WeeklyReport(records, catalog, checkin)|
      ensures IsLastFor(WeekRecords(records, checkin.student, WeekStart(checkin.date)), WeeklyReport(records, catalog, checkin)[i])
    {
      ReportElement(records, catalog, checkin, i);
    }
  }

  /**
   * The body of `daily_report_view`: deduplicates the week's records with
   * a dictionary, last write wins, then orders them by exercise order.
   */
  method CollectLatest(records: seq<PracticeRecord>, catalog: seq<Exercise>, checkin: CheckIn)
    returns (report: seq<PracticeRecord>)
    ensures report == WeeklyReport(records, catalog, checkin)
    ensures FromWindow(report, records, checkin.student, WeekStart(checkin.date))
    ensures OnePerExercise(report)
    ensures CoversWindow(report, records, checkin.student, WeekStart(checkin.date))
    ensures LastOfWeek(report, records, checkin.student, WeekStart(checkin.date))
    ensures LatestOfWindow(report, records, checkin.student, WeekStart(checkin.date))
    ensures OrderedByExercise(report, catalog)
  {
    var monday := checkin.date - Weekday(checkin.date);
    var week := WeekRecords(records, checkin.student, monday);
    var latest: Dict<ExerciseId, PracticeRecord> := [];
    for n := 0 to |week|
      invariant latest == LatestByExercise(week[..n])
    {
      assert week[..n + 1][..n] == week[..n];
      latest := Assign(latest, week[n].exercise, week[n]);
    }
    assert week[..|week|] == week;
    assert monday == WeekStart(checkin.date);
    report := SortBy(Values(latest), OrderKey(catalog));
    ReportFromWindow(records, catalog, checkin);
    ReportOnePerExercise(records, catalog, checkin);
    ReportCoversWindow(records, catalog, checkin);
    ReportLastOfWeek(records, catalog, checkin);
    ReportLatestOfWindow(records, catalog, checkin);
    ReportOrderedByExercise(records, catalog, checkin);
  }

  /** What `daily_report_view` renders besides the report itself. */
  datatype ReportPage = ReportPage(
    checkin: CheckIn,
    records: seq<PracticeRecord>,
    isLiked: bool,
    totalLikes: nat,
    isTeacher: bool,
    isMe: bool,
    todayCheckins: nat)

  function CheckInOnPred(d: Date): CheckIn -> bool
  {
    (c: CheckIn) => c.date == d
  }

  /**
   * `daily_report_view`: an unknown check-in id is a 404; otherwise the
   * weekly report of the check-in with its like state for the viewer
   * (`None` is an anonymous visitor) and the number of check-ins of its date.
   */
  method DailyReport(checkins: seq<CheckIn>, records: seq<PracticeRecord>, catalog: seq<Exercise>, viewer: Option<User>, checkinId: int)
    returns (reply: Reply<ReportPage>)
    ensures !(0 <= checkinId < |checkins|) ==> reply == Raised(NotFound)
    ensures 0 <= checkinId < |checkins| ==> reply.Ok? && reply.value.checkin == checkins[checkinId]
    ensures reply.Ok? ==>
      var page := reply.value;
      var monday := WeekStart(page.checkin.date);
      && page.records == WeeklyReport(records, catalog, page.checkin)
      && FromWindow(page.records, records, page.checkin.student, monday)
      && OnePerExercise(page.records)
      && CoversWindow(page.records, records, page.checkin.student, monday)
      && LastOfWeek(page.records, records, page.checkin.student, monday)
      && LatestOfWindow(page.records, records, page.checkin.student, monday)
      && OrderedByExercise(page.records, catalog)
    ensures reply.Ok? ==>
      && (reply.value.isLiked <==> viewer.Some? && viewer.value.id in reply.value.checkin.likes)
      && reply.value.totalLikes == TotalLikes(reply.value.checkin)
      && (reply.value.isTeacher <==> viewer.Some? && viewer.value.isStaff)
      && (reply.value.isMe <==> viewer.Some? && viewer.value.id == reply.value.checkin.student)
      && reply.value.todayCheckins == |Filter(checkins, CheckInOnPred(reply.value.checkin.date))|
  {
    if !(0 <= checkinId < |checkins|) {
      return Raised(NotFound);
    }
    var checkin := checkins[checkinId];
    var report := CollectLatest(records, catalog, checkin);
    var isLiked := viewer.Some? && viewer.value.id in checkin.likes;
    var isTeacher := viewer.Some? && viewer.value.isStaff;
    var isMe := viewer.Some? && viewer.value.id == checkin.student;
    var today := |Filter(checkins, CheckInOnPred(checkin.date))|;
    reply := Ok(ReportPage(checkin, report, isLiked, TotalLikes(checkin), isTeacher, isMe, today));
  }

  // ---------------------------------------------------------------
  // Recording history
  // ---------------------------------------------------------------

  type DateGroup = (Date, seq<PracticeRecord>)

  function NewestFirstKey(r: PracticeRecord): Key
  {
    [-r.submittedAt]
  }

  function RecordingPred(student: UserId): PracticeRecord -> bool
  {
    (r: PracticeRecord) => r.student == student && r.audio.Some?
  }

  /** The history's query: the student's records that have audio, newest first. */
  function AudioHistory(records: seq<PracticeRecord>, student: UserId): (h: seq<PracticeRecord>)
    ensures multiset(h) == multiset(Filter(records, RecordingPred(student)))
    ensures SortedBy(h, NewestFirstKey)
  {
    SortBySorted(Filter(records, RecordingPred(student)), NewestFirstKey);
    SortBy(Filter(records, RecordingPred(student)), NewestFirstKey)
  }

  function OnDatePred(d: Date): PracticeRecord -> bool
  {
    (r: PracticeRecord) => DateOf(r.submittedAt) == d
  }

  /** The records of `rs` submitted on day `d`, in their order in `rs`. */
  function OnDate(rs: seq<PracticeRecord>, d: Date): seq<PracticeRecord>
  {
    Filter(rs, OnDatePred(d))
  }

  /** The grouping loop: `records_by_date.setdefault(date, []).append(record)` over `rs`. */
  function GroupByDate(rs: seq<PracticeRecord>): (g: Dict<Date, seq<PracticeRecord>>)
    ensures DistinctKeys(g)
    ensures |g| <= |rs|
  {
    if rs == [] then []
    else
      var groups := GroupByDate(rs[..|rs| - 1]);
      var day := DateOf(rs[|rs| - 1].submittedAt);
      Assign(groups, day, Get(groups, day, []) + [rs[|rs| - 1]])
  }

  lemma {:induction false} FilterSingle(r: PracticeRecord, d: Date)
    ensures OnDate([r], d) == if DateOf(r.submittedAt) == d then [r] else []
  {
    assert [r][1..] == [];
  }

  lemma {:induction false} FilterNone(rs: seq<PracticeRecord>, d: Date)
    requires forall j :: 0 <= j < |rs| ==> DateOf(rs[j].submittedAt) != d
    ensures OnDate(rs, d) == []
  {
    if rs != [] {
      FilterNone(rs[1..], d);
    }
  }

  /** Every record's date has a group. */
  lemma {:induction false} GroupByDateCovers(rs: seq<PracticeRecord>)
    ensures forall j :: 0 <= j < |rs| ==>
      exists i :: 0 <= i < |GroupByDate(rs)| && GroupByDate(rs)[i].0 == DateOf(rs[j].submittedAt)
  {
    if rs != [] {
      var init, last := rs[..|rs| - 1], rs[|rs| - 1];
      GroupByDateCovers(init);
      var g := GroupByDate(init);
      var day := DateOf(last.submittedAt);
      assert GroupByDate(rs) == Assign(g, day, Get(g, day, []) + [last]);
      var p := if Find(g, day).Some? then Find(g, day).value else |g|;
      assert p < |GroupByDate(rs)| && GroupByDate(rs)[p].0 == day;
      forall j | 0 <= j < |rs|
        ensures exists i :: 0 <= i < |GroupByDate(rs)| && GroupByDate(rs)[i].0 == DateOf(rs[j].submittedAt)
      {
        if DateOf(rs[j].submittedAt) == day {
          assert GroupByDate(rs)[p].0 == day;
        } else {
          assert rs[j] == init[j];
          var i :| 0 <= i < |g| && g[i].0 == DateOf(init[j].submittedAt);
          assert GroupByDate(rs)[i] == g[i];
        }
      }
    }
  }

  /** Every group holds exactly the records of its date, in their order, and is not empty. */
  lemma {:induction false} GroupByDateCorrect(rs: seq<PracticeRecord>)
    ensures forall i :: 0 <= i < |GroupByDate(rs)| ==>
      GroupByDate(rs)[i].1 == OnDate(rs, GroupByDate(rs)[i].0) && GroupByDate(rs)[i].1 != []
  {
    if rs != [] {
      var init, last := rs[..|rs| - 1], rs[|rs| - 1];
      assert rs == init + [last];
      GroupByDateCorrect(init);
      var g := GroupByDate(init);
      var day := DateOf(last.submittedAt);
      var g' := GroupByDate(rs);
      assert g' == Assign(g, day, Get(g, day, []) + [last]);
      var p := if Find(g, day).Some? then Find(g, day).value else |g|;
      assert Get(g, day, []) == OnDate(init, day) by {
        if Find(g, day).None? {
          GroupByDateCovers(init);
          forall j | 0 <= j < |init| ensures DateOf(init[j].submittedAt) != day {
            var i :| 0 <= i < |g| && g[i].0 == DateOf(init[j].submittedAt);
          }
          FilterNone(init, day);
        }
      }
      assert p < |g'| && g'[p] == (day, OnDate(init, day) + [last]);
      forall i | 0 <= i < |g'|
        ensures g'[i].1 == OnDate(rs, g'[i].0) && g'[i].1 != []
      {
        FilterAppend(init, [last], OnDatePred(g'[i].0));
        FilterSingle(last, g'[i].0);
        if g'[i].0 == day {
          assert i == p;
        } else {
          assert i < |g| && g'[i] == g[i];
        }
      }
    }
  }

  function GroupDate(g: DateGroup): int
  {
    g.0
  }

  function NewestDateFirstKey(g: DateGroup): Key
  {
    [-g.0]
  }

  /** One group per date, newest date first. */
  ghost predicate NewestDateFirst(history: seq<DateGroup>)
  {
    forall i, j :: 0 <= i < j < |history| ==> history[i].0 > history[j].0
  }

  /** A group holds exactly the recordings of its date, in the order of `src`. */
  ghost predicate GroupsMatch(history: seq<DateGroup>, src: seq<PracticeRecord>)
  {
    forall i :: 0 <= i < |history| ==> history[i].1 == OnDate(src, history[i].0) && history[i].1 != []
  }

  /** Every recording of the student has the group of its date. */
  ghost predicate EveryRecordingGrouped(history: seq<DateGroup>, records: seq<PracticeRecord>, student: UserId)
  {
    forall k :: 0 <= k < |records| && RecordingPred(student)(records[k]) ==>
      exists i :: 0 <= i < |history| && history[i].0 == DateOf(records[k].submittedAt)
  }

  /** What the history views list. */
  function HistoryOf(records: seq<PracticeRecord>, student: UserId): (h: seq<DateGroup>)
    ensures |h| <= |AudioHistory(records, student)|
  {
    SortBy(GroupByDate(AudioHistory(records, student)), NewestDateFirstKey)
  }

  lemma {:induction false} HistoryNewestDateFirst(records: seq<PracticeRecord>, student: UserId)
    ensures NewestDateFirst(HistoryOf(records, student))
  {
    var groups := GroupByDate(AudioHistory(records, student));
    var history := HistoryOf(records, student);
    assert DistinctBy(groups, GroupDate);
    SortByDistinct(groups, NewestDateFirstKey, GroupDate);
    SortBySorted(groups, NewestDateFirstKey);
    forall i, j | 0 <= i < j < |history| ensures history[i].0 > history[j].0 {
      assert LexLe(NewestDateFirstKey(history[i]), NewestDateFirstKey(history[j]));
      LexSingle(-history[i].0, -history[j].0);
      assert GroupDate(history[i]) != GroupDate(history[j]);
    }
  }

  lemma {:induction false} HistoryGroupsMatch(records: seq<PracticeRecord>, student: UserId)
    ensures GroupsMatch(HistoryOf(records, student), AudioHistory(records, student))
  {
    var src := AudioHistory(records, student);
    var groups := GroupByDate(src);
    var history := HistoryOf(records, student);
    GroupByDateCorrect(src);
    forall i | 0 <= i < |history|
      ensures history[i].1 == OnDate(src, history[i].0) && history[i].1 != []
    {
      assert history[i] in multiset(groups);
    }
  }

  lemma {:induction false} HistoryGroupsAll(records: seq<PracticeRecord>, student: UserId)
    ensures EveryRecordingGrouped(HistoryOf(records, student), records, student)
  {
    var src := AudioHistory(records, student);
    var groups := GroupByDate(src);
    var history := HistoryOf(records, student);
    GroupByDateCovers(src);
    forall k | 0 <= k < |records| && RecordingPred(student)(records[k])
      ensures exists i :: 0 <= i < |history| && history[i].0 == DateOf(records[k].submittedAt)
    {
      var f := Filter(records, RecordingPred(student));
      assert records[k] in f;
      assert records[k] in multiset(src);
      var b :| 0 <= b < |src| && src[b] == records[k];
      var p :| 0 <= p < |groups| && groups[p].0 == DateOf(src[b].submittedAt);
      assert groups[p] in multiset(history);
    }
  }

  /**
   * The history both history views render: the student's recordings
   * grouped by submission date, the groups ordered by date, newest first,
   * and the number of recordings.
   */
  method History(records: seq<PracticeRecord>, student: UserId) returns (history: seq<DateGroup>, total: nat)
    ensures history == HistoryOf(records, student)
    ensures NewestDateFirst(history)
    ensures GroupsMatch(history, AudioHistory(records, student))
    ensures EveryRecordingGrouped(history, records, student)
    ensures total == |Filter(records, RecordingPred(student))|
  {
    var src := AudioHistory(records, student);
    var groups: Dict<Date, seq<PracticeRecord>> := [];
    for n := 0 to |src|
      invariant groups == GroupByDate(src[..n])
    {
      assert src[..n + 1][..n] == src[..n];
      var day := DateOf(src[n].submittedAt);
      groups := Assign(groups, day, Get(groups, day, []) + [src[n]]);
    }
    assert src[..|src|] == src;
    history := SortBy(groups, NewestDateFirstKey);
    total := |src|;
    HistoryNewestDateFirst(records, student);
    HistoryGroupsMatch(records, student);
    HistoryGroupsAll(records, student);
  }

  datatype HistoryPage = HistoryPage(student: User, history: seq<DateGroup>, totalRecords: nat)

  /**
   * `teacher_student_history`: staff only; the student is looked up by
   * id among the non-staff users, and a missing one is a 404. Users are
   * keyed by position, as in the database.
   */
  method TeacherStudentHistory(viewer: User, users: seq<User>, records: seq<PracticeRecord>, studentId: int)
    returns (reply: Reply<HistoryPage>)
    requires forall i :: 0 <= i < |users| ==> users[i].id == i
    ensures !viewer.isStaff ==> reply == Redirect(StudentDashboardPage)
    ensures viewer.isStaff && !(0 <= studentId < |users| && !users[studentId].isStaff) ==> reply == Raised(NotFound)
    ensures viewer.isStaff && 0 <= studentId < |users| && !users[studentId].isStaff ==>
      reply.Ok? && reply.value.student == users[studentId]
    ensures reply.Ok? ==>
      var page := reply.value;
      && page.student in users && !page.student.isStaff
      && page.history == HistoryOf(records, page.student.id)
      && NewestDateFirst(page.history)
      && GroupsMatch(page.history, AudioHistory(records, page.student.id))
      && EveryRecordingGrouped(page.history, records, page.student.id)
      && page.totalRecords == |Filter(records, RecordingPred(page.student.id))|
  {
    if !viewer.isStaff {
      return Redirect(StudentDashboardPage);
    }
    if !(0 <= studentId < |users| && !users[studentId].isStaff) {
      return Raised(NotFound);
    }
    var student := users[studentId];
    var history, total := History(records, student.id);
    reply := Ok(HistoryPage(student, history, total));
  }
}
