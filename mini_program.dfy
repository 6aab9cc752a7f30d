/**
 * The mini-program's handlers: its home page data, an exercise's detail,
 * uploading a recording and submitting the day. Unlike the web handlers,
 * they key a practice record on (check-in, exercise) and take `today`
 * from the same clock `now`. The current user is an input, `None` when
 * the request is not authenticated.
 */
module MiniProgram {
  import opened Wrappers
  import opened Dates
  import opened Seqs
  import opened Models
  import opened Dashboards
  import opened Database

  const LoginFirst: string := "请先登录"
  const NoSuchExercise: string := "练习不存在"
  const PostRequired: string := "仅支持POST请求"
  const NoFile: string := "未上传文件"
  const NotStartedToday: string := "今日尚未开始练习"
  const Submitted: string := "提交成功"

  datatype DashboardView = DashboardView(
    studentName: string,
    totalCount: nat,
    completedCount: nat,
    allDone: bool,
    isSubmitted: bool,
    exercises: seq<ExerciseItem>)

  /**
   * `dashboard_data`: opens today's check-in, lists every exercise in
   * display order with its done flag, and reports the progress.
   */
  method DashboardData(store: Store, user: Option<UserId>, now: Instant) returns (reply: Reply<DashboardView>)
    requires store.Valid() && (user.Some? ==> 0 <= user.value < |store.users|)
    modifies store`checkins
    ensures store.Valid()
    ensures user.None? ==> reply == Error(Some(LoginFirst)) && store.checkins == old(store.checkins)
    ensures user.Some? ==> store.checkins == CheckInsWith(old(store.checkins), user.value, DateOf(now))
    ensures user.Some? ==> FindCheckIn(store.checkins, user.value, DateOf(now)).Some?
    ensures user.Some? ==>
      var cid := FindCheckIn(store.checkins, user.value, DateOf(now));
      var completed := CompletedInCheckIn(store.records, cid.value);
      && reply.Ok?
      && reply.value.studentName == store.users[user.value].username
      && reply.value.exercises == ItemList(store.exercises, completed)
      && ListsEveryExerciseOnce(reply.value.exercises, store.exercises)
      && InCatalogOrder(reply.value.exercises, store.exercises)
      && DoneExactlyWhenCompleted(reply.value.exercises, completed)
      && reply.value.totalCount == |store.exercises|
      && reply.value.completedCount == |completed|
      && (reply.value.allDone <==> |store.exercises| > 0 && EveryExerciseMatched(store.records, InCheckInPred(cid.value), store.exercises))
      && reply.value.isSubmitted == store.checkins[cid.value].isSubmitted
  {
    if user.None? {
      return Error(Some(LoginFirst));
    }
    var student := user.value;
    var today := DateOf(now);
    var cid := store.GetOrCreateCheckIn(student, today);
    var completed := CompletedInCheckIn(store.records, cid);
    var items := BuildItems(store.exercises, completed);
    var total := |store.exercises|;
    var allDone := |completed| >= total && total > 0;
    reply := Ok(DashboardView(store.users[student].username, total, |completed|, allDone, store.checkins[cid].isSubmitted, items));
    AllDoneIffEveryExerciseMatches(store.records, InCheckInPred(cid), store.exercises);
  }

  datatype ExerciseView = ExerciseView(id: ExerciseId, title: string, studentAudio: Option<Audio>, isFinished: bool)

  /**
   * The mini-program's `exercise_detail`: an unknown exercise is
   * reported before anything is written; otherwise today's check-in is
   * opened and the record of the exercise under it is looked up.
   */
  method ExerciseDetail(store: Store, user: Option<UserId>, exerciseId: int, now: Instant) returns (reply: Reply<ExerciseView>)
    requires store.Valid() && (user.Some? ==> 0 <= user.value < |store.users|)
    modifies store`checkins
    ensures store.Valid()
    ensures user.None? ==> reply == Error(Some(LoginFirst))
    ensures user.Some? && !(0 <= exerciseId < |store.exercises|) ==> reply == Error(Some(NoSuchExercise))
    ensures !(user.Some? && 0 <= exerciseId < |store.exercises|) ==> store.checkins == old(store.checkins)
    ensures user.Some? && 0 <= exerciseId < |store.exercises| ==>
      var cid := FindCheckIn(store.checkins, user.value, DateOf(now));
      && store.checkins == CheckInsWith(old(store.checkins), user.value, DateOf(now))
      && cid.Some? && reply.Ok?
      && reply.value.id == exerciseId && reply.value.title == store.exercises[exerciseId].title
      && reply.value.isFinished == IsFinished(store.records, cid.value, exerciseId)
      && (reply.value.isFinished <==> reply.value.studentAudio.Some?)
      && (UniquePerCheckIn(store.records) ==>
            (reply.value.isFinished <==>
               exists i :: 0 <= i < |store.records| && store.records[i].checkin == cid
                        && store.records[i].exercise == exerciseId && store.records[i].audio.Some?))
  {
    if user.None? {
      return Error(Some(LoginFirst));
    }
    if !(0 <= exerciseId < |store.exercises|) {
      return Error(Some(NoSuchExercise));
    }
    var exercise := store.exercises[exerciseId];
    var cid := store.GetOrCreateCheckIn(user.value, DateOf(now));
    var record := RecordFor(store.records, cid, exerciseId);
    var studentAudio := if record.Some? then store.records[record.value].audio else None;
    var isFinished := record.Some? && store.records[record.value].audio.Some?;
    reply := Ok(ExerciseView(exercise.id, exercise.title, studentAudio, isFinished));
    if UniquePerCheckIn(store.records) {
      IsFinishedIff(store.records, cid, exerciseId);
    }
  }

  /**
   * The record table after `upload_recording`'s get-or-create on
   * (check-in, exercise) and save: the found record gets the file and a
   * new time, or a record with the file is created.
   */
  function RecordedRecords(rs: seq<PracticeRecord>, cid: CheckInId, student: UserId, e: ExerciseId, file: Audio, now: Instant)
    : (r: seq<PracticeRecord>)
    ensures |r| == if RecordFor(rs, cid, e).Some? then |rs| else |rs| + 1
    ensures forall i :: 0 <= i < |rs| && Some(i) != RecordFor(rs, cid, e) ==> r[i] == rs[i]
    ensures exists k ::
              0 <= k < |r| && r[k].checkin == Some(cid) && r[k].exercise == e
              && r[k].audio == Some(file) && r[k].submittedAt == now
  {
    match RecordFor(rs, cid, e)
    case Some(k) =>
      var r := rs[k := rs[k].(audio := Some(file), submittedAt := now)];
      assert r[k].checkin == Some(cid) && r[k].exercise == e;
      r
    case None =>
      var r := rs + [PracticeRecord(Some(cid), student, e, Some(file), now)];
      assert r[|rs|].checkin == Some(cid);
      r
  }

  /** With at most one record per (check-in, exercise), `get_or_create` cannot find two. */
  lemma {:induction false} UniqueMeansNoMultiple(rs: seq<PracticeRecord>, cid: CheckInId, e: ExerciseId)
    requires UniquePerCheckIn(rs)
    ensures |Filter(rs, ForCheckInPred(cid, e))| <= 1
  {
    if rs != [] {
      var tail := rs[1..];
      assert forall i :: 0 <= i < |tail| ==> tail[i] == rs[i + 1];
      assert UniquePerCheckIn(tail);
      UniqueMeansNoMultiple(tail, cid, e);
      if ForCheckInPred(cid, e)(rs[0]) {
        forall i | 0 <= i < |tail| ensures !ForCheckInPred(cid, e)(tail[i]) {
          assert rs[0].checkin.Some?;
          assert rs[0].checkin != rs[i + 1].checkin || rs[0].exercise != rs[i + 1].exercise;
        }
        FilterEmpty(tail, ForCheckInPred(cid, e));
      }
    }
  }

  /**
   * After the upload the record of (check-in, exercise) holds the file,
   * stamped `now`; the table keeps at most one record per pair, and then
   * it is the only one.
   */
  lemma {:induction false} RecordedResult(rs: seq<PracticeRecord>, cid: CheckInId, student: UserId, e: ExerciseId, file: Audio, now: Instant)
    ensures var after := RecordedRecords(rs, cid, student, e, file, now);
      && RecordFor(after, cid, e).Some?
      && after[RecordFor(after, cid, e).value].audio == Some(file)
      && after[RecordFor(after, cid, e).value].submittedAt == now
  {
    var after := RecordedRecords(rs, cid, student, e, file, now);
    match RecordFor(rs, cid, e)
    case Some(k) =>
      assert ForCheckInPred(cid, e)(after[k]);
      assert forall j :: 0 <= j < k ==> after[j] == rs[j];
    case None =>
      assert ForCheckInPred(cid, e)(after[|rs|]);
      assert forall j :: 0 <= j < |rs| ==> after[j] == rs[j];
  }

  lemma {:induction false} RecordedKeepsUnique(rs: seq<PracticeRecord>, cid: CheckInId, student: UserId, e: ExerciseId, file: Audio, now: Instant)
    requires UniquePerCheckIn(rs)
    ensures UniquePerCheckIn(RecordedRecords(rs, cid, student, e, file, now))
  {
    var after := RecordedRecords(rs, cid, student, e, file, now);
    match RecordFor(rs, cid, e)
    case Some(k) =>
      forall i, j | 0 <= i < j < |after| && after[i].checkin.Some?
        ensures after[i].checkin != after[j].checkin || after[i].exercise != after[j].exercise
      {
        assert after[i].checkin == rs[i].checkin && after[i].exercise == rs[i].exercise;
        assert after[j].checkin == rs[j].checkin && after[j].exercise == rs[j].exercise;
      }
    case None =>
      forall i, j | 0 <= i < j < |after| && after[i].checkin.Some?
        ensures after[i].checkin != after[j].checkin || after[i].exercise != after[j].exercise
      {
        if j == |rs| {
          assert after[i] == rs[i] && !ForCheckInPred(cid, e)(rs[i]);
        } else {
          assert after[i] == rs[i] && after[j] == rs[j];
        }
      }
  }

  /**
   * The mini-program's upsert does not keep the web handlers' weekly
   * discipline: a record of a pair under one day's check-in, then an upload
   * of the same exercise under the next day's check-in, leaves two records
   * of one (student, exercise) pair in the same week.
   */
  lemma {:induction false} RecordedCanBreakWeeklyUnique(student: UserId, e: ExerciseId, first: Audio, second: Audio, monday: Date)
    ensures var rs := [PracticeRecord(Some(0), student, e, Some(first), monday * SecondsPerDay)];
      WeeklyUnique(rs, monday)
      && !WeeklyUnique(RecordedRecords(rs, 1, student, e, second, (monday + 1) * SecondsPerDay), monday)
  {
    var rs := [PracticeRecord(Some(0), student, e, Some(first), monday * SecondsPerDay)];
    var after := RecordedRecords(rs, 1, student, e, second, (monday + 1) * SecondsPerDay);
    assert RecordFor(rs, 1, e).None?;
    assert after == rs + [PracticeRecord(Some(1), student, e, Some(second), (monday + 1) * SecondsPerDay)];
    assert DateOf(monday * SecondsPerDay) == monday;
    assert DateOf((monday + 1) * SecondsPerDay) == monday + 1;
    assert after[0].student == after[1].student && after[0].exercise == after[1].exercise;
  }

  /** Two records of the same (check-in, exercise) in a table with the discipline are the same record. */
  lemma {:induction false} RecordForIsOnly(rs: seq<PracticeRecord>, cid: CheckInId, e: ExerciseId, i: nat, j: nat)
    requires UniquePerCheckIn(rs) && i < |rs| && j < |rs|
    requires ForCheckInPred(cid, e)(rs[i]) && ForCheckInPred(cid, e)(rs[j])
    ensures i == j
  {
    if i < j {
      assert false;
    } else if j < i {
      assert false;
    }
  }

  /** Writes the upload into the store, keeping its foreign keys valid. */
  method StoreRecorded(store: Store, cid: nat, student: UserId, e: ExerciseId, file: Audio, now: Instant)
    requires store.Valid() && 0 <= student < |store.users| && 0 <= e < |store.exercises|
    requires cid < |store.checkins| && store.checkins[cid].student == student
    modifies store`records
    ensures store.Valid()
    ensures store.records == RecordedRecords(old(store.records), cid, student, e, file, now)
  {
    var rs := store.records;
    store.records := RecordedRecords(rs, cid, student, e, file, now);
    forall i | 0 <= i < |store.records| ensures store.RecordLinked(store.records[i]) {
      if i < |rs| {
        assert store.records[i].checkin == rs[i].checkin && store.records[i].student == rs[i].student;
        assert store.records[i].exercise == rs[i].exercise;
      }
    }
  }

  /**
   * `upload_recording`: POST only, signed in, with a file; an unknown
   * exercise raises before anything is written. Then today's check-in is
   * opened, and two records of the pair make `get_or_create` raise;
   * otherwise the record of the pair gets the file.
   */
  method UploadRecording(store: Store, user: Option<UserId>, isPost: bool, exerciseId: int, audio: Option<Audio>, now: Instant)
    returns (reply: Reply<Audio>)
    requires store.Valid() && (user.Some? ==> 0 <= user.value < |store.users|)
    modifies store`checkins, store`records
    ensures store.Valid()
    ensures !isPost ==> reply == Error(Some(PostRequired))
    ensures isPost && user.None? ==> reply == Error(Some(LoginFirst))
    ensures isPost && user.Some? && audio.None? ==> reply == Error(Some(NoFile))
    ensures isPost && user.Some? && audio.Some? && !(0 <= exerciseId < |store.exercises|) ==> reply == Raised(ExerciseDoesNotExist)
    ensures !(isPost && user.Some? && audio.Some? && 0 <= exerciseId < |store.exercises|) ==>
      store.checkins == old(store.checkins) && store.records == old(store.records)
    ensures isPost && user.Some? && audio.Some? && 0 <= exerciseId < |store.exercises| ==>
      var cid := FindCheckIn(store.checkins, user.value, DateOf(now));
      && store.checkins == CheckInsWith(old(store.checkins), user.value, DateOf(now))
      && cid.Some?
      && (|Filter(old(store.records), ForCheckInPred(cid.value, exerciseId))| > 1 ==>
            reply == Raised(MultipleRecordsReturned) && store.records == old(store.records))
      && (|Filter(old(store.records), ForCheckInPred(cid.value, exerciseId))| <= 1 ==>
            && reply == Ok(audio.value)
            && store.records == RecordedRecords(old(store.records), cid.value, user.value, exerciseId, audio.value, now))
    ensures old(UniquePerCheckIn(store.records)) ==> UniquePerCheckIn(store.records) && reply != Raised(MultipleRecordsReturned)
  {
    if !isPost {
      return Error(Some(PostRequired));
    }
    if user.None? {
      return Error(Some(LoginFirst));
    }
    var student := user.value;
    if audio.None? {
      return Error(Some(NoFile));
    }
    if !(0 <= exerciseId < |store.exercises|) {
      return Raised(ExerciseDoesNotExist);
    }
    var cid := store.GetOrCreateCheckIn(student, DateOf(now));
    var rs := store.records;
    if UniquePerCheckIn(rs) {
      UniqueMeansNoMultiple(rs, cid, exerciseId);
      RecordedKeepsUnique(rs, cid, student, exerciseId, audio.value, now);
    }
    if |Filter(rs, ForCheckInPred(cid, exerciseId))| > 1 {
      return Raised(MultipleRecordsReturned);
    }
    StoreRecorded(store, cid, student, exerciseId, audio.value, now);
    reply := Ok(audio.value);
  }

  /**
   * `submit_daily`: POST only, signed in; fails when today has no
   * check-in yet, otherwise marks today's check-in submitted.
   */
  method SubmitDaily(store: Store, user: Option<UserId>, isPost: bool, now: Instant) returns (reply: Reply<string>)
    requires store.Valid() && (user.Some? ==> 0 <= user.value < |store.users|)
    modifies store`checkins
    ensures store.Valid()
    ensures !isPost ==> reply == Error(Some(PostRequired))
    ensures isPost && user.None? ==> reply == Error(Some(LoginFirst))
    ensures isPost && user.Some? && FindCheckIn(old(store.checkins), user.value, DateOf(now)).None? ==>
      reply == Error(Some(NotStartedToday))
    ensures !(isPost && user.Some? && FindCheckIn(old(store.checkins), user.value, DateOf(now)).Some?) ==>
      store.checkins == old(store.checkins)
    ensures isPost && user.Some? && FindCheckIn(old(store.checkins), user.value, DateOf(now)).Some? ==>
      var c := FindCheckIn(old(store.checkins), user.value, DateOf(now)).value;
      && reply == Ok(Submitted)
      && store.checkins == old(store.checkins)[c := old(store.checkins)[c].(isSubmitted := true)]
      && store.checkins[c].student == user.value && store.checkins[c].date == DateOf(now) && store.checkins[c].isSubmitted
  {
    if !isPost {
      return Error(Some(PostRequired));
    }
    if user.None? {
      return Error(Some(LoginFirst));
    }
    var checkin := FindCheckIn(store.checkins, user.value, DateOf(now));
    if checkin.None? {
      return Error(Some(NotStartedToday));
    }
    var c := checkin.value;
    store.checkins := store.checkins[c := store.checkins[c].(isSubmitted := true)];
    reply := Ok(Submitted);
    store.UpdatedCheckInKeepsLinks(c);
  }
}
