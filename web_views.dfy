/**
 * The web handlers that change the database: the student dashboard
 * (which opens today's check-in), marking an exercise complete,
 * uploading a recording, submitting the week to the teacher, liking a
 * check-in and opening an announcement. The current user is an input;
 * `today` is the date of the input instant `now`.
 */
module WebViews {
  import opened Wrappers
  import opened Dates
  import opened Seqs
  import opened Models
  import opened Reports
  import opened Dashboards
  import opened Database

  const PostOnly: string := "POST only"
  const ProgressUpdated: string := "已更新进度"
  const MarkedComplete: string := "已标记为完成"
  const NoSuchUser: string := "用户不存在"
  const NotLoggedIn: string := "未登录"
  const MissingParameters: string := "参数缺失"
  const BestUpdated: string := "本周最佳作业已更新！"
  const UploadedAsBest: string := "上传成功，设为本周最佳！"
  const NothingThisWeek: string := "本周还没有上传任何练习哦"
  const SyncedToTeacher: string := "本周作业已同步给老师！"

  // ---------------------------------------------------------------
  // The weekly upsert shared by "mark complete" and "upload"
  // ---------------------------------------------------------------

  function WeeklyPred(student: UserId, e: ExerciseId, monday: Date): PracticeRecord -> bool
  {
    (r: PracticeRecord) => r.student == student && r.exercise == e && DateOf(r.submittedAt) >= monday
  }

  /** The existing-record query: `filter(student, exercise, submitted_at__date__gte=start_of_week).first()`. */
  function WeeklyRecord(rs: seq<PracticeRecord>, student: UserId, e: ExerciseId, now: Instant): (r: Option<nat>)
    ensures r.Some? ==>
              r.value < |rs| && rs[r.value].student == student && rs[r.value].exercise == e
              && DateOf(rs[r.value].submittedAt) >= WeekStart(DateOf(now))
    ensures r.Some? ==> forall j :: 0 <= j < r.value ==> !WeeklyPred(student, e, WeekStart(DateOf(now)))(rs[j])
    ensures r.None? <==> forall j :: 0 <= j < |rs| ==> !WeeklyPred(student, e, WeekStart(DateOf(now)))(rs[j])
  {
    FirstIndex(rs, WeeklyPred(student, e, WeekStart(DateOf(now))))
  }

  /**
   * The record table after an upsert at instant `now` under check-in
   * `cid`. With `audio == None` this is "mark complete": an existing
   * record keeps its audio and a new one has none. With `Some(file)` it
   * is an upload: the file replaces the audio or starts the new record.
   * Either way the record's time becomes `now` and its check-in `cid`.
   */
  function WeeklyUpsert(rs: seq<PracticeRecord>, student: UserId, e: ExerciseId, cid: CheckInId, audio: Option<Audio>, now: Instant)
    : (r: seq<PracticeRecord>)
    ensures |rs| <= |r| <= |rs| + 1
    ensures exists k ::
              0 <= k < |r| && r[k].student == student && r[k].exercise == e
              && r[k].checkin == Some(cid) && r[k].submittedAt == now && (audio.Some? ==> r[k].audio == audio)
  {
    match WeeklyRecord(rs, student, e, now)
    case Some(k) =>
      var r := rs[k := rs[k].(audio := if audio.Some? then audio else rs[k].audio, submittedAt := now, checkin := Some(cid))];
      assert r[k].student == student && r[k].exercise == e;
      r
    case None =>
      var r := rs + [PracticeRecord(Some(cid), student, e, audio, now)];
      assert r[|rs|].student == student && r[|rs|].exercise == e;
      r
  }

  /** An existing weekly record is updated in place; otherwise exactly one record is added. */
  lemma UpsertCount(rs: seq<PracticeRecord>, student: UserId, e: ExerciseId, cid: CheckInId, audio: Option<Audio>, now: Instant)
    ensures |WeeklyUpsert(rs, student, e, cid, audio, now)| == if WeeklyRecord(rs, student, e, now).Some? then |rs| else |rs| + 1
    ensures rs <= WeeklyUpsert(rs, student, e, cid, audio, now) || WeeklyRecord(rs, student, e, now).Some?
  {
  }

  /**
   * Only the `.first()` weekly record is rewritten: every other record,
   * including older records of the same pair, is left as it was.
   */
  lemma UpsertLeavesOthers(rs: seq<PracticeRecord>, student: UserId, e: ExerciseId, cid: CheckInId, audio: Option<Audio>, now: Instant)
    ensures forall i :: 0 <= i < |rs| && Some(i) != WeeklyRecord(rs, student, e, now) ==>
      WeeklyUpsert(rs, student, e, cid, audio, now)[i] == rs[i]
    ensures forall i :: 0 <= i < |rs| && (rs[i].student != student || rs[i].exercise != e) ==>
      WeeklyUpsert(rs, student, e, cid, audio, now)[i] == rs[i]
  {
  }

  /** "Mark complete" never adds or replaces audio: existing files stay, a new record has none. */
  lemma MarkKeepsAudio(rs: seq<PracticeRecord>, student: UserId, e: ExerciseId, cid: CheckInId, now: Instant)
    ensures forall i :: 0 <= i < |WeeklyUpsert(rs, student, e, cid, None, now)| ==>
      WeeklyUpsert(rs, student, e, cid, None, now)[i].audio == if i < |rs| then rs[i].audio else None
  {
  }

  /**
   * After an upsert the student's weekly record of the exercise is the
   * one just written: stamped `now`, attached to `cid`, holding the
   * uploaded file if there was one; with at most one weekly record per
   * (student, exercise) before, it is the only one after.
   */
  lemma {:induction false} UpsertResult(rs: seq<PracticeRecord>, student: UserId, e: ExerciseId, cid: CheckInId, audio: Option<Audio>, now: Instant)
    ensures var after := WeeklyUpsert(rs, student, e, cid, audio, now);
      && WeeklyRecord(after, student, e, now).Some?
      && after[WeeklyRecord(after, student, e, now).value].submittedAt == now
      && after[WeeklyRecord(after, student, e, now).value].checkin == Some(cid)
      && (audio.Some? ==> after[WeeklyRecord(after, student, e, now).value].audio == audio)
  {
    var ws := WeekStart(DateOf(now));
    var after := WeeklyUpsert(rs, student, e, cid, audio, now);
    match WeeklyRecord(rs, student, e, now)
    case Some(k) =>
      assert WeeklyPred(student, e, ws)(after[k]);
      assert forall j :: 0 <= j < k ==> after[j] == rs[j];
    case None =>
      assert WeeklyPred(student, e, ws)(after[|rs|]);
      assert forall j :: 0 <= j < |rs| ==> after[j] == rs[j];
  }

  /** The weekly upsert keeps at most one record per (student, exercise) since the Monday of `now`. */
  lemma {:induction false} UpsertKeepsWeeklyUnique(rs: seq<PracticeRecord>, student: UserId, e: ExerciseId, cid: CheckInId, audio: Option<Audio>, now: Instant)
    requires WeeklyUnique(rs, WeekStart(DateOf(now)))
    ensures WeeklyUnique(WeeklyUpsert(rs, student, e, cid, audio, now), WeekStart(DateOf(now)))
  {
    var ws := WeekStart(DateOf(now));
    var after := WeeklyUpsert(rs, student, e, cid, audio, now);
    match WeeklyRecord(rs, student, e, now)
    case Some(k) =>
      forall i, j | 0 <= i < j < |after| && DateOf(after[i].submittedAt) >= ws && DateOf(after[j].submittedAt) >= ws
        ensures after[i].student != after[j].student || after[i].exercise != after[j].exercise
      {
        if i != k && j != k {
          assert after[i] == rs[i] && after[j] == rs[j];
        } else if i == k {
          assert after[j] == rs[j] && DateOf(rs[k].submittedAt) >= ws;
        } else {
          assert after[i] == rs[i] && DateOf(rs[k].submittedAt) >= ws;
        }
      }
    case None =>
      forall i, j | 0 <= i < j < |after| && DateOf(after[i].submittedAt) >= ws && DateOf(after[j].submittedAt) >= ws
        ensures after[i].student != after[j].student || after[i].exercise != after[j].exercise
      {
        if j == |rs| {
          assert after[i] == rs[i] && !WeeklyPred(student, e, ws)(rs[i]);
        } else {
          assert after[i] == rs[i] && after[j] == rs[j];
        }
      }
  }

  /** Under the weekly discipline, two weekly records of the same student and exercise are the same record. */
  lemma {:induction false} WeeklyRecordIsOnly(rs: seq<PracticeRecord>, student: UserId, e: ExerciseId, now: Instant, i: nat, j: nat)
    requires WeeklyUnique(rs, WeekStart(DateOf(now)))
    requires i < |rs| && j < |rs|
    requires WeeklyPred(student, e, WeekStart(DateOf(now)))(rs[i]) && WeeklyPred(student, e, WeekStart(DateOf(now)))(rs[j])
    ensures i == j
  {
    if i < j {
      assert false;
    } else if j < i {
      assert false;
    }
  }

  // ---------------------------------------------------------------
  // Handlers
  // ---------------------------------------------------------------

  /** `Exercise.objects.get(id=exercise_id)` succeeds. */
  predicate IsExercise(catalog: seq<Exercise>, id: Option<int>)
  {
    id.Some? && 0 <= id.value < |catalog|
  }

  /** Writes the upsert into the store, keeping its foreign keys valid. */
  method StoreUpsert(store: Store, student: UserId, e: ExerciseId, cid: nat, audio: Option<Audio>, now: Instant)
    requires store.Valid() && 0 <= student < |store.users| && 0 <= e < |store.exercises|
    requires cid < |store.checkins| && store.checkins[cid].student == student
    modifies store`records
    ensures store.Valid()
    ensures store.records == WeeklyUpsert(old(store.records), student, e, cid, audio, now)
  {
    var rs := store.records;
    store.records := WeeklyUpsert(rs, student, e, cid, audio, now);
    forall i | 0 <= i < |store.records| ensures store.RecordLinked(store.records[i]) {
      if i < |rs| && store.records[i] != rs[i] {
        assert WeeklyRecord(rs, student, e, now).Some?;
        assert rs[i].student == student;
      }
    }
  }

  /**
   * `api_mark_practice_complete`: POST only; an unknown exercise raises
   * before anything is written; otherwise today's check-in is opened and
   * the weekly record is refreshed or created without audio.
   */
  method MarkPracticeComplete(store: Store, user: UserId, isPost: bool, exerciseId: Option<int>, now: Instant)
    returns (reply: Reply<string>)
    requires store.Valid() && 0 <= user < |store.users|
    modifies store`checkins, store`records
    ensures store.Valid()
    ensures !isPost ==> reply == Error(Some(PostOnly))
    ensures isPost && !IsExercise(store.exercises, exerciseId) ==> reply == Raised(ExerciseDoesNotExist)
    ensures !(isPost && IsExercise(store.exercises, exerciseId)) ==>
      store.checkins == old(store.checkins) && store.records == old(store.records)
    ensures isPost && IsExercise(store.exercises, exerciseId) ==>
      && store.checkins == CheckInsWith(old(store.checkins), user, DateOf(now))
      && FindCheckIn(store.checkins, user, DateOf(now)).Some?
      && store.records == WeeklyUpsert(old(store.records), user, exerciseId.value,
                                       FindCheckIn(store.checkins, user, DateOf(now)).value, None, now)
      && reply == Ok(if old(WeeklyRecord(store.records, user, exerciseId.value, now)).Some? then ProgressUpdated else MarkedComplete)
    ensures old(WeeklyUnique(store.records, WeekStart(DateOf(now)))) ==> WeeklyUnique(store.records, WeekStart(DateOf(now)))
  {
    if !isPost {
      return Error(Some(PostOnly));
    }
    if !IsExercise(store.exercises, exerciseId) {
      return Raised(ExerciseDoesNotExist);
    }
    var e := exerciseId.value;
    var today := DateOf(now);
    var cid := store.GetOrCreateCheckIn(user, today);
    var existing := WeeklyRecord(store.records, user, e, now);
    if existing.Some? {
      reply := Ok(ProgressUpdated);
    } else {
      reply := Ok(MarkedComplete);
    }
    ghost var before := store.records;
    StoreUpsert(store, user, e, cid, None, now);
    if WeeklyUnique(before, WeekStart(today)) {
      UpsertKeepsWeeklyUnique(before, user, e, cid, None, now);
    }
  }

  /**
   * How `api_upload_practice` settles who uploads and whether the
   * request is complete: the session user, else the posted `user_id`
   * (an unknown id is an error), then the file and exercise id must both
   * be present and the exercise must exist.
   */
  function UploadCheck(users: seq<User>, exercises: seq<Exercise>, sessionUser: Option<UserId>, postedUser: Option<int>,
                       audio: Option<Audio>, exerciseId: Option<int>): (r: Reply<UserId>)
    ensures r == Error(Some(NoSuchUser)) <==>
      sessionUser.None? && postedUser.Some? && !(0 <= postedUser.value < |users|)
    ensures r == Error(Some(NotLoggedIn)) <==> sessionUser.None? && postedUser.None?
    ensures r == Error(Some(MissingParameters)) <==>
      (sessionUser.Some? || (postedUser.Some? && 0 <= postedUser.value < |users|)) && (audio.None? || exerciseId.None?)
    ensures r == Raised(ExerciseDoesNotExist) <==>
      (sessionUser.Some? || (postedUser.Some? && 0 <= postedUser.value < |users|)) && audio.Some? && exerciseId.Some?
      && !IsExercise(exercises, exerciseId)
    ensures r.Ok? ==>
      && audio.Some? && IsExercise(exercises, exerciseId)
      && r.value == (if sessionUser.Some? then sessionUser.value else postedUser.value)
    ensures r.Ok? || r.Error? || r == Raised(ExerciseDoesNotExist)
  {
    var user :=
      if sessionUser.Some? then Some(sessionUser.value)
      else if postedUser.Some? && 0 <= postedUser.value < |users| then Some(postedUser.value)
      else None;
    if sessionUser.None? && postedUser.Some? && user.None? then Error(Some(NoSuchUser))
    else if user.None? then Error(Some(NotLoggedIn))
    else if audio.None? || exerciseId.None? then Error(Some(MissingParameters))
    else if !IsExercise(exercises, exerciseId) then Raised(ExerciseDoesNotExist)
    else Ok(user.value)
  }

  /**
   * `api_upload_practice`: after the checks, opens today's check-in and
   * replaces the weekly record's audio or creates the record with it.
   */
  method UploadPractice(store: Store, sessionUser: Option<UserId>, postedUser: Option<int>, isPost: bool,
                        audio: Option<Audio>, exerciseId: Option<int>, now: Instant)
    returns (reply: Reply<string>)
    requires store.Valid() && (sessionUser.Some? ==> 0 <= sessionUser.value < |store.users|)
    modifies store`checkins, store`records
    ensures store.Valid()
    ensures !isPost ==> reply == Error(None)
    ensures isPost && UploadCheck(store.users, store.exercises, sessionUser, postedUser, audio, exerciseId).Error? ==>
      reply == Error(UploadCheck(store.users, store.exercises, sessionUser, postedUser, audio, exerciseId).msg)
    ensures isPost && UploadCheck(store.users, store.exercises, sessionUser, postedUser, audio, exerciseId).Raised? ==>
      reply == Raised(ExerciseDoesNotExist)
    ensures !(isPost && UploadCheck(store.users, store.exercises, sessionUser, postedUser, audio, exerciseId).Ok?) ==>
      store.checkins == old(store.checkins) && store.records == old(store.records)
    ensures isPost && UploadCheck(store.users, store.exercises, sessionUser, postedUser, audio, exerciseId).Ok? ==>
      var user := UploadCheck(store.users, store.exercises, sessionUser, postedUser, audio, exerciseId).value;
      && store.checkins == CheckInsWith(old(store.checkins), user, DateOf(now))
      && FindCheckIn(store.checkins, user, DateOf(now)).Some?
      && store.records == WeeklyUpsert(old(store.records), user, exerciseId.value,
                                       FindCheckIn(store.checkins, user, DateOf(now)).value, audio, now)
      && reply == Ok(if old(WeeklyRecord(store.records, user, exerciseId.value, now)).Some? then BestUpdated else UploadedAsBest)
    ensures old(WeeklyUnique(store.records, WeekStart(DateOf(now)))) ==> WeeklyUnique(store.records, WeekStart(DateOf(now)))
  {
    if !isPost {
      return Error(None);
    }
    var user: Option<UserId> := sessionUser;
    if user.None? && postedUser.Some? {
      if !(0 <= postedUser.value < |store.users|) {
        return Error(Some(NoSuchUser));
      }
      user := Some(postedUser.value);
    }
    if user.None? {
      return Error(Some(NotLoggedIn));
    }
    if audio.None? || exerciseId.None? {
      return Error(Some(MissingParameters));
    }
    if !IsExercise(store.exercises, exerciseId) {
      return Raised(ExerciseDoesNotExist);
    }
    var u, e := user.value, exerciseId.value;
    var today := DateOf(now);
    var cid := store.GetOrCreateCheckIn(u, today);
    var existing := WeeklyRecord(store.records, u, e, now);
    if existing.Some? {
      reply := Ok(BestUpdated);
    } else {
      reply := Ok(UploadedAsBest);
    }
    ghost var before := store.records;
    StoreUpsert(store, u, e, cid, audio, now);
    if WeeklyUnique(before, WeekStart(today)) {
      UpsertKeepsWeeklyUnique(before, u, e, cid, audio, now);
    }
  }

  /** `PracticeRecord.objects.filter(student=..., submitted_at__date__gte=start_of_week).count()`. */
  function WeekCount(rs: seq<PracticeRecord>, student: UserId, now: Instant): (n: nat)
    ensures n <= |rs|
    ensures n > 0 <==> exists i :: 0 <= i < |rs| && InWeekOf(rs[i], student, WeekStart(DateOf(now)))
  {
    FilterNonEmpty(rs, InWeekPred(student, WeekStart(DateOf(now))));
    |WeekWindow(rs, student, WeekStart(DateOf(now)))|
  }

  /**
   * The check-in table after `submit_daily_checkin`: today's check-in is
   * opened in any case, and marked submitted when the student has a
   * record this week.
   */
  function SubmittedCheckIns(cs: seq<CheckIn>, rs: seq<PracticeRecord>, student: UserId, now: Instant): (r: seq<CheckIn>)
    ensures |r| == |CheckInsWith(cs, student, DateOf(now))|
    ensures forall j :: 0 <= j < |cs| ==> r[j].student == cs[j].student && r[j].date == cs[j].date && r[j].likes == cs[j].likes
  {
    var today := DateOf(now);
    var withToday := CheckInsWith(cs, student, today);
    CheckInsWithFacts(cs, student, today);
    if WeekCount(rs, student, now) == 0 then withToday
    else
      var i := FindCheckIn(withToday, student, today).value;
      withToday[i := withToday[i].(isSubmitted := true)]
  }

  /** Submitting twice leaves the same table as submitting once. */
  lemma {:induction false} SubmitIdempotent(cs: seq<CheckIn>, rs: seq<PracticeRecord>, student: UserId, now: Instant)
    ensures SubmittedCheckIns(SubmittedCheckIns(cs, rs, student, now), rs, student, now) == SubmittedCheckIns(cs, rs, student, now)
  {
    var today := DateOf(now);
    var once := SubmittedCheckIns(cs, rs, student, now);
    var withToday := CheckInsWith(cs, student, today);
    CheckInsWithFacts(cs, student, today);
    var i := FindCheckIn(withToday, student, today).value;
    if WeekCount(rs, student, now) > 0 {
      assert once == withToday[i := withToday[i].(isSubmitted := true)];
      assert forall j :: 0 <= j < i ==> once[j] == withToday[j];
      assert CheckInPred(student, today)(once[i]);
      assert FindCheckIn(once, student, today) == Some(i);
      assert CheckInsWith(once, student, today) == once;
      assert once[i := once[i].(isSubmitted := true)] == once;
    }
  }

  /**
   * With no record this week nothing is submitted and every existing
   * check-in is unchanged; otherwise today's check-in ends up submitted.
   * Other students' and other days' check-ins never change, and the pair
   * stays unique.
   */
  lemma {:induction false} SubmitOutcome(cs: seq<CheckIn>, rs: seq<PracticeRecord>, student: UserId, now: Instant)
    ensures var after := SubmittedCheckIns(cs, rs, student, now);
      && (WeekCount(rs, student, now) == 0 ==> cs <= after && forall i :: |cs| <= i < |after| ==> !after[i].isSubmitted)
      && (WeekCount(rs, student, now) > 0 ==>
            exists i :: 0 <= i < |after| && after[i].student == student && after[i].date == DateOf(now) && after[i].isSubmitted)
      && |cs| <= |after|
      && (forall i :: 0 <= i < |cs| && (cs[i].student != student || cs[i].date != DateOf(now)) ==> after[i] == cs[i])
      && (UniqueCheckIns(cs) ==> UniqueCheckIns(after))
  {
    var today := DateOf(now);
    var withToday := CheckInsWith(cs, student, today);
    CheckInsWithFacts(cs, student, today);
    var after := SubmittedCheckIns(cs, rs, student, now);
    if WeekCount(rs, student, now) > 0 {
      var i := FindCheckIn(withToday, student, today).value;
      assert after[i].student == student && after[i].date == today && after[i].isSubmitted;
    }
  }

  /**
   * `submit_daily_checkin`: POST only; opens today's check-in, then
   * fails if the student has no record since Monday, else marks it
   * submitted.
   */
  method SubmitDailyCheckIn(store: Store, user: UserId, isPost: bool, now: Instant) returns (reply: Reply<string>)
    requires store.Valid() && 0 <= user < |store.users|
    modifies store`checkins
    ensures store.Valid()
    ensures !isPost ==> reply == Error(None) && store.checkins == old(store.checkins)
    ensures isPost ==> store.checkins == SubmittedCheckIns(old(store.checkins), store.records, user, now)
    ensures isPost ==> reply == if WeekCount(store.records, user, now) == 0 then Error(Some(NothingThisWeek)) else Ok(SyncedToTeacher)
  {
    if !isPost {
      return Error(None);
    }
    var today := DateOf(now);
    var cid := store.GetOrCreateCheckIn(user, today);
    var count := |Filter(store.records, InWeekPred(user, WeekStart(today)))|;
    if count == 0 {
      return Error(Some(NothingThisWeek));
    }
    label CheckedIn:
    store.checkins := store.checkins[cid := store.checkins[cid].(isSubmitted := true)];
    reply := Ok(SyncedToTeacher);
    store.UpdatedCheckInKeepsLinks@CheckedIn(cid);
  }

  /**
   * `toggle_like`: 404 for an unknown check-in; otherwise the user's like
   * is withdrawn if present and added if not, and the reply carries
   * whether the user now likes it and the new like count.
   */
  method ToggleLike(store: Store, user: UserId, checkinId: int) returns (reply: Reply<(bool, nat)>)
    requires store.Valid() && 0 <= user < |store.users|
    modifies store`checkins
    ensures store.Valid()
    ensures !(0 <= checkinId < |old(store.checkins)|) ==> reply == Raised(NotFound) && store.checkins == old(store.checkins)
    ensures 0 <= checkinId < |old(store.checkins)| ==>
      && store.checkins == old(store.checkins)[checkinId := old(store.checkins)[checkinId].(likes := Toggle(old(store.checkins)[checkinId].likes, user))]
      && reply == Ok((user !in old(store.checkins)[checkinId].likes, TotalLikes(store.checkins[checkinId])))
  {
    if !(0 <= checkinId < |store.checkins|) {
      return Raised(NotFound);
    }
    var c := store.checkins[checkinId];
    var liked: bool;
    if user in c.likes {
      c := c.(likes := c.likes - {user});
      liked := false;
    } else {
      c := c.(likes := c.likes + {user});
      liked := true;
    }
    store.checkins := store.checkins[checkinId := c];
    reply := Ok((liked, TotalLikes(c)));
    store.UpdatedCheckInKeepsLinks(checkinId);
  }

  /** The read-record table after `ReadRecord.objects.get_or_create(announcement=a, student=u)`. */
  function ReadsWith(rs: seq<ReadRecord>, a: AnnouncementId, u: UserId): (r: seq<ReadRecord>)
    ensures ReadRecord(a, u) in r
    ensures rs <= r && |r| <= |rs| + 1
  {
    if ReadRecord(a, u) in rs then rs else rs + [ReadRecord(a, u)]
  }

  /** Recording a read keeps one read record per (announcement, student) and records this one exactly once. */
  lemma {:induction false} ReadsWithFacts(rs: seq<ReadRecord>, a: AnnouncementId, u: UserId)
    requires UniqueReads(rs)
    ensures UniqueReads(ReadsWith(rs, a, u))
    ensures exists i :: 0 <= i < |ReadsWith(rs, a, u)| && ReadsWith(rs, a, u)[i] == ReadRecord(a, u)
    ensures forall i, j ::
      (0 <= i < |ReadsWith(rs, a, u)| && 0 <= j < |ReadsWith(rs, a, u)|
       && ReadsWith(rs, a, u)[i] == ReadRecord(a, u) && ReadsWith(rs, a, u)[j] == ReadRecord(a, u)) ==> i == j
    ensures rs <= ReadsWith(rs, a, u) && |ReadsWith(rs, a, u)| <= |rs| + 1
  {
    var after := ReadsWith(rs, a, u);
    if ReadRecord(a, u) !in rs {
      assert after[|rs|] == ReadRecord(a, u);
    }
    forall i, j | 0 <= i < |after| && 0 <= j < |after| && after[i] == ReadRecord(a, u) && after[j] == ReadRecord(a, u)
      ensures i == j
    {
      if i < j {
        assert false;
      } else if j < i {
        assert false;
      }
    }
  }

  /**
   * `announcement_detail`: 404 for an unknown announcement; a non-staff
   * reader gets a read record.
   */
  method AnnouncementDetail(store: Store, user: UserId, a: int) returns (reply: Reply<AnnouncementId>)
    requires store.Valid() && 0 <= user < |store.users|
    modifies store`readRecords
    ensures store.Valid()
    ensures !(0 <= a < |store.announcements|) ==> reply == Raised(NotFound) && store.readRecords == old(store.readRecords)
    ensures 0 <= a < |store.announcements| ==>
      && reply == Ok(a)
      && store.readRecords == if store.users[user].isStaff then old(store.readRecords) else ReadsWith(old(store.readRecords), a, user)
  {
    if !(0 <= a < |store.announcements|) {
      return Raised(NotFound);
    }
    if !store.users[user].isStaff {
      ReadsWithFacts(store.readRecords, a, user);
      store.readRecords := ReadsWith(store.readRecords, a, user);
    }
    reply := Ok(a);
  }

  datatype StudentDashboardView = StudentDashboardView(
    checkinId: nat,
    completed: set<ExerciseId>,
    completedCount: nat,
    totalCount: nat,
    allDone: bool,
    isSubmittedToTeacher: bool)

  /**
   * `student_dashboard`: opens today's check-in and reports the day's
   * progress and whether the week has been submitted.
   */
  method StudentDashboard(store: Store, user: UserId, now: Instant) returns (view: StudentDashboardView)
    requires store.Valid() && 0 <= user < |store.users|
    modifies store`checkins
    ensures store.Valid()
    ensures store.checkins == CheckInsWith(old(store.checkins), user, DateOf(now))
    ensures FindCheckIn(store.checkins, user, DateOf(now)) == Some(view.checkinId)
    ensures view.completed == CompletedOnDay(store.records, user, DateOf(now))
    ensures view.completedCount == |view.completed| && view.totalCount == |store.exercises|
    ensures view.allDone <==> |store.exercises| > 0 && EveryExerciseMatched(store.records, OnDayPred(user, DateOf(now)), store.exercises)
    ensures view.isSubmittedToTeacher <==>
      exists i :: 0 <= i < |store.checkins| && SubmittedSincePred(user, WeekStart(DateOf(now)))(store.checkins[i])
  {
    var today := DateOf(now);
    var startOfWeek := WeekStart(today);
    var cid := store.GetOrCreateCheckIn(user, today);
    var total := |store.exercises|;
    var completed := CompletedOnDay(store.records, user, today);
    var allDone := |completed| >= total && total > 0;
    var submitted := |Filter(store.checkins, SubmittedSincePred(user, startOfWeek))| > 0;
    view := StudentDashboardView(cid, completed, |completed|, total, allDone, submitted);
    AllDoneIffEveryExerciseMatches(store.records, OnDayPred(user, today), store.exercises);
    FilterNonEmpty(store.checkins, SubmittedSincePred(user, startOfWeek));
  }
}
