/**
 * Record shapes of the training application: exercises, daily check-ins
 * (the "homework book" of one student for one day), practice records
 * (one recording, or a mark without one), announcements and the record
 * that a student has read one. Every table row is identified by its
 * primary key, which in this model is its position in the table.
 */
module Models {
  import opened Wrappers
  import opened Dates

  type UserId = int
  type ExerciseId = int
  type CheckInId = int
  type AnnouncementId = int

  /** A stored audio file, by its storage name. */
  type Audio = string

  datatype User = User(id: UserId, username: string, isStaff: bool)

  datatype Exercise = Exercise(id: ExerciseId, title: string, order: int)

  datatype CheckIn = CheckIn(
    student: UserId,
    date: Date,
    isSubmitted: bool,
    likes: set<UserId>)

  /** `audio` is `None` for a practice marked complete without a recording. */
  datatype PracticeRecord = PracticeRecord(
    checkin: Option<CheckInId>,
    student: UserId,
    exercise: ExerciseId,
    audio: Option<Audio>,
    submittedAt: Instant)

  datatype Announcement = Announcement(id: AnnouncementId, title: string)

  datatype ReadRecord = ReadRecord(announcement: AnnouncementId, student: UserId)

  /** A fresh check-in: a draft nobody has liked yet. */
  function NewCheckIn(student: UserId, date: Date): CheckIn
  {
    CheckIn(student, date, false, {})
  }

  /** `total_likes()`: how many distinct users like the check-in. */
  function TotalLikes(c: CheckIn): (n: nat)
    ensures n == 0 <==> c.likes == {}
    ensures forall u :: u in c.likes ==> n == |c.likes - {u}| + 1
  {
    |c.likes|
  }

  /** `likes.remove(u)` when `u` already likes, `likes.add(u)` otherwise. */
  function Toggle(likes: set<UserId>, u: UserId): (r: set<UserId>)
    ensures u in r <==> u !in likes
    ensures r - {u} == likes - {u}
  {
    if u in likes then likes - {u} else likes + {u}
  }

  /** Toggling twice restores the set. */
  lemma ToggleTwice(likes: set<UserId>, u: UserId)
    ensures Toggle(Toggle(likes, u), u) == likes
  {
  }

  /** A toggle moves the like count by exactly one, up for a new like and down for a withdrawn one. */
  lemma ToggleCount(c: CheckIn, u: UserId)
    ensures TotalLikes(c.(likes := Toggle(c.likes, u))) == if u in c.likes then TotalLikes(c) - 1 else TotalLikes(c) + 1
  {
  }

  const SubmittedLabel: string := "✅已提交"
  const DraftLabel: string := "📝草稿中"

  /** The status part of a check-in's display string. */
  function StatusLabel(c: CheckIn): (s: string)
    ensures s == SubmittedLabel <==> c.isSubmitted
    ensures s == DraftLabel <==> !c.isSubmitted
  {
    if c.isSubmitted then SubmittedLabel else DraftLabel
  }

  /** Exercise rows are keyed by their position in the table. */
  ghost predicate ExercisesKeyed(catalog: seq<Exercise>)
  {
    forall i :: 0 <= i < |catalog| ==> catalog[i].id == i
  }

  /** `unique_together = ('student', 'date')` on check-ins. */
  ghost predicate UniqueCheckIns(cs: seq<CheckIn>)
  {
    forall i, j :: 0 <= i < j < |cs| ==> cs[i].student != cs[j].student || cs[i].date != cs[j].date
  }

  /** `unique_together = ('announcement', 'student')` on read records. */
  ghost predicate UniqueReads(rs: seq<ReadRecord>)
  {
    forall i, j :: 0 <= i < j < |rs| ==> rs[i] != rs[j]
  }

  /**
   * The weekly upsert discipline: at most one record per (student,
   * exercise) whose submission date is on or after the Monday `monday`.
   */
  ghost predicate WeeklyUnique(rs: seq<PracticeRecord>, monday: Date)
  {
    forall i, j :: 0 <= i < j < |rs| && DateOf(rs[i].submittedAt) >= monday && DateOf(rs[j].submittedAt) >= monday
      ==> rs[i].student != rs[j].student || rs[i].exercise != rs[j].exercise
  }

  /** The mini-program's upsert discipline: at most one record per (check-in, exercise). */
  ghost predicate UniquePerCheckIn(rs: seq<PracticeRecord>)
  {
    forall i, j :: 0 <= i < j < |rs| && rs[i].checkin.Some?
      ==> rs[i].checkin != rs[j].checkin || rs[i].exercise != rs[j].exercise
  }

  /** A uniqueness guarantee for an earlier Monday also holds for every later one. */
  lemma WeeklyUniqueLater(rs: seq<PracticeRecord>, monday: Date, later: Date)
    requires WeeklyUnique(rs, monday) && monday <= later
    ensures WeeklyUnique(rs, later)
  {
  }

  /** Exceptions that a handler catches and turns into an error reply, or lets through as a 404. */
  datatype Exception =
    | ExerciseDoesNotExist    // `Exercise.DoesNotExist`, reported with its text
    | MultipleRecordsReturned // `MultipleObjectsReturned` from `get_or_create`
    | NotFound                // `Http404` from `get_object_or_404`

  /**
   * A handler's reply: `{"status": "success", ...}` carrying `value`;
   * `{"status": "error"}` with or without a `msg`; an exception raised
   * while handling, which the handler's `except Exception as e` turns into
   * `{"status": "error", "msg": str(e)}` (a `NotFound` becomes a 404
   * page instead); or a redirect to the named page.
   */
  datatype Reply<+T> = Ok(value: T) | Error(msg: Option<string>) | Raised(ex: Exception) | Redirect(to: string)

  /** Staff-only pages send everybody else back to their own dashboard. */
  const StudentDashboardPage: string := "student_dashboard"
}
