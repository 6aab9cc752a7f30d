/**
 * The database the handlers share. The catalogs (users, exercises,
 * announcements) are fixed for the handlers modelled here; the check-in,
 * practice-record and read-record tables grow and are updated in place.
 * A row's primary key is its position in its table.
 */
module Database {
  import opened Wrappers
  import opened Dates
  import opened Seqs
  import opened Models

  function CheckInPred(student: UserId, date: Date): CheckIn -> bool
  {
    (c: CheckIn) => c.student == student && c.date == date
  }

  /** `DailyCheckIn.objects.filter(student=..., date=...).first()`. */
  function FindCheckIn(cs: seq<CheckIn>, student: UserId, date: Date): (r: Option<nat>)
    ensures r.Some? ==> r.value < |cs| && cs[r.value].student == student && cs[r.value].date == date
    ensures r.None? <==> forall j :: 0 <= j < |cs| ==> cs[j].student != student || cs[j].date != date
  {
    FirstIndex(cs, CheckInPred(student, date))
  }

  /** With `unique_together = ('student', 'date')`, the lookup finds the one matching row. */
  lemma {:induction false} FindCheckInUnique(cs: seq<CheckIn>, student: UserId, date: Date, i: nat)
    requires UniqueCheckIns(cs) && i < |cs| && cs[i].student == student && cs[i].date == date
    ensures FindCheckIn(cs, student, date) == Some(i)
  {
    assert CheckInPred(student, date)(cs[i]);
    var f := FindCheckIn(cs, student, date).value;
    if f < i {
      assert false;
    }
  }

  /** The check-in table after `DailyCheckIn.objects.get_or_create(student=..., date=...)`. */
  function CheckInsWith(cs: seq<CheckIn>, student: UserId, date: Date): (r: seq<CheckIn>)
    ensures cs <= r && |r| <= |cs| + 1
    ensures exists i :: 0 <= i < |r| && r[i].student == student && r[i].date == date
  {
    if FindCheckIn(cs, student, date).Some? then cs
    else
      var r := cs + [NewCheckIn(student, date)];
      assert r[|cs|].student == student && r[|cs|].date == date;
      r
  }

  /**
   * Get-or-create leaves exactly one check-in for the pair, keeps every
   * existing row and keeps the table free of duplicate pairs.
   */
  lemma {:induction false} CheckInsWithFacts(cs: seq<CheckIn>, student: UserId, date: Date)
    ensures FindCheckIn(CheckInsWith(cs, student, date), student, date).Some?
    ensures cs <= CheckInsWith(cs, student, date)
    ensures |CheckInsWith(cs, student, date)| <= |cs| + 1
    ensures UniqueCheckIns(cs) ==> UniqueCheckIns(CheckInsWith(cs, student, date))
    ensures CheckInsWith(CheckInsWith(cs, student, date), student, date) == CheckInsWith(cs, student, date)
    ensures FindCheckIn(cs, student, date).Some? ==> CheckInsWith(cs, student, date) == cs
    ensures FindCheckIn(cs, student, date).None? ==>
      |CheckInsWith(cs, student, date)| == |cs| + 1
      && !CheckInsWith(cs, student, date)[|cs|].isSubmitted && CheckInsWith(cs, student, date)[|cs|].likes == {}
  {
    var cs' := CheckInsWith(cs, student, date);
    if FindCheckIn(cs, student, date).None? {
      assert CheckInPred(student, date)(cs'[|cs|]);
    }
  }

  class Store {
    const users: seq<User>
    const exercises: seq<Exercise>
    const announcements: seq<Announcement>
    var checkins: seq<CheckIn>
    var records: seq<PracticeRecord>
    var readRecords: seq<ReadRecord>

    /** The foreign keys of a practice record point at existing rows, and its check-in is its student's. */
    ghost predicate RecordLinked(r: PracticeRecord)
      reads this
    {
      && 0 <= r.student < |users|
      && 0 <= r.exercise < |exercises|
      && (r.checkin.Some? ==> 0 <= r.checkin.value < |checkins| && checkins[r.checkin.value].student == r.student)
    }

    ghost predicate CheckInLinked(c: CheckIn)
    {
      0 <= c.student < |users| && forall u :: u in c.likes ==> 0 <= u < |users|
    }

    ghost predicate Valid()
      reads this
      ensures Valid() ==> forall i, j ::
        (0 <= i < |checkins| && 0 <= j < |checkins| && checkins[i].student == checkins[j].student && checkins[i].date == checkins[j].date)
        ==> i == j
      ensures Valid() ==> forall i, j :: 0 <= i < |readRecords| && 0 <= j < |readRecords| && readRecords[i] == readRecords[j] ==> i == j
    {
      && (forall i :: 0 <= i < |users| ==> users[i].id == i)
      && ExercisesKeyed(exercises)
      && (forall i :: 0 <= i < |announcements| ==> announcements[i].id == i)
      && UniqueCheckIns(checkins)
      && UniqueReads(readRecords)
      && (forall i :: 0 <= i < |checkins| ==> CheckInLinked(checkins[i]))
      && (forall i :: 0 <= i < |records| ==> RecordLinked(records[i]))
      && (forall i :: 0 <= i < |readRecords| ==>
            0 <= readRecords[i].announcement < |announcements| && 0 <= readRecords[i].student < |users|)
    }

    constructor (users: seq<User>, exercises: seq<Exercise>, announcements: seq<Announcement>)
      requires forall i :: 0 <= i < |users| ==> users[i].id == i
      requires ExercisesKeyed(exercises)
      requires forall i :: 0 <= i < |announcements| ==> announcements[i].id == i
      ensures Valid()
      ensures this.users == users && this.exercises == exercises && this.announcements == announcements
      ensures checkins == [] && records == [] && readRecords == []
    {
      this.users := users;
      this.exercises := exercises;
      this.announcements := announcements;
      checkins := [];
      records := [];
      readRecords := [];
    }

    /** Appending a check-in keeps every foreign key of the other tables valid. */
    twostate lemma GrownCheckInsKeepLinks()
      requires old(Valid()) && old(checkins) <= checkins
      requires records == old(records) && readRecords == old(readRecords)
      requires UniqueCheckIns(checkins)
      requires forall i :: |old(checkins)| <= i < |checkins| ==> CheckInLinked(checkins[i])
      ensures Valid()
    {
      forall i | 0 <= i < |records| ensures RecordLinked(records[i]) {
        assert old(RecordLinked(records[i]));
        if records[i].checkin.Some? {
          assert checkins[records[i].checkin.value] == old(checkins)[records[i].checkin.value];
        }
      }
    }

    /** Changing the flags or likes of one check-in keeps every key and foreign key valid. */
    twostate lemma UpdatedCheckInKeepsLinks(c: nat)
      requires old(Valid()) && c < |old(checkins)| && |checkins| == |old(checkins)|
      requires forall i :: 0 <= i < |checkins| && i != c ==> checkins[i] == old(checkins)[i]
      requires checkins[c].student == old(checkins)[c].student && checkins[c].date == old(checkins)[c].date
      requires CheckInLinked(checkins[c])
      requires records == old(records) && readRecords == old(readRecords)
      ensures Valid()
    {
      forall i | 0 <= i < |records| ensures RecordLinked(records[i]) {
        assert old(RecordLinked(records[i]));
      }
      forall i, j | 0 <= i < j < |checkins|
        ensures checkins[i].student != checkins[j].student || checkins[i].date != checkins[j].date
      {
        assert checkins[i].student == old(checkins)[i].student && checkins[i].date == old(checkins)[i].date;
        assert checkins[j].student == old(checkins)[j].student && checkins[j].date == old(checkins)[j].date;
      }
    }

    /**
     * `DailyCheckIn.objects.get_or_create(student=..., date=...)`: the
     * existing check-in of the pair, or a new draft appended to the table.
     */
    method GetOrCreateCheckIn(student: UserId, date: Date) returns (cid: nat)
      requires Valid() && 0 <= student < |users|
      modifies this`checkins
      ensures Valid()
      ensures checkins == CheckInsWith(old(checkins), student, date)
      ensures FindCheckIn(checkins, student, date) == Some(cid)
      ensures cid < |checkins| && checkins[cid].student == student && checkins[cid].date == date
    {
      CheckInsWithFacts(checkins, student, date);
      match FindCheckIn(checkins, student, date)
      case Some(i) =>
        cid := i;
      case None =>
        cid := |checkins|;
        checkins := checkins + [NewCheckIn(student, date)];
        GrownCheckInsKeepLinks();
        FindCheckInUnique(checkins, student, date, cid);
    }
  }
}
