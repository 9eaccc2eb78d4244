/**
 * The tracker's mutable state and the state-changing bodies of its event
 * handlers: the module-level `state` (absence limit and subjects) and
 * `selectedSubjectId`, updated in place by add/delete subject, add/delete
 * lecture, mark present/absent and apply-limit. Writing to storage is
 * recorded in the ghost log `writes`.
 */
module Tracker {
  import opened JsString
  import opened Attendance

  /** How the add-lecture form submission ended. Only `DuplicateDate`
      raises an alert; the other rejections return silently. */
  datatype LectureOutcome = NoSubjectSelected | DateMissing | DuplicateDate | LectureAdded

  class AttendanceTracker {
    var maxAbsences: int
    var subjects: seq<Subject>
    var selectedSubjectId: Option<Id>
    /** Every state handed to `persistState`, oldest first. */
    ghost var writes: seq<State>

    /** The part of the tracker that `persistState` writes. */
    function Snapshot(): State
      reads this
    {
      State(maxAbsences, subjects)
    }

    /** A subject is selected whenever one exists, and the selected id names one. */
    ghost predicate Valid()
      reads this
    {
      SelectionValid(subjects, selectedSubjectId)
    }

    /** Start-up: `state = loadState()`, then select the first subject. */
    constructor (saved: Saved)
      ensures Valid()
      ensures Snapshot() == LoadState(saved)
      ensures selectedSubjectId == FirstId(subjects)
      ensures writes == []
    {
      var s := LoadState(saved);
      maxAbsences := s.maxAbsences;
      subjects := s.subjects;
      selectedSubjectId := FirstId(s.subjects);
      writes := [];
      FirstIdIsValidSelection(s.subjects);
    }

    /** Position of the subject the detail view shows: `FindSubject` applied
        to the current fields. */
    function SelectedIndex(): (r: Option<nat>)
      reads this
      ensures r.Some? ==> r.value < |subjects|
    {
      FindSubject(subjects, selectedSubjectId)
    }

    /** `calculateStats(subject)`: `CalculateStats` applied to the current
        global limit. */
    function StatsOf(subject: Option<Subject>): (st: Stats)
      reads this
      ensures subject.None? ==> st.remainingAllowance == maxAbsences
      ensures subject.Some? ==> 0 <= st.percentage <= 100 && st.remainingAllowance >= 0
    {
      if subject.Some? then StatsOfSubject(subject.value, maxAbsences); CalculateStats(subject, maxAbsences)
      else CalculateStats(subject, maxAbsences)
    }

    /** `persistState()`. */
    method Persist()
      modifies this`writes
      ensures writes == old(writes) + [Snapshot()]
    {
      writes := writes + [Snapshot()];
    }

    /** Click on a subject card: select it. */
    method SelectSubject(i: nat)
      requires Valid() && i < |subjects|
      modifies this`selectedSubjectId
      ensures Valid()
      ensures selectedSubjectId == Some(subjects[i].id)
    {
      selectedSubjectId := Some(subjects[i].id);
    }

    /** `onAddSubject`: a subject with the trimmed name and code and no
        lectures is appended and selected, unless the trimmed name is empty. */
    method AddSubject(rawName: string, rawCode: string, freshId: Id) returns (added: bool)
      requires Valid()
      modifies this
      ensures Valid()
      ensures added <==> Trim(rawName) != []
      ensures maxAbsences == old(maxAbsences)
      ensures !added ==> subjects == old(subjects) && selectedSubjectId == old(selectedSubjectId)
                         && writes == old(writes)
      ensures added ==> subjects == old(subjects) + [CreateSubject(freshId, Trim(rawName), Trim(rawCode))]
                        && selectedSubjectId == Some(freshId)
                        && writes == old(writes) + [Snapshot()]
      ensures AllDatesUnique(old(subjects)) ==> AllDatesUnique(subjects)
    {
      var name := Trim(rawName);
      var code := Trim(rawCode);
      if name == [] {
        return false;
      }
      var subject := CreateSubject(freshId, name, code);
      AppendSubjectKeepsInvariants(subjects, subject);
      ghost var unique := AllDatesUnique(subjects);
      subjects := subjects + [subject];
      selectedSubjectId := Some(freshId);
      assert unique ==> AllDatesUnique(subjects);
      Persist();
      added := true;
    }

    /** The delete button on a subject card: after confirmation, every
        subject with that id goes, with its lectures; a selection of the
        deleted subject falls back to the first remaining one or to none. */
    method DeleteSubject(id: Id, confirmed: bool)
      requires Valid()
      modifies this
      ensures Valid()
      ensures !confirmed ==> subjects == old(subjects) && selectedSubjectId == old(selectedSubjectId)
                             && maxAbsences == old(maxAbsences) && writes == old(writes)
      ensures confirmed ==> subjects == RemoveSubjects(old(subjects), id)
                            && selectedSubjectId == SelectionAfterDelete(old(selectedSubjectId), id, subjects)
                            && maxAbsences == old(maxAbsences)
                            && writes == old(writes) + [Snapshot()]
      ensures AllDatesUnique(old(subjects)) ==> AllDatesUnique(subjects)
    {
      if !confirmed {
        return;
      }
      DeleteSelectionFallback(subjects, selectedSubjectId, id);
      if AllDatesUnique(subjects) {
        RemoveSubjectsPreservesUniqueDates(subjects, id);
      }
      subjects := RemoveSubjects(subjects, id);
      if selectedSubjectId == Some(id) {
        selectedSubjectId := FirstId(subjects);
      }
      Persist();
    }

    /** `onAddLecture`: a pending lecture with the trimmed topic is appended
        to the selected subject, unless no subject is selected, the date is
        empty, or the subject already has a lecture on that date. */
    method AddLecture(date: string, rawTopic: string, freshId: Id) returns (outcome: LectureOutcome)
      requires Valid()
      modifies this
      ensures Valid()
      ensures var k := FindSubject(old(subjects), old(selectedSubjectId));
        && (outcome == NoSubjectSelected <==> k.None?)
        && (outcome == DateMissing <==> k.Some? && date == [])
        && (outcome == DuplicateDate <==>
              k.Some? && date != [] && LectureDateExists(old(subjects)[k.value].lectures, date))
        && (outcome == LectureAdded ==>
              subjects == old(subjects)[k.value :=
                AppendLecture(old(subjects)[k.value], freshId, date, Trim(rawTopic))])
      ensures outcome != LectureAdded ==> subjects == old(subjects) && writes == old(writes)
      ensures outcome == LectureAdded ==> writes == old(writes) + [Snapshot()]
      ensures maxAbsences == old(maxAbsences) && selectedSubjectId == old(selectedSubjectId)
      ensures AllDatesUnique(old(subjects)) ==> AllDatesUnique(subjects)
    {
      var k := FindSubject(subjects, selectedSubjectId);
      if k.None? {
        return NoSubjectSelected;
      }
      if date == [] {
        return DateMissing;
      }
      var subject := subjects[k.value];
      if LectureDateExists(subject.lectures, date) {
        return DuplicateDate;
      }
      var topic := Trim(rawTopic);
      if AllDatesUnique(subjects) {
        AppendLecturePreservesUniqueDates(subject, freshId, date, topic);
      }
      ghost var before := subjects;
      subjects := subjects[k.value := AppendLecture(subject, freshId, date, topic)];
      assert forall i :: 0 <= i < |subjects| ==> subjects[i].id == before[i].id;
      Persist();
      outcome := LectureAdded;
    }

    /** The present and absent buttons: set the status of lecture `j` of
        subject `i`, whatever it was and whatever the remaining allowance. */
    method MarkLecture(i: nat, j: nat, status: Status)
      requires Valid() && i < |subjects| && j < |subjects[i].lectures| && status != Pending
      modifies this
      ensures Valid()
      ensures subjects == old(subjects)[i := old(subjects)[i].(lectures := SetStatus(old(subjects)[i].lectures, j, status))]
      ensures maxAbsences == old(maxAbsences) && selectedSubjectId == old(selectedSubjectId)
      ensures writes == old(writes) + [Snapshot()]
      ensures AllDatesUnique(old(subjects)) ==> AllDatesUnique(subjects)
    {
      var s := subjects[i];
      if DatesUnique(s.lectures) {
        SetStatusPreservesUniqueDates(s.lectures, j, status);
      }
      ghost var before := subjects;
      subjects := subjects[i := s.(lectures := SetStatus(s.lectures, j, status))];
      assert forall k :: 0 <= k < |subjects| ==> subjects[k].id == before[k].id;
      Persist();
    }

    /** The delete button on a lecture of subject `i`: after confirmation,
        the lectures of that subject with that id are removed. */
    method DeleteLecture(i: nat, lectureId: Id, confirmed: bool)
      requires Valid() && i < |subjects|
      modifies this
      ensures Valid()
      ensures !confirmed ==> subjects == old(subjects) && writes == old(writes)
      ensures confirmed ==> subjects == old(subjects)[i := old(subjects)[i].(lectures := RemoveLectures(old(subjects)[i].lectures, lectureId))]
                            && writes == old(writes) + [Snapshot()]
      ensures maxAbsences == old(maxAbsences) && selectedSubjectId == old(selectedSubjectId)
      ensures AllDatesUnique(old(subjects)) ==> AllDatesUnique(subjects)
    {
      if !confirmed {
        return;
      }
      var s := subjects[i];
      RemoveLecturesSpec(s.lectures, lectureId);
      ghost var before := subjects;
      subjects := subjects[i := s.(lectures := RemoveLectures(s.lectures, lectureId))];
      assert forall k :: 0 <= k < |subjects| ==> subjects[k].id == before[k].id;
      Persist();
    }

    /** `onApplyMaxAbsences`, with the parsed field value passed in (`None`
        for NaN): a negative or missing number is rejected and the limit
        stays; otherwise it becomes the new global limit. */
    method ApplyMaxAbsences(value: Option<int>) returns (accepted: bool)
      requires Valid()
      modifies this
      ensures Valid()
      ensures accepted <==> value.Some? && value.value >= 0
      ensures accepted ==> maxAbsences == value.value && writes == old(writes) + [Snapshot()]
      ensures !accepted ==> maxAbsences == old(maxAbsences) && writes == old(writes)
      ensures subjects == old(subjects) && selectedSubjectId == old(selectedSubjectId)
    {
      if value.None? || value.value < 0 {
        return false;
      }
      maxAbsences := value.value;
      Persist();
      accepted := true;
    }
  }

  /** Adding a lecture twice on the same date: the second is refused and the
      subject keeps exactly one lecture. */
  method DuplicateDateIsRejected(name: string, code: string, date: string, topic: string,
                                 subjectId: Id, lectureId1: Id, lectureId2: Id)
    requires Trim(name) != [] && date != []
  {
    var t := new AttendanceTracker(NothingSaved);
    var added := t.AddSubject(name, code, subjectId);
    assert added;
    AppendSubjectIsFound([], t.subjects[0]);
    assert t.SelectedIndex() == Some(0);
    var first := t.AddLecture(date, topic, lectureId1);
    assert first == LectureAdded;
    assert t.subjects[0].lectures == [Lecture(lectureId1, date, Trim(topic), Pending)];
    var second := t.AddLecture(date, topic, lectureId2);
    assert second == DuplicateDate;
    assert |t.subjects[0].lectures| == 1;
  }
}
