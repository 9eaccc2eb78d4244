/**
 * The attendance tracker's data model and its pure computations: the shape
 * of subjects and lectures, the normalisation applied to the saved state on
 * load, the statistics shown for a subject, the duplicate-date test and the
 * lecture ordering used for display, together with the value-level updates
 * that the event handlers in tracker.dfy perform.
 */
module Attendance {
  import opened JsString

  datatype Option<+T> = None | Some(value: T)

  /** Identifiers are opaque strings handed out by the id generator. */
  type Id = string

  datatype Status = Pending | Present | Absent

  datatype Lecture = Lecture(id: Id, date: string, topic: string, status: Status)

  datatype Subject = Subject(id: Id, name: string, code: string, lectures: seq<Lecture>)

  /** The persisted part of the application: the global absence limit and the
      subjects in creation order. The limit is an `int` because nothing on the
      load path checks the stored value. */
  datatype State = State(maxAbsences: int, subjects: seq<Subject>)

  const DefaultMaxAbsences: int := 3

  const DefaultState: State := State(DefaultMaxAbsences, [])

  // ---------------------------------------------------------------------
  // Loading and persisting
  // ---------------------------------------------------------------------

  /** What the `subjects` property of the decoded object turned out to be. */
  datatype SubjectsField = Missing | NotAnArray | Array(items: seq<Subject>)

  /** The outcome of reading the storage slot and decoding it: no (or an
      empty) saved string; a string that does not parse or that decodes to
      `null` (reading `maxAbsences` of `null` throws inside the same `try`,
      so both end in the default state); or a decoded value whose
      `maxAbsences` is `None` when it is null or absent. */
  datatype Saved =
    | NothingSaved
    | Unparseable
    | Parsed(maxAbsences: Option<int>, subjects: SubjectsField)

  /** `loadState`: normalise whatever was stored into a state. */
  function LoadState(saved: Saved): (s: State)
    ensures !saved.Parsed? ==> s == DefaultState
  {
    match saved
    case Parsed(m, subs) =>
      State(if m.Some? then m.value else DefaultMaxAbsences,
            if subs.Array? then subs.items else [])
    case _ => DefaultState
  }

  /** What decoding the string written by `persistState` yields. */
  function Persisted(s: State): Saved
  {
    Parsed(Some(s.maxAbsences), Array(s.subjects))
  }

  /** With nothing usable stored, the defaults apply to each field separately. */
  lemma LoadDefaults(saved: Saved)
    ensures saved.NothingSaved? || saved.Unparseable? ==>
              LoadState(saved) == State(3, [])
    ensures saved.Parsed? && saved.maxAbsences.None? ==> LoadState(saved).maxAbsences == 3
    ensures saved.Parsed? && !saved.subjects.Array? ==> LoadState(saved).subjects == []
  {
  }

  /** A stored limit is kept as it is, zero included, and a stored array of
      subjects is kept as it is. */
  lemma LoadKeepsStoredFields(saved: Saved)
    requires saved.Parsed?
    ensures saved.maxAbsences.Some? ==> LoadState(saved).maxAbsences == saved.maxAbsences.value
    ensures saved.subjects.Array? ==> LoadState(saved).subjects == saved.subjects.items
  {
  }

  /** Reloading what was persisted gives back the same state. */
  lemma LoadPersistRoundTrip(s: State)
    ensures LoadState(Persisted(s)) == s
  {
  }

  /** Normalisation is idempotent: persisting a loaded state and loading it
      again changes nothing. */
  lemma LoadIdempotent(saved: Saved)
    ensures LoadState(Persisted(LoadState(saved))) == LoadState(saved)
  {
    LoadPersistRoundTrip(LoadState(saved));
  }

  // ---------------------------------------------------------------------
  // Filtering, counting and searching
  // ---------------------------------------------------------------------

  /** `Array.prototype.filter`: the elements of `s` that `keep` accepts, in order. */
  function Filter<T(!new)>(s: seq<T>, keep: T -> bool): (r: seq<T>)
    ensures |r| <= |s|
    ensures forall x :: x in r <==> x in s && keep(x)
  {
    if s == [] then []
    else
      var last := s[|s| - 1];
      assert s == s[..|s| - 1] + [last];
      Filter(s[..|s| - 1], keep) + (if keep(last) then [last] else [])
  }

  /** Filtering works piece by piece, so the kept elements stay in their
      original order. */
  lemma {:induction false} FilterAppend<T(!new)>(a: seq<T>, b: seq<T>, keep: T -> bool)
    ensures Filter(a + b, keep) == Filter(a, keep) + Filter(b, keep)
  {
    if b != [] {
      var ab := a + b;
      assert ab[..|ab| - 1] == a + b[..|b| - 1];
      assert ab[|ab| - 1] == b[|b| - 1];
      FilterAppend(a, b[..|b| - 1], keep);
      assert Filter(ab, keep) == Filter(a + b[..|b| - 1], keep)
        + (if keep(b[|b| - 1]) then [b[|b| - 1]] else []);
      assert Filter(b, keep) == Filter(b[..|b| - 1], keep)
        + (if keep(b[|b| - 1]) then [b[|b| - 1]] else []);
    } else {
      assert a + b == a;
    }
  }

  /** A filter that rejects nothing returns its input. */
  lemma {:induction false} FilterKeepsAll<T(!new)>(s: seq<T>, keep: T -> bool)
    requires forall x :: x in s ==> keep(x)
    ensures Filter(s, keep) == s
  {
    if s != [] {
      FilterKeepsAll(s[..|s| - 1], keep);
      assert s == s[..|s| - 1] + [s[|s| - 1]];
    }
  }

  function HasStatus(st: Status): Lecture -> bool
  {
    (l: Lecture) => l.status == st
  }

  /** `lectures.filter(l => l.status === st).length`. */
  function CountStatus(lectures: seq<Lecture>, st: Status): (n: nat)
    ensures n <= |lectures|
  {
    |Filter(lectures, HasStatus(st))|
  }

  /** One step of the count, peeling off the last lecture. */
  lemma CountStatusSnoc(lectures: seq<Lecture>, l: Lecture, st: Status)
    ensures CountStatus(lectures + [l], st) ==
            CountStatus(lectures, st) + (if l.status == st then 1 else 0)
  {
    assert (lectures + [l])[..|lectures|] == lectures;
  }

  /** Every lecture has exactly one of the three statuses. */
  lemma {:induction false} CountsPartition(lectures: seq<Lecture>)
    ensures CountStatus(lectures, Pending) + CountStatus(lectures, Present)
              + CountStatus(lectures, Absent) == |lectures|
  {
    if lectures != [] {
      var init, last := lectures[..|lectures| - 1], lectures[|lectures| - 1];
      assert lectures == init + [last];
      CountsPartition(init);
      CountStatusSnoc(init, last, Pending);
      CountStatusSnoc(init, last, Present);
      CountStatusSnoc(init, last, Absent);
    }
  }

  /** `lectureDateExists`: some lecture in the list has that date. */
  function LectureDateExists(lectures: seq<Lecture>, date: string): (b: bool)
    ensures b <==> exists i :: 0 <= i < |lectures| && lectures[i].date == date
  {
    if lectures == [] then false
    else if lectures[0].date == date then true
    else
      var b := LectureDateExists(lectures[1..], date);
      assert forall i :: 1 <= i < |lectures| ==> lectures[i] == lectures[1..][i - 1];
      b
  }

  /** The invariant the duplicate-date check protects: one lecture per date. */
  predicate DatesUnique(lectures: seq<Lecture>)
  {
    forall i, j :: 0 <= i < j < |lectures| ==> lectures[i].date != lectures[j].date
  }

  /** One lecture per date in every subject. */
  predicate AllDatesUnique(subjects: seq<Subject>)
  {
    forall i :: 0 <= i < |subjects| ==> DatesUnique(subjects[i].lectures)
  }

  /** `subjects.find(s => s.id === id)`: the index of the first subject with
      that id; a null id matches none. */
  function FindSubject(subjects: seq<Subject>, id: Option<Id>): (r: Option<nat>)
    ensures r.Some? ==> r.value < |subjects| && id == Some(subjects[r.value].id)
    ensures r.Some? ==> forall k :: 0 <= k < r.value ==> subjects[k].id != id.value
    ensures r.None? ==> id.None? || forall k :: 0 <= k < |subjects| ==> subjects[k].id != id.value
  {
    if id.None? || subjects == [] then None
    else if subjects[0].id == id.value then Some(0)
    else
      var rest := FindSubject(subjects[1..], id);
      assert forall k :: 1 <= k < |subjects| ==> subjects[k] == subjects[1..][k - 1];
      if rest.Some? then Some(rest.value + 1) else None
  }

  // ---------------------------------------------------------------------
  // Statistics
  // ---------------------------------------------------------------------

  datatype Stats = Stats(total: nat, attended: nat, percentage: nat, remainingAllowance: int)

  /** `Math.round(attended / total * 100)` in exact arithmetic: the nearest
      integer to 100 * attended / total, halves rounded up; 0 for no lectures. */
  function RoundedPercentage(attended: nat, total: nat): (p: nat)
    requires attended <= total
    ensures total == 0 ==> p == 0
    ensures total > 0 ==> 2 * total * p <= 200 * attended + total < 2 * total * (p + 1)
    ensures p <= 100
  {
    if total == 0 then 0
    else
      var p := (200 * attended + total) / (2 * total);
      assert 200 * attended + total < 2 * total * 101;
      p
  }

  function Max(a: int, b: int): int
  {
    if a >= b then a else b
  }

  /** `calculateStats`, with the global limit passed in. */
  function CalculateStats(subject: Option<Subject>, maxAbsences: int): Stats
  {
    match subject
    case None => Stats(0, 0, 0, maxAbsences)
    case Some(s) =>
      var total := |s.lectures|;
      var attended := CountStatus(s.lectures, Present);
      var absent := CountStatus(s.lectures, Absent);
      Stats(total, attended, RoundedPercentage(attended, total), Max(maxAbsences - absent, 0))
  }

  /** For a subject: attended and absent lectures never exceed the total, the
      percentage lies in 0..100 (0 with no lectures, 100 when every lecture was
      attended) and the remaining allowance is the limit minus the absences,
      floored at zero. */
  lemma StatsOfSubject(s: Subject, maxAbsences: int)
    ensures var st := CalculateStats(Some(s), maxAbsences);
      && st.total == |s.lectures|
      && st.attended == CountStatus(s.lectures, Present)
      && st.attended + CountStatus(s.lectures, Absent) <= st.total
      && 0 <= st.percentage <= 100
      && (st.total == 0 ==> st.percentage == 0)
      && (st.total > 0 && st.attended == st.total ==> st.percentage == 100)
      && (st.attended == 0 ==> st.percentage == 0)
      && st.remainingAllowance >= 0
      && st.remainingAllowance == Max(maxAbsences - CountStatus(s.lectures, Absent), 0)
  {
    CountsPartition(s.lectures);
    PercentageExtremes(CountStatus(s.lectures, Present), |s.lectures|);
  }

  /** Nobody attended gives 0 percent; everybody attended gives 100 percent. */
  lemma PercentageExtremes(attended: nat, total: nat)
    requires attended <= total
    ensures attended == 0 ==> RoundedPercentage(attended, total) == 0
    ensures 0 < total && attended == total ==> RoundedPercentage(attended, total) == 100
  {
    if total > 0 {
      var n, d := 200 * attended + total, 2 * total;
      if attended == 0 {
        DivideExactly(n, d, 0, total);
      } else if attended == total {
        DivideExactly(n, d, 100, total);
      }
    }
  }

  lemma DivideExactly(n: int, d: int, q: int, rem: int)
    requires 0 <= rem < d && n == q * d + rem
    ensures n / d == q
  {
    var q', r' := n / d, n % d;
    assert (q - q') * d == r' - rem;
    if q' < q {
      AtLeastOnce(q - q', d);
    } else if q < q' {
      AtLeastOnce(q' - q, d);
    }
  }

  lemma AtLeastOnce(k: int, d: int)
    requires k >= 1 && d > 0
    ensures k * d >= d
  {
  }

  /** With no subject everything is zero and the allowance is the limit itself. */
  lemma StatsOfNoSubject(maxAbsences: int)
    ensures CalculateStats(None, maxAbsences) == Stats(0, 0, 0, maxAbsences)
    ensures CalculateStats(None, maxAbsences).remainingAllowance >= 0 <==> maxAbsences >= 0
  {
  }

  // ---------------------------------------------------------------------
  // Value-level updates performed by the handlers
  // ---------------------------------------------------------------------

  /** `createSubject`, with the generated id passed in. */
  function CreateSubject(id: Id, name: string, code: string): Subject
  {
    Subject(id, name, code, [])
  }

  /** `createLecture`, with the generated id passed in. */
  function CreateLecture(id: Id, date: string, topic: string): Lecture
  {
    Lecture(id, date, topic, Pending)
  }

  /** `subject.lectures.push(createLecture(date, topic))`. */
  function AppendLecture(s: Subject, id: Id, date: string, topic: string): Subject
  {
    s.(lectures := s.lectures + [CreateLecture(id, date, topic)])
  }

  /** Appending a lecture whose date is not yet used keeps one lecture per date. */
  lemma AppendLecturePreservesUniqueDates(s: Subject, id: Id, date: string, topic: string)
    requires DatesUnique(s.lectures)
    requires !LectureDateExists(s.lectures, date)
    ensures DatesUnique(AppendLecture(s, id, date, topic).lectures)
  {
  }

  /** A new lecture is pending, so it leaves the attended and absent counts as
      they were and adds one to the total. */
  lemma AppendLectureStats(s: Subject, id: Id, date: string, topic: string)
    ensures var l := AppendLecture(s, id, date, topic).lectures;
      && |l| == |s.lectures| + 1
      && CountStatus(l, Present) == CountStatus(s.lectures, Present)
      && CountStatus(l, Absent) == CountStatus(s.lectures, Absent)
  {
    CountStatusSnoc(s.lectures, CreateLecture(id, date, topic), Present);
    CountStatusSnoc(s.lectures, CreateLecture(id, date, topic), Absent);
  }

  /** `lecture.status = st` for the lecture at position `j`. */
  function SetStatus(lectures: seq<Lecture>, j: nat, st: Status): (r: seq<Lecture>)
    requires j < |lectures|
    ensures |r| == |lectures|
    ensures r[j].status == st
    ensures r[j].id == lectures[j].id && r[j].date == lectures[j].date && r[j].topic == lectures[j].topic
    ensures forall k :: 0 <= k < |r| && k != j ==> r[k] == lectures[k]
  {
    lectures[j := lectures[j].(status := st)]
  }

  /** Marking twice is the same as marking once. */
  lemma SetStatusIdempotent(lectures: seq<Lecture>, j: nat, st: Status)
    requires j < |lectures|
    ensures SetStatus(SetStatus(lectures, j, st), j, st) == SetStatus(lectures, j, st)
  {
  }

  /** Marking a lecture that already has the status changes nothing. */
  lemma SetStatusUnchanged(lectures: seq<Lecture>, j: nat, st: Status)
    requires j < |lectures| && lectures[j].status == st
    ensures SetStatus(lectures, j, st) == lectures
  {
  }

  /** Marking never touches a date, so it keeps one lecture per date. */
  lemma SetStatusPreservesUniqueDates(lectures: seq<Lecture>, j: nat, st: Status)
    requires j < |lectures| && DatesUnique(lectures)
    ensures DatesUnique(SetStatus(lectures, j, st))
  {
  }

  /** How marking changes a status count: the old status loses one lecture
      and the new status gains one. */
  lemma {:induction false} SetStatusCount(lectures: seq<Lecture>, j: nat, st: Status, counted: Status)
    requires j < |lectures|
    ensures CountStatus(SetStatus(lectures, j, st), counted)
              == CountStatus(lectures, counted)
                 - (if lectures[j].status == counted then 1 else 0)
                 + (if st == counted then 1 else 0)
  {
    var n := |lectures|;
    var init, last := lectures[..n - 1], lectures[n - 1];
    var r := SetStatus(lectures, j, st);
    assert lectures == init + [last];
    if j == n - 1 {
      assert r == init + [last.(status := st)];
      CountStatusSnoc(init, last, counted);
      CountStatusSnoc(init, last.(status := st), counted);
    } else {
      SetStatusCount(init, j, st, counted);
      assert r == SetStatus(init, j, st) + [last];
      CountStatusSnoc(init, last, counted);
      CountStatusSnoc(SetStatus(init, j, st), last, counted);
    }
  }

  /** Marking a lecture present never lowers the attended count, the
      percentage or the remaining allowance. */
  lemma MarkPresentNeverHurts(s: Subject, j: nat, maxAbsences: int)
    requires j < |s.lectures|
    ensures var before := CalculateStats(Some(s), maxAbsences);
      var after := CalculateStats(Some(s.(lectures := SetStatus(s.lectures, j, Present))), maxAbsences);
      && after.total == before.total
      && after.attended >= before.attended
      && after.percentage >= before.percentage
      && after.remainingAllowance >= before.remainingAllowance
  {
    var t := s.(lectures := SetStatus(s.lectures, j, Present));
    SetStatusCount(s.lectures, j, Present, Present);
    SetStatusCount(s.lectures, j, Present, Absent);
    StatsOfSubject(s, maxAbsences);
    StatsOfSubject(t, maxAbsences);
    PercentageMonotonic(CountStatus(s.lectures, Present), CountStatus(t.lectures, Present), |s.lectures|);
  }

  /** Marking a lecture absent that was not absent uses up one unit of the
      remaining allowance, unless none was left. Marking is not refused when
      the allowance is already zero. */
  lemma MarkAbsentUsesAllowance(s: Subject, j: nat, maxAbsences: int)
    requires j < |s.lectures| && s.lectures[j].status != Absent
    ensures var before := CalculateStats(Some(s), maxAbsences);
      var after := CalculateStats(Some(s.(lectures := SetStatus(s.lectures, j, Absent))), maxAbsences);
      after.remainingAllowance == Max(before.remainingAllowance - 1, 0)
  {
    SetStatusCount(s.lectures, j, Absent, Absent);
  }

  lemma PercentageMonotonic(a: nat, b: nat, total: nat)
    requires a <= b <= total
    ensures RoundedPercentage(a, total) <= RoundedPercentage(b, total)
  {
    if total > 0 {
      DivMonotonic(200 * a + total, 200 * b + total, 2 * total);
    }
  }

  lemma DivMonotonic(n1: int, n2: int, d: int)
    requires 0 <= n1 <= n2 && d > 0
    ensures n1 / d <= n2 / d
  {
    var q1, q2 := n1 / d, n2 / d;
    assert q1 * d <= n1;
    assert n2 < (q2 + 1) * d;
    MulCancel(q1, q2 + 1, d);
  }

  lemma MulCancel(a: int, b: int, d: int)
    requires d > 0 && a * d < b * d
    ensures a < b
  {
  }

  function KeepsLectureOtherThan(id: Id): Lecture -> bool
  {
    (l: Lecture) => l.id != id
  }

  /** `subject.lectures.filter(l => l.id !== id)`. */
  function RemoveLectures(lectures: seq<Lecture>, id: Id): seq<Lecture>
  {
    Filter(lectures, KeepsLectureOtherThan(id))
  }

  /** Deleting a lecture removes exactly the lectures with that id, keeps the
      others in order, and keeps one lecture per date. */
  lemma RemoveLecturesSpec(lectures: seq<Lecture>, id: Id)
    ensures forall l :: l in RemoveLectures(lectures, id) <==> l in lectures && l.id != id
    ensures (forall l :: l in lectures ==> l.id != id) ==> RemoveLectures(lectures, id) == lectures
    ensures DatesUnique(lectures) ==> DatesUnique(RemoveLectures(lectures, id))
  {
    if forall l :: l in lectures ==> l.id != id {
      FilterKeepsAll(lectures, KeepsLectureOtherThan(id));
    }
    if DatesUnique(lectures) {
      FilterPreservesUniqueDates(lectures, KeepsLectureOtherThan(id));
    }
  }

  lemma {:induction false} FilterPreservesUniqueDates(lectures: seq<Lecture>, keep: Lecture -> bool)
    requires DatesUnique(lectures)
    ensures DatesUnique(Filter(lectures, keep))
  {
    if lectures != [] {
      var init, last := lectures[..|lectures| - 1], lectures[|lectures| - 1];
      assert lectures == init + [last];
      FilterPreservesUniqueDates(init, keep);
      var f := Filter(init, keep);
      forall l | l in f ensures l.date != last.date {
        var i :| 0 <= i < |init| && init[i] == l;
      }
    }
  }

  function KeepsSubjectOtherThan(id: Id): Subject -> bool
  {
    (s: Subject) => s.id != id
  }

  /** `state.subjects.filter(s => s.id !== id)`. */
  function RemoveSubjects(subjects: seq<Subject>, id: Id): seq<Subject>
  {
    Filter(subjects, KeepsSubjectOtherThan(id))
  }

  /** Deleting a subject removes exactly the subjects with that id (their
      lectures with them) and leaves every other subject as it was; an id no
      subject has changes nothing. */
  lemma RemoveSubjectsSpec(subjects: seq<Subject>, id: Id)
    ensures forall s :: s in RemoveSubjects(subjects, id) <==> s in subjects && s.id != id
    ensures (forall s :: s in subjects ==> s.id != id) ==> RemoveSubjects(subjects, id) == subjects
  {
    if forall s :: s in subjects ==> s.id != id {
      FilterKeepsAll(subjects, KeepsSubjectOtherThan(id));
    }
  }

  /** Deleting subjects keeps one lecture per date in every survivor. */
  lemma RemoveSubjectsPreservesUniqueDates(subjects: seq<Subject>, id: Id)
    requires AllDatesUnique(subjects)
    ensures AllDatesUnique(RemoveSubjects(subjects, id))
  {
    var r := RemoveSubjects(subjects, id);
    forall i | 0 <= i < |r| ensures DatesUnique(r[i].lectures) {
      assert r[i] in subjects;
    }
  }

  /** Appending a subject without lectures and selecting it keeps a valid
      selection and one lecture per date. */
  lemma AppendSubjectKeepsInvariants(subjects: seq<Subject>, s: Subject)
    requires s.lectures == []
    ensures SelectionValid(subjects + [s], Some(s.id))
    ensures AllDatesUnique(subjects) ==> AllDatesUnique(subjects + [s])
  {
    var all := subjects + [s];
    assert all[|subjects|] == s;
    assert forall k :: 0 <= k < |subjects| ==> all[k] == subjects[k];
  }

  /** Appending a subject with a fresh id makes it the one `find` returns
      for that id. */
  lemma AppendSubjectIsFound(subjects: seq<Subject>, s: Subject)
    requires forall k :: 0 <= k < |subjects| ==> subjects[k].id != s.id
    ensures FindSubject(subjects + [s], Some(s.id)) == Some(|subjects|)
  {
    var all := subjects + [s];
    assert all[|subjects|].id == s.id;
    assert forall k :: 0 <= k < |subjects| ==> all[k] == subjects[k];
  }

  /** The survivors keep their relative order: deleting from a concatenation
      is deleting from each part. */
  lemma RemoveSubjectsKeepsOrder(a: seq<Subject>, b: seq<Subject>, id: Id)
    ensures RemoveSubjects(a + b, id) == RemoveSubjects(a, id) + RemoveSubjects(b, id)
  {
    FilterAppend(a, b, KeepsSubjectOtherThan(id));
  }

  // ---------------------------------------------------------------------
  // Selection
  // ---------------------------------------------------------------------

  /** `subjects[0]?.id ?? null`. */
  function FirstId(subjects: seq<Subject>): Option<Id>
  {
    if subjects == [] then None else Some(subjects[0].id)
  }

  /** The selection names an existing subject, and is empty only when there
      are no subjects. */
  predicate SelectionValid(subjects: seq<Subject>, selected: Option<Id>)
  {
    match selected
    case None => subjects == []
    case Some(id) => exists i :: 0 <= i < |subjects| && subjects[i].id == id
  }

  /** The selection after deleting the subjects with id `deleted`. */
  function SelectionAfterDelete(selected: Option<Id>, deleted: Id, remaining: seq<Subject>): Option<Id>
  {
    if selected == Some(deleted) then FirstId(remaining) else selected
  }

  /** Deleting the selected subject moves the selection to the first
      remaining subject, or to none when none remain; deleting another leaves
      the selection alone. Either way a valid selection stays valid. */
  lemma DeleteSelectionFallback(subjects: seq<Subject>, selected: Option<Id>, id: Id)
    requires SelectionValid(subjects, selected)
    ensures var remaining := RemoveSubjects(subjects, id);
      var next := SelectionAfterDelete(selected, id, remaining);
      && (selected == Some(id) && remaining == [] ==> next.None?)
      && (selected == Some(id) && remaining != [] ==> next == Some(remaining[0].id))
      && (selected != Some(id) ==> next == selected)
      && SelectionValid(remaining, next)
  {
    var remaining := RemoveSubjects(subjects, id);
    if selected.Some? && selected != Some(id) {
      var i :| 0 <= i < |subjects| && subjects[i].id == selected.value;
      assert subjects[i] in remaining;
    } else if selected.Some? && remaining != [] {
      assert remaining[0] in remaining;
    }
  }

  /** The first subject is a valid initial selection. */
  lemma FirstIdIsValidSelection(subjects: seq<Subject>)
    ensures SelectionValid(subjects, FirstId(subjects))
  {
    if subjects != [] {
      assert subjects[0].id == FirstId(subjects).value;
    }
  }

  // ---------------------------------------------------------------------
  // Display order
  // ---------------------------------------------------------------------

  /** Newest first, by the timestamp `when` that `new Date(date)` gives. */
  predicate NewestFirst(lectures: seq<Lecture>, when: string -> int)
  {
    forall i, j :: 0 <= i < j < |lectures| ==> when(lectures[i].date) >= when(lectures[j].date)
  }

  function InsertByDate(l: Lecture, sorted: seq<Lecture>, when: string -> int): (r: seq<Lecture>)
    requires NewestFirst(sorted, when)
    ensures NewestFirst(r, when)
    ensures multiset(r) == multiset(sorted) + multiset{l}
    ensures |r| == |sorted| + 1 && (r[0] == l || (sorted != [] && r[0] == sorted[0]))
  {
    if sorted == [] || when(l.date) >= when(sorted[0].date) then
      [l] + sorted
    else
      var head, rest := sorted[0], InsertByDate(l, sorted[1..], when);
      assert sorted == [head] + sorted[1..];
      ConsNewestFirst(head, rest, when);
      [head] + rest
  }

  lemma ConsNewestFirst(head: Lecture, rest: seq<Lecture>, when: string -> int)
    requires NewestFirst(rest, when)
    requires rest == [] || when(head.date) >= when(rest[0].date)
    ensures NewestFirst([head] + rest, when)
  {
    var r := [head] + rest;
    forall i, j | 0 <= i < j < |r| ensures when(r[i].date) >= when(r[j].date) {
      if i == 0 && j > 1 {
        assert r[j] == rest[j - 1];
      }
    }
  }

  /** `sortLectures`: a copy of the lectures, newest first. */
  function SortLectures(lectures: seq<Lecture>, when: string -> int): (r: seq<Lecture>)
    ensures NewestFirst(r, when)
    ensures multiset(r) == multiset(lectures)
  {
    if lectures == [] then []
    else
      assert lectures == [lectures[0]] + lectures[1..];
      InsertByDate(lectures[0], SortLectures(lectures[1..], when), when)
  }
}
