# Attendance tracker core in Dafny

A model of the attendance-tracking logic of `scripts/app.js`: a browser app in which a
student keeps a list of subjects, logs lectures per subject, marks each lecture present or
absent and sees an attendance percentage and how many absences remain under one global
absence limit. The state is `{maxAbsences, subjects}` plus the current selection
`selectedSubjectId`; it is loaded once from local storage and written back after every change.

The project has three modules:

- `JsString` (`strings.dfy`): JavaScript's `String.prototype.trim`, used on subject names,
  codes and lecture topics.
- `Attendance` (`attendance.dfy`): the entities as datatypes (`Lecture`, `Subject`, `State`),
  the pure functions of the script (`loadState`, `createSubject`, `createLecture`,
  `calculateStats`, `lectureDateExists`, `sortLectures`, the `filter`/`find` calls in the
  handlers), and the lemmas about them: counts and bounds of the statistics, one lecture per
  date, what deletion removes and keeps, where the selection goes, and the load/persist
  round trip.
- `Tracker` (`tracker.dfy`): the module-level state as the class `AttendanceTracker`, with the
  absence limit, the subject list and the selection as fields. Each handler body is a method
  that updates those fields in place. Its `ensures` clauses give the whole new state, and
  every method keeps the selection invariant `Valid()` and the one-lecture-per-date property.
  Each call to `persistState` appends the stored state to the ghost log `writes`, so the
  contracts also say which outcomes write to storage.

Inputs that come from outside the script are parameters:

- the fresh id from `generateId`;
- the answer to `confirm()`, as a boolean;
- the `parseInt` result of the limit field, with `None` for NaN;
- the decoded storage content, as a `Saved` value: nothing saved, unparseable, or a decoded
  record;
- the timestamp that `new Date(date)` gives, as a function `when`.

What `scripts/app.js` does not have, and the model therefore does not have either:

- The code has no per-subject absence limit. `createSubject` gives a subject no
  `maxAbsences`, and the one global limit is used everywhere.
- Marking a lecture absent is never refused. It happens even when no allowance is left
  (`Attendance.MarkAbsentUsesAllowance`).
- The code has no admin/passcode gate or portal login.
- Loading reads only `maxAbsences`; there is no `defaultMaxAbsences` field.
- Marking a lecture that already has that status still writes to storage
  (`Tracker.AttendanceTracker.MarkLecture`).

## Model

| member | source | states |
|---|---|---|
| `JsString.TrimStart` | scripts/app.js:232 | the result is the suffix of the input that starts at its first non-white-space character; everything cut off is white space |
| `JsString.TrimEnd` | scripts/app.js:232 | the result is the prefix of the input that ends at its last non-white-space character; everything cut off is white space |
| `JsString.Trim` | scripts/app.js:232-233 | the trimmed name/code/topic is no longer than the input and neither starts nor ends with white space |
| `JsString.TrimIsSlice` | scripts/app.js:232-233 | the trimmed string is a contiguous slice of the input with only white space removed on either side |
| `JsString.TrimKeepsTrimmed` | scripts/app.js:263 | a string that neither starts nor ends with white space is left as it is |
| `JsString.TrimIdempotent` | scripts/app.js:232-233 | trimming twice is the same as trimming once |
| `JsString.TrimEmptyIffAllWhiteSpace` | scripts/app.js:232-235 | a name is rejected exactly when it is empty or consists only of white space |
| `Attendance.LoadState` | scripts/app.js:38-55 | when nothing is saved or the saved string does not parse, the state is `{3, []}` |
| `Attendance.LoadDefaults` | scripts/app.js:43-54 | the defaults apply separately: limit 3 when it is null or missing, no subjects when `subjects` is not an array |
| `Attendance.LoadKeepsStoredFields` | scripts/app.js:43-46 | a stored limit is kept as stored, 0 included, and a stored subject array is kept as stored |
| `Attendance.Persisted` | scripts/app.js:57-59 | what decoding the string `persistState` writes gives back; see `LoadPersistRoundTrip` and `LoadIdempotent` |
| `Attendance.LoadPersistRoundTrip` | scripts/app.js:38-59 | loading what `persistState` wrote gives back the same state |
| `Attendance.LoadIdempotent` | scripts/app.js:38-59 | persisting a loaded state and loading it again gives the same state |
| `Attendance.Filter` | scripts/app.js:139 | `filter` keeps exactly the elements the predicate accepts and never grows the list |
| `Attendance.FilterAppend` | scripts/app.js:139 | filtering a concatenation filters each part, so kept elements keep their order |
| `Attendance.FilterKeepsAll` | scripts/app.js:206 | a filter that accepts every element returns the list unchanged |
| `Attendance.CountStatus` | scripts/app.js:93-94 | a status count never exceeds the number of lectures |
| `Attendance.CountsPartition` | scripts/app.js:92-94 | pending, present and absent counts add up to the number of lectures |
| `Attendance.LectureDateExists` | scripts/app.js:246-248 | true exactly when some lecture of the list has that date |
| `Attendance.FindSubject` | scripts/app.js:252 | `find` returns the first subject with the id, none for a null id, and none exactly when no subject has the id |
| `Attendance.RoundedPercentage` | scripts/app.js:95 | 0 for no lectures; otherwise the nearest integer to 100·attended/total with halves rounded up; never above 100 |
| `Attendance.CalculateStats` | scripts/app.js:87-99 | `calculateStats` with the global limit passed in; its meaning is stated by `StatsOfSubject` and `StatsOfNoSubject` |
| `Attendance.StatsOfSubject` | scripts/app.js:91-98 | total is the lecture count; attended + absent ≤ total; percentage in 0..100 (0 with no lectures or no attendance, 100 with full attendance); remaining allowance is max(limit − absences, 0), never negative |
| `Attendance.StatsOfNoSubject` | scripts/app.js:88-90 | with no subject the counts and percentage are 0 and the remaining allowance is the limit itself; it is non-negative exactly when the limit is |
| `Attendance.PercentageExtremes` | scripts/app.js:95 | no attendance gives 0 percent and full attendance gives 100 percent |
| `Attendance.PercentageMonotonic` | scripts/app.js:95 | more attended lectures never give a lower percentage |
| `Attendance.CreateSubject` | scripts/app.js:61-67 | a new subject with the given id, name and code and no lectures; see `AppendSubjectKeepsInvariants` and `Tracker.AttendanceTracker.AddSubject` |
| `Attendance.CreateLecture` | scripts/app.js:70-76 | a new lecture is pending; see `AppendLectureStats` |
| `Attendance.AppendLecture` | scripts/app.js:264-265 | the subject with one new pending lecture at the end; see `AppendLecturePreservesUniqueDates` and `AppendLectureStats` |
| `Attendance.AppendLecturePreservesUniqueDates` | scripts/app.js:258-265 | appending a lecture on a date not yet used keeps one lecture per date |
| `Attendance.AppendLectureStats` | scripts/app.js:70-76 | a new lecture is pending, so it adds one to the total and leaves the attended and absent counts unchanged |
| `Attendance.SetStatus` | scripts/app.js:191-201 | marking sets the status of the target lecture only; its id, date and topic and every other lecture stay the same |
| `Attendance.SetStatusIdempotent` | scripts/app.js:191-201 | repeating a mark gives the same lectures as marking once |
| `Attendance.SetStatusUnchanged` | scripts/app.js:197-199 | marking a lecture with the status it already has changes nothing |
| `Attendance.SetStatusPreservesUniqueDates` | scripts/app.js:191-201 | marking keeps one lecture per date |
| `Attendance.SetStatusCount` | scripts/app.js:191-201 | after a mark, the old status has one lecture fewer and the new status one more |
| `Attendance.MarkPresentNeverHurts` | scripts/app.js:191-195 | marking present keeps the total and never lowers the attended count, the percentage or the remaining allowance |
| `Attendance.MarkAbsentUsesAllowance` | scripts/app.js:197-201 | marking absent a lecture that was not absent lowers the remaining allowance by one, floored at 0; it is not refused when nothing remains |
| `Attendance.RemoveLectures` | scripts/app.js:206 | `filter` on the lecture id; its meaning is stated by `RemoveLecturesSpec` and `FilterPreservesUniqueDates` |
| `Attendance.RemoveLecturesSpec` | scripts/app.js:206 | deleting removes exactly the lectures with that id, changes nothing when no lecture has it, and keeps one lecture per date |
| `Attendance.FilterPreservesUniqueDates` | scripts/app.js:206 | filtering any lectures out keeps one lecture per date |
| `Attendance.RemoveSubjects` | scripts/app.js:139 | `filter` on the subject id; its meaning is stated by `RemoveSubjectsSpec`, `RemoveSubjectsKeepsOrder` and `RemoveSubjectsPreservesUniqueDates` |
| `Attendance.RemoveSubjectsSpec` | scripts/app.js:139 | deleting removes exactly the subjects with that id, with their lectures, and changes nothing when no subject has it |
| `Attendance.RemoveSubjectsPreservesUniqueDates` | scripts/app.js:139 | subjects that survive a deletion still have one lecture per date |
| `Attendance.RemoveSubjectsKeepsOrder` | scripts/app.js:139 | deletion from a concatenation is deletion from each part, so the remaining subjects keep their order |
| `Attendance.AppendSubjectKeepsInvariants` | scripts/app.js:237-239 | appending a subject without lectures and selecting it keeps a valid selection and one lecture per date |
| `Attendance.AppendSubjectIsFound` | scripts/app.js:237-239 | after appending a subject with a fresh id, `find` on that id returns the new subject |
| `Attendance.FirstId` | scripts/app.js:29 | `subjects[0]?.id ?? null`; see `FirstIdIsValidSelection` |
| `Attendance.SelectionAfterDelete` | scripts/app.js:140-142 | the selection after a deletion; its three cases are stated by `DeleteSelectionFallback` |
| `Attendance.DeleteSelectionFallback` | scripts/app.js:139-142 | deleting the selected subject selects the first remaining subject, or none if none remain; deleting another subject keeps the selection; a valid selection stays valid |
| `Attendance.FirstIdIsValidSelection` | scripts/app.js:29 | the initial selection, the first subject's id or null, is valid |
| `Attendance.InsertByDate` | scripts/app.js:102 | inserting into a newest-first list keeps it newest first and adds exactly that lecture |
| `Attendance.SortLectures` | scripts/app.js:101-103 | the sorted copy is newest first by the lecture timestamps and is a permutation of the lectures |
| `Tracker.AttendanceTracker.constructor` | scripts/app.js:28-29 | the start-up state is the loaded state, and the first subject (or none) is selected; nothing has been written |
| `Tracker.AttendanceTracker.SelectedIndex` | scripts/app.js:252 | the subject shown in detail, if any, is a position in the subject list |
| `Tracker.AttendanceTracker.StatsOf` | scripts/app.js:87-99 | for a subject the percentage is in 0..100 and the allowance is non-negative; for none the allowance is the global limit |
| `Tracker.AttendanceTracker.Snapshot` | scripts/app.js:58 | the `{maxAbsences, subjects}` object that `persistState` serialises; see `Persist` |
| `Tracker.AttendanceTracker.Persist` | scripts/app.js:57-59 | the current limit and subjects are appended to the storage log |
| `Tracker.AttendanceTracker.SelectSubject` | scripts/app.js:130-133 | clicking a subject selects its id |
| `Tracker.AttendanceTracker.AddSubject` | scripts/app.js:230-244 | an all-white-space name changes and writes nothing; otherwise exactly one subject with the trimmed name and code and no lectures is appended and selected, earlier subjects and the limit are unchanged, and the new state is written |
| `Tracker.AttendanceTracker.DeleteSubject` | scripts/app.js:135-145 | declining changes and writes nothing; confirming removes exactly the subjects with that id, moves the selection as in `DeleteSelectionFallback`, and writes the new state |
| `Tracker.AttendanceTracker.AddLecture` | scripts/app.js:250-270 | no selected subject, an empty date or a date already used each leave the lectures unchanged and write nothing, and each is reported; otherwise exactly one pending lecture with the trimmed topic is appended to the selected subject and the state is written; one lecture per date is kept |
| `Tracker.AttendanceTracker.MarkLecture` | scripts/app.js:191-201 | only the status of the target lecture changes to present or absent, whatever the remaining allowance; the state is always written |
| `Tracker.AttendanceTracker.DeleteLecture` | scripts/app.js:203-209 | declining changes and writes nothing; confirming removes exactly the lectures with that id from that subject only, and writes the new state |
| `Tracker.AttendanceTracker.ApplyMaxAbsences` | scripts/app.js:272-282 | NaN or a negative value is rejected, and the limit stays and nothing is written; otherwise the limit becomes the value, which is non-negative, and is written; subjects are untouched |

## Left out

- Rendering is not modelled: templates, the DOM, CSS classes and `render`/`init` (scripts/app.js:3-26, 105-228 and 284-291 apart from the handler bodies). They are presentation only.
- `formatDate` is not modelled. It calls `Intl.DateTimeFormat`, a foreign call.
- `generateId` is not modelled. It uses `crypto` and randomness, so the fresh id is a parameter. Freshness is assumed only where a lemma says so (`AppendSubjectIsFound`).
- `localStorage`, `JSON.parse` and `JSON.stringify` are I/O. The model covers the steps after decoding, and `persistState` is a ghost log of the written states.
- Decoded values of other JSON shapes are not modelled. The model does not cover a non-numeric `maxAbsences` or subject objects with missing or malformed fields: `Saved` carries an integer or nothing, and well-formed subjects.
- `confirm` becomes a boolean argument. The alerts become returned values: `LectureOutcome.DuplicateDate` from `AddLecture` and `accepted == false` from `ApplyMaxAbsences`. `parseInt` is not modelled; its result arrives as an optional integer.
- Event wiring is left out. In the page, the present/absent/delete buttons exist only for lectures of the selected subject. `MarkLecture` and `DeleteLecture` accept any subject position.
- JavaScript objects are not modelled, only the values they hold. Subjects and lectures are values in sequence fields, and a lecture is addressed by its position rather than by the object the handler's closure captured. `JSON.parse` creates no shared objects, so this loses no aliasing.
- Strings are sequences of Unicode scalar values, not UTF-16 code units, so lone surrogates are not represented.
- Attendance.RoundedPercentage: it uses exact arithmetic, while the script computes `Math.round` on floating-point numbers. The two can differ on exact halves: 29 of 200 lectures is 14.5 exactly, but the floating-point product is slightly below 14.5.
- Attendance.SortLectures: dates are ordered by an abstract integer timestamp `when`. It does not model invalid dates, whose `Date` is NaN and whose comparator results are undefined. It does not prove that the sort is stable.
