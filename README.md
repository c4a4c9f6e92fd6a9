# Gradebook controllers, modelled in Dafny

This project models the domain logic of the three REST controllers of a course
gradebook service.

- **AssignmentController**: an instructor lists, creates, updates and deletes
  the assignments of a section they teach. A student lists their assignments for
  a term, with their own scores.
- **GradeController**: an instructor lists the grades of an assignment. Missing
  grade rows are created on the way, with a null score. The instructor then posts
  new scores for a batch of grades.
- **EnrollmentController**: an instructor lists a section's enrollments and
  posts final letter grades. Each posted grade is announced to the registrar
  service.

The repositories the controllers call become one `Gradebook.Store` object:

- one map per table (sections, assignments, enrollments, grades), keyed by id;
- one sequence per table giving the order in which queries return rows;
- the next database-generated id;
- a ghost `outbox` of the messages sent to the registrar.

`Store.Valid` is the database invariant:

- every table is keyed by its id;
- every reference to a section or an enrollment points at an existing row;
- every assignment id and grade id is below the counter, and so is the id of the
  assignment each grade names, because generated ids are never handed out twice
  (enrollment ids are not generated here and are not bounded);
- the order sequences list exactly the keys;
- there is at most one grade per (student email, assignment) pair.

Each endpoint is a method (or a function, when it only reads) taking the store
and the principal's email. It answers with a `Response`: `Ok`, `BadRequest`,
`NotFound` or `Forbidden`, each carrying the message the controller attaches.
The loops of the two batch updates and of the grade listing are value-level
methods. Each is specified by a function of its inputs, such as
`ApplyScores(grades, items[..k])` where `k` is the first failing item. The
endpoint then writes the result back in one step.

Supporting modules:

- `Dates` models `java.sql.Date.valueOf`, `toString`, `before` and `after`, with
  both round trips between parsing and printing proved.
- `EmailPattern` models the score update's `.+@.+\..+` check. It is proved
  equivalent to the regular expression read as a grammar.

## Model

| member | source | states |
|---|---|---|
| AssignmentController.CheckDueDate | src/main/java/com/cst438/controller/AssignmentController.java:108-116 | The due date is accepted exactly when the text parses and the date is neither before the term's start nor after its end. Unparseable text gives "due data invalid format"; a date outside the term gives "due date out of range". |
| AssignmentController.TermBoundsAccepted | src/main/java/com/cst438/controller/AssignmentController.java:110 | The term's first and last day are both accepted as due dates: the range is inclusive at both ends. |
| AssignmentController.SectionListing | src/main/java/com/cst438/controller/AssignmentController.java:82-89 | One record per assignment of the section, in table order. Each record has the assignment's id, title and printed due date, the section's course and section id, and the requested section number. |
| AssignmentController.SectionListingComplete | src/main/java/com/cst438/controller/AssignmentController.java:82-89 | Every assignment of the section appears in the listing, and no assignment appears twice. |
| AssignmentController.GetAssignments | src/main/java/com/cst438/controller/AssignmentController.java:72-90 | The answer is Ok exactly when the section exists and the principal is its instructor; otherwise it is BAD_REQUEST "invalid section no". An Ok answer is the section's listing. |
| AssignmentController.CreateAssignment | src/main/java/com/cst438/controller/AssignmentController.java:95-126 | The call succeeds exactly when the section exists, is the principal's, and the due date is accepted. A missing or foreign section gives "invalid section no", checked before the date. A bad due date gives the due-date error. Either failure leaves the store unchanged. On success a new assignment gets a fresh id, named by no existing grade, and is added to the table. The echo carries that id, the printed due date and the section's fields. No other table changes, and the store stays valid. |
| AssignmentController.UpdateAssignment | src/main/java/com/cst438/controller/AssignmentController.java:131-157 | The call succeeds exactly when the assignment exists, its section is the principal's, and the due date is accepted in that section's term. A missing assignment, or one in another instructor's section, gives "invalid assignment id". A bad due date gives the due-date error, and no failure writes anything. On success only the title and the due date of that one assignment change; its section stays. |
| AssignmentController.DeleteAssignment | src/main/java/com/cst438/controller/AssignmentController.java:162-170 | The call succeeds exactly when the assignment exists and is the principal's; otherwise it gives "invalid assignment id" and writes nothing. On success exactly that row leaves the table and its order. Grades and every other table stay. |
| AssignmentController.GetStudentAssignments | src/main/java/com/cst438/controller/AssignmentController.java:175-194 | One row per assignment of the principal's sections in the given term, in query order. Each row carries the assignment's id, title and due date, and its section's course and section id. A row has a score only when the principal has a grade for that assignment, and then it is that grade's score; whenever such a grade exists, its score is the row's score. |
| GradeController.InsertMissingGrade | src/main/java/com/cst438/controller/GradeController.java:59-66 | Creating a student's missing grade keeps the grade table listed and keeps one grade per pair. The search then finds the new row for that student and the same rows as before for every other email. |
| GradeController.FindGradeFinds | src/main/java/com/cst438/controller/GradeController.java:56-57 | In a valid grade table the search by email and assignment finds the pair's grade whenever one exists. |
| GradeController.GradeOfEnrollment | src/main/java/com/cst438/controller/GradeController.java:56-66 | One loop step: it returns the student's existing grade for the assignment, or creates it with the next id and a null score. The table stays valid, and existing rows are kept. |
| GradeController.CollectGrades | src/main/java/com/cst438/controller/GradeController.java:53-80 | The listing loop yields one record per roster entry, built from that student's grade. Afterwards every student on the roster has a grade. Existing grades are unchanged; every added grade has a null score, this assignment and a roster enrollment. Nothing is added when every student already had a grade. |
| GradeController.GetAssignmentGrades | src/main/java/com/cst438/controller/GradeController.java:31-81 | A missing assignment gives NOT_FOUND "Assignment not found". A foreign section gives FORBIDDEN "Instructor does not own this section". Neither failure writes anything. On success the answer lists the section's roster with each student's grade, creating missing grades with a null score and changing no existing grade. A repeated call writes nothing. |
| GradeController.ValidationErrorsEmptyIff | src/main/java/com/cst438/controller/GradeController.java:91-101 | Validation reports no error exactly when every item has a score and an email of the required shape. |
| GradeController.CollectErrors | src/main/java/com/cst438/controller/GradeController.java:91-100 | The validation loop yields, in item order, the "score must not be null" and "studentEmail must be a valid email" messages, each tagged with the item's index. |
| GradeController.ApplyScoresLastWins | src/main/java/com/cst438/controller/GradeController.java:110-126 | After the scores are written, each grade holds the score of the last item that names it; a grade no item names keeps its score. |
| GradeController.ScoreLoop | src/main/java/com/cst438/controller/GradeController.java:110-127 | The update loop stops at the first item whose grade is missing (NOT_FOUND "Grade not found") or is in another instructor's section (FORBIDDEN). The scores of all items before it are written and none after. It is Ok when no item fails. |
| GradeController.UpdateGrades | src/main/java/com/cst438/controller/GradeController.java:86-128 | Any validation error rejects the whole list with BAD_REQUEST carrying all messages, and writes nothing. Otherwise the grades become those written by the items before the first failing one. Only scores change, and the store stays valid. |
| GradeController.FindGradeIgnoresScores | src/main/java/com/cst438/controller/GradeController.java:56-57 | The grade search never looks at scores, so writing scores does not change what it finds. |
| GradeController.RescoredListing | src/test/java/com/cst438/controller/AssignmentGradeUnitTest.java:100-123 | A listing sent back with new scores passes validation when every student's email has the required shape. Every item passes the ownership checks. When no two students share an email, each listed grade ends up with the score sent for it. |
| GradeController.RelistAfterRescore | src/test/java/com/cst438/controller/AssignmentGradeUnitTest.java:125-140 | Once the scores are written, the next listing matches the rescored one index by index: same grade id, same student email, and the score that was sent. |
| GradeController.SendRescored | src/test/java/com/cst438/controller/AssignmentGradeUnitTest.java:100-123 | The update of a rescored listing writes every score sent. It keeps the grade rows and their order, so the listing still names each student's grade. |
| GradeController.Relist | src/test/java/com/cst438/controller/AssignmentGradeUnitTest.java:125-140 | Listing again succeeds and returns, index by index, the rescored grade and student with the score that was sent. |
| GradeController.ScoreRoundTrip | src/test/java/com/cst438/controller/AssignmentGradeUnitTest.java:79-141 | List, send back with new scores, list again. The second listing has the same length, grades, students and order as the first, and holds the scores that were sent. |
| EnrollmentController.GetEnrollments | src/main/java/com/cst438/controller/EnrollmentController.java:38-77 | A missing section gives NOT_FOUND "Section not found"; a foreign section gives FORBIDDEN "Not authorized to view this section". On success there is one record per enrollment of the section, in roster order, each carrying the enrollment's current final grade. Every enrollment of the section appears exactly once. |
| EnrollmentController.ApplyLetterGradesLastWins | src/main/java/com/cst438/controller/EnrollmentController.java:87-103 | After the loop, each enrollment holds the grade of the last item that names it; an enrollment no item names keeps its grade. |
| EnrollmentController.LetterLoop | src/main/java/com/cst438/controller/EnrollmentController.java:87-103 | The loop stops at the first item that fails one of three checks: its section is missing (NOT_FOUND), the section is not the principal's (FORBIDDEN), or its enrollment is missing (NOT_FOUND). Every item before it has its grade written and one "updateEnrollment" message queued, in order; nothing from that item on is. |
| EnrollmentController.UpdateEnrollmentGrade | src/main/java/com/cst438/controller/EnrollmentController.java:82-104 | The enrollments become those written by the items before the first failing one. The registrar outbox grows by exactly their messages. Only final grades change, and the store stays valid. |
| EnrollmentController.RegradedListing | src/test/java/com/cst438/controller/EnrollmentUpdateUnitTest.java:64-96 | A section's listing sent back with one grade for every student passes every check. The roster is unchanged afterwards, and every listed enrollment holds the grade that was sent. |
| EnrollmentController.LetterRoundTrip | src/test/java/com/cst438/controller/EnrollmentUpdateUnitTest.java:60-115 | List a section, send the list back with one grade for everybody, and list again. The update succeeds and sends exactly one "updateEnrollment" message per listed student, in order. The second listing names the same enrollments in the same order, each with the grade that was sent. |
| EnrollmentController.AuthorizationIgnoresEnrollmentSection | src/main/java/com/cst438/controller/EnrollmentController.java:88-99 | The authorization check reads the section number sent by the client, not the enrollment's own section. An instructor who does not own an enrollment's section can still set its final grade by naming a section they do own. |
| Dates.ParseDate | src/main/java/com/cst438/controller/AssignmentController.java:109 | A date that `valueOf` accepts has year 0..9999, month 1..12 and day 1..31. |
| Dates.ParseFormat | src/main/java/com/cst438/controller/AssignmentController.java:121 | Every well-formed date parses back from its own printed form. |
| Dates.FormatParse | src/main/java/com/cst438/controller/AssignmentController.java:109 | A yyyy-mm-dd string that parses prints back as itself. |
| Dates.OrderTrichotomy | src/main/java/com/cst438/controller/AssignmentController.java:110 | "Neither before the start nor after the end" is the inclusive order: not after means on or before, and neither before nor after means the same day. |
| EmailPattern.IsValidEmailIffMatches | src/main/java/com/cst438/controller/GradeController.java:97 | The executable email check accepts exactly the strings that split as `.+` '@' `.+` '.' `.+` with no line terminator, which is what `matches(".+@.+\\..+")` accepts. |
| EmailPattern.EmailExamples | src/test/java/com/cst438/controller/AssignmentGradeUnitTest.java:174 | "sam@csumb.edu" passes the check; a string with no dot after the '@' does not. |
| Gradebook.FindGrade | src/main/java/com/cst438/controller/GradeController.java:56-57 | The search by student email and assignment returns a listed grade of that student for that assignment, or none only when no listed grade matches. |
| Gradebook.SectionAssignments | src/main/java/com/cst438/controller/AssignmentController.java:82 | A section's assignments are exactly the listed assignments whose section is that one, without repeats. |
| Gradebook.SectionAssignmentsInOrder | src/main/java/com/cst438/controller/AssignmentController.java:82 | A section's assignments come in table order: a table split in two is listed part by part, and a single id is listed exactly when it is one of the section's assignments. |
| Gradebook.RosterInOrder | src/main/java/com/cst438/controller/EnrollmentController.java:53 | A section's roster comes in table order: a table split in two is listed part by part, and a single id is listed exactly when it is an enrollment of the section. |
| AssignmentController.StudentTermAssignmentsInOrder | src/main/java/com/cst438/controller/AssignmentController.java:182 | A student's assignments of a term come in table order: a table split in two is listed part by part. |
| Common.FilterConcat | src/main/java/com/cst438/controller/AssignmentController.java:82 | Filtering keeps the input order: filtering a concatenation concatenates the filtered parts. |

## Left out

- Spring security annotations, request binding and bean validation (`@PreAuthorize`, `@Valid`) are framework code. The principal arrives as its email, and role checks are not modelled.
- `getSectionsForInstructor` (AssignmentController.java lines 44-67) is not part of this model: it only reads sections and users through a query that is not among the modelled tables.
- Denormalised display fields (course title, building, room, times, credits, instructor name) are left out of the records. They are copied straight from the section and never decide a branch.
- The repository queries `findEnrollmentsBySectionNoOrderByStudentName` and `findByStudentEmailAndYearAndSemester` are not part of this model. They are taken to return rows in the store's order sequence, which stands for the database's ordering.
- EnrollmentController.GetEnrollments: returns the roster in table order, not sorted by student name.
- AssignmentController.GetStudentAssignments: returns assignments in table order, not sorted by due date. It takes "the student is enrolled in the section" as the query's join condition.
- AssignmentController.DeleteAssignment: removes only the assignment row. A database cascade or foreign-key rejection for its grades is not modelled.
- Grade rows and final grades are saved item by item in the source. The model writes the table once after the loop. With a single request running, the two are the same; concurrent requests and transactions are not modelled.
- The registrar service is a message sink: `sendMessage` is a ghost `outbox` of notifications. Transport failures are not modelled.
- `Date.valueOf` follows the text shape `yyyy-[m]m-[d]d` with month 1..12 and day 1..31. The lenient calendar rollover of the real class (February 30 becoming March 2) is not modelled. Digits are ASCII only.
- Scores are unbounded integers: the Java `Integer` range is not modelled.
- GradeController.UpdateGrades: validates the item's email but never compares it with the grade's student, as in the source.
- GradeController.ScoreRoundTrip: requires every student on the roster to have an email the update accepts and no two to share one. A shared email would make one grade serve two students, and the source makes the same assumption.
- Gradebook.FindGrade: searches by student email and assignment only, like `findByStudentEmailAndAssignmentId`; it does not restrict to the assignment's section.
