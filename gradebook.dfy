/**
 * The gradebook's persistent state: sections (with their term), assignments,
 * enrollments and grades, each a table keyed by its numeric id, plus the
 * outbound messages sent to the registrar. The three controllers read and
 * update this state; the repositories they call become the fields of `Store`.
 */
module Gradebook {
  import opened Common
  import opened Dates

  // ---------------------------------------------------------------------------
  // Entities

  datatype Term = Term(year: int, semester: string, startDate: Date, endDate: Date)

  /** `instructorEmail` is the only thing that decides who may act on a section. */
  datatype Section = Section(
    sectionNo: int, sectionId: int, courseId: string, instructorEmail: string, term: Term)

  datatype Assignment = Assignment(assignmentId: int, title: string, dueDate: Date, sectionNo: int)

  /** A student's registration in a section; `grade` is the final letter grade, or null. */
  datatype Enrollment = Enrollment(
    enrollmentId: int, grade: Option<string>, studentId: int,
    studentName: string, studentEmail: string, sectionNo: int)

  /** One student's score on one assignment; `score` is null until the instructor sets it. */
  datatype Grade = Grade(gradeId: int, score: Option<int>, assignmentId: int, enrollmentId: int)

  // ---------------------------------------------------------------------------
  // Records exchanged with clients

  datatype AssignmentDTO = AssignmentDTO(
    id: int, title: string, dueDate: string, courseId: string, sectionId: int, secNo: int)

  datatype AssignmentStudentDTO = AssignmentStudentDTO(
    assignmentId: int, title: string, dueDate: Date, courseId: string, sectionId: int,
    score: Option<int>)

  datatype GradeDTO = GradeDTO(
    gradeId: int, studentName: string, studentEmail: Option<string>, assignmentTitle: string,
    courseId: string, sectionId: int, score: Option<int>)

  datatype EnrollmentDTO = EnrollmentDTO(
    enrollmentId: int, grade: Option<string>, studentId: int, name: string, email: string,
    courseId: string, sectionId: int, sectionNo: int, year: int, semester: string)

  /** One message to the registrar service: an event kind and its payload. */
  datatype Notification = Notification(kind: string, payload: EnrollmentDTO)

  /**
   * What an endpoint answers: a value, or one of the three HTTP failures the
   * controllers raise, with the message they attach.
   */
  datatype Response<T> =
    | Ok(value: T)
    | BadRequest(errors: seq<string>)
    | NotFound(reason: string)
    | Forbidden(reason: string)

  // ---------------------------------------------------------------------------
  // Queries over the tables

  /** The ownership guard: the section exists and `principal` is its instructor. */
  predicate Owns(sections: map<int, Section>, secNo: int, principal: string)
  {
    secNo in sections && sections[secNo].instructorEmail == principal
  }

  /** The ids of a section's assignments, in table order. */
  function SectionAssignments(order: seq<int>, assignments: map<int, Assignment>, secNo: int): (r: seq<int>)
    ensures forall i :: 0 <= i < |r| ==> r[i] in assignments && assignments[r[i]].sectionNo == secNo
    ensures forall a :: a in r <==> a in order && a in assignments && assignments[a].sectionNo == secNo
    ensures Distinct(order) ==> Distinct(r)
  {
    Filter(order, id => id in assignments && assignments[id].sectionNo == secNo)
  }

  /**
   * A section's assignments come in table order: listing a table split in two
   * lists each part in turn, and a single id `x` is listed exactly when it is one
   * of the section's assignments.
   */
  lemma SectionAssignmentsInOrder(a: seq<int>, b: seq<int>, x: int, assignments: map<int, Assignment>, secNo: int)
    ensures SectionAssignments(a + b, assignments, secNo)
         == SectionAssignments(a, assignments, secNo) + SectionAssignments(b, assignments, secNo)
    ensures SectionAssignments([x], assignments, secNo)
         == if x in assignments && assignments[x].sectionNo == secNo then [x] else []
  {
    FilterConcat(a, b, id => id in assignments && assignments[id].sectionNo == secNo);
    FilterSingleton(x, id => id in assignments && assignments[id].sectionNo == secNo);
  }

  /** The ids of a section's enrollments, in table order (the order the roster query returns). */
  function Roster(order: seq<int>, enrollments: map<int, Enrollment>, secNo: int): seq<int>
  {
    Filter(order, id => id in enrollments && enrollments[id].sectionNo == secNo)
  }

  /**
   * A section's roster comes in table order: listing a table split in two lists
   * each part in turn, and a single id `x` is listed exactly when it is
   * an enrollment of the section.
   */
  lemma RosterInOrder(a: seq<int>, b: seq<int>, x: int, enrollments: map<int, Enrollment>, secNo: int)
    ensures Roster(a + b, enrollments, secNo) == Roster(a, enrollments, secNo) + Roster(b, enrollments, secNo)
    ensures Roster([x], enrollments, secNo)
         == if x in enrollments && enrollments[x].sectionNo == secNo then [x] else []
  {
    FilterConcat(a, b, id => id in enrollments && enrollments[id].sectionNo == secNo);
    FilterSingleton(x, id => id in enrollments && enrollments[id].sectionNo == secNo);
  }

  /** Grade `g` belongs to the student with this email and to this assignment. */
  predicate GradeFor(grades: map<int, Grade>, enrollments: map<int, Enrollment>,
                     g: int, email: string, assignmentId: int)
  {
    && g in grades
    && grades[g].assignmentId == assignmentId
    && grades[g].enrollmentId in enrollments
    && enrollments[grades[g].enrollmentId].studentEmail == email
  }

  /**
   * `findByStudentEmailAndAssignmentId`: the grade of the student with this email
   * for this assignment, or null. The lookup goes through the grade's enrollment
   * to the student's email; it never looks at which section the enrollment is in.
   */
  function FindGrade(order: seq<int>, grades: map<int, Grade>, enrollments: map<int, Enrollment>,
                     email: string, assignmentId: int): (r: Option<int>)
    ensures r.Some? ==> r.value in order && GradeFor(grades, enrollments, r.value, email, assignmentId)
    ensures r.None? ==> forall g :: g in order ==> !GradeFor(grades, enrollments, g, email, assignmentId)
  {
    if order == [] then None
    else
      var last := order[|order| - 1];
      if GradeFor(grades, enrollments, last, email, assignmentId) then Some(last)
      else FindGrade(order[..|order| - 1], grades, enrollments, email, assignmentId)
  }

  /** The instructor who owns an assignment, through its section. */
  predicate OwnsAssignment(sections: map<int, Section>, assignments: map<int, Assignment>,
                           assignmentId: int, principal: string)
  {
    assignmentId in assignments && Owns(sections, assignments[assignmentId].sectionNo, principal)
  }

  /** `order` lists exactly the keys, each once. */
  ghost predicate Lists(order: seq<int>, keys: set<int>)
  {
    Distinct(order) && forall id :: id in order <==> id in keys
  }

  /** At most one grade per (student email, assignment). */
  ghost predicate OneGradePerPair(grades: map<int, Grade>, enrollments: map<int, Enrollment>)
  {
    forall g1, g2, email, assignmentId ::
      (GradeFor(grades, enrollments, g1, email, assignmentId) &&
       GradeFor(grades, enrollments, g2, email, assignmentId)) ==> g1 == g2
  }

  /** The section table is keyed by section number. */
  ghost predicate SectionTable(sections: map<int, Section>)
  {
    forall s :: s in sections ==> sections[s].sectionNo == s
  }

  /**
   * The assignment table: keyed by id, every assignment's section exists, its due
   * date is a valid date, every id is below `nextId`, and `order` lists the ids.
   */
  ghost predicate AssignmentTable(assignments: map<int, Assignment>, order: seq<int>,
                                  sections: map<int, Section>, nextId: int)
  {
    && (forall a :: a in assignments ==>
          && assignments[a].assignmentId == a && assignments[a].sectionNo in sections
          && WellFormed(assignments[a].dueDate) && a < nextId)
    && Lists(order, assignments.Keys)
  }

  /** The enrollment table: keyed by id, every enrollment's section exists, `order` lists the ids. */
  ghost predicate EnrollmentTable(enrollments: map<int, Enrollment>, order: seq<int>,
                                  sections: map<int, Section>)
  {
    && (forall e :: e in enrollments ==>
          enrollments[e].enrollmentId == e && enrollments[e].sectionNo in sections)
    && Lists(order, enrollments.Keys)
  }

  /**
   * The grade table: keyed by id, every grade's enrollment exists, its id and the
   * id of the assignment it names are below `nextId` (ids are never handed out
   * twice), `order` lists the ids, and there is at most one grade per pair.
   */
  ghost predicate GradeTable(grades: map<int, Grade>, order: seq<int>,
                             enrollments: map<int, Enrollment>, nextId: int)
  {
    && (forall g :: g in grades ==>
          && grades[g].gradeId == g && grades[g].enrollmentId in enrollments && g < nextId
          && grades[g].assignmentId < nextId)
    && Lists(order, grades.Keys)
    && OneGradePerPair(grades, enrollments)
  }

  /** Raising the id counter keeps the assignment table valid. */
  lemma AssignmentTableMonotone(assignments: map<int, Assignment>, order: seq<int>,
                                sections: map<int, Section>, n: int, m: int)
    requires AssignmentTable(assignments, order, sections, n) && n <= m
    ensures AssignmentTable(assignments, order, sections, m)
  {
  }

  /** Raising the id counter keeps the grade table valid. */
  lemma GradeTableMonotone(grades: map<int, Grade>, order: seq<int>,
                           enrollments: map<int, Enrollment>, n: int, m: int)
    requires GradeTable(grades, order, enrollments, n) && n <= m
    ensures GradeTable(grades, order, enrollments, m)
  {
  }

  // ---------------------------------------------------------------------------
  // The store

  class Store {
    var sections: map<int, Section>
    var assignments: map<int, Assignment>
    var assignmentOrder: seq<int>
    var enrollments: map<int, Enrollment>
    var enrollmentOrder: seq<int>
    var grades: map<int, Grade>
    var gradeOrder: seq<int>
    /** The next database-generated id; every id in use is below it. */
    var nextId: int
    /** Every message sent to the registrar, oldest first. */
    ghost var outbox: seq<Notification>

    /** The invariant of the database: every table is consistent with the others. */
    ghost predicate Valid()
      reads this
    {
      && SectionTable(sections)
      && AssignmentTable(assignments, assignmentOrder, sections, nextId)
      && EnrollmentTable(enrollments, enrollmentOrder, sections)
      && GradeTable(grades, gradeOrder, enrollments, nextId)
    }
  }
}
