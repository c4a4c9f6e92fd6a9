/**
 * The assignment endpoints: an instructor lists, creates, updates and deletes
 * the assignments of a section they teach; a student lists their assignments of
 * a term with their own scores.
 */
module AssignmentController {
  import opened Common
  import opened Dates
  import opened Gradebook

  const InvalidSectionNo := "invalid section no"
  const InvalidAssignmentId := "invalid assignment id"
  const DueDateOutOfRange := "due date out of range"
  const DueDateInvalidFormat := "due data invalid format"

  /** The record an instructor receives for one assignment of section `secNo`. */
  function AssignmentRecord(a: Assignment, s: Section, secNo: int): AssignmentDTO
    requires WellFormed(a.dueDate)
  {
    AssignmentDTO(a.assignmentId, a.title, FormatDate(a.dueDate), s.courseId, s.sectionId, secNo)
  }

  /**
   * The due-date step of create and update: the text must parse, and the date
   * must be neither before the term's start nor after its end.
   */
  function CheckDueDate(text: string, term: Term): (r: Response<Date>)
    ensures r.Ok? <==>
              && ParseDate(text).Some?
              && OnOrBefore(term.startDate, ParseDate(text).value)
              && OnOrBefore(ParseDate(text).value, term.endDate)
    ensures r.Ok? || r.BadRequest?
    ensures r.Ok? ==> ParseDate(text) == Some(r.value)
    ensures ParseDate(text).None? ==> r == BadRequest([DueDateInvalidFormat])
    ensures ParseDate(text).Some? && !r.Ok? ==> r == BadRequest([DueDateOutOfRange])
  {
    match ParseDate(text)
    case None => BadRequest([DueDateInvalidFormat])
    case Some(d) =>
      if Before(d, term.startDate) || After(d, term.endDate) then BadRequest([DueDateOutOfRange])
      else Ok(d)
  }

  /** Both ends of a term are accepted as due dates: the range is inclusive. */
  lemma TermBoundsAccepted(term: Term)
    requires WellFormed(term.startDate) && WellFormed(term.endDate)
    requires OnOrBefore(term.startDate, term.endDate)
    ensures CheckDueDate(FormatDate(term.startDate), term) == Ok(term.startDate)
    ensures CheckDueDate(FormatDate(term.endDate), term) == Ok(term.endDate)
  {
    ParseFormat(term.startDate);
    ParseFormat(term.endDate);
  }

  /** The records of a section's assignments, in table order, each echoing `secNo`. */
  function SectionListing(order: seq<int>, assignments: map<int, Assignment>, s: Section, secNo: int)
    : (r: seq<AssignmentDTO>)
    requires forall a :: a in assignments ==> assignments[a].assignmentId == a
    requires forall a :: a in assignments ==> WellFormed(assignments[a].dueDate)
    ensures var ids := SectionAssignments(order, assignments, secNo);
            && |r| == |ids|
            && forall i :: 0 <= i < |r| ==>
                 && r[i].id == ids[i]
                 && ids[i] in assignments
                 && assignments[ids[i]].sectionNo == secNo
                 && r[i] == AssignmentRecord(assignments[ids[i]], s, secNo)
  {
    var ids := SectionAssignments(order, assignments, secNo);
    assert forall a :: a in assignments ==> WellFormed(assignments[a].dueDate);
    assert |ids| > 0 ==> WellFormed(assignments[ids[0]].dueDate);
    seq(|ids|, i requires 0 <= i < |ids| && ids[i] in assignments && WellFormed(assignments[ids[i]].dueDate) =>
                 AssignmentRecord(assignments[ids[i]], s, secNo))
  }

  /** Every listed assignment of the section appears in its listing, and none appears twice. */
  lemma SectionListingComplete(order: seq<int>, assignments: map<int, Assignment>, s: Section, secNo: int)
    requires Distinct(order)
    requires forall a :: a in assignments ==> assignments[a].assignmentId == a && WellFormed(assignments[a].dueDate)
    ensures var r := SectionListing(order, assignments, s, secNo);
            && (forall a :: a in assignments && assignments[a].sectionNo == secNo && a in order ==>
                  exists i :: 0 <= i < |r| && r[i].id == a)
            && (forall i, j :: 0 <= i < j < |r| ==> r[i].id != r[j].id)
  {
    var ids := SectionAssignments(order, assignments, secNo);
    var r := SectionListing(order, assignments, s, secNo);
    forall a | a in assignments && assignments[a].sectionNo == secNo && a in order
      ensures exists i :: 0 <= i < |r| && r[i].id == a
    {
      assert a in ids;
      var i :| 0 <= i < |ids| && ids[i] == a;
      assert r[i].id == a;
    }
    assert Distinct(ids);
  }

  /**
   * GET /sections/{secNo}/assignments: every assignment of the section, in table
   * order, each echoing `secNo`; a missing or foreign section is a bad request.
   */
  function GetAssignments(db: Store, secNo: int, principal: string): (r: Response<seq<AssignmentDTO>>)
    reads db
    requires db.Valid()
    ensures r.Ok? || r == BadRequest([InvalidSectionNo])
    ensures r.Ok? <==> Owns(db.sections, secNo, principal)
    ensures r.Ok? ==> r.value == SectionListing(db.assignmentOrder, db.assignments, db.sections[secNo], secNo)
  {
    if !Owns(db.sections, secNo, principal) then BadRequest([InvalidSectionNo])
    else Ok(SectionListing(db.assignmentOrder, db.assignments, db.sections[secNo], secNo))
  }

  /**
   * POST /assignments: the section must exist and be the principal's (checked
   * before the date is looked at); the due date must parse and lie in the term.
   * A new assignment then gets a fresh id, and nothing else changes.
   */
  method CreateAssignment(db: Store, dto: AssignmentDTO, principal: string)
    returns (r: Response<AssignmentDTO>)
    requires db.Valid()
    modifies db
    ensures db.Valid()
    ensures !old(Owns(db.sections, dto.secNo, principal)) ==> r == BadRequest([InvalidSectionNo])
    ensures old(Owns(db.sections, dto.secNo, principal)) ==>
              var check := CheckDueDate(dto.dueDate, old(db.sections)[dto.secNo].term);
              !check.Ok? ==> r == BadRequest(check.errors)
    ensures r.Ok? <==>
              old(Owns(db.sections, dto.secNo, principal)) &&
              CheckDueDate(dto.dueDate, old(db.sections)[dto.secNo].term).Ok?
    ensures !r.Ok? ==> unchanged(db)
    ensures r.Ok? ==> forall g :: g in db.grades ==> db.grades[g].assignmentId != r.value.id
    ensures r.Ok? ==>
              && old(Owns(db.sections, dto.secNo, principal))
              && var s := old(db.sections)[dto.secNo];
                 var check := CheckDueDate(dto.dueDate, s.term);
                 var id := old(db.nextId);
                 && check.Ok?
                 && id !in old(db.assignments)
                 && db.assignments == old(db.assignments)[id := Assignment(id, dto.title, check.value, dto.secNo)]
                 && db.assignmentOrder == old(db.assignmentOrder) + [id]
                 && db.nextId == id + 1
                 && r.value == AssignmentDTO(id, dto.title, FormatDate(check.value), s.courseId, s.sectionId, s.sectionNo)
    ensures unchanged(db`sections, db`enrollments, db`enrollmentOrder, db`grades, db`gradeOrder, db`outbox)
  {
    if !Owns(db.sections, dto.secNo, principal) {
      return BadRequest([InvalidSectionNo]);
    }
    var s := db.sections[dto.secNo];
    var check := CheckDueDate(dto.dueDate, s.term);
    if !check.Ok? {
      return BadRequest(check.errors);
    }
    var id := db.nextId;
    GradeTableMonotone(db.grades, db.gradeOrder, db.enrollments, id, id + 1);
    assert id !in db.assignmentOrder;
    db.assignments := db.assignments[id := Assignment(id, dto.title, check.value, dto.secNo)];
    db.assignmentOrder := db.assignmentOrder + [id];
    db.nextId := id + 1;
    r := Ok(AssignmentDTO(id, dto.title, FormatDate(check.value), s.courseId, s.sectionId, s.sectionNo));
  }

  /**
   * PUT /assignments: the assignment must exist and its section be the
   * principal's; the due date must parse and lie in the term. Only the title and
   * the due date change; the section stays and no other row is touched.
   */
  method UpdateAssignment(db: Store, dto: AssignmentDTO, principal: string)
    returns (r: Response<AssignmentDTO>)
    requires db.Valid()
    modifies db
    ensures db.Valid()
    ensures !old(OwnsAssignment(db.sections, db.assignments, dto.id, principal)) ==>
              r == BadRequest([InvalidAssignmentId])
    ensures old(OwnsAssignment(db.sections, db.assignments, dto.id, principal)) ==>
              var a := old(db.assignments)[dto.id];
              var check := CheckDueDate(dto.dueDate, old(db.sections)[a.sectionNo].term);
              !check.Ok? ==> r == BadRequest(check.errors)
    ensures r.Ok? <==>
              old(OwnsAssignment(db.sections, db.assignments, dto.id, principal)) &&
              CheckDueDate(dto.dueDate, old(db.sections)[old(db.assignments)[dto.id].sectionNo].term).Ok?
    ensures !r.Ok? ==> unchanged(db)
    ensures r.Ok? ==>
              && old(OwnsAssignment(db.sections, db.assignments, dto.id, principal))
              && var a := old(db.assignments)[dto.id];
                 var s := old(db.sections)[a.sectionNo];
                 var check := CheckDueDate(dto.dueDate, s.term);
                 && check.Ok?
                 && db.assignments == old(db.assignments)[dto.id := a.(title := dto.title, dueDate := check.value)]
                 && r.value == AssignmentDTO(dto.id, dto.title, FormatDate(check.value), s.courseId, s.sectionId, s.sectionNo)
    ensures unchanged(db`sections, db`assignmentOrder, db`nextId, db`enrollments, db`enrollmentOrder,
                      db`grades, db`gradeOrder, db`outbox)
  {
    if !OwnsAssignment(db.sections, db.assignments, dto.id, principal) {
      return BadRequest([InvalidAssignmentId]);
    }
    var a := db.assignments[dto.id];
    var s := db.sections[a.sectionNo];
    var check := CheckDueDate(dto.dueDate, s.term);
    if !check.Ok? {
      return BadRequest(check.errors);
    }
    db.assignments := db.assignments[dto.id := a.(title := dto.title, dueDate := check.value)];
    r := Ok(AssignmentDTO(dto.id, dto.title, FormatDate(check.value), s.courseId, s.sectionId, s.sectionNo));
  }

  /**
   * DELETE /assignments/{assignmentId}: the assignment must exist and its section
   * be the principal's; then exactly that row goes. Its grades are not touched.
   */
  method DeleteAssignment(db: Store, assignmentId: int, principal: string) returns (r: Response<()>)
    requires db.Valid()
    modifies db
    ensures db.Valid()
    ensures r.Ok? <==> old(OwnsAssignment(db.sections, db.assignments, assignmentId, principal))
    ensures !r.Ok? ==> r == BadRequest([InvalidAssignmentId]) && unchanged(db)
    ensures r.Ok? ==>
              && db.assignments == old(db.assignments) - {assignmentId}
              && db.assignmentOrder == RemoveValue(old(db.assignmentOrder), assignmentId)
    ensures unchanged(db`sections, db`nextId, db`enrollments, db`enrollmentOrder,
                      db`grades, db`gradeOrder, db`outbox)
  {
    if !OwnsAssignment(db.sections, db.assignments, assignmentId, principal) {
      return BadRequest([InvalidAssignmentId]);
    }
    db.assignments := db.assignments - {assignmentId};
    db.assignmentOrder := RemoveValue(db.assignmentOrder, assignmentId);
    r := Ok(());
  }

  /**
   * The assignments that `findByStudentEmailAndYearAndSemester` is taken to
   * return: those of every section of the given term in which the student with
   * this email is enrolled, in table order.
   */
  function StudentTermAssignments(order: seq<int>, assignments: map<int, Assignment>,
                                  sections: map<int, Section>, enrollments: map<int, Enrollment>,
                                  email: string, year: int, semester: string): seq<int>
  {
    Filter(order, id =>
      && id in assignments
      && var secNo := assignments[id].sectionNo;
         && secNo in sections
         && sections[secNo].term.year == year
         && sections[secNo].term.semester == semester
         && exists e :: e in enrollments && enrollments[e].sectionNo == secNo
                        && enrollments[e].studentEmail == email)
  }

  /** A student's assignments of a term come in table order: a table split in two is listed part by part. */
  lemma StudentTermAssignmentsInOrder(a: seq<int>, b: seq<int>, assignments: map<int, Assignment>,
                                      sections: map<int, Section>, enrollments: map<int, Enrollment>,
                                      email: string, year: int, semester: string)
    ensures StudentTermAssignments(a + b, assignments, sections, enrollments, email, year, semester)
         == StudentTermAssignments(a, assignments, sections, enrollments, email, year, semester)
          + StudentTermAssignments(b, assignments, sections, enrollments, email, year, semester)
  {
    var keep := id =>
      && id in assignments
      && var secNo := assignments[id].sectionNo;
         && secNo in sections
         && sections[secNo].term.year == year
         && sections[secNo].term.semester == semester
         && exists e :: e in enrollments && enrollments[e].sectionNo == secNo
                        && enrollments[e].studentEmail == email;
    FilterConcat(a, b, keep);
  }

  /** The row a student sees for one assignment: the score of their own grade, or null. */
  function StudentRow(db: Store, id: int, principal: string): AssignmentStudentDTO
    reads db
    requires db.Valid() && id in db.assignments
  {
    var a := db.assignments[id];
    var s := db.sections[a.sectionNo];
    var g := FindGrade(db.gradeOrder, db.grades, db.enrollments, principal, id);
    AssignmentStudentDTO(id, a.title, a.dueDate, s.courseId, s.sectionId,
                         if g.None? then None else db.grades[g.value].score)
  }

  /**
   * GET /assignments?year&semester: one row per queried assignment, in query
   * order. A score appears only when the principal has a grade for that
   * assignment, and it is that grade's score; no grade is created.
   */
  function GetStudentAssignments(db: Store, principal: string, year: int, semester: string)
    : (r: seq<AssignmentStudentDTO>)
    reads db
    requires db.Valid()
    ensures var ids := StudentTermAssignments(db.assignmentOrder, db.assignments, db.sections,
                                              db.enrollments, principal, year, semester);
            && |r| == |ids|
            && forall i :: 0 <= i < |r| ==>
                 && ids[i] in db.assignments
                 && var a := db.assignments[ids[i]];
                    && r[i].assignmentId == ids[i]
                    && r[i].title == a.title
                    && r[i].dueDate == a.dueDate
                    && r[i].courseId == db.sections[a.sectionNo].courseId
                    && r[i].sectionId == db.sections[a.sectionNo].sectionId
                    && db.sections[a.sectionNo].term.year == year
                    && db.sections[a.sectionNo].term.semester == semester
                    && (r[i].score.Some? ==>
                          exists g :: GradeFor(db.grades, db.enrollments, g, principal, ids[i])
                                      && db.grades[g].score == r[i].score)
                    && (forall g :: GradeFor(db.grades, db.enrollments, g, principal, ids[i]) ==>
                          r[i].score == db.grades[g].score)
  {
    var ids := StudentTermAssignments(db.assignmentOrder, db.assignments, db.sections,
                                      db.enrollments, principal, year, semester);
    assert forall i :: 0 <= i < |ids| ==> ids[i] in db.assignments;
    seq(|ids|, i requires 0 <= i < |ids| && ids[i] in db.assignments && db.Valid() reads db =>
                 StudentRow(db, ids[i], principal))
  }
}
