/**
 * The grade endpoints: listing an assignment's grades creates the missing ones,
 * and a batch of scores is first validated as a whole, then written item by item
 * until the first item that cannot be written.
 */
module GradeController {
  import opened Common
  import opened Gradebook
  import opened EmailPattern

  const AssignmentNotFound := "Assignment not found"
  const GradeNotFound := "Grade not found"
  const NotOwner := "Instructor does not own this section"

  // ---------------------------------------------------------------------------
  // GET /assignments/{assignmentId}/grades

  /** The record for one enrolled student's grade on assignment `a` of section `s`. */
  function GradeRecord(e: Enrollment, a: Assignment, s: Section, g: Grade): GradeDTO
  {
    GradeDTO(g.gradeId, e.studentName, Some(e.studentEmail), a.title, s.courseId, s.sectionId, g.score)
  }

  /** Every student on the roster already has a grade for the assignment. */
  predicate Materialised(order: seq<int>, grades: map<int, Grade>, enrollments: map<int, Enrollment>,
                         roster: seq<int>, assignmentId: int)
  {
    forall i :: 0 <= i < |roster| ==>
      roster[i] in enrollments &&
      FindGrade(order, grades, enrollments, enrollments[roster[i]].studentEmail, assignmentId).Some?
  }

  /**
   * `records` is the listing of the assignment's grades: one record per roster
   * entry, in roster order, each built from the grade the search finds for
   * that student.
   */
  ghost predicate ListsRecords(records: seq<GradeDTO>, roster: seq<int>, order: seq<int>, grades: map<int, Grade>,
                               enrollments: map<int, Enrollment>, a: Assignment, s: Section, assignmentId: int)
  {
    && |records| == |roster|
    && forall i :: 0 <= i < |roster| ==>
         && roster[i] in enrollments
         && var found := FindGrade(order, grades, enrollments, enrollments[roster[i]].studentEmail, assignmentId);
            && found.Some?
            && records[i] == GradeRecord(enrollments[roster[i]], a, s, grades[found.value])
  }

  /** Changing a grade row that the search never visits does not change what it finds. */
  lemma {:induction false} FindGradeFrame(order: seq<int>, grades: map<int, Grade>,
                                          enrollments: map<int, Enrollment>,
                                          id: int, g: Grade, email: string, assignmentId: int)
    requires id !in order
    ensures FindGrade(order, grades[id := g], enrollments, email, assignmentId)
         == FindGrade(order, grades, enrollments, email, assignmentId)
  {
    if order != [] {
      FindGradeFrame(order[..|order| - 1], grades, enrollments, id, g, email, assignmentId);
    }
  }

  /** After a new grade row is appended, the search finds it for its own pair and nothing else changes. */
  lemma FindGradeAfterInsert(order: seq<int>, grades: map<int, Grade>, enrollments: map<int, Enrollment>,
                             id: int, g: Grade, email: string, assignmentId: int)
    requires id !in order
    ensures FindGrade(order + [id], grades[id := g], enrollments, email, assignmentId)
         == if GradeFor(grades[id := g], enrollments, id, email, assignmentId) then Some(id)
            else FindGrade(order, grades, enrollments, email, assignmentId)
  {
    assert (order + [id])[..|order|] == order;
    FindGradeFrame(order, grades, enrollments, id, g, email, assignmentId);
  }

  /**
   * Creating the missing grade of a student for an assignment keeps the grade
   * table listed and one grade per pair; the search now finds the new row for
   * that student and finds the same rows as before for everyone else.
   */
  lemma InsertMissingGrade(order: seq<int>, grades: map<int, Grade>, enrollments: map<int, Enrollment>,
                           id: int, enrollmentId: int, assignmentId: int)
    requires Lists(order, grades.Keys) && OneGradePerPair(grades, enrollments)
    requires id !in grades && enrollmentId in enrollments
    requires FindGrade(order, grades, enrollments, enrollments[enrollmentId].studentEmail, assignmentId).None?
    ensures var rows := grades[id := Grade(id, None, assignmentId, enrollmentId)];
            && Lists(order + [id], rows.Keys)
            && OneGradePerPair(rows, enrollments)
            && FindGrade(order + [id], rows, enrollments, enrollments[enrollmentId].studentEmail, assignmentId)
               == Some(id)
            && forall email :: email != enrollments[enrollmentId].studentEmail ==>
                 FindGrade(order + [id], rows, enrollments, email, assignmentId)
                 == FindGrade(order, grades, enrollments, email, assignmentId)
  {
    var g := Grade(id, None, assignmentId, enrollmentId);
    var rows := grades[id := g];
    var email := enrollments[enrollmentId].studentEmail;
    forall g1, g2, e, aid | GradeFor(rows, enrollments, g1, e, aid) && GradeFor(rows, enrollments, g2, e, aid)
      ensures g1 == g2
    {
      if (g1 == id) != (g2 == id) {
        assert false;
      } else if g1 != id {
        assert GradeFor(grades, enrollments, g1, e, aid) && GradeFor(grades, enrollments, g2, e, aid);
      }
    }
    FindGradeAfterInsert(order, grades, enrollments, id, g, email, assignmentId);
    forall other | other != email
      ensures FindGrade(order + [id], rows, enrollments, other, assignmentId)
           == FindGrade(order, grades, enrollments, other, assignmentId)
    {
      FindGradeAfterInsert(order, grades, enrollments, id, g, other, assignmentId);
    }
    assert id !in order;
  }

  /** In a valid grade table the search finds the pair's grade whenever there is one. */
  lemma FindGradeFinds(order: seq<int>, grades: map<int, Grade>, enrollments: map<int, Enrollment>,
                       nextId: int, g: int, email: string, assignmentId: int)
    requires GradeTable(grades, order, enrollments, nextId)
    requires GradeFor(grades, enrollments, g, email, assignmentId)
    ensures FindGrade(order, grades, enrollments, email, assignmentId) == Some(g)
  {
    assert g in order;
  }

  /**
   * One step of the listing loop, on the grade table: the grade of the student
   * of `enrollmentId` for the assignment, looked up by the student's email, or,
   * when there is none, created with the next id and a null score and linked to
   * that enrollment. Every other student's lookup is unaffected.
   */
  method GradeOfEnrollment(order: seq<int>, grades: map<int, Grade>, enrollments: map<int, Enrollment>,
                           nextId: int, enrollmentId: int, assignmentId: int)
    returns (order': seq<int>, grades': map<int, Grade>, nextId': int, id: int)
    requires GradeTable(grades, order, enrollments, nextId) && enrollmentId in enrollments
    requires assignmentId < nextId
    ensures GradeTable(grades', order', enrollments, nextId') && nextId <= nextId'
    ensures GradeFor(grades', enrollments, id, enrollments[enrollmentId].studentEmail, assignmentId)
    ensures forall g :: GradeFor(grades, enrollments, g, enrollments[enrollmentId].studentEmail, assignmentId) ==> g == id
    ensures id in grades ==> order' == order && grades' == grades && nextId' == nextId
    ensures id !in grades ==>
              && id == nextId && nextId' == nextId + 1
              && grades' == grades[id := Grade(id, None, assignmentId, enrollmentId)]
              && order' == order + [id]
    ensures forall g :: g in grades ==> g in grades' && grades'[g] == grades[g]
  {
    var found := FindGrade(order, grades, enrollments, enrollments[enrollmentId].studentEmail, assignmentId);
    if found.Some? {
      return order, grades, nextId, found.value;
    }
    id := nextId;
    InsertMissingGrade(order, grades, enrollments, id, enrollmentId, assignmentId);
    grades' := grades[id := Grade(id, None, assignmentId, enrollmentId)];
    order' := order + [id];
    nextId' := id + 1;
  }

  /**
   * What the listing loop has done after the first `i` roster entries, starting
   * from the grade table `grades`: existing rows are kept, every row it added has
   * a null score, this assignment and an enrollment of the roster, `ids[j]` is the
   * grade of the student of `roster[j]`, and `records[j]` is that grade's record.
   */
  ghost predicate CollectedUpTo(i: nat, roster: seq<int>, records: seq<GradeDTO>, ids: seq<int>,
                                grades: map<int, Grade>, grades': map<int, Grade>,
                                enrollments: map<int, Enrollment>, assignmentId: int, a: Assignment, s: Section)
  {
    && i <= |roster| && |records| == i && |ids| == i
    && (forall j :: 0 <= j < |roster| ==> roster[j] in enrollments)
    && (forall g :: g in grades ==> g in grades' && grades'[g] == grades[g])
    && (forall g :: g in grades' && g !in grades ==>
          grades'[g].score == None && grades'[g].assignmentId == assignmentId && grades'[g].enrollmentId in roster)
    && (forall j :: 0 <= j < i ==>
          GradeFor(grades', enrollments, ids[j], enrollments[roster[j]].studentEmail, assignmentId))
    && (forall j :: 0 <= j < i ==> records[j] == GradeRecord(enrollments[roster[j]], a, s, grades'[ids[j]]))
  }

  /** One turn of the listing loop keeps `CollectedUpTo`, one roster entry further on. */
  lemma CollectedStep(i: nat, roster: seq<int>, records: seq<GradeDTO>, ids: seq<int>,
                      grades: map<int, Grade>, rows: map<int, Grade>, rows': map<int, Grade>,
                      enrollments: map<int, Enrollment>, assignmentId: int, a: Assignment, s: Section, id: int)
    requires CollectedUpTo(i, roster, records, ids, grades, rows, enrollments, assignmentId, a, s) && i < |roster|
    requires GradeFor(rows', enrollments, id, enrollments[roster[i]].studentEmail, assignmentId)
    requires forall g :: g in rows ==> g in rows' && rows'[g] == rows[g]
    requires id !in rows ==> rows' == rows[id := Grade(id, None, assignmentId, roster[i])]
    requires id in rows ==> rows' == rows
    ensures CollectedUpTo(i + 1, roster, records + [GradeRecord(enrollments[roster[i]], a, s, rows'[id])],
                          ids + [id], grades, rows', enrollments, assignmentId, a, s)
  {
    var records', ids' := records + [GradeRecord(enrollments[roster[i]], a, s, rows'[id])], ids + [id];
    forall g | g in rows' && g !in grades
      ensures rows'[g].score == None && rows'[g].assignmentId == assignmentId && rows'[g].enrollmentId in roster
    {
      if g !in rows {
        assert g == id && roster[i] in roster;
      }
    }
    forall j | 0 <= j < i + 1
      ensures GradeFor(rows', enrollments, ids'[j], enrollments[roster[j]].studentEmail, assignmentId)
      ensures records'[j] == GradeRecord(enrollments[roster[j]], a, s, rows'[ids'[j]])
    {
      if j < i {
        assert ids'[j] == ids[j] && records'[j] == records[j];
        assert GradeFor(rows, enrollments, ids[j], enrollments[roster[j]].studentEmail, assignmentId);
      }
    }
  }

  /**
   * The listing loop on the grade table: for each enrollment of the roster, in
   * order, the record of that student's grade for the assignment, creating the
   * grade when it is missing. Existing grades are kept as they are.
   */
  method CollectGrades(roster: seq<int>, order: seq<int>, grades: map<int, Grade>,
                       enrollments: map<int, Enrollment>, nextId: int,
                       assignmentId: int, a: Assignment, s: Section)
    returns (records: seq<GradeDTO>, order': seq<int>, grades': map<int, Grade>, nextId': int)
    requires GradeTable(grades, order, enrollments, nextId) && assignmentId < nextId
    requires forall j :: 0 <= j < |roster| ==> roster[j] in enrollments
    ensures GradeTable(grades', order', enrollments, nextId') && nextId <= nextId'
    ensures forall g :: g in grades ==> g in grades' && grades'[g] == grades[g]
    ensures forall g :: g in grades' && g !in grades ==>
              grades'[g].score == None && grades'[g].assignmentId == assignmentId && grades'[g].enrollmentId in roster
    ensures Materialised(order', grades', enrollments, roster, assignmentId)
    ensures ListsRecords(records, roster, order', grades', enrollments, a, s, assignmentId)
    ensures Materialised(order, grades, enrollments, roster, assignmentId) ==>
              order' == order && grades' == grades && nextId' == nextId
  {
    ghost var wasMaterialised := Materialised(order, grades, enrollments, roster, assignmentId);
    records := [];
    ghost var ids: seq<int> := [];
    order', grades', nextId' := order, grades, nextId;
    var i := 0;
    while i < |roster|
      invariant CollectedUpTo(i, roster, records, ids, grades, grades', enrollments, assignmentId, a, s)
      invariant GradeTable(grades', order', enrollments, nextId') && nextId <= nextId'
      invariant wasMaterialised ==> order' == order && grades' == grades && nextId' == nextId
    {
      var e := enrollments[roster[i]];
      var id;
      if wasMaterialised {
        var found := FindGrade(order, grades, enrollments, e.studentEmail, assignmentId);
        assert found.Some? && GradeFor(grades, enrollments, found.value, e.studentEmail, assignmentId);
      }
      ghost var rows := grades';
      order', grades', nextId', id := GradeOfEnrollment(order', grades', enrollments, nextId', roster[i], assignmentId);
      CollectedStep(i, roster, records, ids, grades, rows, grades', enrollments, assignmentId, a, s, id);
      records := records + [GradeRecord(e, a, s, grades'[id])];
      ids := ids + [id];
      i := i + 1;
    }
    forall j | 0 <= j < |roster|
      ensures FindGrade(order', grades', enrollments, enrollments[roster[j]].studentEmail, assignmentId) == Some(ids[j])
    {
      FindGradeFinds(order', grades', enrollments, nextId', ids[j], enrollments[roster[j]].studentEmail, assignmentId);
    }
    assert ListsRecords(records, roster, order', grades', enrollments, a, s, assignmentId);
  }

  /** Saving a grade table that is consistent with the rest of the store, with the id counter advanced. */
  method WriteGradeTable(db: Store, order: seq<int>, rows: map<int, Grade>, next: int)
    requires db.Valid() && GradeTable(rows, order, db.enrollments, next) && db.nextId <= next
    modifies db
    ensures db.Valid() && db.gradeOrder == order && db.grades == rows && db.nextId == next
    ensures unchanged(db`sections, db`assignments, db`assignmentOrder, db`enrollments, db`enrollmentOrder, db`outbox)
    ensures (old(db.gradeOrder) == order && old(db.grades) == rows && old(db.nextId) == next) ==> unchanged(db)
  {
    AssignmentTableMonotone(db.assignments, db.assignmentOrder, db.sections, db.nextId, next);
    db.gradeOrder, db.grades, db.nextId := order, rows, next;
  }

  /**
   * The assignment must exist (else NOT_FOUND) and its section be the
   * principal's (else FORBIDDEN); neither failure writes anything. Then, for each
   * enrollment of the section in roster order, the grade of that student for
   * the assignment is looked up and, when missing, created with a null score.
   * Existing grades are never changed, so once every student has a grade the
   * call writes nothing.
   */
  method GetAssignmentGrades(db: Store, assignmentId: int, principal: string)
    returns (r: Response<seq<GradeDTO>>)
    requires db.Valid()
    modifies db
    ensures db.Valid()
    ensures assignmentId !in old(db.assignments) ==> r == NotFound(AssignmentNotFound)
    ensures (assignmentId in old(db.assignments) &&
             !old(OwnsAssignment(db.sections, db.assignments, assignmentId, principal))) ==> r == Forbidden(NotOwner)
    ensures r.Ok? <==> old(OwnsAssignment(db.sections, db.assignments, assignmentId, principal))
    ensures !r.Ok? ==> unchanged(db)
    ensures unchanged(db`sections, db`assignments, db`assignmentOrder, db`enrollments, db`enrollmentOrder, db`outbox)
    ensures forall g :: g in old(db.grades) ==> g in db.grades && db.grades[g] == old(db.grades)[g]
    ensures forall g :: g in db.grades && g !in old(db.grades) ==>
              && assignmentId in db.assignments
              && db.grades[g].score == None
              && db.grades[g].assignmentId == assignmentId
              && db.grades[g].enrollmentId in Roster(db.enrollmentOrder, db.enrollments, db.assignments[assignmentId].sectionNo)
    ensures r.Ok? ==>
              var a := db.assignments[assignmentId];
              var roster := Roster(db.enrollmentOrder, db.enrollments, a.sectionNo);
              && Materialised(db.gradeOrder, db.grades, db.enrollments, roster, assignmentId)
              && ListsRecords(r.value, roster, db.gradeOrder, db.grades, db.enrollments, a,
                              db.sections[a.sectionNo], assignmentId)
    ensures (old(OwnsAssignment(db.sections, db.assignments, assignmentId, principal)) &&
             old(Materialised(db.gradeOrder, db.grades, db.enrollments,
                              Roster(db.enrollmentOrder, db.enrollments, db.assignments[assignmentId].sectionNo),
                              assignmentId))) ==> unchanged(db)
  {
    if assignmentId !in db.assignments {
      return NotFound(AssignmentNotFound);
    }
    var a := db.assignments[assignmentId];
    if !Owns(db.sections, a.sectionNo, principal) {
      return Forbidden(NotOwner);
    }
    var s := db.sections[a.sectionNo];
    var roster := Roster(db.enrollmentOrder, db.enrollments, a.sectionNo);
    var records, order, rows, next :=
      CollectGrades(roster, db.gradeOrder, db.grades, db.enrollments, db.nextId, assignmentId, a, s);
    WriteGradeTable(db, order, rows, next);
    r := Ok(records);
  }

  // ---------------------------------------------------------------------------
  // PUT /grades, phase one: validation

  /** An item passes validation: a score is given and the email has the required shape. */
  predicate ItemValid(item: GradeDTO)
  {
    item.score.Some? && item.studentEmail.Some? && IsValidEmail(item.studentEmail.value)
  }

  /** The messages validation records for the item at index `i`. */
  function ItemErrors(i: nat, item: GradeDTO): seq<string>
  {
    (if item.score.None? then ["item " + NatToString(i) + ": score must not be null"] else [])
    + (if item.studentEmail.None? || !IsValidEmail(item.studentEmail.value)
       then ["item " + NatToString(i) + ": studentEmail must be a valid email"] else [])
  }

  /** The messages for the whole list, index by index. */
  function ValidationErrors(items: seq<GradeDTO>): seq<string>
  {
    if items == [] then []
    else ValidationErrors(items[..|items| - 1]) + ItemErrors(|items| - 1, items[|items| - 1])
  }

  /** Validation reports nothing exactly when every item is valid. */
  lemma {:induction false} ValidationErrorsEmptyIff(items: seq<GradeDTO>)
    ensures ValidationErrors(items) == [] <==> forall i :: 0 <= i < |items| ==> ItemValid(items[i])
  {
    if items != [] {
      var init := items[..|items| - 1];
      ValidationErrorsEmptyIff(init);
      assert forall i :: 0 <= i < |init| ==> init[i] == items[i];
    }
  }

  /** The validation loop: it reads the list and writes nothing. */
  method CollectErrors(items: seq<GradeDTO>) returns (errors: seq<string>)
    ensures errors == ValidationErrors(items)
  {
    errors := [];
    var i := 0;
    while i < |items|
      invariant 0 <= i <= |items|
      invariant errors == ValidationErrors(items[..i])
    {
      var item := items[i];
      if item.score.None? {
        errors := errors + ["item " + NatToString(i) + ": score must not be null"];
      }
      if item.studentEmail.None? || !IsValidEmail(item.studentEmail.value) {
        errors := errors + ["item " + NatToString(i) + ": studentEmail must be a valid email"];
      }
      assert items[..i + 1][..i] == items[..i];
      i := i + 1;
    }
    assert items[..i] == items;
  }

  // ---------------------------------------------------------------------------
  // PUT /grades, phase two: writing the scores

  /** The checks made on one item before its score is written, in order. */
  function ScoreItemCheck(grades: map<int, Grade>, assignments: map<int, Assignment>,
                          sections: map<int, Section>, principal: string, gradeId: int): Response<()>
  {
    if gradeId !in grades then NotFound(GradeNotFound)
    else if !OwnsAssignment(sections, assignments, grades[gradeId].assignmentId, principal) then Forbidden(NotOwner)
    else Ok(())
  }

  /** The index of the first item whose check fails, or the length when none does. */
  function ScoreStop(grades: map<int, Grade>, assignments: map<int, Assignment>,
                     sections: map<int, Section>, principal: string, items: seq<GradeDTO>): nat
  {
    FirstFailing(items, (item: GradeDTO) => ScoreItemCheck(grades, assignments, sections, principal, item.gradeId).Ok?)
  }

  /** The grades after writing each item's score in list order. */
  function ApplyScores(grades: map<int, Grade>, items: seq<GradeDTO>): (r: map<int, Grade>)
    ensures r.Keys == grades.Keys
    ensures forall g :: g in grades ==> r[g] == grades[g].(score := r[g].score)
  {
    if items == [] then grades
    else
      var before := ApplyScores(grades, items[..|items| - 1]);
      var last := items[|items| - 1];
      if last.gradeId in before then before[last.gradeId := before[last.gradeId].(score := last.score)]
      else before
  }

  /** The score of the last item that names `gradeId`, if any does. */
  function LastScore(items: seq<GradeDTO>, gradeId: int): Option<Option<int>>
  {
    if items == [] then None
    else if items[|items| - 1].gradeId == gradeId then Some(items[|items| - 1].score)
    else LastScore(items[..|items| - 1], gradeId)
  }

  /** Writing a list of scores: the last item naming a grade decides it; unnamed grades keep theirs. */
  lemma {:induction false} ApplyScoresLastWins(grades: map<int, Grade>, items: seq<GradeDTO>, g: int)
    requires g in grades
    ensures ApplyScores(grades, items)[g].score ==
              match LastScore(items, g)
              case Some(score) => score
              case None => grades[g].score
  {
    if items != [] {
      ApplyScoresLastWins(grades, items[..|items| - 1], g);
    }
  }

  /** Changing scores only keeps the grade table's invariant: it never looks at scores. */
  lemma ScoresKeepTable(grades: map<int, Grade>, rows: map<int, Grade>, order: seq<int>,
                        enrollments: map<int, Enrollment>, nextId: int)
    requires GradeTable(grades, order, enrollments, nextId)
    requires rows.Keys == grades.Keys
    requires forall g :: g in grades ==> rows[g] == grades[g].(score := rows[g].score)
    ensures GradeTable(rows, order, enrollments, nextId)
  {
    forall g, email, aid ensures GradeFor(rows, enrollments, g, email, aid) == GradeFor(grades, enrollments, g, email, aid) {
    }
  }

  /** Saving grades whose scores alone have changed. */
  method WriteScores(db: Store, rows: map<int, Grade>)
    requires db.Valid()
    requires rows.Keys == db.grades.Keys
    requires forall g :: g in db.grades ==> rows[g] == db.grades[g].(score := rows[g].score)
    modifies db
    ensures db.Valid() && db.grades == rows
    ensures unchanged(db`sections, db`assignments, db`assignmentOrder, db`enrollments, db`enrollmentOrder,
                      db`gradeOrder, db`nextId, db`outbox)
  {
    ScoresKeepTable(db.grades, rows, db.gradeOrder, db.enrollments, db.nextId);
    db.grades := rows;
  }

  /** The loop stops at `k` when every item before it passes and the one at `k` (if any) fails. */
  lemma ScoreStopAt(grades: map<int, Grade>, assignments: map<int, Assignment>,
                    sections: map<int, Section>, principal: string, items: seq<GradeDTO>, k: nat)
    requires k <= |items|
    requires forall j :: 0 <= j < k ==> ScoreItemCheck(grades, assignments, sections, principal, items[j].gradeId).Ok?
    requires k < |items| ==> !ScoreItemCheck(grades, assignments, sections, principal, items[k].gradeId).Ok?
    ensures ScoreStop(grades, assignments, sections, principal, items) == k
  {
  }

  /**
   * The update loop on the grade table: items are handled in list order; a
   * missing grade is NOT_FOUND and a grade of someone else's section FORBIDDEN,
   * and the loop stops there. The scores of all items before that one are
   * written; nothing from it onward is.
   */
  method ScoreLoop(grades: map<int, Grade>, assignments: map<int, Assignment>, sections: map<int, Section>,
                   principal: string, items: seq<GradeDTO>)
    returns (rows: map<int, Grade>, r: Response<()>)
    ensures var k := ScoreStop(grades, assignments, sections, principal, items);
            && rows == ApplyScores(grades, items[..k])
            && r == if k == |items| then Ok(())
                    else ScoreItemCheck(grades, assignments, sections, principal, items[k].gradeId)
  {
    rows := grades;
    var i := 0;
    while i < |items|
      invariant 0 <= i <= |items|
      invariant rows == ApplyScores(grades, items[..i])
      invariant forall j :: 0 <= j < i ==> ScoreItemCheck(grades, assignments, sections, principal, items[j].gradeId).Ok?
    {
      var item := items[i];
      if item.gradeId !in rows {
        ScoreStopAt(grades, assignments, sections, principal, items, i);
        return rows, NotFound(GradeNotFound);
      }
      var grade := rows[item.gradeId];
      if !OwnsAssignment(sections, assignments, grade.assignmentId, principal) {
        ScoreStopAt(grades, assignments, sections, principal, items, i);
        return rows, Forbidden(NotOwner);
      }
      rows := rows[item.gradeId := grade.(score := item.score)];
      assert items[..i + 1][..i] == items[..i];
      i := i + 1;
    }
    assert items[..i] == items;
    ScoreStopAt(grades, assignments, sections, principal, items, i);
    r := Ok(());
  }

  /**
   * PUT /grades: every item is validated first, and any error rejects the
   * whole list with BAD_REQUEST and writes nothing. Then the update loop runs;
   * each grade's score is saved as it is reached, so a failing item leaves the
   * scores before it written. Only the score field of grades changes.
   */
  method UpdateGrades(db: Store, items: seq<GradeDTO>, principal: string) returns (r: Response<()>)
    requires db.Valid()
    modifies db
    ensures db.Valid()
    ensures ValidationErrors(items) != [] ==> r == BadRequest(ValidationErrors(items)) && unchanged(db)
    ensures ValidationErrors(items) == [] ==>
              var k := ScoreStop(old(db.grades), old(db.assignments), old(db.sections), principal, items);
              && db.grades == ApplyScores(old(db.grades), items[..k])
              && r == if k == |items| then Ok(())
                      else ScoreItemCheck(old(db.grades), old(db.assignments), old(db.sections),
                                          principal, items[k].gradeId)
    ensures unchanged(db`sections, db`assignments, db`assignmentOrder, db`enrollments, db`enrollmentOrder,
                      db`gradeOrder, db`nextId, db`outbox)
  {
    var errors := CollectErrors(items);
    if errors != [] {
      return BadRequest(errors);
    }
    var rows;
    rows, r := ScoreLoop(db.grades, db.assignments, db.sections, principal, items);
    WriteScores(db, rows);
  }

  // ---------------------------------------------------------------------------
  // Properties across calls

  /** The search never looks at scores, so writing scores does not change what it finds. */
  lemma {:induction false} FindGradeIgnoresScores(order: seq<int>, grades: map<int, Grade>, rows: map<int, Grade>,
                                                  enrollments: map<int, Enrollment>, email: string, assignmentId: int)
    requires rows.Keys == grades.Keys
    requires forall g :: g in grades ==> rows[g] == grades[g].(score := rows[g].score)
    ensures FindGrade(order, rows, enrollments, email, assignmentId)
         == FindGrade(order, grades, enrollments, email, assignmentId)
  {
    if order != [] {
      FindGradeIgnoresScores(order[..|order| - 1], grades, rows, enrollments, email, assignmentId);
      var last := order[|order| - 1];
      assert GradeFor(rows, enrollments, last, email, assignmentId)
          == GradeFor(grades, enrollments, last, email, assignmentId);
    }
  }

  /** When exactly one item names a grade, that item's score is the one written. */
  lemma {:induction false} LastScoreOfOnly(items: seq<GradeDTO>, i: nat, gradeId: int)
    requires i < |items| && items[i].gradeId == gradeId
    requires forall j :: 0 <= j < |items| && j != i ==> items[j].gradeId != gradeId
    ensures LastScore(items, gradeId) == Some(items[i].score)
  {
    if i < |items| - 1 {
      var init := items[..|items| - 1];
      assert forall j :: 0 <= j < |init| ==> init[j] == items[j];
      LastScoreOfOnly(init, i, gradeId);
    }
  }

  /** The list an instructor sends back: the listed grades, each with a new score. */
  function Rescored(listed: seq<GradeDTO>, scores: seq<int>): seq<GradeDTO>
    requires |listed| == |scores|
  {
    seq(|listed|, i requires 0 <= i < |listed| => listed[i].(score := Some(scores[i])))
  }

  /** `listed` names, index by index, the grade the search finds for each student on `roster`. */
  ghost predicate ListsGradesOf(listed: seq<GradeDTO>, roster: seq<int>, order: seq<int>, grades: map<int, Grade>,
                                enrollments: map<int, Enrollment>, assignmentId: int)
  {
    && |listed| == |roster|
    && forall i :: 0 <= i < |roster| ==>
         && roster[i] in enrollments
         && listed[i].studentEmail == Some(enrollments[roster[i]].studentEmail)
         && FindGrade(order, grades, enrollments, enrollments[roster[i]].studentEmail, assignmentId)
            == Some(listed[i].gradeId)
  }

  /**
   * Sending back a listing with new scores: validation passes when every email
   * has the required shape, every item passes the ownership checks, and, when no
   * student is listed twice, each listed grade ends up with the score sent for it.
   */
  lemma RescoredListing(grades: map<int, Grade>, order: seq<int>, enrollments: map<int, Enrollment>, nextId: int,
                        assignments: map<int, Assignment>, sections: map<int, Section>, principal: string,
                        roster: seq<int>, listed: seq<GradeDTO>, scores: seq<int>, assignmentId: int)
    requires GradeTable(grades, order, enrollments, nextId)
    requires OwnsAssignment(sections, assignments, assignmentId, principal)
    requires ListsGradesOf(listed, roster, order, grades, enrollments, assignmentId) && |scores| == |listed|
    requires RescorableRoster(roster, enrollments)
    ensures ValidationErrors(Rescored(listed, scores)) == []
    ensures ScoreStop(grades, assignments, sections, principal, Rescored(listed, scores)) == |listed|
    ensures forall i :: 0 <= i < |listed| ==>
              && listed[i].gradeId in grades
              && ApplyScores(grades, Rescored(listed, scores))[listed[i].gradeId].score == Some(scores[i])
  {
    var items := Rescored(listed, scores);
    ValidationErrorsEmptyIff(items);
    forall i | 0 <= i < |items|
      ensures listed[i].gradeId in grades && grades[listed[i].gradeId].assignmentId == assignmentId
    {
      assert GradeFor(grades, enrollments, listed[i].gradeId, enrollments[roster[i]].studentEmail, assignmentId);
    }
    ScoreStopAt(grades, assignments, sections, principal, items, |items|);
    forall i | 0 <= i < |items|
      ensures ApplyScores(grades, items)[listed[i].gradeId].score == Some(scores[i])
    {
      forall j | 0 <= j < |items| && j != i
        ensures items[j].gradeId != listed[i].gradeId
      {
        assert GradeFor(grades, enrollments, listed[j].gradeId, enrollments[roster[j]].studentEmail, assignmentId);
        assert GradeFor(grades, enrollments, listed[i].gradeId, enrollments[roster[i]].studentEmail, assignmentId);
      }
      LastScoreOfOnly(items, i, listed[i].gradeId);
      ApplyScoresLastWins(grades, items, listed[i].gradeId);
    }
  }

  /**
   * Listing again after the scores were written: the new listing names, index by
   * index, the same grade and the same student as the listing that was rescored,
   * now with the score that was sent for it.
   */
  lemma RelistAfterRescore(listed: seq<GradeDTO>, records: seq<GradeDTO>, roster: seq<int>, order: seq<int>,
                           grades: map<int, Grade>, enrollments: map<int, Enrollment>, nextId: int,
                           a: Assignment, s: Section, assignmentId: int, scores: seq<int>)
    requires GradeTable(grades, order, enrollments, nextId)
    requires ListsGradesOf(listed, roster, order, grades, enrollments, assignmentId) && |scores| == |listed|
    requires forall i :: 0 <= i < |listed| ==> listed[i].gradeId in grades && grades[listed[i].gradeId].score == Some(scores[i])
    requires ListsRecords(records, roster, order, grades, enrollments, a, s, assignmentId)
    ensures forall i :: 0 <= i < |scores| ==>
              && records[i].gradeId == listed[i].gradeId
              && records[i].studentEmail == listed[i].studentEmail
              && records[i].score == Some(scores[i])
  {
    forall i | 0 <= i < |scores|
      ensures records[i].gradeId == listed[i].gradeId && records[i].score == Some(scores[i])
    {
      assert grades[listed[i].gradeId].gradeId == listed[i].gradeId;
    }
  }

  /** Every student on the roster has an email the score update accepts, and no two share one. */
  ghost predicate RescorableRoster(roster: seq<int>, enrollments: map<int, Enrollment>)
  {
    && (forall i :: 0 <= i < |roster| ==> roster[i] in enrollments && IsValidEmail(enrollments[roster[i]].studentEmail))
    && (forall i, j :: 0 <= i < j < |roster| ==>
          enrollments[roster[i]].studentEmail != enrollments[roster[j]].studentEmail)
  }

  /**
   * Sending a listing back with new scores: the update succeeds, the grade table
   * keeps its rows and order, so the listing still names the grade the search
   * finds for each student, and each listed grade now holds the score sent.
   */
  method SendRescored(db: Store, assignmentId: int, principal: string, ghost roster: seq<int>,
                      listed: seq<GradeDTO>, scores: seq<int>)
    requires db.Valid() && OwnsAssignment(db.sections, db.assignments, assignmentId, principal)
    requires ListsGradesOf(listed, roster, db.gradeOrder, db.grades, db.enrollments, assignmentId)
    requires RescorableRoster(roster, db.enrollments) && |scores| == |listed|
    modifies db
    ensures db.Valid()
    ensures unchanged(db`sections, db`assignments, db`assignmentOrder, db`enrollments, db`enrollmentOrder,
                      db`gradeOrder, db`nextId, db`outbox)
    ensures ListsGradesOf(listed, roster, db.gradeOrder, db.grades, db.enrollments, assignmentId)
    ensures forall i :: 0 <= i < |listed| ==>
              listed[i].gradeId in db.grades && db.grades[listed[i].gradeId].score == Some(scores[i])
  {
    ghost var grades0 := db.grades;
    RescoredListing(db.grades, db.gradeOrder, db.enrollments, db.nextId, db.assignments, db.sections, principal,
                    roster, listed, scores, assignmentId);
    var items := Rescored(listed, scores);
    var r := UpdateGrades(db, items, principal);
    assert items[..|items|] == items;
    assert db.grades == ApplyScores(grades0, items);
    forall i | 0 <= i < |roster|
      ensures FindGrade(db.gradeOrder, db.grades, db.enrollments, db.enrollments[roster[i]].studentEmail, assignmentId)
           == Some(listed[i].gradeId)
    {
      FindGradeIgnoresScores(db.gradeOrder, grades0, db.grades, db.enrollments,
                             db.enrollments[roster[i]].studentEmail, assignmentId);
    }
  }

  /**
   * Listing again once the scores were written: the listing answers, index by
   * index, with the grade and the student of the listing that was sent back, and
   * with the score that was sent for that grade.
   */
  method Relist(db: Store, assignmentId: int, principal: string, ghost roster: seq<int>,
                ghost listed: seq<GradeDTO>, ghost scores: seq<int>)
    returns (r: Response<seq<GradeDTO>>)
    requires db.Valid() && OwnsAssignment(db.sections, db.assignments, assignmentId, principal)
    requires roster == Roster(db.enrollmentOrder, db.enrollments, db.assignments[assignmentId].sectionNo)
    requires ListsGradesOf(listed, roster, db.gradeOrder, db.grades, db.enrollments, assignmentId)
    requires |scores| == |listed|
    requires forall i :: 0 <= i < |listed| ==>
               listed[i].gradeId in db.grades && db.grades[listed[i].gradeId].score == Some(scores[i])
    modifies db
    ensures r.Ok? && |r.value| == |scores|
    ensures forall i :: 0 <= i < |scores| ==>
              && r.value[i].gradeId == listed[i].gradeId
              && r.value[i].studentEmail == listed[i].studentEmail
              && r.value[i].score == Some(scores[i])
  {
    assert Materialised(db.gradeOrder, db.grades, db.enrollments, roster, assignmentId);
    r := GetAssignmentGrades(db, assignmentId, principal);
    RelistAfterRescore(listed, r.value, roster, db.gradeOrder, db.grades, db.enrollments, db.nextId,
                       db.assignments[assignmentId], db.sections[db.assignments[assignmentId].sectionNo],
                       assignmentId, scores);
  }

  /**
   * The round trip an instructor makes: list an assignment's grades, send the
   * same list back with new scores, and list again. The second list holds the
   * same grades, for the same students and in the same order, with the scores
   * that were sent. Every student's email must pass the score update's
   * validation, and no student may be on the roster twice.
   */
  method ScoreRoundTrip(db: Store, assignmentId: int, principal: string, scores: seq<int>)
    returns (first: Response<seq<GradeDTO>>, second: Response<seq<GradeDTO>>)
    requires db.Valid() && OwnsAssignment(db.sections, db.assignments, assignmentId, principal)
    requires var roster := Roster(db.enrollmentOrder, db.enrollments, db.assignments[assignmentId].sectionNo);
             RescorableRoster(roster, db.enrollments) && |scores| == |roster|
    modifies db
    ensures first.Ok? && second.Ok? && |first.value| == |scores| && |second.value| == |scores|
    ensures forall i :: 0 <= i < |scores| ==>
              && second.value[i].gradeId == first.value[i].gradeId
              && second.value[i].studentEmail == first.value[i].studentEmail
              && second.value[i].score == Some(scores[i])
  {
    ghost var roster := Roster(db.enrollmentOrder, db.enrollments, db.assignments[assignmentId].sectionNo);
    first := GetAssignmentGrades(db, assignmentId, principal);
    assert ListsGradesOf(first.value, roster, db.gradeOrder, db.grades, db.enrollments, assignmentId);
    SendRescored(db, assignmentId, principal, roster, first.value, scores);
    second := Relist(db, assignmentId, principal, roster, first.value, scores);
  }
}
