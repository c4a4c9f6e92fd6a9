/**
 * The enrollment endpoints: an instructor lists a section's enrollments with
 * their final grades, and posts final grades in a batch, each of which is saved
 * and announced to the registrar service before the next one is looked at.
 */
module EnrollmentController {
  import opened Common
  import opened Dates
  import opened Gradebook

  const SectionNotFound := "Section not found"
  const NotAuthorizedToView := "Not authorized to view this section"
  const NotAuthorized := "Not authorized for this section"
  const EnrollmentNotFound := "Enrollment not found"
  /** The event kind of the message sent to the registrar for each saved grade. */
  const UpdateEnrollment := "updateEnrollment"

  // ---------------------------------------------------------------------------
  // GET /sections/{sectionNo}/enrollments

  /** The record of enrollment `e` in section `s`. */
  function EnrollmentRecord(e: Enrollment, s: Section): EnrollmentDTO
  {
    EnrollmentDTO(e.enrollmentId, e.grade, e.studentId, e.studentName, e.studentEmail,
                  s.courseId, s.sectionId, s.sectionNo, s.term.year, s.term.semester)
  }

  /**
   * A missing section is NOT_FOUND and someone else's section FORBIDDEN;
   * otherwise one record per enrollment of the section, in roster order, each
   * carrying the enrollment's current final grade. Nothing is written.
   */
  method GetEnrollments(db: Store, sectionNo: int, principal: string) returns (r: Response<seq<EnrollmentDTO>>)
    requires db.Valid()
    ensures sectionNo !in db.sections ==> r == NotFound(SectionNotFound)
    ensures (sectionNo in db.sections && db.sections[sectionNo].instructorEmail != principal) ==>
              r == Forbidden(NotAuthorizedToView)
    ensures r.Ok? <==> Owns(db.sections, sectionNo, principal)
    ensures r.Ok? ==>
              var roster := Roster(db.enrollmentOrder, db.enrollments, sectionNo);
              && |r.value| == |roster|
              && forall i :: 0 <= i < |roster| ==>
                   r.value[i] == EnrollmentRecord(db.enrollments[roster[i]], db.sections[sectionNo])
    ensures r.Ok? ==>
              && (forall i :: 0 <= i < |r.value| ==>
                    && r.value[i].enrollmentId in db.enrollments
                    && db.enrollments[r.value[i].enrollmentId].sectionNo == sectionNo
                    && r.value[i].grade == db.enrollments[r.value[i].enrollmentId].grade)
              && (forall e :: e in db.enrollments && db.enrollments[e].sectionNo == sectionNo ==>
                    exists i :: 0 <= i < |r.value| && r.value[i].enrollmentId == e)
              && (forall i, j :: 0 <= i < j < |r.value| ==> r.value[i].enrollmentId != r.value[j].enrollmentId)
  {
    if sectionNo !in db.sections {
      return NotFound(SectionNotFound);
    }
    var section := db.sections[sectionNo];
    if section.instructorEmail != principal {
      return Forbidden(NotAuthorizedToView);
    }
    var roster := Roster(db.enrollmentOrder, db.enrollments, sectionNo);
    var result: seq<EnrollmentDTO> := [];
    var i := 0;
    while i < |roster|
      invariant 0 <= i <= |roster| && |result| == i
      invariant forall j :: 0 <= j < i ==>
                  roster[j] in db.enrollments && result[j] == EnrollmentRecord(db.enrollments[roster[j]], section)
    {
      result := result + [EnrollmentRecord(db.enrollments[roster[i]], section)];
      i := i + 1;
    }
    forall e | e in db.enrollments && db.enrollments[e].sectionNo == sectionNo
      ensures exists i :: 0 <= i < |result| && result[i].enrollmentId == e
    {
      assert e in db.enrollmentOrder;
      var k :| 0 <= k < |roster| && roster[k] == e;
      assert result[k].enrollmentId == e;
    }
    r := Ok(result);
  }

  // ---------------------------------------------------------------------------
  // PUT /enrollments

  /** The checks made on one item before its grade is saved, in order. */
  function EnrollmentCheck(sections: map<int, Section>, enrollments: map<int, Enrollment>,
                           principal: string, item: EnrollmentDTO): Response<()>
  {
    if item.sectionNo !in sections then NotFound(SectionNotFound)
    else if sections[item.sectionNo].instructorEmail != principal then Forbidden(NotAuthorized)
    else if item.enrollmentId !in enrollments then NotFound(EnrollmentNotFound)
    else Ok(())
  }

  /** The index of the first item whose check fails, or the length when none does. */
  function EnrollmentStop(sections: map<int, Section>, enrollments: map<int, Enrollment>,
                          principal: string, items: seq<EnrollmentDTO>): nat
  {
    FirstFailing(items, (item: EnrollmentDTO) => EnrollmentCheck(sections, enrollments, principal, item).Ok?)
  }

  /** The enrollments after saving each item's grade in list order. */
  function ApplyLetterGrades(enrollments: map<int, Enrollment>, items: seq<EnrollmentDTO>): (r: map<int, Enrollment>)
    ensures r.Keys == enrollments.Keys
    ensures forall e :: e in enrollments ==> r[e] == enrollments[e].(grade := r[e].grade)
  {
    if items == [] then enrollments
    else
      var before := ApplyLetterGrades(enrollments, items[..|items| - 1]);
      var last := items[|items| - 1];
      if last.enrollmentId in before then before[last.enrollmentId := before[last.enrollmentId].(grade := last.grade)]
      else before
  }

  /** The grade of the last item that names `enrollmentId`, if any does. */
  function LastLetter(items: seq<EnrollmentDTO>, enrollmentId: int): Option<Option<string>>
  {
    if items == [] then None
    else if items[|items| - 1].enrollmentId == enrollmentId then Some(items[|items| - 1].grade)
    else LastLetter(items[..|items| - 1], enrollmentId)
  }

  /** Saving a list of grades: the last item naming an enrollment decides it; others keep theirs. */
  lemma {:induction false} ApplyLetterGradesLastWins(enrollments: map<int, Enrollment>,
                                                     items: seq<EnrollmentDTO>, e: int)
    requires e in enrollments
    ensures ApplyLetterGrades(enrollments, items)[e].grade ==
              match LastLetter(items, e)
              case Some(grade) => grade
              case None => enrollments[e].grade
  {
    if items != [] {
      ApplyLetterGradesLastWins(enrollments, items[..|items| - 1], e);
    }
  }

  /** The registrar messages for a list of saved items, one per item, in order. */
  function Notices(items: seq<EnrollmentDTO>): seq<Notification>
  {
    seq(|items|, i requires 0 <= i < |items| => Notification(UpdateEnrollment, items[i]))
  }

  lemma NoticesAppend(items: seq<EnrollmentDTO>, i: nat)
    requires i < |items|
    ensures Notices(items[..i + 1]) == Notices(items[..i]) + [Notification(UpdateEnrollment, items[i])]
  {
  }

  /** The loop stops at `k` when every item before it passes and the one at `k` (if any) fails. */
  lemma EnrollmentStopAt(sections: map<int, Section>, enrollments: map<int, Enrollment>,
                         principal: string, items: seq<EnrollmentDTO>, k: nat)
    requires k <= |items|
    requires forall j :: 0 <= j < k ==> EnrollmentCheck(sections, enrollments, principal, items[j]).Ok?
    requires k < |items| ==> !EnrollmentCheck(sections, enrollments, principal, items[k]).Ok?
    ensures EnrollmentStop(sections, enrollments, principal, items) == k
  {
  }

  /** Changing final grades only keeps every table's invariant: none of them looks at grades. */
  lemma LettersKeepTables(enrollments: map<int, Enrollment>, rows: map<int, Enrollment>, order: seq<int>,
                          sections: map<int, Section>, grades: map<int, Grade>, gradeOrder: seq<int>, nextId: int)
    requires EnrollmentTable(enrollments, order, sections) && GradeTable(grades, gradeOrder, enrollments, nextId)
    requires rows.Keys == enrollments.Keys
    requires forall e :: e in enrollments ==> rows[e] == enrollments[e].(grade := rows[e].grade)
    ensures EnrollmentTable(rows, order, sections) && GradeTable(grades, gradeOrder, rows, nextId)
  {
    forall g, email, aid ensures GradeFor(grades, rows, g, email, aid) == GradeFor(grades, enrollments, g, email, aid) {
    }
  }

  /** Saving enrollments whose final grades alone have changed, and the messages sent for them. */
  method WriteLetters(db: Store, rows: map<int, Enrollment>, ghost sent: seq<Notification>)
    requires db.Valid()
    requires rows.Keys == db.enrollments.Keys
    requires forall e :: e in db.enrollments ==> rows[e] == db.enrollments[e].(grade := rows[e].grade)
    modifies db
    ensures db.Valid() && db.enrollments == rows && db.outbox == old(db.outbox) + sent
    ensures unchanged(db`sections, db`assignments, db`assignmentOrder, db`enrollmentOrder,
                      db`grades, db`gradeOrder, db`nextId)
  {
    LettersKeepTables(db.enrollments, rows, db.enrollmentOrder, db.sections, db.grades, db.gradeOrder, db.nextId);
    db.enrollments := rows;
    db.outbox := db.outbox + sent;
  }

  /**
   * The update loop on the enrollment table: items are handled in list order; a
   * missing section is NOT_FOUND, a section that is not the principal's
   * FORBIDDEN, a missing enrollment NOT_FOUND, and the loop stops there. Every
   * item before that one has its grade written and its message queued; nothing
   * from it onward has.
   */
  method LetterLoop(sections: map<int, Section>, enrollments: map<int, Enrollment>, principal: string,
                    items: seq<EnrollmentDTO>)
    returns (rows: map<int, Enrollment>, sent: seq<Notification>, r: Response<()>)
    ensures var k := EnrollmentStop(sections, enrollments, principal, items);
            && rows == ApplyLetterGrades(enrollments, items[..k])
            && sent == Notices(items[..k])
            && r == if k == |items| then Ok(())
                    else EnrollmentCheck(sections, enrollments, principal, items[k])
  {
    rows, sent := enrollments, [];
    var i := 0;
    while i < |items|
      invariant 0 <= i <= |items|
      invariant rows == ApplyLetterGrades(enrollments, items[..i])
      invariant sent == Notices(items[..i])
      invariant forall j :: 0 <= j < i ==> EnrollmentCheck(sections, enrollments, principal, items[j]).Ok?
    {
      var item := items[i];
      if item.sectionNo !in sections {
        EnrollmentStopAt(sections, enrollments, principal, items, i);
        return rows, sent, NotFound(SectionNotFound);
      }
      if sections[item.sectionNo].instructorEmail != principal {
        EnrollmentStopAt(sections, enrollments, principal, items, i);
        return rows, sent, Forbidden(NotAuthorized);
      }
      if item.enrollmentId !in rows {
        EnrollmentStopAt(sections, enrollments, principal, items, i);
        return rows, sent, NotFound(EnrollmentNotFound);
      }
      rows := rows[item.enrollmentId := rows[item.enrollmentId].(grade := item.grade)];
      sent := sent + [Notification(UpdateEnrollment, item)];
      NoticesAppend(items, i);
      assert items[..i + 1][..i] == items[..i];
      forall j | 0 <= j < i + 1
        ensures EnrollmentCheck(sections, enrollments, principal, items[j]).Ok?
      {
        if j == i {
          assert items[j] == item;
        }
      }
      i := i + 1;
    }
    assert items[..i] == items;
    EnrollmentStopAt(sections, enrollments, principal, items, i);
    r := Ok(());
  }

  /**
   * PUT /enrollments: the update loop runs on the enrollment table; each grade
   * is saved and its message sent to the registrar as the item is reached, so a
   * failing item leaves the items before it saved and announced. Only final
   * grades change.
   */
  method UpdateEnrollmentGrade(db: Store, items: seq<EnrollmentDTO>, principal: string) returns (r: Response<()>)
    requires db.Valid()
    modifies db
    ensures db.Valid()
    ensures var k := EnrollmentStop(old(db.sections), old(db.enrollments), principal, items);
            && db.enrollments == ApplyLetterGrades(old(db.enrollments), items[..k])
            && db.outbox == old(db.outbox) + Notices(items[..k])
            && r == if k == |items| then Ok(())
                    else EnrollmentCheck(old(db.sections), old(db.enrollments), principal, items[k])
    ensures unchanged(db`sections, db`assignments, db`assignmentOrder, db`enrollmentOrder,
                      db`grades, db`gradeOrder, db`nextId)
  {
    var rows, sent;
    rows, sent, r := LetterLoop(db.sections, db.enrollments, principal, items);
    WriteLetters(db, rows, sent);
  }

  // ---------------------------------------------------------------------------
  // Properties

  /** Changing final grades only does not change which enrollments are on a section's roster. */
  lemma {:induction false} RosterIgnoresLetters(order: seq<int>, enrollments: map<int, Enrollment>,
                                                rows: map<int, Enrollment>, sectionNo: int)
    requires rows.Keys == enrollments.Keys
    requires forall e :: e in enrollments ==> rows[e] == enrollments[e].(grade := rows[e].grade)
    ensures Roster(order, rows, sectionNo) == Roster(order, enrollments, sectionNo)
  {
    if order != [] {
      RosterIgnoresLetters(order[1..], enrollments, rows, sectionNo);
    }
  }

  /** When every item carries the same grade, any enrollment an item names ends up with that grade. */
  lemma {:induction false} LastLetterUniform(items: seq<EnrollmentDTO>, e: int, k: nat, letter: Option<string>)
    requires k < |items| && items[k].enrollmentId == e
    requires forall i :: 0 <= i < |items| ==> items[i].grade == letter
    ensures LastLetter(items, e) == Some(letter)
  {
    if items[|items| - 1].enrollmentId != e {
      var init := items[..|items| - 1];
      assert forall i :: 0 <= i < |init| ==> init[i] == items[i];
      LastLetterUniform(init, e, k, letter);
    }
  }

  /** The list an instructor sends back: the listed enrollments, each with the same new grade. */
  function Regraded(listed: seq<EnrollmentDTO>, letter: Option<string>): seq<EnrollmentDTO>
  {
    seq(|listed|, i requires 0 <= i < |listed| => listed[i].(grade := letter))
  }

  /**
   * Sending a section's listing back with one grade for everybody: every item
   * passes the checks, the roster is unchanged, and every listed enrollment now
   * holds that grade.
   */
  lemma RegradedListing(sections: map<int, Section>, enrollments: map<int, Enrollment>, order: seq<int>,
                        sectionNo: int, principal: string, listed: seq<EnrollmentDTO>, letter: Option<string>)
    requires SectionTable(sections) && EnrollmentTable(enrollments, order, sections)
    requires Owns(sections, sectionNo, principal)
    requires var roster := Roster(order, enrollments, sectionNo);
             && |listed| == |roster|
             && forall i :: 0 <= i < |roster| ==>
                  roster[i] in enrollments && listed[i] == EnrollmentRecord(enrollments[roster[i]], sections[sectionNo])
    ensures EnrollmentStop(sections, enrollments, principal, Regraded(listed, letter)) == |listed|
    ensures var rows := ApplyLetterGrades(enrollments, Regraded(listed, letter));
            && Roster(order, rows, sectionNo) == Roster(order, enrollments, sectionNo)
            && forall i :: 0 <= i < |listed| ==> listed[i].enrollmentId in rows && rows[listed[i].enrollmentId].grade == letter
  {
    var items := Regraded(listed, letter);
    forall j | 0 <= j < |items|
      ensures EnrollmentCheck(sections, enrollments, principal, items[j]).Ok?
    {
      var roster := Roster(order, enrollments, sectionNo);
      assert enrollments[roster[j]].enrollmentId == roster[j];
      assert items[j].sectionNo == sectionNo && items[j].enrollmentId in enrollments;
    }
    EnrollmentStopAt(sections, enrollments, principal, items, |items|);
    var rows := ApplyLetterGrades(enrollments, items);
    RosterIgnoresLetters(order, enrollments, rows, sectionNo);
    forall i | 0 <= i < |listed|
      ensures listed[i].enrollmentId in rows && rows[listed[i].enrollmentId].grade == letter
    {
      LastLetterUniform(items, listed[i].enrollmentId, i, letter);
      ApplyLetterGradesLastWins(enrollments, items, listed[i].enrollmentId);
    }
  }

  /**
   * The round trip an instructor makes: list a section's enrollments, send the
   * list back with the same final grade for everybody, and list again. The
   * update succeeds and sends one "updateEnrollment" message per student; the
   * second list names the same enrollments in the same order, each with the
   * grade that was sent.
   */
  method LetterRoundTrip(db: Store, sectionNo: int, principal: string, letter: Option<string>)
    returns (first: Response<seq<EnrollmentDTO>>, r: Response<()>, second: Response<seq<EnrollmentDTO>>)
    requires db.Valid() && Owns(db.sections, sectionNo, principal)
    modifies db
    ensures first.Ok? && r == Ok(()) && second.Ok? && |second.value| == |first.value|
    ensures db.outbox == old(db.outbox) + Notices(Regraded(first.value, letter))
    ensures forall i :: 0 <= i < |first.value| ==>
              && second.value[i].enrollmentId == first.value[i].enrollmentId
              && second.value[i].grade == letter
  {
    first := GetEnrollments(db, sectionNo, principal);
    var items := Regraded(first.value, letter);
    ghost var enrollments0 := db.enrollments;
    RegradedListing(db.sections, db.enrollments, db.enrollmentOrder, sectionNo, principal, first.value, letter);
    r := UpdateEnrollmentGrade(db, items, principal);
    assert items[..|items|] == items;
    ghost var roster := Roster(db.enrollmentOrder, enrollments0, sectionNo);
    assert Roster(db.enrollmentOrder, db.enrollments, sectionNo) == roster;
    second := GetEnrollments(db, sectionNo, principal);
    forall i | 0 <= i < |first.value|
      ensures second.value[i].enrollmentId == first.value[i].enrollmentId && second.value[i].grade == letter
    {
      assert enrollments0[roster[i]].enrollmentId == roster[i];
      assert first.value[i].enrollmentId == roster[i];
    }
  }

  /**
   * The authorization check reads the section number the client sends, not the
   * section of the enrollment being changed: an instructor of one section can
   * set the final grade of an enrollment in another instructor's section.
   */
  lemma AuthorizationIgnoresEnrollmentSection()
    ensures var fall := Term(2025, "Fall", Date(2025, 8, 20), Date(2025, 12, 17));
            var sections := map[1 := Section(1, 1, "cst438", "dwisneski@csumb.edu", fall),
                                2 := Section(2, 1, "cst363", "other@csumb.edu", fall)];
            var enrollments := map[7 := Enrollment(7, None, 3, "thomas edison", "tedison@csumb.edu", 2)];
            var item := EnrollmentDTO(7, Some("A"), 3, "thomas edison", "tedison@csumb.edu", "cst438", 1, 1, 2025, "Fall");
            && !Owns(sections, enrollments[7].sectionNo, "dwisneski@csumb.edu")
            && EnrollmentStop(sections, enrollments, "dwisneski@csumb.edu", [item]) == 1
            && ApplyLetterGrades(enrollments, [item])[7].grade == Some("A")
  {
    var fall := Term(2025, "Fall", Date(2025, 8, 20), Date(2025, 12, 17));
    var sections := map[1 := Section(1, 1, "cst438", "dwisneski@csumb.edu", fall),
                        2 := Section(2, 1, "cst363", "other@csumb.edu", fall)];
    var enrollments := map[7 := Enrollment(7, None, 3, "thomas edison", "tedison@csumb.edu", 2)];
    var item := EnrollmentDTO(7, Some("A"), 3, "thomas edison", "tedison@csumb.edu", "cst438", 1, 1, 2025, "Fall");
    EnrollmentStopAt(sections, enrollments, "dwisneski@csumb.edu", [item], 1);
    assert [item][..0] == [];
  }
}
