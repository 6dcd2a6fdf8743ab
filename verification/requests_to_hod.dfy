/**
 * The faculty page that escalates students to the HOD
 * (pages/faculty/RequestsToHOD.tsx): the students still eligible ("Not
 * Required"), the ones already escalated ("Requested"), and the dialog that
 * submits a reason through the store's `requestHodSupport`.
 */
module RequestsToHodPage {
  import opened Records
  import opened JsValues
  import opened FacultyContext

  predicate SupportNotRequired(s: Student) {
    s.hodSupportStatus == Some(HodSupportStatus.NotRequired)
  }

  predicate SupportRequested(s: Student) {
    s.hodSupportStatus == Some(HodSupportStatus.Requested)
  }

  /** `eligibleStudents`: the students whose support status is "Not Required", in table order. */
  function EligibleStudents(students: seq<Student>): (r: seq<Student>)
    ensures forall x :: x in r <==> x in students && x.hodSupportStatus == Some(HodSupportStatus.NotRequired)
    ensures SubsequenceOf(r, students)
  {
    Filter(students, SupportNotRequired)
  }

  /** `pendingRequests`: the students whose support status is "Requested", in table order. */
  function PendingRequests(students: seq<Student>): (r: seq<Student>)
    ensures forall x :: x in r <==> x in students && x.hodSupportStatus == Some(HodSupportStatus.Requested)
    ensures SubsequenceOf(r, students)
  {
    Filter(students, SupportRequested)
  }

  /** No student is listed in both tables, so together they never outnumber the students. */
  lemma ListsAreDisjoint(students: seq<Student>)
    ensures forall x :: !(x in EligibleStudents(students) && x in PendingRequests(students))
    ensures |EligibleStudents(students)| + |PendingRequests(students)| <= |students|
  {
    DisjointViewsFit(students, SupportNotRequired, SupportRequested);
  }

  /** Requesting support for the student at position `k` moves it (with the new
      reason) into the "Requested" table and out of the eligible one, whatever its
      support status was. */
  lemma RequestMovesStudent(students: seq<Student>, reason: string, k: nat)
    requires k < |students|
    ensures forall x :: (x in EligibleStudents(WithHodSupportRequested(students, students[k].id, reason))
      ==> x.id != students[k].id)
    ensures students[k].(hodSupportStatus := Some(HodSupportStatus.Requested), requestReason := Some(reason))
      in PendingRequests(WithHodSupportRequested(students, students[k].id, reason))
  {
    var id := students[k].id;
    UpdateLeavesView(students, StudentKey, id, RequestSupport(reason), SupportNotRequired);
    UpdateEntersView(students, StudentKey, id, RequestSupport(reason), SupportRequested, k);
  }

  class RequestsToHod {
    const faculty: FacultyProvider
    var selectedStudent: Option<int>
    var isDialogOpen: bool
    var reason: string

    constructor (faculty: FacultyProvider)
      ensures this.faculty == faculty
      ensures selectedStudent == None && !isDialogOpen && reason == ""
    {
      this.faculty := faculty;
      selectedStudent := None;
      isDialogOpen := false;
      reason := "";
    }

    /** `handleOpenRequestDialog(id)` */
    method OpenRequestDialog(id: int)
      modifies this
      ensures selectedStudent == Some(id) && isDialogOpen
      ensures reason == old(reason)
    {
      selectedStudent := Some(id);
      isDialogOpen := true;
    }

    /** The text area's change handler. */
    method EditReason(text: string)
      modifies this
      ensures reason == text
      ensures selectedStudent == old(selectedStudent) && isDialogOpen == old(isDialogOpen)
    {
      reason := text;
    }

    /** `handleSubmitRequest`; `submitted` tells which toast is shown. A blank
        reason or no selection (null or 0) changes nothing; otherwise the untrimmed
        reason goes to the store, the reason is cleared and the dialog closed. */
    method SubmitRequest() returns (submitted: bool)
      modifies this, faculty
      ensures submitted == (!IsBlank(old(reason)) && Truthy(old(selectedStudent)))
      ensures submitted ==>
        faculty.students == WithHodSupportRequested(old(faculty.students), old(selectedStudent).value, old(reason))
        && faculty.questions == old(faculty.questions)
        && reason == "" && !isDialogOpen && selectedStudent == old(selectedStudent)
      ensures !submitted ==> unchanged(this) && unchanged(faculty)
    {
      if IsBlank(reason) || !Truthy(selectedStudent) {
        return false;
      }
      faculty.RequestHodSupport(selectedStudent.value, reason);
      reason := "";
      isDialogOpen := false;
      return true;
    }
  }
}
