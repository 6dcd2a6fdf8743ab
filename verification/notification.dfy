/**
 * The faculty notification page (pages/faculty/Notification.tsx): the students
 * whose mentoring request is Pending, with Accept / Reject buttons that call the
 * store's `updateRequestStatus`. The page keeps no state of its own.
 */
module NotificationPage {
  import opened Records
  import opened FacultyContext

  predicate RequestPending(s: Student) {
    s.requestStatus == Some(RequestStatus.Pending)
  }

  /** `pendingRequests`: the students with a Pending mentoring request, in table order. */
  function PendingRequests(students: seq<Student>): (r: seq<Student>)
    ensures forall x :: x in r <==> x in students && x.requestStatus == Some(RequestStatus.Pending)
    ensures SubsequenceOf(r, students)
  {
    Filter(students, RequestPending)
  }

  method HandleAccept(faculty: FacultyProvider, id: int)
    modifies faculty
    ensures faculty.students == WithRequestStatus(old(faculty.students), id, RequestStatus.Accepted)
    ensures faculty.questions == old(faculty.questions)
  {
    faculty.UpdateRequestStatus(id, RequestStatus.Accepted);
  }

  method HandleReject(faculty: FacultyProvider, id: int)
    modifies faculty
    ensures faculty.students == WithRequestStatus(old(faculty.students), id, RequestStatus.Rejected)
    ensures faculty.questions == old(faculty.questions)
  {
    faculty.UpdateRequestStatus(id, RequestStatus.Rejected);
  }

  /** After Accept or Reject on `id`, no student with that id is listed, and every
      other student is listed exactly when it was before. */
  lemma DecisionLeavesPending(students: seq<Student>, id: int, st: RequestStatus)
    requires st != RequestStatus.Pending
    ensures forall x :: x in PendingRequests(WithRequestStatus(students, id, st)) ==> x.id != id
    ensures forall y: Student :: y.id != id ==>
      (y in PendingRequests(WithRequestStatus(students, id, st)) <==> y in PendingRequests(students))
  {
    UpdateLeavesView(students, StudentKey, id, SetRequest(st), RequestPending);
    UpdateKeepsOtherRows(students, StudentKey, id, SetRequest(st), RequestPending);
  }

  /** Deciding the Pending request of a student whose id is unique shortens the list by one. */
  lemma DecisionShrinksPendingByOne(students: seq<Student>, id: int, st: RequestStatus, k: nat)
    requires UniqueKeys(students, StudentKey)
    requires k < |students| && students[k].id == id && RequestPending(students[k])
    requires st != RequestStatus.Pending
    ensures |PendingRequests(WithRequestStatus(students, id, st))| == |PendingRequests(students)| - 1
  {
    UpdateShrinksViewByOne(students, StudentKey, id, SetRequest(st), RequestPending, k);
  }

  /** The buttons sit on the rows of `pendingRequests`, so with unique ids they
      only ever change a student whose request is still Pending. */
  lemma ButtonsOnlyDecidePending(students: seq<Student>, st: RequestStatus, k: nat)
    requires UniqueKeys(students, StudentKey)
    requires k < |PendingRequests(students)|
    ensures forall i :: (0 <= i < |students|
      && WithRequestStatus(students, PendingRequests(students)[k].id, st)[i] != students[i]
      ==> RequestPending(students[i]))
  {
    RowActionTouchesOnlyViewRows(students, StudentKey, SetRequest(st), RequestPending, k);
  }
}
