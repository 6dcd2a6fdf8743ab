/**
 * The HOD approval tables (pages/hod/Dashboard.tsx): student requests and
 * faculty support requests, each moved from Pending to Approved or Rejected by
 * an id-matched `map`, and the two Pending views the screen renders with their
 * Approve / Reject buttons.
 */
module HodDashboardPage {
  import opened Records

  datatype RequestType = Internship | Project | Cocurricular
  datatype Status = Pending | Approved | Rejected
  datatype Action = Approve | Reject

  datatype StudentRequest = StudentRequest(
    id: int,
    name: string,
    rollNo: string,
    branch: string,
    requestType: RequestType,
    requestTitle: string,
    requestDescription: string,
    requestDate: string,
    status: Status)

  datatype FacultyRequest = FacultyRequest(
    id: int,
    facultyName: string,
    studentName: string,
    studentRollNo: string,
    studentBranch: string,
    reason: string,
    requestDate: string,
    status: Status)

  const SeedStudentRequests: seq<StudentRequest> := [
    StudentRequest(1, "John Doe", "BT20CSE001", "CSE", Internship, "Summer Internship at Google",
                   "3-month internship in software development", "2025-04-01", Pending),
    StudentRequest(2, "Jane Smith", "BT20CSE002", "CSE", Project, "AI-based Attendance System",
                   "Developing an AI system for automated attendance", "2025-04-02", Pending),
    StudentRequest(3, "Rahul Kumar", "BT20ECE005", "ECE", Cocurricular, "IEEE Conference Participation",
                   "Presenting a paper at IEEE conference", "2025-04-03", Pending),
    StudentRequest(4, "Priya Sharma", "BT20CSE010", "CSE", Internship, "Research Internship at IISc",
                   "6-month research internship in computer vision", "2025-04-05", Pending),
    StudentRequest(5, "Amit Patel", "BT20ME015", "MECH", Project, "Renewable Energy System Design",
                   "Designing a hybrid solar-wind energy system", "2025-04-08", Pending)
  ]

  const SeedFacultyRequests: seq<FacultyRequest> := [
    FacultyRequest(1, "Dr. Ramesh Kumar", "Suresh Reddy", "BT20CSE020", "CSE",
                   "Student needs additional guidance for research paper publication", "2025-04-10", Pending),
    FacultyRequest(2, "Prof. Sunita Mishra", "Ananya Gupta", "BT20ECE025", "ECE",
                   "Student requires additional lab access for project completion", "2025-04-12", Pending),
    FacultyRequest(3, "Dr. Venkat Rao", "Karthik Rajan", "BT20ME030", "MECH",
                   "Student needs support for industry collaboration", "2025-04-14", Pending)
  ]

  /** `action === "approve" ? "Approved" : "Rejected"` */
  function Outcome(action: Action): (st: Status)
    ensures st != Pending
    ensures st == Approved <==> action == Approve
  {
    if action == Approve then Approved else Rejected
  }

  function StudentRequestKey(r: StudentRequest): int { r.id }
  function FacultyRequestKey(r: FacultyRequest): int { r.id }
  predicate StudentRequestPending(r: StudentRequest) { r.status == Pending }
  predicate FacultyRequestPending(r: FacultyRequest) { r.status == Pending }

  function ResolveStudent(action: Action): StudentRequest -> StudentRequest {
    (r: StudentRequest) => r.(status := Outcome(action))
  }
  function ResolveFaculty(action: Action): FacultyRequest -> FacultyRequest {
    (r: FacultyRequest) => r.(status := Outcome(action))
  }

  /** The student requests after `handleStudentRequestAction(id, action)`: whatever
      the old status, every request with that id takes the action's outcome. */
  function ActOnStudentRequests(requests: seq<StudentRequest>, id: int, action: Action): (r: seq<StudentRequest>)
    ensures |r| == |requests|
    ensures forall i :: 0 <= i < |r| && requests[i].id == id ==>
      r[i].status == Outcome(action) && r[i] == requests[i].(status := Outcome(action))
    ensures forall i :: 0 <= i < |r| && requests[i].id != id ==> r[i] == requests[i]
  {
    UpdateWhere(requests, StudentRequestKey, id, ResolveStudent(action))
  }

  /** The faculty requests after `handleFacultyRequestAction(id, action)`. */
  function ActOnFacultyRequests(requests: seq<FacultyRequest>, id: int, action: Action): (r: seq<FacultyRequest>)
    ensures |r| == |requests|
    ensures forall i :: 0 <= i < |r| && requests[i].id == id ==>
      r[i].status == Outcome(action) && r[i] == requests[i].(status := Outcome(action))
    ensures forall i :: 0 <= i < |r| && requests[i].id != id ==> r[i] == requests[i]
  {
    UpdateWhere(requests, FacultyRequestKey, id, ResolveFaculty(action))
  }

  /** `pendingStudentRequests`: the Pending student requests, in table order. */
  function PendingStudentRequests(requests: seq<StudentRequest>): (r: seq<StudentRequest>)
    ensures forall x :: x in r <==> x in requests && x.status == Pending
    ensures SubsequenceOf(r, requests)
  {
    Filter(requests, StudentRequestPending)
  }

  /** `pendingFacultyRequests`: the Pending faculty requests, in table order. */
  function PendingFacultyRequests(requests: seq<FacultyRequest>): (r: seq<FacultyRequest>)
    ensures forall x :: x in r <==> x in requests && x.status == Pending
    ensures SubsequenceOf(r, requests)
  {
    Filter(requests, FacultyRequestPending)
  }

  class HodDashboard {
    var studentRequests: seq<StudentRequest>
    var facultyRequests: seq<FacultyRequest>

    /** Ids are unique in both tables: the seeds have them, and no action changes an id. */
    ghost predicate Valid()
      reads this
    {
      UniqueKeys(studentRequests, StudentRequestKey) && UniqueKeys(facultyRequests, FacultyRequestKey)
    }

    constructor ()
      ensures studentRequests == SeedStudentRequests && facultyRequests == SeedFacultyRequests
      ensures Valid()
    {
      studentRequests := SeedStudentRequests;
      facultyRequests := SeedFacultyRequests;
      SeedRequestIdsUnique();
    }

    method HandleStudentRequestAction(id: int, action: Action)
      modifies this
      ensures studentRequests == ActOnStudentRequests(old(studentRequests), id, action)
      ensures facultyRequests == old(facultyRequests)
      ensures old(Valid()) ==> Valid()
    {
      ActionKeepsStudentIdsUnique(studentRequests, id, action);
      studentRequests := ActOnStudentRequests(studentRequests, id, action);
    }

    method HandleFacultyRequestAction(id: int, action: Action)
      modifies this
      ensures facultyRequests == ActOnFacultyRequests(old(facultyRequests), id, action)
      ensures studentRequests == old(studentRequests)
      ensures old(Valid()) ==> Valid()
    {
      ActionKeepsFacultyIdsUnique(facultyRequests, id, action);
      facultyRequests := ActOnFacultyRequests(facultyRequests, id, action);
    }
  }

  /** Every seeded student request starts Pending: the Pending view shows the whole seed. */
  lemma SeedStudentRequestsStartPending()
    ensures PendingStudentRequests(SeedStudentRequests) == SeedStudentRequests
  {
    assert forall i :: 0 <= i < |SeedStudentRequests| ==> SeedStudentRequests[i].status == Pending;
    FilterAllPass(SeedStudentRequests, StudentRequestPending);
  }

  /** Every seeded faculty request starts Pending. */
  lemma SeedFacultyRequestsStartPending()
    ensures PendingFacultyRequests(SeedFacultyRequests) == SeedFacultyRequests
  {
    assert forall i :: 0 <= i < |SeedFacultyRequests| ==> SeedFacultyRequests[i].status == Pending;
    FilterAllPass(SeedFacultyRequests, FacultyRequestPending);
  }

  /** Seeded ids are 1, 2, ... in table order, hence unique. */
  lemma SeedRequestIdsUnique()
    ensures UniqueKeys(SeedStudentRequests, StudentRequestKey)
    ensures UniqueKeys(SeedFacultyRequests, FacultyRequestKey)
  {
    assert forall i :: 0 <= i < |SeedStudentRequests| ==> StudentRequestKey(SeedStudentRequests[i]) == i + 1;
    assert forall i :: 0 <= i < |SeedFacultyRequests| ==> FacultyRequestKey(SeedFacultyRequests[i]) == i + 1;
  }

  /** An action rewrites only a status, so unique student request ids stay unique. */
  lemma ActionKeepsStudentIdsUnique(requests: seq<StudentRequest>, id: int, action: Action)
    ensures UniqueKeys(requests, StudentRequestKey) ==>
      UniqueKeys(ActOnStudentRequests(requests, id, action), StudentRequestKey)
  {
    UpdateKeepsKeys(requests, StudentRequestKey, id, ResolveStudent(action));
  }

  /** The same for faculty request ids. */
  lemma ActionKeepsFacultyIdsUnique(requests: seq<FacultyRequest>, id: int, action: Action)
    ensures UniqueKeys(requests, FacultyRequestKey) ==>
      UniqueKeys(ActOnFacultyRequests(requests, id, action), FacultyRequestKey)
  {
    UpdateKeepsKeys(requests, FacultyRequestKey, id, ResolveFaculty(action));
  }

  /** Approving or rejecting a Pending student request whose id is unique takes it
      out of the Pending view and shrinks the view by exactly one. */
  lemma StudentActionShrinksPending(requests: seq<StudentRequest>, id: int, action: Action, k: nat)
    requires UniqueKeys(requests, StudentRequestKey)
    requires k < |requests| && requests[k].id == id && requests[k].status == Pending
    ensures |PendingStudentRequests(ActOnStudentRequests(requests, id, action))|
      == |PendingStudentRequests(requests)| - 1
    ensures forall x :: x in PendingStudentRequests(ActOnStudentRequests(requests, id, action)) ==> x.id != id
  {
    UpdateShrinksViewByOne(requests, StudentRequestKey, id, ResolveStudent(action), StudentRequestPending, k);
    UpdateLeavesView(requests, StudentRequestKey, id, ResolveStudent(action), StudentRequestPending);
  }

  /** The same for faculty support requests. */
  lemma FacultyActionShrinksPending(requests: seq<FacultyRequest>, id: int, action: Action, k: nat)
    requires UniqueKeys(requests, FacultyRequestKey)
    requires k < |requests| && requests[k].id == id && requests[k].status == Pending
    ensures |PendingFacultyRequests(ActOnFacultyRequests(requests, id, action))|
      == |PendingFacultyRequests(requests)| - 1
    ensures forall x :: x in PendingFacultyRequests(ActOnFacultyRequests(requests, id, action)) ==> x.id != id
  {
    UpdateShrinksViewByOne(requests, FacultyRequestKey, id, ResolveFaculty(action), FacultyRequestPending, k);
    UpdateLeavesView(requests, FacultyRequestKey, id, ResolveFaculty(action), FacultyRequestPending);
  }

  /** A student request action on an id no student request carries leaves that
      table as it was, whatever the faculty table holds. */
  lemma StudentActionOnMissingIdChangesNothing(requests: seq<StudentRequest>, id: int, action: Action)
    requires forall i :: 0 <= i < |requests| ==> requests[i].id != id
    ensures ActOnStudentRequests(requests, id, action) == requests
  {
    UpdateMissingIsIdentity(requests, StudentRequestKey, id, ResolveStudent(action));
  }

  /** The same for a faculty request action, whatever the student table holds. */
  lemma FacultyActionOnMissingIdChangesNothing(requests: seq<FacultyRequest>, id: int, action: Action)
    requires forall i :: 0 <= i < |requests| ==> requests[i].id != id
    ensures ActOnFacultyRequests(requests, id, action) == requests
  {
    UpdateMissingIsIdentity(requests, FacultyRequestKey, id, ResolveFaculty(action));
  }

  /** The student Approve / Reject buttons sit on rows of the Pending view, so with
      unique ids a button can only change a student request that is still Pending. */
  lemma StudentButtonsOnlyResolvePending(requests: seq<StudentRequest>, action: Action, k: nat)
    requires UniqueKeys(requests, StudentRequestKey)
    requires k < |PendingStudentRequests(requests)|
    ensures forall i :: (0 <= i < |requests|
      && ActOnStudentRequests(requests, PendingStudentRequests(requests)[k].id, action)[i] != requests[i]
      ==> requests[i].status == Pending)
  {
    RowActionTouchesOnlyViewRows(requests, StudentRequestKey, ResolveStudent(action), StudentRequestPending, k);
  }

  /** The same for the faculty request buttons. */
  lemma FacultyButtonsOnlyResolvePending(requests: seq<FacultyRequest>, action: Action, k: nat)
    requires UniqueKeys(requests, FacultyRequestKey)
    requires k < |PendingFacultyRequests(requests)|
    ensures forall i :: (0 <= i < |requests|
      && ActOnFacultyRequests(requests, PendingFacultyRequests(requests)[k].id, action)[i] != requests[i]
      ==> requests[i].status == Pending)
  {
    RowActionTouchesOnlyViewRows(requests, FacultyRequestKey, ResolveFaculty(action), FacultyRequestPending, k);
  }
}
