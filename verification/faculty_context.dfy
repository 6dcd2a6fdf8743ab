/**
 * The faculty workflow store (FacultyContext.tsx): two tables, students and
 * questions, keyed by numeric id, and the four mutators that rewrite one record
 * by id. Each mutator replaces a whole table with a `map` over it; answering a
 * question also marks the asking student's remark as done.
 */
module FacultyContext {
  import opened Records

  datatype RemarkStatus = Done | New
  datatype RequestStatus = Pending | Accepted | Rejected
  datatype HodSupportStatus = NotRequired | Requested | Pending | Approved
  datatype QuestionStatus = Pending | Answered

  /** A mentee as the faculty screens see it; the three statuses are independent.
      The optional fields of the record type are `Option`s. */
  datatype Student = Student(
    id: int,
    name: string,
    branch: string,
    year: string,
    rollNo: string,
    remarkStatus: RemarkStatus,
    requestStatus: Option<RequestStatus>,
    hodSupportStatus: Option<HodSupportStatus>,
    requestReason: Option<string>)

  /** A mentee's question; the answer fields are filled in when it is answered. */
  datatype Question = Question(
    id: int,
    studentId: int,
    question: string,
    date: string,
    status: QuestionStatus,
    answer: Option<string>,
    answeredBy: Option<string>,
    answeredDate: Option<string>)

  /** The name every answer is signed with. */
  const Answerer := "Dr. Ramesh Kumar"

  const SeedStudents: seq<Student> := [
    Student(1, "Yogesh Kumar", "CSE", "3rd", "422275", RemarkStatus.Done,
            Some(RequestStatus.Accepted), Some(HodSupportStatus.NotRequired), None),
    Student(2, "Rahul Sharma", "ECE", "2nd", "422301", RemarkStatus.New,
            Some(RequestStatus.Pending), Some(HodSupportStatus.NotRequired), None),
    Student(3, "Priya Patel", "CSE", "4th", "421150", RemarkStatus.Done,
            Some(RequestStatus.Accepted), Some(HodSupportStatus.Requested), None),
    Student(4, "Arjun Singh", "MECH", "3rd", "422405", RemarkStatus.New,
            Some(RequestStatus.Pending), Some(HodSupportStatus.NotRequired), None),
    Student(5, "Sneha Reddy", "CIVIL", "2nd", "422510", RemarkStatus.Done,
            Some(RequestStatus.Pending), Some(HodSupportStatus.NotRequired), None)
  ]

  const SeedQuestions: seq<Question> := [
    Question(1, 2, "I'm facing difficulty with the Data Structures course. Can you suggest some additional resources?",
             "2025-04-01", QuestionStatus.Pending, None, None, None),
    Question(2, 4, "I want to join the robotics club. What are the requirements?",
             "2025-04-05", QuestionStatus.Pending, None, None, None),
    Question(3, 1, "Could you help me with choosing electives for next semester?",
             "2025-03-15", QuestionStatus.Answered,
             Some("I would recommend the Machine Learning or Cloud Computing electives based on your interests. Let's schedule a meeting to discuss in detail."),
             Some(Answerer), Some("2025-03-18"))
  ]

  function StudentKey(s: Student): int { s.id }
  function QuestionKey(q: Question): int { q.id }

  /** The per-record rewrites the mutators map over a table. */
  function SetRemark(st: RemarkStatus): Student -> Student {
    (s: Student) => s.(remarkStatus := st)
  }
  function SetRequest(st: RequestStatus): Student -> Student {
    (s: Student) => s.(requestStatus := Some(st))
  }
  function RequestSupport(reason: string): Student -> Student {
    (s: Student) => s.(hodSupportStatus := Some(HodSupportStatus.Requested), requestReason := Some(reason))
  }
  function SetAnswer(answer: string, date: string): Question -> Question {
    (q: Question) => q.(status := QuestionStatus.Answered, answer := Some(answer),
            answeredBy := Some(Answerer), answeredDate := Some(date))
  }

  /** The students table after `updateRemarkStatus(id, st)`. */
  function WithRemarkStatus(students: seq<Student>, id: int, st: RemarkStatus): (r: seq<Student>)
    ensures |r| == |students|
    ensures forall i :: 0 <= i < |r| && students[i].id == id ==>
      r[i].remarkStatus == st && r[i] == students[i].(remarkStatus := st)
    ensures forall i :: 0 <= i < |r| && students[i].id != id ==> r[i] == students[i]
  {
    UpdateWhere(students, StudentKey, id, SetRemark(st))
  }

  /** The students table after `updateRequestStatus(id, st)`, whatever the old status. */
  function WithRequestStatus(students: seq<Student>, id: int, st: RequestStatus): (r: seq<Student>)
    ensures |r| == |students|
    ensures forall i :: 0 <= i < |r| && students[i].id == id ==>
      r[i].requestStatus == Some(st) && r[i] == students[i].(requestStatus := Some(st))
    ensures forall i :: 0 <= i < |r| && students[i].id != id ==> r[i] == students[i]
  {
    UpdateWhere(students, StudentKey, id, SetRequest(st))
  }

  /** The students table after `requestHodSupport(id, reason)`: no check of the
      current support status nor of the reason. */
  function WithHodSupportRequested(students: seq<Student>, id: int, reason: string): (r: seq<Student>)
    ensures |r| == |students|
    ensures forall i :: 0 <= i < |r| && students[i].id == id ==>
      r[i].hodSupportStatus == Some(HodSupportStatus.Requested) && r[i].requestReason == Some(reason)
      && r[i] == students[i].(hodSupportStatus := Some(HodSupportStatus.Requested), requestReason := Some(reason))
    ensures forall i :: 0 <= i < |r| && students[i].id != id ==> r[i] == students[i]
  {
    UpdateWhere(students, StudentKey, id, RequestSupport(reason))
  }

  /** The questions table after `answerQuestion(qid, answer)` on day `date`: no
      check of the prior status, so an answered question is answered again. */
  function WithAnswer(questions: seq<Question>, qid: int, answer: string, date: string): (r: seq<Question>)
    ensures |r| == |questions|
    ensures forall i :: 0 <= i < |r| && questions[i].id == qid ==>
      r[i].status == QuestionStatus.Answered && r[i].answer == Some(answer)
      && r[i].answeredBy == Some(Answerer) && r[i].answeredDate == Some(date)
      && r[i].id == qid && r[i].studentId == questions[i].studentId
      && r[i].question == questions[i].question && r[i].date == questions[i].date
    ensures forall i :: 0 <= i < |r| && questions[i].id != qid ==> r[i] == questions[i]
  {
    UpdateWhere(questions, QuestionKey, qid, SetAnswer(answer, date))
  }

  function HasId(qid: int): Question -> bool {
    (q: Question) => q.id == qid
  }

  /** `questions.find(q => q.id === qid)?.studentId`: the asker of the first question with that id. */
  function OwnerOf(questions: seq<Question>, qid: int): (r: Option<int>)
    ensures r.None? <==> forall i :: 0 <= i < |questions| ==> questions[i].id != qid
    ensures r.Some? ==> exists i :: (0 <= i < |questions| && questions[i].id == qid
      && questions[i].studentId == r.value && forall j :: 0 <= j < i ==> questions[j].id != qid)
  {
    match FirstIndex(questions, HasId(qid))
    case None => None
    case Some(i) => Some(questions[i].studentId)
  }

  /** The students table after the second half of `answerQuestion(qid, ...)`: the
      asker's remark becomes Done, nothing changes when no question has that id. */
  function MarkOwnerDone(students: seq<Student>, questions: seq<Question>, qid: int): (r: seq<Student>)
    ensures |r| == |students|
    ensures OwnerOf(questions, qid).None? ==> r == students
    ensures OwnerOf(questions, qid).Some? ==> forall i :: 0 <= i < |r| ==>
      r[i] == (if students[i].id == OwnerOf(questions, qid).value
               then students[i].(remarkStatus := RemarkStatus.Done) else students[i])
  {
    match OwnerOf(questions, qid)
    case None => students
    case Some(owner) => WithRemarkStatus(students, owner, RemarkStatus.Done)
  }

  /** Every question with id `qid` is Answered and its asker's remark is Done. */
  ghost predicate AnsweredWithRemark(students: seq<Student>, questions: seq<Question>, qid: int) {
    forall i :: 0 <= i < |questions| && questions[i].id == qid ==>
      (questions[i].status == QuestionStatus.Answered
      && exists j :: (0 <= j < |students| && students[j].id == questions[i].studentId
        && students[j].remarkStatus == RemarkStatus.Done))
  }

  /** Ids are unique in both tables and every question's asker is a student. */
  ghost predicate Consistent(students: seq<Student>, questions: seq<Question>) {
    && UniqueKeys(students, StudentKey)
    && UniqueKeys(questions, QuestionKey)
    && forall q :: q in questions ==> exists s :: s in students && s.id == q.studentId
  }

  /** The store the faculty screens share. */
  class FacultyProvider {
    var students: seq<Student>
    var questions: seq<Question>

    /** The store is consistent: the seed is, and every mutator keeps it so. */
    ghost predicate Valid()
      reads this
    {
      Consistent(students, questions)
    }

    constructor ()
      ensures students == SeedStudents && questions == SeedQuestions
      ensures Valid()
    {
      students := SeedStudents;
      questions := SeedQuestions;
      SeedIsConsistent();
    }

    method UpdateRemarkStatus(id: int, st: RemarkStatus)
      modifies this
      ensures students == WithRemarkStatus(old(students), id, st)
      ensures questions == old(questions)
      ensures old(Valid()) ==> Valid()
    {
      if Valid() {
        StudentMutatorsPreserveConsistency(students, questions, id, st, RequestStatus.Accepted, "");
      }
      students := WithRemarkStatus(students, id, st);
    }

    /** Answers the question (the clock's date is the `today` parameter), then
        marks its asker's remark Done, looked up in the questions as they were. */
    method AnswerQuestion(qid: int, answer: string, today: string)
      modifies this
      ensures questions == WithAnswer(old(questions), qid, answer, today)
      ensures students == MarkOwnerDone(old(students), old(questions), qid)
      ensures old(Valid()) ==> Valid()
      ensures old(Valid()) ==> AnsweredWithRemark(students, questions, qid)
    {
      if Valid() {
        AnswerPreservesConsistency(students, questions, qid, answer, today);
        AnswerCouplesAllMatches(students, questions, qid, answer, today);
      }
      var before := questions;
      questions := WithAnswer(questions, qid, answer, today);
      var owner := OwnerOf(before, qid);
      if owner.Some? {
        UpdateRemarkStatus(owner.value, RemarkStatus.Done);
      }
    }

    /** The status parameter is typed "Accepted" | "Rejected". */
    method UpdateRequestStatus(id: int, st: RequestStatus)
      requires st != RequestStatus.Pending
      modifies this
      ensures students == WithRequestStatus(old(students), id, st)
      ensures questions == old(questions)
      ensures old(Valid()) ==> Valid()
    {
      if Valid() {
        StudentMutatorsPreserveConsistency(students, questions, id, RemarkStatus.Done, st, "");
      }
      students := WithRequestStatus(students, id, st);
    }

    method RequestHodSupport(id: int, reason: string)
      modifies this
      ensures students == WithHodSupportRequested(old(students), id, reason)
      ensures questions == old(questions)
      ensures old(Valid()) ==> Valid()
    {
      if Valid() {
        StudentMutatorsPreserveConsistency(students, questions, id, RemarkStatus.Done, RequestStatus.Accepted, reason);
      }
      students := WithHodSupportRequested(students, id, reason);
    }

    /** A placeholder in the store: it changes nothing. */
    method ViewStudentDashboard(id: int)
      ensures unchanged(this)
    {
    }
  }

  /** The seeded tables are consistent. */
  lemma SeedIsConsistent()
    ensures Consistent(SeedStudents, SeedQuestions)
  {
    assert SeedStudents[1].id == SeedQuestions[0].studentId;
    assert SeedStudents[3].id == SeedQuestions[1].studentId;
    assert SeedStudents[0].id == SeedQuestions[2].studentId;
  }

  /** Answering the question at position `i` of a consistent store leaves it
      Answered and its asker's remark Done: neither happens without the other. */
  lemma AnswerCouplesRemark(students: seq<Student>, questions: seq<Question>, qid: int, answer: string, date: string, i: nat)
    requires Consistent(students, questions)
    requires i < |questions| && questions[i].id == qid
    ensures WithAnswer(questions, qid, answer, date)[i].status == QuestionStatus.Answered
    ensures exists j :: (0 <= j < |students| && students[j].id == questions[i].studentId
      && MarkOwnerDone(students, questions, qid)[j].remarkStatus == RemarkStatus.Done)
  {
    var k :| 0 <= k < |questions| && questions[k].id == qid
      && questions[k].studentId == OwnerOf(questions, qid).value && forall j :: 0 <= j < k ==> questions[j].id != qid;
    assert QuestionKey(questions[k]) == QuestionKey(questions[i]);
    assert k == i;
    assert questions[i] in questions;
    var s :| s in students && s.id == questions[i].studentId;
    var j :| 0 <= j < |students| && students[j] == s;
  }

  /** In a consistent store, answering leaves every question with that id Answered
      next to an asker whose remark is Done. */
  lemma AnswerCouplesAllMatches(students: seq<Student>, questions: seq<Question>, qid: int, answer: string, date: string)
    requires Consistent(students, questions)
    ensures AnsweredWithRemark(MarkOwnerDone(students, questions, qid), WithAnswer(questions, qid, answer, date), qid)
  {
    var ss := MarkOwnerDone(students, questions, qid);
    var qs := WithAnswer(questions, qid, answer, date);
    forall i | 0 <= i < |qs| && qs[i].id == qid
      ensures qs[i].status == QuestionStatus.Answered
      ensures exists j :: (0 <= j < |ss| && ss[j].id == qs[i].studentId
        && ss[j].remarkStatus == RemarkStatus.Done)
    {
      assert questions[i].id == qid;
      AnswerCouplesRemark(students, questions, qid, answer, date, i);
    }
  }

  /** Answering an id no question carries changes neither table. */
  lemma AnswerMissingChangesNothing(students: seq<Student>, questions: seq<Question>, qid: int, answer: string, date: string)
    requires forall i :: 0 <= i < |questions| ==> questions[i].id != qid
    ensures WithAnswer(questions, qid, answer, date) == questions
    ensures MarkOwnerDone(students, questions, qid) == students
  {
    UpdateMissingIsIdentity(questions, QuestionKey, qid, SetAnswer(answer, date));
  }

  /** `updateRemarkStatus` with an id no student carries leaves the table as it was. */
  lemma RemarkMissingIdUnchanged(students: seq<Student>, id: int, st: RemarkStatus)
    requires forall i :: 0 <= i < |students| ==> students[i].id != id
    ensures WithRemarkStatus(students, id, st) == students
  {
    UpdateMissingIsIdentity(students, StudentKey, id, SetRemark(st));
  }

  /** Answering twice keeps only the second answer and date. */
  lemma ReanswerOverwrites(questions: seq<Question>, qid: int, a1: string, d1: string, a2: string, d2: string)
    ensures WithAnswer(WithAnswer(questions, qid, a1, d1), qid, a2, d2) == WithAnswer(questions, qid, a2, d2)
  {
    LastWriteWins(questions, QuestionKey, qid, SetAnswer(a1, d1), SetAnswer(a2, d2));
  }

  /** A request status is overwritten whatever it was: the last decision wins. */
  lemma RequestStatusOverwrites(students: seq<Student>, id: int, st1: RequestStatus, st2: RequestStatus)
    ensures WithRequestStatus(WithRequestStatus(students, id, st1), id, st2) == WithRequestStatus(students, id, st2)
  {
    LastWriteWins(students, StudentKey, id, SetRequest(st1), SetRequest(st2));
  }

  /** HOD support can be requested again from any status; the last reason wins. */
  lemma HodSupportFromAnyStatus(students: seq<Student>, id: int, r1: string, r2: string)
    ensures WithHodSupportRequested(WithHodSupportRequested(students, id, r1), id, r2)
      == WithHodSupportRequested(students, id, r2)
  {
    LastWriteWins(students, StudentKey, id, RequestSupport(r1), RequestSupport(r2));
  }

  /** Rewriting student records without touching their ids keeps a consistent store consistent. */
  lemma SameIdsStayConsistent(students: seq<Student>, ss: seq<Student>, questions: seq<Question>)
    requires Consistent(students, questions)
    requires |ss| == |students| && forall i :: 0 <= i < |ss| ==> ss[i].id == students[i].id
    ensures Consistent(ss, questions)
  {
    assert UniqueKeys(ss, StudentKey) by {
      forall i, j | 0 <= i < j < |ss| ensures StudentKey(ss[i]) != StudentKey(ss[j]) {
        assert StudentKey(students[i]) != StudentKey(students[j]);
      }
    }
    forall q | q in questions ensures exists s :: s in ss && s.id == q.studentId {
      var s :| s in students && s.id == q.studentId;
      var j :| 0 <= j < |students| && students[j] == s;
      assert ss[j] in ss;
    }
  }

  /** The three student mutators change no id, so they keep a consistent store consistent. */
  lemma StudentMutatorsPreserveConsistency(students: seq<Student>, questions: seq<Question>, id: int,
                                           remark: RemarkStatus, request: RequestStatus, reason: string)
    requires Consistent(students, questions)
    ensures Consistent(WithRemarkStatus(students, id, remark), questions)
    ensures Consistent(WithRequestStatus(students, id, request), questions)
    ensures Consistent(WithHodSupportRequested(students, id, reason), questions)
  {
    SameIdsStayConsistent(students, WithRemarkStatus(students, id, remark), questions);
    SameIdsStayConsistent(students, WithRequestStatus(students, id, request), questions);
    SameIdsStayConsistent(students, WithHodSupportRequested(students, id, reason), questions);
  }

  /** Answering changes no id and no asker, so it keeps a consistent store consistent. */
  lemma AnswerPreservesConsistency(students: seq<Student>, questions: seq<Question>, qid: int, answer: string, date: string)
    requires Consistent(students, questions)
    ensures Consistent(MarkOwnerDone(students, questions, qid), WithAnswer(questions, qid, answer, date))
  {
    var ss := MarkOwnerDone(students, questions, qid);
    var qs := WithAnswer(questions, qid, answer, date);
    if OwnerOf(questions, qid).Some? {
      SameIdsStayConsistent(students, ss, questions);
    }
    assert UniqueKeys(qs, QuestionKey) by {
      forall i, j | 0 <= i < j < |qs| ensures QuestionKey(qs[i]) != QuestionKey(qs[j]) {
        assert QuestionKey(questions[i]) != QuestionKey(questions[j]);
      }
    }
    forall q | q in qs ensures exists s :: s in ss && s.id == q.studentId {
      var k :| 0 <= k < |qs| && qs[k] == q;
      assert questions[k] in questions;
    }
  }
}
