/**
 * The faculty dashboard (pages/faculty/Dashboard.tsx): the accepted mentees, and
 * the remark dialog that answers the selected student's first pending question
 * through the store's `answerQuestion`.
 */
module FacultyDashboardPage {
  import opened Records
  import opened JsValues
  import opened FacultyContext

  function PendingFor(id: int): Question -> bool {
    (q: Question) => q.studentId == id && q.status == QuestionStatus.Pending
  }

  /** `studentQuestions`: nothing without a selection (null or 0); otherwise the
      selected student's Pending questions, in table order. */
  function StudentQuestions(questions: seq<Question>, selected: Option<int>): (r: seq<Question>)
    ensures !Truthy(selected) ==> r == []
    ensures Truthy(selected) ==> forall q :: q in r <==>
      q in questions && q.studentId == selected.value && q.status == QuestionStatus.Pending
    ensures SubsequenceOf(r, questions)
  {
    if Truthy(selected) then Filter(questions, PendingFor(selected.value)) else []
  }

  predicate IsAccepted(s: Student) {
    s.requestStatus == Some(RequestStatus.Accepted)
  }

  /** `currentStudents`: the students whose mentoring request was Accepted, in table order. */
  function CurrentStudents(students: seq<Student>): (r: seq<Student>)
    ensures forall x :: x in r <==> x in students && x.requestStatus == Some(RequestStatus.Accepted)
    ensures SubsequenceOf(r, students)
  {
    Filter(students, IsAccepted)
  }

  /** The question the dialog answers is the selected student's earliest Pending
      question in the table: the first one `find` would return. */
  lemma AnswersFirstPendingQuestion(questions: seq<Question>, selected: Option<int>)
    requires StudentQuestions(questions, selected) != []
    ensures exists k :: (0 <= k < |questions| && questions[k] == StudentQuestions(questions, selected)[0]
      && forall j :: 0 <= j < k ==>
        !(questions[j].studentId == selected.value && questions[j].status == QuestionStatus.Pending))
  {
    var p := PendingFor(selected.value);
    FilterHeadIsFirstMatch(questions, p);
    var k := FirstIndex(questions, p).value;
    assert questions[k] == StudentQuestions(questions, selected)[0];
  }

  /** With unique question ids, answering the first pending question takes it off
      the student's list and shortens the list by exactly one. */
  lemma AnsweringShrinksStudentQuestions(questions: seq<Question>, selected: Option<int>, answer: string, date: string)
    requires UniqueKeys(questions, QuestionKey)
    requires StudentQuestions(questions, selected) != []
    ensures var qid := StudentQuestions(questions, selected)[0].id;
      |StudentQuestions(WithAnswer(questions, qid, answer, date), selected)|
        == |StudentQuestions(questions, selected)| - 1
      && forall q :: q in StudentQuestions(WithAnswer(questions, qid, answer, date), selected) ==> q.id != qid
  {
    var first := StudentQuestions(questions, selected)[0];
    var p := PendingFor(selected.value);
    var f := SetAnswer(answer, date);
    assert first in StudentQuestions(questions, selected);
    var k :| 0 <= k < |questions| && questions[k] == first;
    UpdateShrinksViewByOne(questions, QuestionKey, first.id, f, p, k);
    UpdateLeavesView(questions, QuestionKey, first.id, f, p);
  }

  class FacultyDashboard {
    const faculty: FacultyProvider
    var selectedStudent: Option<int>
    var isDialogOpen: bool
    var answer: string

    constructor (faculty: FacultyProvider)
      ensures this.faculty == faculty
      ensures selectedStudent == None && !isDialogOpen && answer == ""
    {
      this.faculty := faculty;
      selectedStudent := None;
      isDialogOpen := false;
      answer := "";
    }

    /** `handleOpenRemarkDialog(id)` */
    method OpenRemarkDialog(id: int)
      modifies this
      ensures selectedStudent == Some(id) && isDialogOpen
      ensures answer == old(answer)
    {
      selectedStudent := Some(id);
      isDialogOpen := true;
    }

    /** The text area's change handler. */
    method EditAnswer(text: string)
      modifies this
      ensures answer == text
      ensures selectedStudent == old(selectedStudent) && isDialogOpen == old(isDialogOpen)
    {
      answer := text;
    }

    /** `handleSubmitAnswer` on day `today`; `submitted` tells which toast is shown.
        A blank answer or an empty question list changes nothing; otherwise the
        first listed question is answered with the untrimmed text, the text is
        cleared and the dialog closed. */
    method SubmitAnswer(today: string) returns (submitted: bool)
      modifies this, faculty
      ensures submitted == (!IsBlank(old(answer)) && StudentQuestions(old(faculty.questions), old(selectedStudent)) != [])
      ensures submitted ==>
        var qid := StudentQuestions(old(faculty.questions), old(selectedStudent))[0].id;
        faculty.questions == WithAnswer(old(faculty.questions), qid, old(answer), today)
        && faculty.students == MarkOwnerDone(old(faculty.students), old(faculty.questions), qid)
        && answer == "" && !isDialogOpen && selectedStudent == old(selectedStudent)
      ensures !submitted ==> unchanged(this) && unchanged(faculty)
    {
      var pending := StudentQuestions(faculty.questions, selectedStudent);
      if IsBlank(answer) || pending == [] {
        return false;
      }
      faculty.AnswerQuestion(pending[0].id, answer, today);
      answer := "";
      isDialogOpen := false;
      return true;
    }
  }
}
