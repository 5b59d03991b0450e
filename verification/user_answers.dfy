/** The answer service: grading a submitted answer against the question's
    correct option, storing it, and recomputing the user's progress in the
    question's section. */
module UserAnswerService {
  import opened Common
  import opened Store
  import OptionService
  import opened UserProgressService

  /** The text of the option grading uses for question `q`. */
  function CorrectText(s: Store, q: Id): (r: string)
    requires Valid(s) && HasCorrectOption(s, q)
    ensures exists k :: IsCorrectOptionOf(s, k, q) && s.options[k].text == r
  {
    s.options[OptionService.GetCorrectOptionForQuestion(s, q).value].text
  }

  /** `create`: grade `text` by exact string equality with the correct
      option, store the answer under a fresh id, then recompute the progress
      of `u` in the question's section. NotFound, storing nothing, when the
      question is missing or has no option flagged correct; when `u` has no
      account the foreign key refuses the insert, which surfaces as
      InternalServerError. */
  function Create(s: Store, u: Id, q: Id, text: string, now: Timestamp): (r: Result<(Store, Id)>)
    requires Valid(s)
    ensures r.Err? <==> q !in s.questions || !HasCorrectOption(s, q) || u !in s.users
    ensures r.Err? && r.error == NotFound <==> q !in s.questions || !HasCorrectOption(s, q)
    ensures r.Err? ==> r.error in {NotFound, InternalServerError}
    ensures r.Ok? ==>
      var (t, id) := r.value;
      && Valid(t)
      && id !in s.answers
      && t.answers == s.answers[id := UserAnswer(text, text == CorrectText(s, q), u, q)]
      && ProgressRecomputed(s.(answers := t.answers, next := t.next), t, u, s.questions[q].section, now)
  {
    if q !in s.questions then Err(NotFound)
    else match OptionService.GetCorrectOptionForQuestion(s, q)
      case Err(e) => Err(e)
      case Ok(k) =>
        if u !in s.users then Err(InternalServerError)
        else
          var answer := UserAnswer(text, s.options[k].text == text, u, q);
          var id := s.next;
          var s1 := s.(answers := s.answers[id := answer], next := s.next + 1);
          var (t, _) := UpdateUserProgress(s1, u, s.questions[q].section, now);
          Ok((t, id))
  }

  /** Grading is exact and case-sensitive: a trailing space or a change of
      case makes a submission wrong. */
  lemma GradingIsExact(s: Store, u: Id, q: Id, now: Timestamp)
    requires Valid(s) && q in s.questions && HasCorrectOption(s, q) && u in s.users
    requires CorrectText(s, q) == "Paris"
    ensures var r := Create(s, u, q, "Paris ", now); r.Ok? && !r.value.0.answers[r.value.1].isCorrect
    ensures var r := Create(s, u, q, "paris", now); r.Ok? && !r.value.0.answers[r.value.1].isCorrect
    ensures var r := Create(s, u, q, "Paris", now); r.Ok? && r.value.0.answers[r.value.1].isCorrect
  {
  }

  /** Which correct option grading picks matters only through its text: when
      every option of `q` flagged correct has the same text, a submission is
      correct exactly when it equals that text. */
  lemma GradingIgnoresTheChoice(s: Store, u: Id, q: Id, text: string, now: Timestamp, k: Id)
    requires Valid(s) && q in s.questions && IsCorrectOptionOf(s, k, q) && u in s.users
    requires forall j :: IsCorrectOptionOf(s, j, q) ==> s.options[j].text == s.options[k].text
    ensures var r := Create(s, u, q, text, now);
      r.Ok? && (r.value.0.answers[r.value.1].isCorrect <==> text == s.options[k].text)
  {
    assert HasCorrectOption(s, q);
    assert CorrectText(s, q) == s.options[k].text;
  }

  /** `update`: re-grade against the new question and overwrite all four
      fields of an existing answer, then recompute progress for the new user
      and the new question's section only. NotFound when the answer, the
      question or its correct option is missing; InternalServerError when the
      foreign key refuses a user without an account. */
  function Update(s: Store, id: Id, u: Id, q: Id, text: string, now: Timestamp): (r: Result<Store>)
    requires Valid(s)
    ensures r.Err? <==> id !in s.answers || q !in s.questions || !HasCorrectOption(s, q) || u !in s.users
    ensures r.Err? && r.error == NotFound <==> id !in s.answers || q !in s.questions || !HasCorrectOption(s, q)
    ensures r.Err? ==> r.error in {NotFound, InternalServerError}
    ensures r.Ok? ==>
      var t := r.value;
      && Valid(t)
      && t.answers == s.answers[id := UserAnswer(text, text == CorrectText(s, q), u, q)]
      && ProgressRecomputed(s.(answers := t.answers), t, u, s.questions[q].section, now)
  {
    if id !in s.answers || q !in s.questions then Err(NotFound)
    else match OptionService.GetCorrectOptionForQuestion(s, q)
      case Err(e) => Err(e)
      case Ok(k) =>
        if u !in s.users then Err(InternalServerError)
        else
          var answer := UserAnswer(text, s.options[k].text == text, u, q);
          var s1 := s.(answers := s.answers[id := answer]);
          Ok(UpdateUserProgress(s1, u, s.questions[q].section, now).0)
  }

  /** Moving an answer to another section leaves the progress row of the
      section it came from as it was. */
  lemma UpdateLeavesOldSectionStale(s: Store, id: Id, u: Id, q: Id, text: string, now: Timestamp, oldSec: Id)
    requires Valid(s) && Update(s, id, u, q, text, now).Ok?
    requires oldSec != s.questions[q].section
    ensures Lookup(Update(s, id, u, q, text, now).value.progress, u, oldSec) == Lookup(s.progress, u, oldSec)
  {
  }

  /** `remove`: delete the answer with this id; true exactly when a row was
      deleted. Progress is not recomputed. */
  function Remove(s: Store, id: Id): (r: (Store, bool))
    requires Valid(s)
    ensures Valid(r.0)
    ensures r.1 <==> |r.0.answers| < |s.answers|
    ensures r.1 <==> id in s.answers
    ensures r.0 == s.(answers := r.0.answers)
    ensures r.0.answers.Keys == s.answers.Keys - {id}
    ensures forall k :: k in r.0.answers ==> r.0.answers[k] == s.answers[k]
  {
    var removed := id in s.answers;
    (s.(answers := s.answers - {id}), removed)
  }

  /** `findByUserId`: exactly the answers of `u`, or NotFound when there are none. */
  function FindByUserId(s: Store, u: Id): (r: Result<map<Id, UserAnswer>>)
    ensures r.Err? <==> forall k :: k in s.answers ==> s.answers[k].user != u
    ensures r.Err? ==> r.error == NotFound
    ensures r.Ok? ==> forall k :: k in r.value <==> k in s.answers && s.answers[k].user == u
    ensures r.Ok? ==> forall k :: k in r.value ==> r.value[k] == s.answers[k]
  {
    var found := AnswersOf(s, u);
    if |found| == 0 then Err(NotFound) else Ok(found)
  }

  /** A submitted answer is found among its user's answers, as stored. */
  lemma CreatedAnswerIsFound(s: Store, u: Id, q: Id, text: string, now: Timestamp)
    requires Valid(s) && Create(s, u, q, text, now).Ok?
    ensures var (t, id) := Create(s, u, q, text, now).value;
      var r := FindByUserId(t, u);
      r.Ok? && id in r.value && r.value[id] == t.answers[id] && r.value[id].answerText == text
  {
    var (t, id) := Create(s, u, q, text, now).value;
    assert id in t.answers && t.answers[id].user == u;
  }

  /** The answers of user `u`. */
  function AnswersOf(s: Store, u: Id): (r: map<Id, UserAnswer>)
    ensures forall k :: k in r <==> k in s.answers && s.answers[k].user == u
    ensures forall k :: k in r ==> r[k] == s.answers[k]
  {
    map k | k in s.answers && s.answers[k].user == u :: s.answers[k]
  }
}
