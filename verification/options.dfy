/** The option service: CRUD over the `options` table and the lookup of a
    question's correct option that grading relies on. */
module OptionService {
  import opened Common
  import opened Store

  /** `getAllOptions`: every option, or NotFound when the table is empty. */
  function GetAllOptions(s: Store): (r: Result<map<Id, AnswerOption>>)
    ensures r.Err? <==> |s.options| == 0
    ensures r.Err? ==> r.error == NotFound
    ensures r.Ok? ==> r.value == s.options && |r.value| > 0
  {
    if |s.options| == 0 then Err(NotFound) else Ok(s.options)
  }

  /** `createOption`: insert one option with the given text and flag under an
      already stored question. */
  function CreateOption(s: Store, text: string, isCorrect: bool, q: Id): (r: (Store, Id))
    requires Valid(s) && q in s.questions
    ensures Valid(r.0)
    ensures r.1 !in s.options && r.1 == s.next
    ensures r.0 == s.(options := s.options[r.1 := AnswerOption(text, isCorrect, Some(q))], next := s.next + 1)
    ensures |r.0.options| == |s.options| + 1
  {
    var id := s.next;
    (s.(options := s.options[id := AnswerOption(text, isCorrect, Some(q))], next := s.next + 1), id)
  }

  /** `getOptionsForQuestion`: exactly the options of `q`, or NotFound when it has none. */
  function GetOptionsForQuestion(s: Store, q: Id): (r: Result<map<Id, AnswerOption>>)
    ensures r.Err? <==> forall k :: k in s.options ==> s.options[k].question != Some(q)
    ensures r.Err? ==> r.error == NotFound
    ensures r.Ok? ==> forall k :: k in r.value <==> k in s.options && s.options[k].question == Some(q)
    ensures r.Ok? ==> forall k :: k in r.value ==> r.value[k] == s.options[k]
  {
    var found := OptionsOf(s, q);
    if |found| == 0 then Err(NotFound) else Ok(found)
  }

  /** `updateOption`: overwrite text and flag of an existing option, keeping
      its question; NotFound when the option is missing. */
  function UpdateOption(s: Store, id: Id, text: string, isCorrect: bool): (r: Result<Store>)
    requires Valid(s)
    ensures r.Err? <==> id !in s.options
    ensures r.Err? ==> r.error == NotFound
    ensures r.Ok? ==>
      && Valid(r.value)
      && r.value == s.(options := r.value.options)
      && r.value.options.Keys == s.options.Keys
      && r.value.options[id] == AnswerOption(text, isCorrect, s.options[id].question)
      && forall k :: k in s.options && k != id ==> r.value.options[k] == s.options[k]
  {
    if id !in s.options then Err(NotFound)
    else Ok(s.(options := s.options[id := s.options[id].(text := text, isCorrect := isCorrect)]))
  }

  /** `deleteOption`: NotFound exactly when no row was removed. */
  function DeleteOption(s: Store, id: Id): (r: Result<Store>)
    requires Valid(s)
    ensures r.Err? <==> id !in s.options
    ensures r.Err? ==> r.error == NotFound
    ensures r.Ok? ==>
      && Valid(r.value)
      && r.value == s.(options := r.value.options)
      && r.value.options.Keys == s.options.Keys - {id}
      && forall k :: k in r.value.options ==> r.value.options[k] == s.options[k]
  {
    if id !in s.options then Err(NotFound)
    else Ok(s.(options := s.options - {id}))
  }

  /** `getCorrectOptionForQuestion`: an option of `q` flagged correct, or
      NotFound when there is none. The query does not say which row it returns
      when several are flagged; the model takes the one with the least id. */
  function GetCorrectOptionForQuestion(s: Store, q: Id): (r: Result<Id>)
    requires Valid(s)
    ensures r.Err? <==> !HasCorrectOption(s, q)
    ensures r.Err? ==> r.error == NotFound
    ensures r.Ok? ==> IsCorrectOptionOf(s, r.value, q)
    ensures r.Ok? ==> forall k: Id :: k < r.value ==> !IsCorrectOptionOf(s, k, q)
  {
    match LeastKey(s.options, (o: AnswerOption) => o.question == Some(q) && o.isCorrect, 0, s.next)
    case None => Err(NotFound)
    case Some(k) =>
      assert IsCorrectOptionOf(s, k, q);
      Ok(k)
  }

  /** With a single option flagged correct, that is the one returned. */
  lemma SingleCorrectOptionIsFound(s: Store, q: Id, k: Id)
    requires Valid(s) && IsCorrectOptionOf(s, k, q)
    requires forall j :: IsCorrectOptionOf(s, j, q) ==> j == k
    ensures GetCorrectOptionForQuestion(s, q) == Ok(k)
  {
  }

  /** A created option is listed among its question's options. */
  lemma CreatedOptionIsListed(s: Store, text: string, isCorrect: bool, q: Id)
    requires Valid(s) && q in s.questions
    ensures var (t, id) := CreateOption(s, text, isCorrect, q);
      var r := GetOptionsForQuestion(t, q);
      r.Ok? && id in r.value && r.value[id] == AnswerOption(text, isCorrect, Some(q))
  {
    var (t, id) := CreateOption(s, text, isCorrect, q);
    assert id in t.options && t.options[id].question == Some(q);
  }

  /** A created option is among all options, and the table is no longer empty. */
  lemma CreatedOptionIsInAll(s: Store, text: string, isCorrect: bool, q: Id)
    requires Valid(s) && q in s.questions
    ensures var (t, id) := CreateOption(s, text, isCorrect, q);
      var r := GetAllOptions(t);
      r.Ok? && id in r.value && r.value[id] == AnswerOption(text, isCorrect, Some(q))
  {
  }

  /** A deleted option is listed nowhere. */
  lemma DeletedOptionIsGone(s: Store, id: Id, q: Id)
    requires Valid(s) && DeleteOption(s, id).Ok?
    ensures var r := GetOptionsForQuestion(DeleteOption(s, id).value, q);
      r.Ok? ==> id !in r.value
  {
  }

  /** Flagging an attached option correct gives its question a correct
      option, so grading against that question can proceed. */
  lemma FlaggedOptionMakesQuestionGradable(s: Store, id: Id, text: string)
    requires Valid(s) && id in s.options && s.options[id].question.Some?
    ensures var q := s.options[id].question.value;
      GetCorrectOptionForQuestion(UpdateOption(s, id, text, true).value, q).Ok?
  {
    var t := UpdateOption(s, id, text, true).value;
    assert IsCorrectOptionOf(t, id, s.options[id].question.value);
  }
}
