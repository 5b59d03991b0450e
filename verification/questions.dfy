/** The question service: creating a question together with its options,
    patching a question (text, section, and the merge of its option list), and
    deleting a question with everything attached to it. */
module QuestionService {
  import opened Common
  import opened Store
  import OptionService

  /** One entry of `CreateQuestionDto.options`. */
  datatype OptionDraft = OptionDraft(text: string, isCorrect: bool)

  /** One entry of `UpdateQuestionDto.options`; every field may be absent. */
  datatype OptionPatch = OptionPatch(optionId: Option<Id>, text: Option<string>, isCorrect: Option<bool>)

  /** `UpdateQuestionDto`. */
  datatype QuestionPatch = QuestionPatch(question: Option<string>, sectionId: Option<Id>, options: Option<seq<OptionPatch>>)

  // ---------------------------------------------------------------------------
  // createQuestion

  /** The options table after the loop of `createOption` calls: draft `i`
      is inserted under id `next + i`, attached to question `q`. */
  function AppendOptions(opts: map<Id, AnswerOption>, next: nat, q: Id, ds: seq<OptionDraft>): (r: map<Id, AnswerOption>)
    requires KeysBelow(opts, next)
    ensures KeysBelow(r, next + |ds|)
    ensures forall k :: k in r <==> k in opts || next <= k < next + |ds|
    ensures forall k :: k in opts ==> r[k] == opts[k]
    ensures forall k :: k in r && k !in opts ==> r[k].question == Some(q)
    decreases |ds|
  {
    if |ds| == 0 then opts
    else AppendOptions(opts[next := AnswerOption(ds[0].text, ds[0].isCorrect, Some(q))], next + 1, q, ds[1..])
  }

  /** The i-th draft becomes the option with the i-th fresh id. */
  lemma {:induction false} AppendOptionsContents(opts: map<Id, AnswerOption>, next: nat, q: Id, ds: seq<OptionDraft>, i: nat)
    requires KeysBelow(opts, next) && i < |ds|
    ensures AppendOptions(opts, next, q, ds)[next + i] == AnswerOption(ds[i].text, ds[i].isCorrect, Some(q))
    decreases |ds|
  {
    var opts1 := opts[next := AnswerOption(ds[0].text, ds[0].isCorrect, Some(q))];
    if i > 0 {
      AppendOptionsContents(opts1, next + 1, q, ds[1..], i - 1);
    }
  }

  /** The loop of `createOption` calls: one option per draft, each under
      question `q` and under the next free id (the contents in order are
      stated by AddOptionsContents). */
  function AddOptions(s: Store, q: Id, ds: seq<OptionDraft>): (t: Store)
    requires Valid(s) && q in s.questions
    ensures Valid(t)
    ensures t.users == s.users && t.sections == s.sections && t.questions == s.questions
    ensures t.answers == s.answers && t.progress == s.progress && t.next == s.next + |ds|
    ensures forall k :: k in t.options <==> k in s.options || s.next <= k < s.next + |ds|
    ensures forall k :: k in s.options ==> t.options[k] == s.options[k]
    ensures forall k :: k in t.options && k !in s.options ==> t.options[k].question == Some(q)
  {
    s.(options := AppendOptions(s.options, s.next, q, ds), next := s.next + |ds|)
  }

  /** A single draft is stored exactly as `createOption` stores it. */
  lemma AddOneIsCreateOption(s: Store, q: Id, d: OptionDraft)
    requires Valid(s) && q in s.questions
    ensures AddOptions(s, q, [d]) == OptionService.CreateOption(s, d.text, d.isCorrect, q).0
  {
    assert AppendOptions(s.options, s.next, q, [d]) == s.options[s.next := AnswerOption(d.text, d.isCorrect, Some(q))];
  }

  /** The i-th draft becomes the option with the i-th fresh id. */
  lemma AddOptionsContents(s: Store, q: Id, ds: seq<OptionDraft>, i: nat)
    requires Valid(s) && q in s.questions && i < |ds|
    ensures AddOptions(s, q, ds).options[s.next + i] == AnswerOption(ds[i].text, ds[i].isCorrect, Some(q))
  {
    AppendOptionsContents(s.options, s.next, q, ds, i);
  }

  /** The question row under the next free id. */
  function InsertQuestion(s: Store, text: string, sec: Id): (t: Store)
    requires Valid(s) && sec in s.sections
    ensures Valid(t) && s.next in t.questions
    ensures t == s.(questions := s.questions[s.next := Question(text, sec)], next := s.next + 1)
  {
    s.(questions := s.questions[s.next := Question(text, sec)], next := s.next + 1)
  }

  /** `createQuestion`: store the question under the section, then one option
      per draft attached to it. A missing section throws a plain `Error`,
      which surfaces as InternalServerError, and nothing is stored. */
  function CreateQuestion(s: Store, text: string, sec: Id, drafts: Option<seq<OptionDraft>>): (r: Result<(Store, Id)>)
    requires Valid(s)
    ensures r.Err? <==> sec !in s.sections
    ensures r.Err? ==> r.error == InternalServerError
    ensures r.Ok? ==>
      var (t, qid) := r.value;
      var ds := if drafts.Some? then drafts.value else [];
      && Valid(t)
      && qid !in s.questions
      && t == s.(questions := t.questions, options := t.options, next := t.next)
      && t.questions == s.questions[qid := Question(text, sec)]
      && t.next == qid + 1 + |ds|
      && (forall k :: k in s.options ==> k in t.options && t.options[k] == s.options[k])
  {
    if sec !in s.sections then Err(InternalServerError)
    else
      var qid := s.next;
      var s1 := InsertQuestion(s, text, sec);
      var ds := if drafts.Some? then drafts.value else [];
      Ok((AddOptions(s1, qid, ds), qid))
  }

  /** Creating a question adds exactly one option per draft, under the ids
      right after the question's, and no other option. */
  lemma CreateQuestionAddsOnlyItsOptions(s: Store, text: string, sec: Id, drafts: Option<seq<OptionDraft>>)
    requires Valid(s) && sec in s.sections
    ensures var (t, qid) := CreateQuestion(s, text, sec, drafts).value;
      var ds := if drafts.Some? then drafts.value else [];
      forall k :: k in t.options <==> k in s.options || qid < k <= qid + |ds|
  {
    var ds := if drafts.Some? then drafts.value else [];
    var t := AddOptions(InsertQuestion(s, text, sec), s.next, ds);
    assert CreateQuestion(s, text, sec, drafts) == Ok((t, s.next));
  }

  /** The new question's options are exactly the ones created with it: no
      option stored before belongs to a question that did not exist. */
  lemma CreatedQuestionOwnsItsOptions(s: Store, text: string, sec: Id, drafts: Option<seq<OptionDraft>>)
    requires Valid(s) && sec in s.sections
    ensures var (t, qid) := CreateQuestion(s, text, sec, drafts).value;
      var ds := if drafts.Some? then drafts.value else [];
      forall k :: k in OptionsOf(t, qid) <==> qid < k <= qid + |ds|
  {
    var qid := s.next;
    var ds := if drafts.Some? then drafts.value else [];
    var t := AddOptions(InsertQuestion(s, text, sec), qid, ds);
    assert CreateQuestion(s, text, sec, drafts) == Ok((t, qid));
    assert forall k :: k in s.options ==> s.options[k].question != Some(qid);
  }

  /** The question's options are its drafts, in order, under consecutive ids
      right after the question's own. */
  lemma CreatedOptionsInOrder(s: Store, text: string, sec: Id, ds: seq<OptionDraft>, i: nat)
    requires Valid(s) && sec in s.sections && i < |ds|
    ensures var r := CreateQuestion(s, text, sec, Some(ds));
      r.Ok? && r.value.0.options[r.value.1 + 1 + i] == AnswerOption(ds[i].text, ds[i].isCorrect, Some(r.value.1))
  {
    AddOptionsContents(InsertQuestion(s, text, sec), s.next, ds, i);
  }

  // ---------------------------------------------------------------------------
  // The option merge of updateQuestion

  /** An option as the merge loop leaves it after patch `p`: each field is
      overwritten only when the patch defines it. */
  function Patched(o: AnswerOption, p: OptionPatch): (r: AnswerOption)
    ensures r.question == o.question
    ensures r.text == (if p.text.Some? then p.text.value else o.text)
    ensures r.isCorrect == (if p.isCorrect.Some? then p.isCorrect.value else o.isCorrect)
  {
    o.(text := if p.text.Some? then p.text.value else o.text,
       isCorrect := if p.isCorrect.Some? then p.isCorrect.value else o.isCorrect)
  }

  /** Patch `p` names option `k` (a falsy id names nothing). */
  predicate Names(p: OptionPatch, k: Id) {
    TruthyId(p.optionId) && p.optionId.value == k
  }

  /** One turn of the loop: a patch naming one of the question's options
      updates it and records its id; any other patch (including one without
      an id, whose new option is filtered out afterwards) changes nothing. */
  function MergeStep(current: map<Id, AnswerOption>, touched: set<Id>, p: OptionPatch): (map<Id, AnswerOption>, set<Id>) {
    if TruthyId(p.optionId) && p.optionId.value in current then
      var k := p.optionId.value;
      (current[k := Patched(current[k], p)], touched + {k})
    else (current, touched)
  }

  function Merge(current: map<Id, AnswerOption>, touched: set<Id>, ps: seq<OptionPatch>): (r: (map<Id, AnswerOption>, set<Id>))
    ensures r.0.Keys == current.Keys
    ensures forall k :: k in current ==> r.0[k].question == current[k].question
    ensures forall k :: k in r.1 <==> k in touched || (k in current && exists i :: 0 <= i < |ps| && Names(ps[i], k))
    decreases |ps|
  {
    if |ps| == 0 then (current, touched)
    else
      var (c, t) := MergeStep(current, touched, ps[0]);
      var r := Merge(c, t, ps[1..]);
      assert forall i :: 1 <= i < |ps| ==> ps[1..][i - 1] == ps[i];
      r
  }

  /** The ids named by some patch. */
  ghost predicate Referenced(ps: seq<OptionPatch>, k: Id) {
    exists i :: 0 <= i < |ps| && Names(ps[i], k)
  }

  /** Reference reading of the merge: the value of a field of option `k` is
      the one set by the LAST patch that names `k` and defines the field, or
      `orig` when no such patch exists. */
  function Last<T>(ps: seq<OptionPatch>, k: Id, field: OptionPatch -> Option<T>, orig: T): T
    decreases |ps|
  {
    if |ps| == 0 then orig
    else
      var p := ps[|ps| - 1];
      if Names(p, k) && field(p).Some? then field(p).value
      else Last(ps[..|ps| - 1], k, field, orig)
  }

  function TextField(p: OptionPatch): Option<string> { p.text }
  function FlagField(p: OptionPatch): Option<bool> { p.isCorrect }

  /** Consuming the first patch is the same as starting from its effect. */
  lemma {:induction false} LastCons<T>(p: OptionPatch, rest: seq<OptionPatch>, k: Id, field: OptionPatch -> Option<T>, orig: T)
    ensures Last([p] + rest, k, field, orig)
         == Last(rest, k, field, if Names(p, k) && field(p).Some? then field(p).value else orig)
    decreases |rest|
  {
    if |rest| == 0 {
      assert ([p] + rest)[..0] == [];
    } else {
      var ps := [p] + rest;
      assert ps[|ps| - 1] == rest[|rest| - 1];
      assert ps[..|ps| - 1] == [p] + rest[..|rest| - 1];
      LastCons(p, rest[..|rest| - 1], k, field, orig);
    }
  }

  /** The left-to-right merge loop agrees with the last-patch-wins reading. */
  lemma {:induction false} MergeIsLastWins(current: map<Id, AnswerOption>, touched: set<Id>, ps: seq<OptionPatch>, k: Id)
    requires k in current
    ensures Merge(current, touched, ps).0[k]
         == AnswerOption(Last(ps, k, TextField, current[k].text),
                         Last(ps, k, FlagField, current[k].isCorrect),
                         current[k].question)
    decreases |ps|
  {
    if |ps| == 0 {
    } else {
      var (c, t) := MergeStep(current, touched, ps[0]);
      assert ps == [ps[0]] + ps[1..];
      MergeIsLastWins(c, t, ps[1..], k);
      LastCons(ps[0], ps[1..], k, TextField, current[k].text);
      LastCons(ps[0], ps[1..], k, FlagField, current[k].isCorrect);
    }
  }

  // ---------------------------------------------------------------------------
  // updateQuestion

  /** What saving the merged list does to the options table: an option of
      `q` named by some patch takes the fields set by the last patch defining
      them; an option of `q` named by no patch is dropped from the list, and
      the ORM clears its foreign key (its default for rows removed from a
      one-to-many list), so it stays in the table detached; options of other
      questions are untouched and no option is added. */
  ghost predicate OptionsMerged(before: map<Id, AnswerOption>, after: map<Id, AnswerOption>, q: Id, ps: seq<OptionPatch>) {
    && after.Keys == before.Keys
    && (forall k :: k in before && before[k].question == Some(q) && Referenced(ps, k) ==>
          after[k] == AnswerOption(Last(ps, k, TextField, before[k].text),
                                   Last(ps, k, FlagField, before[k].isCorrect), Some(q)))
    && (forall k :: k in before && before[k].question == Some(q) && !Referenced(ps, k) ==>
          after[k] == before[k].(question := None))
    && (forall k :: k in before && before[k].question != Some(q) ==> after[k] == before[k])
  }

  /** The options table after merging patches `ps` into question `q`. */
  function MergeOptions(s: Store, q: Id, ps: seq<OptionPatch>): (r: map<Id, AnswerOption>)
    requires Valid(s) && q in s.questions
    ensures OptionsMerged(s.options, r, q, ps)
  {
    var existing := OptionsOf(s, q);
    var (merged, touched) := Merge(existing, {}, ps);
    var r := OtherOptions(s, q) + KeepTouched(merged, touched) + Detach(existing, touched);
    assert r.Keys == s.options.Keys;
    assert forall k :: k in touched <==> k in existing && Referenced(ps, k);
    forall k | k in existing && Referenced(ps, k)
      ensures r[k] == AnswerOption(Last(ps, k, TextField, s.options[k].text),
                                   Last(ps, k, FlagField, s.options[k].isCorrect), Some(q))
    {
      MergeIsLastWins(existing, {}, ps, k);
    }
    forall k | k in existing && !Referenced(ps, k)
      ensures r[k] == s.options[k].(question := None)
    {
    }
    forall k | k in s.options && s.options[k].question != Some(q)
      ensures r[k] == s.options[k]
    {
    }
    r
  }

  /** The options of every question but `q`, detached ones included. */
  function OtherOptions(s: Store, q: Id): (r: map<Id, AnswerOption>)
    ensures forall k :: k in r <==> k in s.options && s.options[k].question != Some(q)
    ensures forall k :: k in r ==> r[k] == s.options[k]
  {
    map k | k in s.options && s.options[k].question != Some(q) :: s.options[k]
  }

  /** The merged options whose id some patch named: the `filter` on the ids seen. */
  function KeepTouched(merged: map<Id, AnswerOption>, touched: set<Id>): (r: map<Id, AnswerOption>)
    ensures forall k :: k in r <==> k in merged && k in touched
    ensures forall k :: k in r ==> r[k] == merged[k]
  {
    map k | k in merged && k in touched :: merged[k]
  }

  /** The options the filter dropped, with their foreign key cleared. */
  function Detach(existing: map<Id, AnswerOption>, touched: set<Id>): (r: map<Id, AnswerOption>)
    ensures forall k :: k in r <==> k in existing && k !in touched
    ensures forall k :: k in r ==> r[k] == existing[k].(question := None)
  {
    map k | k in existing && k !in touched :: existing[k].(question := None)
  }

  /** `updateQuestion`: replace the text when a non-empty one is given, move
      to a given section when it exists, and merge the option list when one is
      given. A missing question is NotFound; every other failure, a missing
      section included, is rewrapped as InternalServerError. */
  function UpdateQuestion(s: Store, id: Id, dto: QuestionPatch): (r: Result<Store>)
    requires Valid(s)
    ensures r.Err? <==> id !in s.questions || (TruthyId(dto.sectionId) && dto.sectionId.value !in s.sections)
    ensures r.Err? ==> r.error == (if id !in s.questions then NotFound else InternalServerError)
    ensures r.Ok? ==>
      var t := r.value;
      && Valid(t)
      && t == s.(questions := t.questions, options := t.options)
      && t.questions.Keys == s.questions.Keys
      && (forall k :: k in s.questions && k != id ==> t.questions[k] == s.questions[k])
      && t.questions[id].text == (if TruthyText(dto.question) then dto.question.value else s.questions[id].text)
      && t.questions[id].section == (if TruthyId(dto.sectionId) then dto.sectionId.value else s.questions[id].section)
      && (dto.options.None? ==> t.options == s.options)
      && (dto.options.Some? ==> OptionsMerged(s.options, t.options, id, dto.options.value))
  {
    if id !in s.questions then Err(NotFound)
    else if TruthyId(dto.sectionId) && dto.sectionId.value !in s.sections then Err(InternalServerError)
    else
      var current := s.questions[id];
      var question := current.(
        text := if TruthyText(dto.question) then dto.question.value else current.text,
        section := if TruthyId(dto.sectionId) then dto.sectionId.value else current.section);
      var options := if dto.options.Some? then MergeOptions(s, id, dto.options.value) else s.options;
      MergedStaysAttached(s, id, dto.options, options);
      Ok(s.(questions := s.questions[id := question], options := options))
  }

  /** A merged table keeps every option attached to a stored question or
      detached. */
  lemma MergedStaysAttached(s: Store, q: Id, ps: Option<seq<OptionPatch>>, after: map<Id, AnswerOption>)
    requires Valid(s) && q in s.questions
    requires ps.None? ==> after == s.options
    requires ps.Some? ==> OptionsMerged(s.options, after, q, ps.value)
    ensures forall k :: k in after ==> k < s.next
    ensures forall k :: k in after && after[k].question.Some? ==> after[k].question.value in s.questions
  {
    if ps.Some? {
      forall k | k in after && after[k].question.Some?
        ensures after[k].question.value in s.questions
      {
        assert k in s.options;
      }
    }
  }

  /** After a merge the question's options are exactly its former options
      that some patch named. */
  lemma MergeKeepsExactlyTheNamed(s: Store, id: Id, dto: QuestionPatch, k: Id)
    requires Valid(s) && UpdateQuestion(s, id, dto).Ok? && dto.options.Some?
    ensures k in OptionsOf(UpdateQuestion(s, id, dto).value, id) <==>
            k in OptionsOf(s, id) && Referenced(dto.options.value, k)
  {
    var t := UpdateQuestion(s, id, dto).value;
    if k in s.options && s.options[k].question == Some(id) && !Referenced(dto.options.value, k) {
      assert t.options[k].question == None;
    }
  }

  /** An option list whose entries carry no id, or an empty list, leaves the
      question with no options at all: new options are appended and then
      filtered out together with every option that was not named. */
  lemma UnnamedPatchesDropEveryOption(s: Store, id: Id, dto: QuestionPatch)
    requires Valid(s) && id in s.questions
    requires !TruthyId(dto.sectionId)
    requires dto.options.Some? && forall i :: 0 <= i < |dto.options.value| ==> !TruthyId(dto.options.value[i].optionId)
    ensures UpdateQuestion(s, id, dto).Ok?
    ensures OptionsOf(UpdateQuestion(s, id, dto).value, id) == map[]
  {
    var t := UpdateQuestion(s, id, dto).value;
    assert forall k :: !Referenced(dto.options.value, k);
    forall k | k in t.options ensures t.options[k].question != Some(id) {
      MergeKeepsExactlyTheNamed(s, id, dto, k);
    }
    assert OptionsOf(t, id).Keys == {};
  }

  // ---------------------------------------------------------------------------
  // deleteQuestion

  /** `deleteQuestion`: remove the question and its options; its answers go
      with it through the cascading foreign key. NotFound when absent. */
  function DeleteQuestion(s: Store, q: Id): (r: Result<Store>)
    requires Valid(s)
    ensures r.Err? <==> q !in s.questions
    ensures r.Err? ==> r.error == NotFound
    ensures r.Ok? ==>
      var t := r.value;
      && Valid(t)
      && t == s.(questions := t.questions, options := t.options, answers := t.answers)
      && t.questions == s.questions - {q}
      && (forall k :: k in t.options <==> k in s.options && s.options[k].question != Some(q))
      && (forall k :: k in t.options ==> t.options[k] == s.options[k])
      && (forall k :: k in t.answers <==> k in s.answers && s.answers[k].question != q)
      && (forall k :: k in t.answers ==> t.answers[k] == s.answers[k])
  {
    if q !in s.questions then Err(NotFound)
    else
      var options := map k | k in s.options && s.options[k].question != Some(q) :: s.options[k];
      var answers := map k | k in s.answers && s.answers[k].question != q :: s.answers[k];
      Ok(s.(questions := s.questions - {q}, options := options, answers := answers))
  }
}
