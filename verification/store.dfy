/** The six tables of the quiz back-end as one immutable value. Every service
    operation of the model is a pure function from a Store to a new Store
    (and a returned value), or to an error. */
module Store {
  import opened Common

  /** A `users` row. `role` is the integer column value the role transformer
      writes (1 = admin, 0 = user); `password` is the stored hash. */
  datatype User = User(name: string, email: string, password: string, role: int)

  /** A `sections` row; the services only test whether a section exists. */
  datatype Section = Section(title: string, description: string, videoUrl: string, order: int, isActive: bool)

  /** A `question` row: its text and the section it belongs to. */
  datatype Question = Question(text: string, section: Id)

  /** An `options` row: one answer choice of a question. `question` is None
      once the row has been detached from its question (its foreign key
      cleared by the ORM, see QuestionService.UpdateQuestion). */
  datatype AnswerOption = AnswerOption(text: string, isCorrect: bool, question: Option<Id>)

  /** A `userAnswer` row; `isCorrect` is derived when the row is written. */
  datatype UserAnswer = UserAnswer(answerText: string, isCorrect: bool, user: Id, question: Id)

  /** A `user_progress` row. `progress` is unset until the first recomputation. */
  datatype ProgressRow = ProgressRow(
    user: Id,
    section: Id,
    progress: Option<real>,
    isCompleted: bool,
    completionDate: Option<Timestamp>)

  datatype Store = Store(
    users: map<Id, User>,
    sections: map<Id, Section>,
    questions: map<Id, Question>,
    options: map<Id, AnswerOption>,
    answers: map<Id, UserAnswer>,
    progress: seq<ProgressRow>,
    next: Id)

  ghost predicate KeysBelow<T>(m: map<Id, T>, n: nat) {
    forall k :: k in m ==> k < n
  }

  /** At most one progress row per (user, section) pair. */
  ghost predicate UniqueProgressKeys(rows: seq<ProgressRow>) {
    forall i, j :: 0 <= i < j < |rows| ==>
      !(rows[i].user == rows[j].user && rows[i].section == rows[j].section)
  }

  /** The `unique: true` constraint on the email column. */
  ghost predicate UniqueEmails(users: map<Id, User>) {
    forall a, b :: a in users && b in users && a != b ==> users[a].email != users[b].email
  }

  /** Every answer names a stored user and a stored question: the two
      foreign keys of `user_answers`, which carry a delete action. */
  ghost predicate AnswersKeyed(answers: map<Id, UserAnswer>, users: map<Id, User>, questions: map<Id, Question>) {
    forall k :: k in answers ==> answers[k].user in users && answers[k].question in questions
  }

  /** Every question belongs to a stored section. */
  ghost predicate QuestionsInSections(questions: map<Id, Question>, sections: map<Id, Section>) {
    forall q :: q in questions ==> questions[q].section in sections
  }

  /** The store invariant: ids come from the auto-increment counter, the
      uniqueness constraints hold, every attached option hangs off a stored
      question (the foreign key of `options.question`), every answer names a
      stored user and question, and every question a stored section. */
  ghost predicate Valid(s: Store) {
    && KeysBelow(s.users, s.next)
    && KeysBelow(s.sections, s.next)
    && KeysBelow(s.questions, s.next)
    && KeysBelow(s.options, s.next)
    && KeysBelow(s.answers, s.next)
    && UniqueProgressKeys(s.progress)
    && UniqueEmails(s.users)
    && (forall k :: k in s.options && s.options[k].question.Some? ==> s.options[k].question.value in s.questions)
    && AnswersKeyed(s.answers, s.users, s.questions)
    && QuestionsInSections(s.questions, s.sections)
  }

  /** Replacing the progress rows keeps the invariant as long as the new
      rows still have one row per (user, section). */
  lemma ValidWithProgress(s: Store, rows: seq<ProgressRow>)
    requires Valid(s) && UniqueProgressKeys(rows)
    ensures Valid(s.(progress := rows))
  {
  }

  /** The options attached to question `q`. */
  function OptionsOf(s: Store, q: Id): (r: map<Id, AnswerOption>)
    ensures forall k :: k in r <==> k in s.options && s.options[k].question == Some(q)
    ensures forall k :: k in r ==> r[k] == s.options[k]
  {
    map k | k in s.options && s.options[k].question == Some(q) :: s.options[k]
  }

  ghost predicate IsCorrectOptionOf(s: Store, k: Id, q: Id) {
    k in s.options && s.options[k].question == Some(q) && s.options[k].isCorrect
  }

  ghost predicate HasCorrectOption(s: Store, q: Id) {
    exists k :: IsCorrectOptionOf(s, k, q)
  }

  /** The empty database; ids start at 1 like an auto-increment column. */
  function EmptyStore(): (s: Store)
    ensures Valid(s)
    ensures s.users == map[] && s.options == map[] && s.answers == map[] && s.progress == []
  {
    Store(map[], map[], map[], map[], map[], [], 1)
  }
}
