/** The per-(user, section) progress service: the percentage of correct
    answers in a section, completion by answer count, the overall average,
    and the create-if-absent, reset and delete transitions of a progress row. */
module UserProgressService {
  import opened Common
  import opened Store

  // ---------------------------------------------------------------------------
  // Counting queries

  /** The questions of section `sec`. */
  function SectionQuestions(s: Store, sec: Id): set<Id> {
    set q | q in s.questions && s.questions[q].section == sec
  }

  /** An answer given by `u` to a question of section `sec` (the join
      answer -> question -> section the count queries use). */
  predicate InSection(s: Store, a: UserAnswer, u: Id, sec: Id) {
    a.user == u && a.question in s.questions && s.questions[a.question].section == sec
  }

  /** All answers `u` gave in section `sec`, right or wrong. */
  function SectionAnswers(s: Store, u: Id, sec: Id): set<Id> {
    set k | k in s.answers && InSection(s, s.answers[k], u, sec)
  }

  /** The answers `u` gave in section `sec` that were graded correct. */
  function CorrectAnswers(s: Store, u: Id, sec: Id): (r: set<Id>)
    ensures r <= SectionAnswers(s, u, sec)
    ensures forall k :: k in r <==> k in SectionAnswers(s, u, sec) && s.answers[k].isCorrect
  {
    set k | k in s.answers && InSection(s, s.answers[k], u, sec) && s.answers[k].isCorrect
  }

  /** `calculateSectionProgress`: correct answers over questions, as a
      percentage, and 0 for a section without questions. */
  function SectionProgress(s: Store, u: Id, sec: Id): (r: real)
    ensures r >= 0.0
    ensures |SectionQuestions(s, sec)| == 0 ==> r == 0.0
    ensures |SectionQuestions(s, sec)| > 0 ==>
      r * (|SectionQuestions(s, sec)| as real) == 100.0 * (|CorrectAnswers(s, u, sec)| as real)
    ensures |SectionQuestions(s, sec)| > 0 ==>
      (r == 100.0 <==> |CorrectAnswers(s, u, sec)| == |SectionQuestions(s, sec)|)
  {
    var total := |SectionQuestions(s, sec)|;
    var correct := |CorrectAnswers(s, u, sec)|;
    if total == 0 then 0.0
    else
      Percentage(correct as real, total as real);
      (correct as real / total as real) * 100.0
  }

  /** The arithmetic of a percentage `c / t * 100` with `t > 0`. */
  lemma Percentage(c: real, t: real)
    requires c >= 0.0 && t > 0.0
    ensures c / t * 100.0 >= 0.0
    ensures (c / t * 100.0) * t == 100.0 * c
    ensures c / t * 100.0 == 100.0 <==> c == t
  {
    var q := c / t;
    assert q * t == c;
    assert (q * 100.0) * t == 100.0 * (q * t);
  }

  /** Nothing caps the percentage: one answer per question is not enforced,
      so two correct answers to a section's only question score 200. */
  lemma ProgressCanExceedHundred()
    ensures var s := Store(map[], map[], map[1 := Question("q", 7)], map[],
                           map[2 := UserAnswer("a", true, 5, 1), 3 := UserAnswer("a", true, 5, 1)], [], 4);
            SectionProgress(s, 5, 7) == 200.0
  {
    var s := Store(map[], map[], map[1 := Question("q", 7)], map[],
                   map[2 := UserAnswer("a", true, 5, 1), 3 := UserAnswer("a", true, 5, 1)], [], 4);
    assert SectionQuestions(s, 7) == {1};
    assert CorrectAnswers(s, 5, 7) == {2, 3};
  }

  // ---------------------------------------------------------------------------
  // Finding the row of a (user, section) pair

  predicate RowFor(row: ProgressRow, u: Id, sec: Id) {
    row.user == u && row.section == sec
  }

  /** Position of the first row of (u, sec), the row `findOne` returns. */
  function IndexOf(rows: seq<ProgressRow>, u: Id, sec: Id): (r: Option<nat>)
    ensures r.Some? ==> r.value < |rows| && RowFor(rows[r.value], u, sec)
    ensures r.Some? ==> forall j :: 0 <= j < r.value ==> !RowFor(rows[j], u, sec)
    ensures r.None? <==> forall j :: 0 <= j < |rows| ==> !RowFor(rows[j], u, sec)
  {
    if |rows| == 0 then None
    else if RowFor(rows[0], u, sec) then Some(0)
    else
      match IndexOf(rows[1..], u, sec)
      case None => None
      case Some(i) => Some(i + 1)
  }

  /** The row of (u, sec), if any. */
  function Lookup(rows: seq<ProgressRow>, u: Id, sec: Id): (r: Option<ProgressRow>)
    ensures r.Some? ==> r.value in rows && RowFor(r.value, u, sec)
    ensures r.None? <==> forall row :: row in rows ==> !RowFor(row, u, sec)
  {
    match IndexOf(rows, u, sec)
    case None => None
    case Some(i) => Some(rows[i])
  }

  /** Replacing a row by one with the same key leaves every other key's lookup alone. */
  lemma LookupAfterReplace(rows: seq<ProgressRow>, i: nat, row: ProgressRow, u: Id, sec: Id)
    requires i < |rows| && row.user == rows[i].user && row.section == rows[i].section
    requires !RowFor(row, u, sec)
    ensures Lookup(rows[i := row], u, sec) == Lookup(rows, u, sec)
  {
    var rows' := rows[i := row];
    assert forall j :: 0 <= j < |rows| ==> (RowFor(rows'[j], u, sec) <==> RowFor(rows[j], u, sec));
    match IndexOf(rows, u, sec)
    case None =>
    case Some(a) =>
      var b := IndexOf(rows', u, sec);
      assert b == Some(a) by {
        if b.None? || b.value < a || b.value > a {
          assert false;
        }
      }
  }

  /** Appending a row of another key leaves this key's lookup alone. */
  lemma LookupAfterAppend(rows: seq<ProgressRow>, row: ProgressRow, u: Id, sec: Id)
    requires !RowFor(row, u, sec)
    ensures Lookup(rows + [row], u, sec) == Lookup(rows, u, sec)
  {
    var rows' := rows + [row];
    assert forall j :: 0 <= j < |rows| ==> rows'[j] == rows[j];
    match IndexOf(rows, u, sec)
    case None =>
    case Some(a) =>
      var b := IndexOf(rows', u, sec);
      assert b == Some(a) by {
        if b.None? || b.value < a || b.value > a {
          assert false;
        }
      }
  }

  /** The row of (u, sec) is found wherever it sits, given unique keys. */
  lemma LookupUnique(rows: seq<ProgressRow>, i: nat)
    requires UniqueProgressKeys(rows) && i < |rows|
    ensures Lookup(rows, rows[i].user, rows[i].section) == Some(rows[i])
  {
  }

  // ---------------------------------------------------------------------------
  // Transitions

  /** `createUserProgress`: returns the existing row untouched, or appends a
      fresh row with `isCompleted = false`. */
  function CreateUserProgress(s: Store, u: Id, sec: Id): (r: (Store, ProgressRow))
    requires Valid(s)
    ensures Valid(r.0)
    ensures Lookup(r.0.progress, u, sec) == Some(r.1)
    ensures Lookup(s.progress, u, sec).Some? ==> r.0 == s && r.1 == Lookup(s.progress, u, sec).value
    ensures Lookup(s.progress, u, sec).None? ==>
      && r.0 == s.(progress := s.progress + [r.1])
      && r.1 == ProgressRow(u, sec, None, false, None)
  {
    match Lookup(s.progress, u, sec)
    case Some(row) => (s, row)
    case None =>
      var row := ProgressRow(u, sec, None, false, None);
      var rows := s.progress + [row];
      assert forall j :: 0 <= j < |s.progress| ==> rows[j] == s.progress[j];
      LookupUnique(rows, |s.progress|);
      (s.(progress := rows), row)
  }

  /** Calling `createUserProgress` a second time changes nothing. */
  lemma CreateUserProgressIdempotent(s: Store, u: Id, sec: Id)
    requires Valid(s)
    ensures CreateUserProgress(CreateUserProgress(s, u, sec).0, u, sec) == CreateUserProgress(s, u, sec)
  {
  }

  /** A section counts as completed when the user has given as many answers
      in it as it has questions, whatever their correctness. */
  predicate AllAnswered(s: Store, u: Id, sec: Id) {
    |SectionAnswers(s, u, sec)| == |SectionQuestions(s, sec)|
  }

  /** What `updateUserProgress(u, sec)` promises of the store `t` it leaves
      behind, starting from `s`: the row exists and holds the recomputed
      percentage; it is stamped complete at `now` when every question has an
      answer and otherwise keeps its previous completion fields; every other
      row and every other table is as before. */
  ghost predicate ProgressRecomputed(s: Store, t: Store, u: Id, sec: Id, now: Timestamp) {
    var prior := Lookup(s.progress, u, sec);
    var after := Lookup(t.progress, u, sec);
    && t == s.(progress := t.progress)
    && after.Some?
    && after.value.progress == Some(SectionProgress(s, u, sec))
    && (AllAnswered(s, u, sec) ==>
          after.value.isCompleted && after.value.completionDate == Some(now))
    && (!AllAnswered(s, u, sec) ==>
          && after.value.isCompleted == (prior.Some? && prior.value.isCompleted)
          && after.value.completionDate == (if prior.Some? then prior.value.completionDate else None))
    && forall u', sec' :: !(u' == u && sec' == sec) ==>
         Lookup(t.progress, u', sec') == Lookup(s.progress, u', sec')
  }

  /** The counts read only the question and answer tables. */
  lemma SameCounts(s: Store, t: Store, u: Id, sec: Id)
    requires t.questions == s.questions && t.answers == s.answers
    ensures SectionQuestions(t, sec) == SectionQuestions(s, sec)
    ensures SectionAnswers(t, u, sec) == SectionAnswers(s, u, sec)
    ensures CorrectAnswers(t, u, sec) == CorrectAnswers(s, u, sec)
    ensures SectionProgress(t, u, sec) == SectionProgress(s, u, sec)
    ensures AllAnswered(t, u, sec) == AllAnswered(s, u, sec)
  {
    assert forall a :: InSection(t, a, u, sec) == InSection(s, a, u, sec);
  }

  /** `updateUserProgress`: fetch or create the row, store the recomputed
      percentage, and mark it complete when every question has an answer. */
  function UpdateUserProgress(s: Store, u: Id, sec: Id, now: Timestamp): (r: (Store, ProgressRow))
    requires Valid(s)
    ensures Valid(r.0)
    ensures ProgressRecomputed(s, r.0, u, sec, now)
    ensures Lookup(r.0.progress, u, sec) == Some(r.1)
    ensures |r.0.progress| == |s.progress| + (if Lookup(s.progress, u, sec).Some? then 0 else 1)
  {
    var (s1, row) := CreateUserProgress(s, u, sec);
    var complete := AllAnswered(s, u, sec);
    var row' := row.(
      progress := Some(SectionProgress(s, u, sec)),
      isCompleted := if complete then true else row.isCompleted,
      completionDate := if complete then Some(now) else row.completionDate);
    var i := IndexOf(s1.progress, u, sec).value;
    var rows := s1.progress[i := row'];
    LookupUnique(rows, i);
    forall u', sec' | !(u' == u && sec' == sec)
      ensures Lookup(rows, u', sec') == Lookup(s.progress, u', sec')
    {
      LookupAfterReplace(s1.progress, i, row', u', sec');
      if Lookup(s.progress, u, sec).None? {
        LookupAfterAppend(s.progress, row, u', sec');
      }
    }
    ValidWithProgress(s1, rows);
    (s1.(progress := rows), row')
  }

  /** Recomputing twice with no new answers keeps the percentage and the
      completion flag; only the completion date is stamped again when the
      section is complete. */
  lemma RecomputeIsStable(s: Store, u: Id, sec: Id, t1: Timestamp, t2: Timestamp)
    requires Valid(s)
    ensures var (s1, r1) := UpdateUserProgress(s, u, sec, t1);
            var (s2, r2) := UpdateUserProgress(s1, u, sec, t2);
            && r2.progress == r1.progress
            && r2.isCompleted == r1.isCompleted
            && r2.completionDate == (if AllAnswered(s, u, sec) then Some(t2) else r1.completionDate)
            && s2.answers == s.answers
  {
    var (s1, r1) := UpdateUserProgress(s, u, sec, t1);
    SameCounts(s, s1, u, sec);
  }

  /** `getUserProgressBySection`: the row of (u, sec), or NotFound. */
  function GetUserProgressBySection(s: Store, u: Id, sec: Id): (r: Result<ProgressRow>)
    ensures r.Err? <==> forall row :: row in s.progress ==> !RowFor(row, u, sec)
    ensures r.Err? ==> r.error == NotFound
    ensures r.Ok? ==> r.value in s.progress && RowFor(r.value, u, sec)
  {
    match Lookup(s.progress, u, sec)
    case None => Err(NotFound)
    case Some(row) => Ok(row)
  }

  /** `resetUserProgress`: zero the row of (u, sec) and clear its completion,
      keeping the row and every answer; NotFound when there is no row. */
  function ResetUserProgress(s: Store, u: Id, sec: Id): (r: Result<(Store, ProgressRow)>)
    requires Valid(s)
    ensures r.Err? <==> forall row :: row in s.progress ==> !RowFor(row, u, sec)
    ensures r.Err? ==> r.error == NotFound
    ensures r.Ok? ==> Valid(r.value.0)
    ensures r.Ok? ==>
      var (t, row) := r.value;
      && t == s.(progress := t.progress)
      && |t.progress| == |s.progress|
      && Lookup(t.progress, u, sec) == Some(row)
      && row.progress == Some(0.0) && !row.isCompleted && row.completionDate == None
      && (forall u', sec' :: !(u' == u && sec' == sec) ==>
            Lookup(t.progress, u', sec') == Lookup(s.progress, u', sec'))
  {
    match GetUserProgressBySection(s, u, sec)
    case Err(e) => Err(e)
    case Ok(row) =>
      var row' := row.(isCompleted := false, progress := Some(0.0), completionDate := None);
      var i := IndexOf(s.progress, u, sec).value;
      var rows := s.progress[i := row'];
      LookupUnique(rows, i);
      forall u', sec' | !(u' == u && sec' == sec)
        ensures Lookup(rows, u', sec') == Lookup(s.progress, u', sec')
      {
        LookupAfterReplace(s.progress, i, row', u', sec');
      }
      Ok((s.(progress := rows), row'))
  }

  /** A reset section is completed again by the next recomputation as long as
      the answer count still equals the question count. */
  lemma ResetThenRecompute(s: Store, u: Id, sec: Id, now: Timestamp)
    requires Valid(s) && AllAnswered(s, u, sec)
    requires ResetUserProgress(s, u, sec).Ok?
    ensures var t := ResetUserProgress(s, u, sec).value.0;
            var row := UpdateUserProgress(t, u, sec, now).1;
            row.isCompleted && row.completionDate == Some(now)
  {
    var t := ResetUserProgress(s, u, sec).value.0;
    SameCounts(s, t, u, sec);
  }

  /** `deleteUserProgress`: remove the row of (u, sec); NotFound when absent. */
  function DeleteUserProgress(s: Store, u: Id, sec: Id): (r: Result<Store>)
    requires Valid(s)
    ensures r.Err? <==> forall row :: row in s.progress ==> !RowFor(row, u, sec)
    ensures r.Err? ==> r.error == NotFound
    ensures r.Ok? ==>
      var t := r.value;
      && Valid(t)
      && t == s.(progress := t.progress)
      && |t.progress| == |s.progress| - 1
      && (forall row :: row in t.progress ==> row in s.progress && !RowFor(row, u, sec))
      && (forall row :: row in s.progress && !RowFor(row, u, sec) ==> row in t.progress)
  {
    match IndexOf(s.progress, u, sec)
    case None => Err(NotFound)
    case Some(i) =>
      var rows := s.progress[..i] + s.progress[i + 1..];
      assert forall j :: 0 <= j < i ==> rows[j] == s.progress[j];
      assert forall j :: i <= j < |rows| ==> rows[j] == s.progress[j + 1];
      forall row | row in s.progress && !RowFor(row, u, sec)
        ensures row in rows
      {
        var j :| 0 <= j < |s.progress| && s.progress[j] == row;
        if j < i { assert rows[j] == row; } else { assert rows[j - 1] == row; }
      }
      ValidWithProgress(s, rows);
      Ok(s.(progress := rows))
  }

  /** `getCompletedSections`: exactly the user's rows marked completed. */
  function CompletedSections(s: Store, u: Id): (r: seq<ProgressRow>)
    ensures |r| <= |s.progress|
    ensures forall row :: row in r <==> row in s.progress && row.user == u && row.isCompleted
  {
    Filter(s.progress, (row: ProgressRow) => row.user == u && row.isCompleted)
  }

  // ---------------------------------------------------------------------------
  // Overall progress

  function Sum(xs: seq<real>): real {
    if |xs| == 0 then 0.0 else xs[0] + Sum(xs[1..])
  }

  /** A sum of values of at least `lo` is at least n * lo. */
  lemma {:induction false} SumAtLeast(xs: seq<real>, lo: real)
    requires forall i :: 0 <= i < |xs| ==> lo <= xs[i]
    ensures (|xs| as real) * lo <= Sum(xs)
  {
    if |xs| > 0 {
      SumAtLeast(xs[1..], lo);
    }
  }

  /** A sum of values of at most `hi` is at most n * hi. */
  lemma {:induction false} SumAtMost(xs: seq<real>, hi: real)
    requires forall i :: 0 <= i < |xs| ==> xs[i] <= hi
    ensures Sum(xs) <= (|xs| as real) * hi
  {
    if |xs| > 0 {
      SumAtMost(xs[1..], hi);
    }
  }

  /** A mean `m` of `n` values whose total lies between n * lo and n * hi
      lies between lo and hi. */
  lemma MeanWithin(m: real, total: real, n: real, lo: real, hi: real)
    requires n > 0.0 && m * n == total && n * lo <= total <= n * hi
    ensures lo <= m <= hi
  {
    assert (m - lo) * n >= 0.0;
    assert (hi - m) * n >= 0.0;
  }

  /** The progress rows of user `u`, as loaded by `find({ where: { user } })`. */
  function UserRows(s: Store, u: Id): (r: seq<ProgressRow>)
    ensures forall row :: row in r <==> row in s.progress && row.user == u
  {
    Filter(s.progress, (row: ProgressRow) => row.user == u)
  }

  /** The freshly recomputed percentage of each of the rows' sections. */
  function Scores(s: Store, u: Id, rows: seq<ProgressRow>): (r: seq<real>)
    ensures |r| == |rows|
    ensures forall i :: 0 <= i < |rows| ==> r[i] == SectionProgress(s, u, rows[i].section)
  {
    seq(|rows|, i requires 0 <= i < |rows| => SectionProgress(s, u, rows[i].section))
  }

  /** `calculateOverallProgress`: the mean of the recomputed section
      percentages over the user's rows (the stored `progress` is ignored), and
      0 for a user without rows. */
  function OverallProgress(s: Store, u: Id): (r: real)
    ensures |UserRows(s, u)| == 0 ==> r == 0.0
    ensures |UserRows(s, u)| > 0 ==> r == Mean(Scores(s, u, UserRows(s, u)))
    ensures r >= 0.0
  {
    var rows := UserRows(s, u);
    if |rows| == 0 then 0.0 else Mean(Scores(s, u, rows))
  }

  /** The arithmetic mean of a non-empty sequence; a mean of non-negative
      values is non-negative. */
  function Mean(xs: seq<real>): (m: real)
    requires |xs| > 0
    ensures m * (|xs| as real) == Sum(xs)
    ensures (forall i :: 0 <= i < |xs| ==> xs[i] >= 0.0) ==> m >= 0.0
  {
    var n := |xs| as real;
    assert (Sum(xs) / n) * n == Sum(xs);
    if forall i :: 0 <= i < |xs| ==> xs[i] >= 0.0 then
      SumAtLeast(xs, 0.0);
      Sum(xs) / n
    else Sum(xs) / n
  }

  /** The overall figure lies between the lowest and highest section figure. */
  lemma OverallWithin(s: Store, u: Id, lo: real, hi: real)
    requires |UserRows(s, u)| > 0
    requires forall row :: row in UserRows(s, u) ==> lo <= SectionProgress(s, u, row.section) <= hi
    ensures lo <= OverallProgress(s, u) <= hi
  {
    ScoresWithin(s, u, lo, hi);
    MeanOfBounded(Scores(s, u, UserRows(s, u)), lo, hi);
  }

  /** A mean of values between lo and hi lies between lo and hi. */
  lemma MeanOfBounded(xs: seq<real>, lo: real, hi: real)
    requires |xs| > 0
    requires forall i :: 0 <= i < |xs| ==> lo <= xs[i] <= hi
    ensures lo <= Mean(xs) <= hi
  {
    SumAtLeast(xs, lo);
    SumAtMost(xs, hi);
    MeanWithin(Mean(xs), Sum(xs), |xs| as real, lo, hi);
  }

  /** Bounds on the section figures carry over to the scores being averaged. */
  lemma ScoresWithin(s: Store, u: Id, lo: real, hi: real)
    requires forall row :: row in UserRows(s, u) ==> lo <= SectionProgress(s, u, row.section) <= hi
    ensures var xs := Scores(s, u, UserRows(s, u));
      forall i :: 0 <= i < |xs| ==> lo <= xs[i] <= hi
  {
    var rows := UserRows(s, u);
    forall i | 0 <= i < |rows| ensures lo <= Scores(s, u, rows)[i] <= hi {
      assert rows[i] in rows;
    }
  }

  /** A user who scored 100 in every section has overall progress 100. */
  lemma OverallFullWhenEverySectionFull(s: Store, u: Id)
    requires |UserRows(s, u)| > 0
    requires forall row :: row in UserRows(s, u) ==> SectionProgress(s, u, row.section) == 100.0
    ensures OverallProgress(s, u) == 100.0
  {
    OverallWithin(s, u, 100.0, 100.0);
  }
}
