/** One quiz as the registry holds it, how /quiz2 builds it, how a
    submission is recorded in it, and what /reveal reports about it. */
module Quizzes {
  import opened Text
  import opened Ranks
  import opened Combo
  import opened Answers
  import opened Scores

  type QuizId = string

  /** One answer option: its letter and its (card-normalised) text. */
  datatype Choice = Choice(letter: char, text: seq<Glyph>)

  /** A quiz: the question, the lettered options, the correct answers as
      typed by the author, the points per correct letter, each submitter's
      letters, the submitters in submission order (the order in which the
      answers dict yields them), the rank changes noted at submission, and
      the author. */
  datatype Quiz = Quiz(
    question: string,
    options: seq<Choice>,
    correct: seq<string>,
    points: int,
    answers: map<UserId, seq<char>>,
    order: seq<UserId>,
    rankups: map<UserId, string>,
    author: UserId)

  /** Option letters are chr(ord("A") + i); a Dafny char stops short of the
      surrogate range at 0xD800. */
  const MAX_OPTIONS: nat := 0xD800 - 65

  function OptionLetter(i: nat): char
    requires i < MAX_OPTIONS
  {
    (65 + i) as char
  }

  /** Later options get strictly later letters, starting from 'A'. */
  lemma OptionLettersAscend(i: nat, j: nat)
    requires i < j < MAX_OPTIONS
    ensures OptionLetter(0) == 'A'
    ensures OptionLetter(i) < OptionLetter(j)
  {
  }

  /** valid_letters: the letters of the options, in order. */
  function Letters(options: seq<Choice>): seq<char> {
    seq(|options|, i requires 0 <= i < |options| => options[i].letter)
  }

  /** Options are lettered A, B, ... in order. */
  ghost predicate Lettered(options: seq<Choice>) {
    && |options| <= MAX_OPTIONS
    && (forall i :: 0 <= i < |options| ==> options[i].letter == OptionLetter(i))
  }

  /** Every submitter appears once in the order, and every stored answer is
      a non-empty strictly sorted list of letters. */
  ghost predicate Submissions(answers: map<UserId, seq<char>>, order: seq<UserId>) {
    && (forall i, j :: 0 <= i < j < |order| ==> order[i] != order[j])
    && (forall u :: u in answers <==> u in order)
    && (forall u :: u in answers ==> StrictlySorted(answers[u]) && answers[u] != [])
  }

  /** Everyone in the submission order has a stored answer. */
  lemma SubmittersAnswered(answers: map<UserId, seq<char>>, order: seq<UserId>)
    requires Submissions(answers, order)
    ensures forall i :: 0 <= i < |order| ==> order[i] in answers
  {
    forall i | 0 <= i < |order| ensures order[i] in answers {
      assert order[i] in order;
    }
  }

  /** The invariant every quiz in the registry keeps. */
  ghost predicate WellFormed(q: Quiz) {
    && Lettered(q.options)
    && Submissions(q.answers, q.order)
    && q.rankups.Keys <= q.answers.Keys
  }

  /** Every quiz of a registry is well-formed. */
  ghost predicate Registry(quizzes: map<QuizId, Quiz>) {
    forall id :: id in quizzes ==> WellFormed(quizzes[id])
  }

  /** Storing a well-formed quiz under any id keeps a registry well-formed,
      and so does closing one. */
  lemma RegistryUpdate(quizzes: map<QuizId, Quiz>, id: QuizId, q: Quiz)
    requires Registry(quizzes) && WellFormed(q)
    ensures Registry(quizzes[id := q])
    ensures Registry(quizzes - {id})
  {
  }

  /** The body of /quiz2 without the embed: the choices split on '|', each
      stripped and card-normalised and lettered A, B, ...; the correct
      answers split on ',', stripped and upper-cased; nobody has answered. */
  function NewQuiz(question: string, choix: string, bonne: string, points: int, author: UserId): Quiz
    requires |Split(choix, '|')| <= MAX_OPTIONS
  {
    var segs := Split(choix, '|');
    var parts := Split(bonne, ',');
    Quiz(question,
         seq(|segs|, i requires 0 <= i < |segs| => Choice(OptionLetter(i), ConvertCombo(Strip(segs[i])))),
         seq(|parts|, i requires 0 <= i < |parts| => Upper(Strip(parts[i]))),
         points, map[], [], map[], author)
  }

  /** A new quiz is well-formed and nobody has answered it. */
  lemma NewQuizWellFormed(question: string, choix: string, bonne: string, points: int, author: UserId)
    requires |Split(choix, '|')| <= MAX_OPTIONS
    ensures var q := NewQuiz(question, choix, bonne, points, author);
      WellFormed(q) && q.answers == map[] && q.order == [] && q.rankups == map[]
  {
  }

  /** A new quiz has one option per '|'-separated segment of the choices,
      lettered in input order, strictly ascending, each segment's text
      normalised in place; the segments are exactly the choices string cut
      at its separators. */
  lemma NewQuizShape(question: string, choix: string, bonne: string, points: int, author: UserId)
    requires |Split(choix, '|')| <= MAX_OPTIONS
    ensures var q, segs := NewQuiz(question, choix, bonne, points, author), Split(choix, '|');
      && |q.options| == Occurrences(choix, '|') + 1
      && Join(segs, '|') == choix
      && (forall i :: 0 <= i < |q.options| ==>
            q.options[i] == Choice(OptionLetter(i), ConvertCombo(Strip(segs[i]))))
      && StrictlySorted(Letters(q.options))
  {
    SplitCount(choix, '|');
    JoinSplit(choix, '|');
    var q := NewQuiz(question, choix, bonne, points, author);
    forall i, j | 0 <= i < j < |q.options|
      ensures Letters(q.options)[i] < Letters(q.options)[j]
    {
      OptionLettersAscend(i, j);
    }
  }

  /** The correct answers are one per ','-separated segment, each already
      upper-case and free of commas. */
  lemma NewQuizCorrect(question: string, choix: string, bonne: string, points: int, author: UserId)
    requires |Split(choix, '|')| <= MAX_OPTIONS
    ensures var q := NewQuiz(question, choix, bonne, points, author);
      && |q.correct| == Occurrences(bonne, ',') + 1
      && (forall i :: 0 <= i < |q.correct| ==> Upper(q.correct[i]) == q.correct[i])
      && (forall i :: 0 <= i < |q.correct| ==> ',' !in q.correct[i])
  {
    SplitCount(bonne, ',');
    var q := NewQuiz(question, choix, bonne, points, author);
    var parts := Split(bonne, ',');
    forall i | 0 <= i < |q.correct|
      ensures Upper(q.correct[i]) == q.correct[i]
      ensures ',' !in q.correct[i]
    {
      UpperIdempotent(Strip(parts[i]));
      StripKeeps(parts[i], ',');
      UpperKeepsOut(Strip(parts[i]), ',');
    }
  }

  /** A character that is not in s is not in strip(s). */
  lemma StripKeeps(s: string, c: char)
    requires c !in s
    ensures c !in Strip(s)
  {
    var r := Strip(s);
    forall k | 0 <= k < |r| ensures r[k] != c {
      StripIsSlice(s, k);
    }
  }

  /** strip(s) is a slice of s. */
  lemma StripIsSlice(s: string, k: nat)
    requires k < |Strip(s)|
    ensures Strip(s)[k] in s
  {
    var l := TrimLeft(s);
    var r := TrimRight(l);
    assert r[k] == l[k];
    assert l[k] == s[|s| - |l| + k];
  }

  /** Upper-casing brings in no character other than capital letters. */
  lemma UpperKeepsOut(s: string, c: char)
    requires c !in s && !('A' <= c <= 'Z')
    ensures c !in Upper(s)
  {
    forall k | 0 <= k < |s| ensures Upper(s)[k] != c {
    }
  }

  /** How on_submit records an accepted answer: u's letters are stored, u
      joins the submission order, and a rank-up to the new rank is noted
      exactly when the rank before and after the credit differ. */
  function WithAnswer(q: Quiz, u: UserId, sel: seq<char>, oldRank: string, newRank: string): Quiz {
    q.(answers := q.answers[u := sel],
       order := q.order + [u],
       rankups := if newRank != oldRank then q.rankups[u := newRank] else q.rankups)
  }

  /** A first submission keeps the submissions well-formed. */
  lemma SubmissionsAppend(answers: map<UserId, seq<char>>, order: seq<UserId>, u: UserId, sel: seq<char>)
    requires Submissions(answers, order) && u !in answers
    requires StrictlySorted(sel) && sel != []
    ensures Submissions(answers[u := sel], order + [u])
  {
    var o := order + [u];
    forall i, j | 0 <= i < j < |o|
      ensures o[i] != o[j]
    {
      if j == |order| {
        assert order[i] in answers;
      }
    }
  }

  /** Recording a first answer keeps the quiz well-formed, stores exactly
      that answer for u, appends u to the submission order and leaves every
      other submitter's answer alone. */
  lemma WithAnswerKeeps(q: Quiz, u: UserId, sel: seq<char>, oldRank: string, newRank: string)
    requires WellFormed(q) && u !in q.answers
    requires StrictlySorted(sel) && sel != []
    ensures var r := WithAnswer(q, u, sel, oldRank, newRank);
      && WellFormed(r)
      && r.answers[u] == sel
      && r.order == q.order + [u]
      && (forall v :: v != u ==> (v in r.answers <==> v in q.answers))
      && (forall v :: v != u && v in q.answers ==> r.answers[v] == q.answers[v])
  {
    SubmissionsAppend(q.answers, q.order, u, sel);
  }

  /** A first answer notes u for a rank-up if and only if the rank changed,
      and then with the new rank, leaving the other rank-ups alone. */
  lemma WithAnswerRankup(q: Quiz, u: UserId, sel: seq<char>, oldRank: string, newRank: string)
    requires WellFormed(q) && u !in q.answers
    ensures var r := WithAnswer(q, u, sel, oldRank, newRank);
      && (u in r.rankups <==> newRank != oldRank)
      && (u in r.rankups ==> r.rankups[u] == newRank)
      && (forall v :: v != u ==> (v in r.rankups <==> v in q.rankups))
      && (forall v :: v != u && v in q.rankups ==> r.rankups[v] == q.rankups[v])
  {
  }

  /** The number of the given submitters whose answer holds l: the tally of
      /reveal, walking the submitters in order. */
  function Votes(order: seq<UserId>, answers: map<UserId, seq<char>>, l: char): nat
    requires forall i :: 0 <= i < |order| ==> order[i] in answers
  {
    if order == [] then 0
    else
      var n := |order| - 1;
      Votes(order[..n], answers, l) + (if l in answers[order[n]] then 1 else 0)
  }

  /** The submitters whose answer holds l. */
  ghost function Holders(answers: map<UserId, seq<char>>, l: char): set<UserId> {
    set u | u in answers && l in answers[u]
  }

  /** The given submitters whose answer holds l. */
  ghost function Voters(order: seq<UserId>, answers: map<UserId, seq<char>>, l: char): set<UserId>
    requires forall i :: 0 <= i < |order| ==> order[i] in answers
  {
    set u | u in order && l in answers[u]
  }

  /** Votes counts the answer lists that contain l: over a duplicate-free
      list of submitters, it is the number of them holding l. */
  lemma {:induction false} VotesAreVoters(order: seq<UserId>, answers: map<UserId, seq<char>>, l: char)
    requires forall i :: 0 <= i < |order| ==> order[i] in answers
    requires forall i, j :: 0 <= i < j < |order| ==> order[i] != order[j]
    ensures Votes(order, answers, l) == |Voters(order, answers, l)|
  {
    if order != [] {
      var n := |order| - 1;
      var init := order[..n];
      VotesAreVoters(init, answers, l);
      var x := order[n];
      var before := Voters(init, answers, l);
      var after := Voters(order, answers, l);
      assert order == init + [x];
      assert forall u :: u in order <==> u in init || u == x;
      assert x !in init by {
        forall i | 0 <= i < n ensures init[i] != x {
        }
      }
      assert Votes(order, answers, l) == Votes(init, answers, l) + (if l in answers[x] then 1 else 0);
      if l in answers[x] {
        assert after == before + {x};
        assert x !in before;
        assert |after| == |before| + 1;
      } else {
        assert after == before;
      }
    }
  }

  /** counts: every option letter of the quiz with its number of votes. */
  function Tally(q: Quiz): map<char, nat>
    requires Submissions(q.answers, q.order)
  {
    SubmittersAnswered(q.answers, q.order);
    map l | l in Letters(q.options) :: Votes(q.order, q.answers, l)
  }

  /** The tally has an entry for exactly the option letters, and each holds
      the number of submitted answer lists containing that letter. */
  lemma TallyCounts(q: Quiz, l: char)
    requires WellFormed(q)
    ensures l in Tally(q) <==> l in Letters(q.options)
    ensures l in Tally(q) ==> Tally(q)[l] == |Holders(q.answers, l)|
  {
    SubmittersAnswered(q.answers, q.order);
    VotesAreVoters(q.order, q.answers, l);
    assert Holders(q.answers, l) == Voters(q.order, q.answers, l);
  }

  /** The points lines of /reveal: each submitter in order with the score
      of their stored answer under the quiz's formula. */
  function Gains(q: Quiz): seq<(UserId, real)>
    requires Submissions(q.answers, q.order)
  {
    SubmittersAnswered(q.answers, q.order);
    seq(|q.order|, i requires 0 <= i < |q.order| => (q.order[i], Gained(q.answers[q.order[i]], q.correct, q.points)))
  }

  /** The points lines after a first answer: the earlier lines stay and
      u's line comes last with exactly the gain credited at submission. */
  lemma GainsAfterAnswer(q: Quiz, u: UserId, sel: seq<char>, oldRank: string, newRank: string)
    requires WellFormed(q) && u !in q.answers
    requires StrictlySorted(sel) && sel != []
    ensures var r := WithAnswer(q, u, sel, oldRank, newRank);
      && Submissions(r.answers, r.order)
      && Gains(r) == Gains(q) + [(u, Gained(sel, q.correct, q.points))]
  {
    var r := WithAnswer(q, u, sel, oldRank, newRank);
    WithAnswerKeeps(q, u, sel, oldRank, newRank);
    SubmittersAnswered(q.answers, q.order);
    SubmittersAnswered(r.answers, r.order);
    forall i | 0 <= i < |q.order| ensures Gains(r)[i] == Gains(q)[i] {
      assert q.order[i] != u;
    }
  }

  /** The tally after a first answer: every option letter of that answer
      gets one more vote, the others keep theirs. */
  lemma TallyAfterAnswer(q: Quiz, u: UserId, sel: seq<char>, oldRank: string, newRank: string, l: char)
    requires WellFormed(q) && u !in q.answers
    requires StrictlySorted(sel) && sel != []
    requires l in Letters(q.options)
    ensures var r := WithAnswer(q, u, sel, oldRank, newRank);
      && Submissions(r.answers, r.order)
      && Tally(r)[l] == Tally(q)[l] + (if l in sel then 1 else 0)
  {
    var r := WithAnswer(q, u, sel, oldRank, newRank);
    WithAnswerKeeps(q, u, sel, oldRank, newRank);
    SubmittersAnswered(q.answers, q.order);
    SubmittersAnswered(r.answers, r.order);
    VotesAppend(q.order, q.answers, u, sel, l);
  }

  /** One more submitter adds their vote and leaves the others'. */
  lemma VotesAppend(order: seq<UserId>, answers: map<UserId, seq<char>>, u: UserId, sel: seq<char>, l: char)
    requires forall i :: 0 <= i < |order| ==> order[i] in answers && order[i] != u
    ensures Votes(order + [u], answers[u := sel], l) == Votes(order, answers, l) + (if l in sel then 1 else 0)
  {
    assert (order + [u])[..|order|] == order;
    VotesUnchanged(order, answers, answers[u := sel], l);
  }

  /** Votes over submitters whose answers are the same in two maps agree. */
  lemma {:induction false} VotesUnchanged(order: seq<UserId>, a: map<UserId, seq<char>>, b: map<UserId, seq<char>>, l: char)
    requires forall i :: 0 <= i < |order| ==> order[i] in a && order[i] in b && a[order[i]] == b[order[i]]
    ensures Votes(order, a, l) == Votes(order, b, l)
  {
    if order != [] {
      VotesUnchanged(order[..|order| - 1], a, b, l);
    }
  }

  /** What /reveal shows: the question, the options (each marked by whether
      its letter is correct), the tally, the points lines and the rank-ups
      noted at submission. */
  datatype Report = Report(
    question: string,
    options: seq<Choice>,
    correct: seq<string>,
    counts: map<char, nat>,
    gains: seq<(UserId, real)>,
    rankups: map<UserId, string>)

  function ReportOf(q: Quiz): Report
    requires Submissions(q.answers, q.order)
  {
    Report(q.question, q.options, q.correct, Tally(q), Gains(q), q.rankups)
  }
}
