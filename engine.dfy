/** The quiz bot's process state: the registry of open quizzes and the score
    store, with the slash-command and dialog handlers that change them. */
module Engine {
  import opened Wrappers
  import opened Text
  import opened Ranks
  import opened Answers
  import opened Scores
  import opened Quizzes

  /** What scores.json yields once parsed: each top-level key may be
      missing; a missing or unreadable file is None. */
  datatype Stored = Stored(allTime: Option<Bucket>, monthly: Option<Bucket>, lastMonth: Option<int>)

  /** The answer of the submission dialog; an accepted answer carries the
      parsed letters, the gain and the all-time rank before and after. */
  datatype SubmitOutcome =
    | QuizNotFound
    | AlreadyAnswered
    | NoValidAnswer
    | Accepted(selected: seq<char>, gained: real, oldRank: string, newRank: string)

  class QuizEngine {
    var quizzes: map<QuizId, Quiz>
    var allTime: Bucket
    var monthly: Bucket
    var lastMonth: int

    ghost predicate Valid()
      reads this
    {
      Registry(quizzes)
    }

    /** Process start: no open quiz; load_scores with its setdefaults, where
        the current month (now) fills a missing last_month, followed by the
        monthly rollover. */
    constructor Load(stored: Option<Stored>, now: int)
      ensures Valid()
      ensures quizzes == map[]
      ensures var s := stored.GetOr(Stored(None, None, None));
        && allTime == s.allTime.GetOr(map[])
        && monthly == (if s.lastMonth.GetOr(now) == now then s.monthly.GetOr(map[]) else map[])
      ensures lastMonth == now
    {
      var s := stored.GetOr(Stored(None, None, None));
      quizzes := map[];
      allTime := s.allTime.GetOr(map[]);
      monthly := s.monthly.GetOr(map[]);
      lastMonth := s.lastMonth.GetOr(now);
      new;
      Rollover(now);
    }

    /** The rollover of load_scores: in a new month the monthly board is
        emptied and the month recorded; all-time scores and quizzes stay. */
    method Rollover(now: int)
      requires Valid()
      modifies this
      ensures Valid()
      ensures lastMonth == now
      ensures monthly == if old(lastMonth) != now then map[] else old(monthly)
      ensures allTime == old(allTime) && quizzes == old(quizzes)
    {
      if lastMonth != now {
        monthly := map[];
        lastMonth := now;
      }
    }

    /** /quiz2: an id already open is refused and nothing changes; otherwise
        the new quiz is registered under it and no other quiz changes. */
    method CreateQuiz(id: QuizId, question: string, choix: string, bonne: string, points: int, author: UserId)
      returns (created: bool)
      requires Valid()
      requires |Split(choix, '|')| <= MAX_OPTIONS
      modifies this
      ensures Valid()
      ensures created <==> id !in old(quizzes)
      ensures quizzes == if created then old(quizzes)[id := NewQuiz(question, choix, bonne, points, author)]
                         else old(quizzes)
      ensures allTime == old(allTime) && monthly == old(monthly) && lastMonth == old(lastMonth)
    {
      if id in quizzes {
        return false;
      }
      var q := NewQuiz(question, choix, bonne, points, author);
      assert Registry(quizzes[id := q]) by {
        NewQuizWellFormed(question, choix, bonne, points, author);
        RegistryUpdate(quizzes, id, q);
      }
      quizzes := quizzes[id := q];
      return true;
    }

    /** on_submit of the answer dialog for quiz id by user u; letters are the
        valid letters the dialog captured when it was opened. A closed quiz,
        a second answer and an answer with no valid letter change nothing.
        Otherwise the parsed letters are stored, both buckets are credited
        with the same gain, and a rank change on the all-time total is
        noted. */
    method SubmitAnswer(id: QuizId, u: UserId, letters: seq<char>, raw: string)
      returns (outcome: SubmitOutcome)
      requires Valid()
      modifies this
      ensures Valid()
      ensures lastMonth == old(lastMonth)
      ensures id !in old(quizzes) ==> outcome == QuizNotFound
      ensures id in old(quizzes) && u in old(quizzes)[id].answers ==> outcome == AlreadyAnswered
      ensures id in old(quizzes) && u !in old(quizzes)[id].answers && ParseAnswers(raw, letters) == [] ==>
                outcome == NoValidAnswer
      ensures id in old(quizzes) && u !in old(quizzes)[id].answers && ParseAnswers(raw, letters) != [] ==>
                outcome.Accepted?
      ensures !outcome.Accepted? ==>
                quizzes == old(quizzes) && allTime == old(allTime) && monthly == old(monthly)
      ensures outcome.Accepted? ==>
                var q, sel := old(quizzes)[id], ParseAnswers(raw, letters);
                var before := RecordOf(old(allTime), u).points;
                && id in old(quizzes) && u !in q.answers && sel != []
                && outcome.selected == sel
                && outcome.gained == Gained(sel, q.correct, q.points)
                && outcome.oldRank == GetRank(before)
                && outcome.newRank == GetRank(before + outcome.gained)
                && allTime == Credit(old(allTime), u, outcome.gained)
                && monthly == Credit(old(monthly), u, outcome.gained)
                && quizzes == old(quizzes)[id := WithAnswer(q, u, sel, outcome.oldRank, outcome.newRank)]
    {
      if id !in quizzes {
        return QuizNotFound;
      }
      var q := quizzes[id];
      if u in q.answers {
        return AlreadyAnswered;
      }
      var selected := ParseAnswersLoop(raw, letters);
      if selected == [] {
        return NoValidAnswer;
      }
      var gained := Gained(selected, q.correct, q.points);
      var before := RecordOf(allTime, u).points;
      var oldRank := ComputeRank(before);
      var newRank := ComputeRank(before + gained);
      Accept(id, u, selected, gained, oldRank, newRank);
      return Accepted(selected, gained, oldRank, newRank);
    }

    /** The recording half of on_submit: the letters are stored, both
        buckets are credited with the gain, and the ranks before and after
        decide the rank-up note. */
    method Accept(id: QuizId, u: UserId, sel: seq<char>, gained: real, oldRank: string, newRank: string)
      requires Valid() && id in quizzes && u !in quizzes[id].answers
      requires StrictlySorted(sel) && sel != []
      modifies this
      ensures Valid()
      ensures lastMonth == old(lastMonth)
      ensures allTime == Credit(old(allTime), u, gained) && monthly == Credit(old(monthly), u, gained)
      ensures quizzes == old(quizzes)[id := WithAnswer(old(quizzes)[id], u, sel, oldRank, newRank)]
    {
      var q := quizzes[id];
      allTime := Credit(allTime, u, gained);
      monthly := Credit(monthly, u, gained);
      var q' := WithAnswer(q, u, sel, oldRank, newRank);
      assert Registry(quizzes[id := q']) by {
        WithAnswerKeeps(q, u, sel, oldRank, newRank);
        RegistryUpdate(quizzes, id, q');
      }
      quizzes := quizzes[id := q'];
    }

    /** /reveal: an unknown id is refused with nothing changed. Otherwise the
        report of the quiz (its vote tally and the recomputed gain of every
        submitter) is returned and the quiz is closed; scores stay. */
    method Reveal(id: QuizId) returns (r: Option<Report>)
      requires Valid()
      modifies this
      ensures Valid()
      ensures allTime == old(allTime) && monthly == old(monthly) && lastMonth == old(lastMonth)
      ensures id !in old(quizzes) ==> r == None && quizzes == old(quizzes)
      ensures id in old(quizzes) ==>
                && Submissions(old(quizzes)[id].answers, old(quizzes)[id].order)
                && r == Some(ReportOf(old(quizzes)[id]))
                && quizzes == old(quizzes) - {id}
    {
      if id !in quizzes {
        return None;
      }
      var q := quizzes[id];
      SubmittersAnswered(q.answers, q.order);
      var counts := CountVotes(q);
      var gains := PointsLines(q);
      assert Registry(quizzes - {id}) by {
        RegistryUpdate(quizzes, id, q);
      }
      quizzes := quizzes - {id};
      return Some(Report(q.question, q.options, q.correct, counts, gains, q.rankups));
    }

    /** The tally loop of /reveal: one count per option letter, then the
        answers of the submitters in order. */
    static method CountVotes(q: Quiz) returns (counts: map<char, nat>)
      requires Submissions(q.answers, q.order)
      ensures counts == Tally(q)
    {
      var letters := Letters(q.options);
      counts := map l | l in letters :: 0;
      for i := 0 to |q.order|
        invariant counts.Keys == set l | l in letters
        invariant forall l :: l in counts ==> counts[l] == Votes(q.order[..i], q.answers, l)
      {
        var rep := q.answers[q.order[i]];
        counts := CountAnswer(counts, rep);
        assert q.order[..i + 1][..i] == q.order[..i];
      }
      assert q.order[..|q.order|] == q.order;
    }

    /** The inner loop of the tally: one increment per letter of an answer
        that names an option. */
    static method CountAnswer(before: map<char, nat>, rep: seq<char>) returns (counts: map<char, nat>)
      requires StrictlySorted(rep)
      ensures counts.Keys == before.Keys
      ensures forall l :: l in counts ==> counts[l] == before[l] + (if l in rep then 1 else 0)
    {
      counts := before;
      for j := 0 to |rep|
        invariant counts.Keys == before.Keys
        invariant forall l :: l in counts ==> counts[l] == before[l] + (if l in rep[..j] then 1 else 0)
      {
        assert rep[..j + 1] == rep[..j] + [rep[j]];
        assert rep[j] !in rep[..j] by {
          forall k | 0 <= k < j ensures rep[k] != rep[j] {
          }
        }
        if rep[j] in counts {
          counts := counts[rep[j] := counts[rep[j]] + 1];
        }
      }
      assert rep[..|rep|] == rep;
    }

    /** The points loop of /reveal: every submitter in order with the gain
        of their stored answer. */
    static method PointsLines(q: Quiz) returns (lines: seq<(UserId, real)>)
      requires Submissions(q.answers, q.order)
      ensures lines == Gains(q)
    {
      lines := [];
      for i := 0 to |q.order|
        invariant lines == Gains(q)[..i]
      {
        var rep := q.answers[q.order[i]];
        lines := lines + [(q.order[i], Gained(rep, q.correct, q.points))];
      }
    }

    /** /set_points: u ends with exactly x points in both buckets, created
        if missing; question counts and other users stay. */
    method SetPoints(u: UserId, x: real)
      requires Valid()
      modifies this
      ensures Valid()
      ensures allTime == WithPoints(old(allTime), u, x) && monthly == WithPoints(old(monthly), u, x)
      ensures quizzes == old(quizzes) && lastMonth == old(lastMonth)
    {
      allTime := WithPoints(allTime, u, x);
      monthly := WithPoints(monthly, u, x);
    }

    /** /add_points: u gains x points in both buckets. */
    method AddPoints(u: UserId, x: real)
      requires Valid()
      modifies this
      ensures Valid()
      ensures allTime == Shifted(old(allTime), u, x) && monthly == Shifted(old(monthly), u, x)
      ensures quizzes == old(quizzes) && lastMonth == old(lastMonth)
    {
      allTime := Shifted(allTime, u, x);
      monthly := Shifted(monthly, u, x);
    }

    /** /remove_points: u loses x points in both buckets. */
    method RemovePoints(u: UserId, x: real)
      requires Valid()
      modifies this
      ensures Valid()
      ensures allTime == Shifted(old(allTime), u, -x) && monthly == Shifted(old(monthly), u, -x)
      ensures quizzes == old(quizzes) && lastMonth == old(lastMonth)
    {
      allTime := Shifted(allTime, u, -x);
      monthly := Shifted(monthly, u, -x);
    }

    /** /leaderboard: nothing when nobody has an all-time score; otherwise
        both buckets, each in descending order of points. */
    method Leaderboard() returns (r: Option<(seq<Line>, seq<Line>)>)
      ensures r.None? <==> allTime == map[]
      ensures r.Some? ==> Descending(r.value.0) && ListsBucket(r.value.0, allTime) && |r.value.0| == |allTime|
      ensures r.Some? ==> Descending(r.value.1) && ListsBucket(r.value.1, monthly) && |r.value.1| == |monthly|
    {
      if allTime == map[] {
        return None;
      }
      var top := OrderByPoints(allTime);
      var month := OrderByPoints(monthly);
      return Some((top, month));
    }
  }
}
