/** The free-text answer parser of the answer dialog and the scoring
    formula applied to a submitted selection. */
module Answers {
  import opened Text

  /** Ascending without repeats: what sorted() gives for a set. */
  predicate StrictlySorted(s: seq<char>) {
    forall i, j :: 0 <= i < j < |s| ==> s[i] < s[j]
  }

  /** No letter appears twice. */
  predicate Distinct(s: seq<char>) {
    forall i, j :: 0 <= i < j < |s| ==> s[i] != s[j]
  }

  lemma {:induction false} LeastExists(s: set<char>)
    requires s != {}
    ensures exists m :: m in s && forall c :: c in s ==> m <= c
    decreases |s|
  {
    var x :| x in s;
    if s != {x} {
      LeastExists(s - {x});
      var m :| m in s - {x} && forall c :: c in s - {x} ==> m <= c;
      var least := if x < m then x else m;
      forall c | c in s
        ensures least <= c
      {
        if c != x {
          assert c in s - {x};
        }
      }
    } else {
      assert forall c :: c in s ==> x <= c;
    }
  }

  /** The smallest letter of a non-empty set. */
  function Least(s: set<char>): (m: char)
    requires s != {}
    ensures m in s && forall c :: c in s ==> m <= c
  {
    LeastExists(s);
    var m :| m in s && forall c :: c in s ==> m <= c;
    m
  }

  /** sorted() applied to a set of letters. */
  function Sorted(s: set<char>): (r: seq<char>)
    ensures StrictlySorted(r)
    ensures forall c :: c in r <==> c in s
    ensures |r| == |s|
    decreases |s|
  {
    if s == {} then []
    else
      var m := Least(s);
      [m] + Sorted(s - {m})
  }

  /** The head of an ascending listing is its smallest letter. */
  lemma HeadIsLeast(a: seq<char>, c: char)
    requires StrictlySorted(a) && a != [] && c in a
    ensures a[0] <= c
  {
  }

  /** Two ascending listings of the same letters are the same list, so
      sorted() is the only way to list a set in ascending order. */
  lemma {:induction false} SortedUnique(a: seq<char>, b: seq<char>)
    requires StrictlySorted(a) && StrictlySorted(b)
    requires forall c :: c in a <==> c in b
    ensures a == b
  {
    assert a == [] <==> b == [] by {
      if a != [] {
        assert a[0] in a;
      }
      if b != [] {
        assert b[0] in b;
      }
    }
    if a != [] {
      assert a[0] in a && b[0] in b;
      HeadIsLeast(a, b[0]);
      HeadIsLeast(b, a[0]);
      assert a[0] == b[0];
      assert a == [a[0]] + a[1..] && b == [b[0]] + b[1..];
      forall c ensures c in a[1..] <==> c in b[1..] {
        if c in a[1..] {
          var j :| 1 <= j < |a| && a[j] == c;
          assert a[0] < c && c in b;
          var k :| 0 <= k < |b| && b[k] == c;
          assert k != 0 && b[1..][k - 1] == c;
        }
        if c in b[1..] {
          var j :| 1 <= j < |b| && b[j] == c;
          assert b[0] < c && c in a;
          var k :| 0 <= k < |a| && a[k] == c;
          assert k != 0 && a[1..][k - 1] == c;
        }
      }
      SortedUnique(a[1..], b[1..]);
      assert a == [a[0]] + a[1..] && b == [b[0]] + b[1..];
    }
  }

  /** The set parse_answers collects: characters of s that are valid
      letters. */
  function Collected(s: string, valid: seq<char>): set<char> {
    set c | c in s && c in valid
  }

  /** AnswerModal.parse_answers: the valid letters found in the upper-cased
      input, ascending and without repeats. */
  function ParseAnswers(raw: string, valid: seq<char>): (r: seq<char>)
    ensures StrictlySorted(r)
    ensures forall c :: c in r ==> c in valid
    ensures forall c :: c in valid ==> (c in r <==> c in Upper(raw))
  {
    Sorted(Collected(Upper(raw), valid))
  }

  /** The loop of parse_answers. */
  method ParseAnswersLoop(raw: string, valid: seq<char>) returns (r: seq<char>)
    ensures r == ParseAnswers(raw, valid)
  {
    var s := Upper(raw);
    var result: set<char> := {};
    for i := 0 to |s|
      invariant result == Collected(s[..i], valid)
    {
      assert s[..i + 1] == s[..i] + [s[i]];
      if s[i] in valid {
        result := result + {s[i]};
      }
    }
    assert s[..|s|] == s;
    r := Sorted(result);
  }

  /** `r in correct`: the comma-split correct answers hold the letter as a
      one-character string. */
  predicate IsCorrect(l: char, correct: seq<string>) {
    [l] in correct
  }

  /** bonnes: the selected letters that are correct. */
  function Hits(sel: seq<char>, correct: seq<string>): nat {
    if sel == [] then 0
    else (if IsCorrect(sel[0], correct) then 1 else 0) + Hits(sel[1..], correct)
  }

  /** mauvaises: the selected letters that are not. */
  function Misses(sel: seq<char>, correct: seq<string>): nat {
    if sel == [] then 0
    else (if IsCorrect(sel[0], correct) then 0 else 1) + Misses(sel[1..], correct)
  }

  /** gained = bonnes * p - mauvaises * 0.5, in exact arithmetic. */
  function Gained(sel: seq<char>, correct: seq<string>, p: int): real {
    (Hits(sel, correct) * p) as real - Misses(sel, correct) as real * 0.5
  }

  /** Every selected letter is either a hit or a miss. */
  lemma {:induction false} HitsMissesSplit(sel: seq<char>, correct: seq<string>)
    ensures Hits(sel, correct) + Misses(sel, correct) == |sel|
  {
    if sel != [] {
      HitsMissesSplit(sel[1..], correct);
    }
  }

  /** The distinct letters of sel that are correct. */
  ghost function HitSet(sel: seq<char>, correct: seq<string>): set<char> {
    set l | l in sel && IsCorrect(l, correct)
  }

  /** The distinct letters of sel that are not. */
  ghost function MissSet(sel: seq<char>, correct: seq<string>): set<char> {
    set l | l in sel && !IsCorrect(l, correct)
  }

  /** Peeling the first letter off a selection. */
  lemma SetsStep(sel: seq<char>, correct: seq<string>)
    requires sel != []
    ensures HitSet(sel, correct) == HitSet(sel[1..], correct) + (if IsCorrect(sel[0], correct) then {sel[0]} else {})
    ensures MissSet(sel, correct) == MissSet(sel[1..], correct) + (if IsCorrect(sel[0], correct) then {} else {sel[0]})
  {
    assert forall l :: l in sel <==> l == sel[0] || l in sel[1..] by {
      assert sel == [sel[0]] + sel[1..];
    }
  }

  /** For a selection without repeats, the hits are |sel ∩ correct|. */
  lemma {:induction false} HitsAreIntersection(sel: seq<char>, correct: seq<string>)
    requires Distinct(sel)
    ensures Hits(sel, correct) == |HitSet(sel, correct)|
  {
    if sel != [] {
      var rest := sel[1..];
      assert Distinct(rest);
      HitsAreIntersection(rest, correct);
      SetsStep(sel, correct);
      assert sel[0] !in HitSet(rest, correct) by {
        assert sel[0] !in rest;
      }
    }
  }

  /** ... and the misses |sel \ correct|. */
  lemma {:induction false} MissesAreDifference(sel: seq<char>, correct: seq<string>)
    requires Distinct(sel)
    ensures Misses(sel, correct) == |MissSet(sel, correct)|
  {
    if sel != [] {
      var rest := sel[1..];
      assert Distinct(rest);
      MissesAreDifference(rest, correct);
      SetsStep(sel, correct);
      assert sel[0] !in MissSet(rest, correct) by {
        assert sel[0] !in rest;
      }
    }
  }

  /** The gain of a selection without repeats, by the sets of its right and
      wrong letters: p per letter in sel ∩ correct, -0.5 per letter in
      sel \ correct. */
  lemma GainedCounts(sel: seq<char>, correct: seq<string>, p: int)
    requires Distinct(sel)
    ensures Gained(sel, correct, p) == (|HitSet(sel, correct)| * p) as real - |MissSet(sel, correct)| as real * 0.5
  {
    HitsAreIntersection(sel, correct);
    MissesAreDifference(sel, correct);
  }

  /** With a non-negative value per correct answer, a selection of n letters
      gains between -0.5 n (all wrong) and p n (all right). */
  lemma GainedBounds(sel: seq<char>, correct: seq<string>, p: int)
    requires p >= 0
    ensures -0.5 * |sel| as real <= Gained(sel, correct, p) <= (p * |sel|) as real
  {
    HitsMissesSplit(sel, correct);
    var h, m := Hits(sel, correct), Misses(sel, correct);
    assert h * p <= |sel| * p;
  }
}
