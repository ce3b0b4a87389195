/** The records of the score store and the leaderboard ordering of a
    bucket ("all_time" or "monthly"). */
module Scores {

  /** One identity for a member (a Discord snowflake, never negative),
      whether the source keys it by user.id or by str(user.id). */
  type UserId = nat

  /** {"points": ..., "questions": ...}. */
  datatype Record = Record(points: real, questions: nat)

  /** {"points": 0.0, "questions": 0}, the record setdefault creates. */
  const ZERO: Record := Record(0.0, 0)

  /** A bucket: user → record. */
  type Bucket = map<UserId, Record>

  /** The record setdefault leaves under u: the stored one, else zero. */
  function RecordOf(b: Bucket, u: UserId): Record {
    if u in b then b[u] else ZERO
  }

  /** One leaderboard line: a user and their record. */
  type Line = (UserId, Record)

  /** What on_submit leaves in a bucket: u's record, lazily created, gains
      g points and one question. */
  function Credit(b: Bucket, u: UserId, g: real): Bucket {
    b[u := Record(RecordOf(b, u).points + g, RecordOf(b, u).questions + 1)]
  }

  /** What set_points leaves in a bucket: u's record, lazily created, holds
      x points and keeps its question count. */
  function WithPoints(b: Bucket, u: UserId, x: real): Bucket {
    b[u := Record(x, RecordOf(b, u).questions)]
  }

  /** What add_points (d = x) and remove_points (d = -x) leave in a bucket. */
  function Shifted(b: Bucket, u: UserId, d: real): Bucket {
    WithPoints(b, u, RecordOf(b, u).points + d)
  }

  /** A credit touches u alone: it gets exactly g more points and one more
      question, everyone else keeps their record. */
  lemma CreditOnly(b: Bucket, u: UserId, g: real)
    ensures Credit(b, u, g).Keys == b.Keys + {u}
    ensures RecordOf(Credit(b, u, g), u).points == RecordOf(b, u).points + g
    ensures RecordOf(Credit(b, u, g), u).questions == RecordOf(b, u).questions + 1
    ensures forall v :: v != u ==> RecordOf(Credit(b, u, g), v) == RecordOf(b, v)
  {
  }

  /** Setting points touches u alone and keeps its question count. */
  lemma WithPointsOnly(b: Bucket, u: UserId, x: real)
    ensures WithPoints(b, u, x).Keys == b.Keys + {u}
    ensures RecordOf(WithPoints(b, u, x), u) == Record(x, RecordOf(b, u).questions)
    ensures forall v :: v != u ==> RecordOf(WithPoints(b, u, x), v) == RecordOf(b, v)
  {
  }

  /** Shifting by d and then by -d gives back a bucket where u was listed. */
  lemma ShiftRoundTrip(b: Bucket, u: UserId, d: real)
    requires u in b
    ensures Shifted(Shifted(b, u, d), u, -d) == b
  {
    assert Shifted(Shifted(b, u, d), u, -d)[u] == b[u];
  }

  /** Credit, shift and set change both buckets alike: the gap between u's
      all-time and monthly points stays, and set_points closes it. */
  lemma BucketsMoveTogether(a: Bucket, m: Bucket, u: UserId, d: real)
    ensures RecordOf(Credit(a, u, d), u).points - RecordOf(Credit(m, u, d), u).points
         == RecordOf(a, u).points - RecordOf(m, u).points
    ensures RecordOf(Shifted(a, u, d), u).points - RecordOf(Shifted(m, u, d), u).points
         == RecordOf(a, u).points - RecordOf(m, u).points
    ensures RecordOf(WithPoints(a, u, d), u).points == RecordOf(WithPoints(m, u, d), u).points
  {
  }

  /** Points never increase down the list. */
  predicate Descending(s: seq<Line>) {
    forall i, j :: 0 <= i < j < |s| ==> s[i].1.points >= s[j].1.points
  }

  /** No user has two lines. */
  predicate DistinctUsers(s: seq<Line>) {
    forall i, j :: 0 <= i < j < |s| ==> s[i].0 != s[j].0
  }

  /** s is the bucket's items: every user of the bucket once, with its
      record, and no one else. */
  predicate ListsBucket(s: seq<Line>, b: Bucket) {
    && (forall u :: u in b ==> (u, b[u]) in s)
    && (forall x :: x in s ==> x.0 in b && b[x.0] == x.1)
    && DistinctUsers(s)
  }

  /** Where a line with x points goes in a descending list: after every line
      with at least x points (so ties keep their order), before the rest. */
  function InsertPosition(s: seq<Line>, x: real): (k: nat)
    requires Descending(s)
    ensures k <= |s|
    ensures forall i :: 0 <= i < k ==> s[i].1.points >= x
    ensures forall i :: k <= i < |s| ==> s[i].1.points < x
  {
    if s == [] || s[0].1.points < x then 0
    else 1 + InsertPosition(s[1..], x)
  }

  /** s with line inserted at its place. */
  function Inserted(s: seq<Line>, line: Line): (r: seq<Line>)
    requires Descending(s)
    ensures |r| == |s| + 1
  {
    var k := InsertPosition(s, line.1.points);
    s[..k] + [line] + s[k..]
  }

  /** Where everything goes on insertion. */
  lemma InsertedAt(s: seq<Line>, line: Line)
    requires Descending(s)
    ensures var k, r := InsertPosition(s, line.1.points), Inserted(s, line);
      && (forall i :: 0 <= i < k ==> r[i] == s[i])
      && r[k] == line
      && (forall i :: k < i < |r| ==> r[i] == s[i - 1])
  {
  }

  /** Inserting keeps the list descending. */
  lemma InsertedDescending(s: seq<Line>, line: Line)
    requires Descending(s)
    ensures Descending(Inserted(s, line))
  {
    InsertedAt(s, line);
  }

  /** Inserting adds exactly that line. */
  lemma InsertedMembers(s: seq<Line>, line: Line)
    requires Descending(s)
    ensures forall x :: x in Inserted(s, line) <==> x in s || x == line
  {
    InsertedAt(s, line);
    var k, r := InsertPosition(s, line.1.points), Inserted(s, line);
    forall x | x in s ensures x in r {
      var j :| 0 <= j < |s| && s[j] == x;
      if j < k {
        assert r[j] == x;
      } else {
        assert r[j + 1] == x;
      }
    }
  }

  /** Inserting the line of a user not yet listed keeps users distinct. */
  lemma InsertedDistinct(s: seq<Line>, line: Line)
    requires Descending(s) && DistinctUsers(s)
    requires forall i :: 0 <= i < |s| ==> s[i].0 != line.0
    ensures DistinctUsers(Inserted(s, line))
  {
    InsertedAt(s, line);
  }

  /** What the sorting loop has built after placing the users of done: a
      descending listing of exactly their lines. */
  ghost predicate PlacedSoFar(s: seq<Line>, b: Bucket, done: set<UserId>) {
    && done <= b.Keys
    && Descending(s) && DistinctUsers(s) && |s| == |done|
    && (forall u :: u in done ==> (u, b[u]) in s)
    && (forall x :: x in s ==> x.0 in done && b[x.0] == x.1)
  }

  /** Placing one more user keeps the listing descending and exact. */
  lemma PlaceOne(s: seq<Line>, b: Bucket, done: set<UserId>, u: UserId)
    requires PlacedSoFar(s, b, done) && u in b && u !in done
    ensures PlacedSoFar(Inserted(s, (u, b[u])), b, done + {u})
  {
    var line := (u, b[u]);
    InsertedDescending(s, line);
    InsertedMembers(s, line);
    forall i | 0 <= i < |s|
      ensures s[i].0 != u
    {
      assert s[i] in s;
    }
    InsertedDistinct(s, line);
  }

  /** Once every user is placed, the listing is the whole bucket. */
  lemma PlacedAll(s: seq<Line>, b: Bucket)
    requires PlacedSoFar(s, b, b.Keys)
    ensures Descending(s) && ListsBucket(s, b) && |s| == |b|
  {
  }

  /** sorted(bucket.items(), key=points, reverse=True): the leaderboard
      order, built by inserting the users one at a time. */
  method OrderByPoints(b: Bucket) returns (s: seq<Line>)
    ensures Descending(s)
    ensures ListsBucket(s, b)
    ensures |s| == |b|
  {
    s := [];
    var rest := b.Keys;
    ghost var done: set<UserId> := {};
    while rest != {}
      invariant done !! rest && done + rest == b.Keys
      invariant PlacedSoFar(s, b, done)
      decreases |rest|
    {
      var u :| u in rest;
      PlaceOne(s, b, done, u);
      s := Inserted(s, (u, b[u]));
      done := done + {u};
      rest := rest - {u};
    }
    PlacedAll(s, b);
  }
}
