/** The card-notation normaliser applied to every quiz option: a token such
    as "AhKd" is shown as rank letters with suit symbols, anything else is
    shown as typed. */
module Combo {
  import opened Wrappers
  import opened Text

  /** The four suit symbols, kept abstract. */
  datatype Suit = Heart | Spade | Diamond | Club

  /** What option text is made of: plain characters and suit symbols. */
  datatype Glyph = Char(c: char) | Symbol(suit: Suit)

  /** The accepted rank characters (after upper-casing). */
  const CARD_RANKS: string := "AKQJT98765432"

  /** suit_map: the suit characters (after lower-casing) and their symbols. */
  function SuitOf(c: char): Option<Suit> {
    if c == 'h' then Some(Heart)
    else if c == 's' then Some(Spade)
    else if c == 'd' then Some(Diamond)
    else if c == 'c' then Some(Club)
    else None
  }

  /** A text shown as it is. */
  function Plain(s: string): seq<Glyph> {
    seq(|s|, i requires 0 <= i < |s| => Char(s[i]))
  }

  /** Pair k of t has a rank character and a suit character. */
  predicate IsCardRank(c: char) {
    c in CARD_RANKS
  }

  predicate ValidPair(t: string, k: nat)
    requires 2 * k + 1 < |t|
  {
    IsCardRank(UpperChar(t[2 * k])) && SuitOf(LowerChar(t[2 * k + 1])).Some?
  }

  /** The rendering of pair k: the upper-cased rank, then the suit symbol. */
  function RankGlyph(t: string, k: nat): Glyph
    requires 2 * k + 1 < |t|
  {
    Char(UpperChar(t[2 * k]))
  }

  function SuitGlyph(t: string, k: nat): Glyph
    requires 2 * k + 1 < |t| && ValidPair(t, k)
  {
    Symbol(SuitOf(LowerChar(t[2 * k + 1])).value)
  }

  /** The text the loop appends for a valid pair k. */
  function Group(t: string, k: nat): seq<Glyph>
    requires 2 * k + 1 < |t| && ValidPair(t, k)
  {
    [RankGlyph(t, k), SuitGlyph(t, k), Char(' ')]
  }

  /** r followed by the rest of the accumulation, if any. */
  function Then(r: seq<Glyph>, rest: Option<seq<Glyph>>): Option<seq<Glyph>> {
    match rest
    case None => None
    case Some(s) => Some(r + s)
  }

  /** What the loop accumulates in r from pair k to the end: each valid pair
      followed by a space, or None once a pair is invalid (ok = False). */
  function RenderFrom(t: string, k: nat): (r: Option<seq<Glyph>>)
    requires 2 * k <= |t| && |t| % 2 == 0
    ensures r.Some? <==> forall j :: k <= j < |t| / 2 ==> ValidPair(t, j)
    ensures r.Some? ==> |r.value| == 3 * (|t| / 2 - k)
    decreases |t| - 2 * k
  {
    if 2 * k == |t| then Some([])
    else if !ValidPair(t, k) then None
    else Then(Group(t, k), RenderFrom(t, k + 1))
  }

  /** Group j of the accumulation from pair k sits at position 3(j - k). */
  lemma {:induction false} RenderFromAt(t: string, k: nat, j: nat)
    requires 2 * k <= |t| && |t| % 2 == 0
    requires k <= j < |t| / 2
    requires RenderFrom(t, k).Some?
    ensures ValidPair(t, j)
    ensures var r, n := RenderFrom(t, k).value, 3 * (j - k);
      r[n] == RankGlyph(t, j) && r[n + 1] == SuitGlyph(t, j) && r[n + 2] == Char(' ')
    decreases j - k
  {
    var r := RenderFrom(t, k).value;
    var rest := RenderFrom(t, k + 1);
    var g := Group(t, k);
    assert r == g + rest.value;
    if k == j {
      assert r[0] == g[0] && r[1] == g[1] && r[2] == g[2];
    } else {
      RenderFromAt(t, k + 1, j);
      var n := 3 * (j - k);
      assert r[n] == rest.value[n - 3] && r[n + 1] == rest.value[n - 2] && r[n + 2] == rest.value[n - 1];
    }
  }

  /** convert_combo_to_emojis. The accumulated text ends in exactly one
      space and starts with a rank letter, so r.strip() removes that last
      space only. */
  function ConvertCombo(text: string): seq<Glyph> {
    var t := Strip(text);
    if |t| >= 2 && |t| % 2 == 0 then
      match RenderFrom(t, 0)
      case Some(r) => r[..|r| - 1]
      case None => Plain(text)
    else Plain(text)
  }

  /** The token is given back unchanged (not even stripped) when, once
      stripped, it is shorter than 2, of odd length, or holds a pair whose
      rank or suit is not accepted. */
  lemma ComboPassThrough(text: string)
    requires var t := Strip(text); |t| < 2 || |t| % 2 == 1 || !AllPairsValid(t)
    ensures ConvertCombo(text) == Plain(text)
  {
  }

  /** Every pair of t has an accepted rank and suit. */
  ghost predicate AllPairsValid(t: string) {
    forall k :: 0 <= k < |t| / 2 ==> 2 * k + 1 < |t| && ValidPair(t, k)
  }

  /** r shows the pairs of t as groups separated by single spaces, group k
      being the upper-cased rank of pair k followed by its suit symbol. */
  ghost predicate ShowsPairs(t: string, r: seq<Glyph>)
    requires AllPairsValid(t)
  {
    && |r| == 3 * (|t| / 2) - 1
    && forall k :: 0 <= k < |t| / 2 ==>
         && r[3 * k] == RankGlyph(t, k)
         && r[3 * k + 1] == SuitGlyph(t, k)
         && (k < |t| / 2 - 1 ==> r[3 * k + 2] == Char(' '))
  }

  /** The accumulation over a token of valid pairs, without its trailing
      space, shows the pairs. */
  lemma {:induction false} RenderedGroups(t: string)
    requires |t| >= 2 && |t| % 2 == 0 && AllPairsValid(t)
    ensures RenderFrom(t, 0).Some?
    ensures var a := RenderFrom(t, 0).value; ShowsPairs(t, a[..|a| - 1])
  {
    var a := RenderFrom(t, 0).value;
    var n := |t| / 2;
    assert |a| == 3 * n;
    var b := a[..|a| - 1];
    forall k | 0 <= k < n
      ensures b[3 * k] == RankGlyph(t, k) && b[3 * k + 1] == SuitGlyph(t, k)
      ensures k < n - 1 ==> b[3 * k + 2] == Char(' ')
    {
      RenderFromAt(t, 0, k);
    }
  }

  /** Otherwise the token is shown as its pairs. */
  lemma ComboRendered(text: string)
    requires var t := Strip(text); |t| >= 2 && |t| % 2 == 0 && AllPairsValid(t)
    ensures ShowsPairs(Strip(text), ConvertCombo(text))
  {
    var t := Strip(text);
    RenderedGroups(t);
  }

  /** The loop of convert_combo_to_emojis over the stripped token t, with
      its early exit: ok tells whether every pair was valid, r is what was
      accumulated. */
  method RenderLoop(t: string) returns (ok: bool, r: seq<Glyph>)
    requires |t| % 2 == 0
    ensures ok <==> RenderFrom(t, 0).Some?
    ensures ok ==> r == RenderFrom(t, 0).value
  {
    r := [];
    ok := true;
    if RenderFrom(t, 0).Some? {
      assert r + RenderFrom(t, 0).value == RenderFrom(t, 0).value;
    }
    // k counts the pairs done: the source's index i is 2 * k
    var k := 0;
    while 2 * k < |t|
      invariant 2 * k <= |t|
      invariant RenderFrom(t, 0) == Then(r, RenderFrom(t, k))
      invariant ok
    {
      var rank := UpperChar(t[2 * k]);
      var suit := LowerChar(t[2 * k + 1]);
      if !IsCardRank(rank) || SuitOf(suit).None? {
        ok := false;
        break;
      }
      AppendGroup(t, k, r);
      r := r + [Char(rank), Symbol(SuitOf(suit).value), Char(' ')];
      k := k + 1;
    }
  }

  /** One valid pair moves from the pending part to the accumulated part. */
  lemma AppendGroup(t: string, k: nat, r: seq<Glyph>)
    requires 2 * k + 1 < |t| && |t| % 2 == 0 && ValidPair(t, k)
    ensures Then(r, RenderFrom(t, k)) == Then(r + Group(t, k), RenderFrom(t, k + 1))
  {
    var rest := RenderFrom(t, k + 1);
    if rest.Some? {
      assert r + Group(t, k) + rest.value == r + (Group(t, k) + rest.value);
    }
  }

  /** convert_combo_to_emojis, step by step. */
  method ConvertComboLoop(text: string) returns (out: seq<Glyph>)
    ensures out == ConvertCombo(text)
  {
    var t := Strip(text);
    if |t| >= 2 && |t| % 2 == 0 {
      var ok, r := RenderLoop(t);
      if ok {
        return r[..|r| - 1];
      }
    }
    return Plain(text);
  }
}
