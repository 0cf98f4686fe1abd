/**
 *  The two pieces of the user interface that compute something: the
 *  ordinal shown in the rank announcement (`getOrdinal`) and the rank the
 *  scoreboard shows for a player (`finishedPlayers.indexOf(p) + 1`).
 */
module UI {

  import opened Options
  import opened JsNumber
  import Turn
  import Board
  import Players

  const OrdinalSuffixes: seq<string> := ["th", "st", "nd", "rd"]

  /** `s[k]` on the suffix array: `undefined` outside its four entries. */
  function SuffixAt(k: int): (r: Option<string>)
    ensures r.Some? <==> 0 <= k < |OrdinalSuffixes|
    ensures r.Some? ==> r.value in OrdinalSuffixes && r.value != []
  {
    if 0 <= k < |OrdinalSuffixes| then Some(OrdinalSuffixes[k]) else None
  }

  /** `s[(v - 20) % 10] || s[v] || s[0]` with `v = n % 100`, using JavaScript's `%`. */
  function OrdinalSuffix(n: int): (suffix: string)
    ensures suffix in OrdinalSuffixes
  {
    var v := JsRem(n, 100);
    // every suffix is a non-empty string, so a defined entry is truthy
    match SuffixAt(JsRem(v - 20, 10))
    case Some(x) => x
    case None =>
      match SuffixAt(v)
      case Some(y) => y
      case None => OrdinalSuffixes[0]
  }

  /** `getOrdinal(n)`: the decimal `n` followed by one of the four suffixes. */
  function GetOrdinal(n: int): (r: string)
    ensures |NumberToString(n)| < |r|
    ensures r[..|NumberToString(n)|] == NumberToString(n)
    ensures r[|NumberToString(n)|..] in OrdinalSuffixes
  {
    NumberToString(n) + OrdinalSuffix(n)
  }

  /** English ordinal suffixes, as a reference: "th" for 11-13 of every hundred, else by the last digit. */
  function EnglishSuffix(n: nat): string
  {
    if 11 <= n % 100 <= 13 then "th"
    else if n % 10 == 1 then "st"
    else if n % 10 == 2 then "nd"
    else if n % 10 == 3 then "rd"
    else "th"
  }

  /**
   *  On every rank the page can show, the suffix is the English one: for
   *  n % 100 below 20 the first lookup is at a negative index or at 0, so the
   *  teens fall through to `s[v]`, which is undefined for 11-13.
   */
  lemma OrdinalSuffixIsEnglish(n: nat)
    ensures OrdinalSuffix(n) == EnglishSuffix(n)
  {
    JsRemNonNegative(n, 100);
    var v := n % 100;
    assert v % 10 == n % 10;
    if v >= 20 {
      JsRemNonNegative(v - 20, 10);
      assert JsRem(v - 20, 10) == n % 10;
    } else {
      assert JsRem(v - 20, 10) == -((20 - v) % 10);
      assert JsRem(v - 20, 10) <= 0;
      assert JsRem(v - 20, 10) == 0 <==> v == 0 || v == 10;
    }
  }

  lemma OrdinalIsEnglish(n: nat)
    ensures GetOrdinal(n) == NumberToString(n) + EnglishSuffix(n)
  {
    OrdinalSuffixIsEnglish(n);
  }

  /** A negative number always gets "th": both lookups are at non-positive indices. */
  lemma OrdinalOfNegative(n: int)
    requires n < 0
    ensures OrdinalSuffix(n) == "th"
  {
  }

  lemma {:induction false} OrdinalExample(n: nat, digits: string, suffix: string)
    requires NumberToString(n) == digits && EnglishSuffix(n) == suffix
    ensures GetOrdinal(n) == digits + suffix
  {
    OrdinalIsEnglish(n);
  }

  lemma OrdinalExamplesOneDigit()
    ensures GetOrdinal(1) == "1st" && GetOrdinal(2) == "2nd" && GetOrdinal(3) == "3rd" && GetOrdinal(4) == "4th"
  {
    OrdinalExample(1, "1", "st");
    OrdinalExample(2, "2", "nd");
    OrdinalExample(3, "3", "rd");
    OrdinalExample(4, "4", "th");
  }

  /** A two-digit ordinal: both digits, then the English suffix. */
  lemma {:induction false} TwoDigitOrdinal(n: nat, suffix: string)
    requires 10 <= n < 100 && EnglishSuffix(n) == suffix
    ensures GetOrdinal(n) == [DigitChar(n / 10), DigitChar(n % 10)] + suffix
  {
    assert NatToString(n) == NatToString(n / 10) + [DigitChar(n % 10)];
    OrdinalIsEnglish(n);
  }

  lemma OrdinalExamplesTeens()
    ensures GetOrdinal(11) == "11th" && GetOrdinal(12) == "12th" && GetOrdinal(13) == "13th"
  {
    TwoDigitOrdinal(11, "th");
    TwoDigitOrdinal(12, "th");
    TwoDigitOrdinal(13, "th");
  }

  lemma OrdinalExamplesTwenties()
    ensures GetOrdinal(21) == "21st" && GetOrdinal(22) == "22nd"
  {
    TwoDigitOrdinal(21, "st");
    TwoDigitOrdinal(22, "nd");
  }

  lemma OrdinalExamples()
    ensures GetOrdinal(1) == "1st" && GetOrdinal(2) == "2nd" && GetOrdinal(3) == "3rd" && GetOrdinal(4) == "4th"
    ensures GetOrdinal(11) == "11th" && GetOrdinal(12) == "12th" && GetOrdinal(13) == "13th"
    ensures GetOrdinal(21) == "21st" && GetOrdinal(22) == "22nd"
  {
    OrdinalExamplesOneDigit();
    OrdinalExamplesTeens();
    OrdinalExamplesTwenties();
  }

  /** `f.indexOf(x)`: the first position of `x`, or -1. */
  function IndexOf(f: seq<nat>, x: nat): (r: int)
    ensures -1 <= r < |f|
    ensures r == -1 <==> x !in f
    ensures r >= 0 ==> f[r] == x && x !in f[..r]
  {
    if f == [] then -1
    else if f[0] == x then 0
    else
      var k := IndexOf(f[1..], x);
      if k == -1 then -1 else k + 1
  }

  /** The rank the scoreboard computes for seat `p`; it is displayed only when `p` has finished. */
  function ScoreboardRank(finished: seq<nat>, p: nat): (r: int)
    ensures 0 <= r <= |finished|
    ensures r == 0 <==> p !in finished
    ensures r > 0 ==> finished[r - 1] == p && p !in finished[..r - 1]
  {
    IndexOf(finished, p) + 1
  }

  /** A player appended to the finish order is shown with rank equal to the order's length then, whatever follows. */
  lemma RankOfAppended(f: seq<nat>, p: nat, later: seq<nat>)
    requires p !in f
    ensures ScoreboardRank(f + [p] + later, p) == |f| + 1
  {
    var h := f + [p] + later;
    assert h[|f|] == p;
    assert h[..|f|] == f;
  }

  /** In a duplicate-free finish order the ranks are 1, 2, 3, ... in finish order. */
  lemma RanksFollowFinishOrder(f: seq<nat>, i: nat)
    requires Turn.Distinct(f) && i < |f|
    ensures ScoreboardRank(f, f[i]) == i + 1
  {
    assert f == f[..i] + [f[i]] + f[i + 1..];
    RankOfAppended(f[..i], f[i], f[i + 1..]);
  }

  /** The scoreboard shows a player who has just reached 100 with the rank `handlePlayerFinish` assigned. */
  lemma ScoreboardShowsFinishRank(s: Turn.GameState, roll: int, b: Board.Topology)
    requires Turn.Idle(s) && s.current !in s.finished
    requires Turn.MovedPosition(s.positions[s.current], roll) == Players.Finish
    ensures var r := Turn.HandleRoll(s, roll, b);
      s.current in r.finished && ScoreboardRank(r.finished, s.current) == |s.finished| + 1
  {
    var r := Turn.HandleRoll(s, roll, b);
    Turn.LandingOnFinish(s, roll, b);
    var later := r.finished[|s.finished| + 1..];
    assert r.finished == s.finished + [s.current] + later;
    RankOfAppended(s.finished, s.current, later);
  }
}
