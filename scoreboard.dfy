/**
  The text drawn on the scoreboard: a headline chosen by the game-over flag and
  a second line `Score: <score>` with the score in decimal, as a template
  literal renders the small non-negative integers the game reaches.
 */
module Scoreboard {

  /** The two lines of text on the board; fonts, colours and layout are not modelled. */
  datatype Board = Board(headline: string, scoreLine: string)

  const LoseHeadline: string := "YOU LOSE"
  const PlayingHeadline: string := "NO GOALS ALLOWED"
  const ScorePrefix: string := "Score: "

  predicate IsDigit(c: char)
  {
    '0' <= c <= '9'
  }

  function DigitChar(d: nat): (c: char)
    requires d < 10
    ensures IsDigit(c) && c as int - '0' as int == d
  {
    ('0' as int + d) as char
  }

  function DigitValue(c: char): (d: nat)
    requires IsDigit(c)
    ensures d < 10 && DigitChar(d) == c
  {
    c as int - '0' as int
  }

  /** A canonical decimal numeral: at least one digit and no leading zero. */
  predicate IsDecimal(s: string)
  {
    && |s| >= 1
    && (forall i | 0 <= i < |s| :: IsDigit(s[i]))
    && (s[0] == '0' ==> |s| == 1)
  }

  /** The decimal numeral of a natural number. */
  function Decimal(n: nat): (s: string)
    ensures IsDecimal(s)
    ensures s[0] == '0' <==> n == 0
    decreases n
  {
    if n < 10 then [DigitChar(n)] else Decimal(n / 10) + [DigitChar(n % 10)]
  }

  /** The number a string of digits denotes (the partner of Decimal). */
  function DecimalValue(s: string): nat
    requires forall i | 0 <= i < |s| :: IsDigit(s[i])
  {
    if s == [] then 0 else 10 * DecimalValue(s[..|s| - 1]) + DigitValue(s[|s| - 1])
  }

  /** Reading back the numeral of n gives n. */
  lemma {:induction false} DecimalValueOfDecimal(n: nat)
    ensures DecimalValue(Decimal(n)) == n
    decreases n
  {
    var s := Decimal(n);
    if n >= 10 {
      assert s[..|s| - 1] == Decimal(n / 10);
      DecimalValueOfDecimal(n / 10);
    }
  }

  /** A numeral whose first digit is not zero denotes a positive number. */
  lemma {:induction false} LeadingDigitPositive(s: string)
    requires |s| >= 1 && (forall i | 0 <= i < |s| :: IsDigit(s[i])) && s[0] != '0'
    ensures DecimalValue(s) > 0
    decreases |s|
  {
    if |s| > 1 {
      LeadingDigitPositive(s[..|s| - 1]);
    }
  }

  /** Every canonical numeral is the numeral of the number it denotes. */
  lemma {:induction false} DecimalOfDecimalValue(s: string)
    requires IsDecimal(s)
    ensures Decimal(DecimalValue(s)) == s
    decreases |s|
  {
    if |s| > 1 {
      var p := s[..|s| - 1];
      assert IsDecimal(p);
      LeadingDigitPositive(p);
      DecimalOfDecimalValue(p);
      var n := DecimalValue(s);
      assert n / 10 == DecimalValue(p) && n % 10 == DigitValue(s[|s| - 1]);
      assert s == p + [s[|s| - 1]];
    }
  }

  /** Distinct numbers have distinct numerals. */
  lemma DecimalInjective(m: nat, n: nat)
    requires Decimal(m) == Decimal(n)
    ensures m == n
  {
    DecimalValueOfDecimal(m);
    DecimalValueOfDecimal(n);
  }

  /** What `updateScoreboard` draws for a game-over flag and a score. */
  function Render(gameOver: bool, score: nat): (b: Board)
    ensures b.headline == LoseHeadline <==> gameOver
    ensures !gameOver ==> b.headline == PlayingHeadline
    ensures |b.scoreLine| > |ScorePrefix| && b.scoreLine[..|ScorePrefix|] == ScorePrefix
    ensures IsDecimal(b.scoreLine[|ScorePrefix|..])
    ensures DecimalValue(b.scoreLine[|ScorePrefix|..]) == score
  {
    DecimalValueOfDecimal(score);
    var line := ScorePrefix + Decimal(score);
    assert line[|ScorePrefix|..] == Decimal(score);
    Board(if gameOver then LoseHeadline else PlayingHeadline, line)
  }

  /** The score line tells the score exactly: boards showing the same line show the same score. */
  lemma ScoreLineDeterminesScore(g1: bool, s1: nat, g2: bool, s2: nat)
    requires Render(g1, s1).scoreLine == Render(g2, s2).scoreLine
    ensures s1 == s2
  {
  }

  /** The board as first drawn: the playing headline over `Score: 0`. */
  lemma InitialBoard()
    ensures Render(false, 0) == Board("NO GOALS ALLOWED", "Score: 0")
  {
  }

  /** The board once five goals are in: the losing headline over `Score: 5`. */
  lemma FinalBoard()
    ensures Render(true, 5) == Board("YOU LOSE", "Score: 5")
  {
  }
}
