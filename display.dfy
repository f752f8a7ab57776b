/** The text the score and high-score displays receive: the decimal digits of the
    number, left-padded with '0' to five characters (`padStart(5, '0')`). */
module Display {

  const SCORE_WIDTH: nat := 5

  predicate IsDigit(c: char)
  {
    '0' <= c <= '9'
  }

  function DigitChar(d: nat): char
    requires d < 10
  {
    ('0' as int + d) as char
  }

  /** `n.toString()`. */
  function Digits(n: nat): (s: string)
    ensures |s| >= 1
    ensures forall k :: 0 <= k < |s| ==> IsDigit(s[k])
    ensures n > 0 ==> s[0] != '0'
    decreases n
  {
    if n < 10 then [DigitChar(n)] else Digits(n / 10) + [DigitChar(n % 10)]
  }

  /** `s.padStart(width, fill)`: strings already that long are left as they are. */
  function PadStart(s: string, width: nat, fill: char): string
    decreases width - |s|
  {
    if |s| >= width then s else PadStart([fill] + s, width, fill)
  }

  /** What the score display shows. */
  function ScoreText(n: nat): string
  {
    PadStart(Digits(n), SCORE_WIDTH, '0')
  }

  /** What the high-score display shows. */
  function HighScoreText(n: nat): string
  {
    "HI " + ScoreText(n)
  }

  /** The number a string of decimal digits denotes. */
  function Value(s: string): nat
    requires forall k :: 0 <= k < |s| ==> IsDigit(s[k])
  {
    if s == [] then 0
    else
      assert IsDigit(s[|s| - 1]);
      Value(s[..|s| - 1]) * 10 + (s[|s| - 1] as int - '0' as int)
  }

  lemma {:induction false} DigitsValue(n: nat)
    ensures Value(Digits(n)) == n
    decreases n
  {
    if n >= 10 {
      DigitsValue(n / 10);
      var s := Digits(n);
      assert s[..|s| - 1] == Digits(n / 10);
    }
  }

  lemma {:induction false} DigitsShort(n: nat, k: nat, bound: nat)
    requires bound == Pow10(k) && n < bound && k >= 1
    ensures |Digits(n)| <= k
    decreases k
  {
    if n >= 10 {
      DigitsShort(n / 10, k - 1, Pow10(k - 1));
    }
  }

  /** A number of at least 10^(k-1) has at least k digits. */
  lemma {:induction false} DigitsLong(n: nat, k: nat)
    requires k >= 1 && n >= Pow10(k - 1)
    ensures |Digits(n)| >= k
    decreases k
  {
    if k > 1 {
      assert Pow10(k - 1) == 10 * Pow10(k - 2);
      assert n / 10 >= Pow10(k - 2);
      DigitsLong(n / 10, k - 1);
    }
  }

  /** `toString` has exactly k digits for 10^(k-1) <= n < 10^k. */
  lemma DigitsLength(n: nat, k: nat)
    requires k >= 1 && Pow10(k - 1) <= n < Pow10(k)
    ensures |Digits(n)| == k
  {
    DigitsShort(n, k, Pow10(k));
    DigitsLong(n, k);
  }

  function Pow10(k: nat): nat
  {
    if k == 0 then 1 else 10 * Pow10(k - 1)
  }

  /** Leading zeros do not change the value of a digit string. */
  lemma {:induction false} LeadingZeros(z: string, s: string)
    requires forall k :: 0 <= k < |z| ==> z[k] == '0'
    requires forall k :: 0 <= k < |s| ==> IsDigit(s[k])
    ensures forall k :: 0 <= k < |z + s| ==> IsDigit((z + s)[k])
    ensures Value(z + s) == Value(s)
    decreases |s|
  {
    if s == [] {
      assert z + s == z;
      ZerosValue(z);
    } else {
      var s' := s[..|s| - 1];
      LeadingZeros(z, s');
      assert (z + s)[..|z + s| - 1] == z + s';
    }
  }

  lemma {:induction false} ZerosValue(z: string)
    requires forall k :: 0 <= k < |z| ==> z[k] == '0'
    ensures Value(z) == 0
    decreases |z|
  {
    if z != [] {
      ZerosValue(z[..|z| - 1]);
    }
  }

  /** Padding only prepends fill characters, up to the width. */
  lemma {:induction false} PadStartShape(s: string, width: nat, fill: char)
    ensures var r := PadStart(s, width, fill);
      |r| == (if |s| >= width then |s| else width) &&
      r[|r| - |s|..] == s &&
      forall k :: 0 <= k < |r| - |s| ==> r[k] == fill
    decreases width - |s|
  {
    if |s| < width {
      PadStartShape([fill] + s, width, fill);
      var r := PadStart(s, width, fill);
      assert r[|r| - |s|..] == ([fill] + s)[1..];
    }
  }

  /** The score text is at least five characters, exactly five for scores below
      100000, all digits, and reads back as the score. */
  lemma ScoreTextRoundTrip(n: nat)
    ensures |ScoreText(n)| >= SCORE_WIDTH
    ensures n < 100000 ==> |ScoreText(n)| == SCORE_WIDTH
    ensures n >= 100000 ==> ScoreText(n) == Digits(n)
    ensures forall k :: 0 <= k < |ScoreText(n)| ==> IsDigit(ScoreText(n)[k])
    ensures Value(ScoreText(n)) == n
  {
    var s := Digits(n);
    var r := ScoreText(n);
    PadStartShape(s, SCORE_WIDTH, '0');
    if n < 100000 {
      assert Pow10(5) == 100000;
      DigitsShort(n, 5, 100000);
    } else {
      assert Pow10(5) == 100000;
      DigitsLong(n, 6);
    }
    var z := r[..|r| - |s|];
    assert r == z + s;
    LeadingZeros(z, s);
    DigitsValue(n);
  }

  /** A new game shows "00000". */
  lemma ZeroScoreText()
    ensures ScoreText(0) == "00000"
  {
    assert Digits(0) == "0";
    assert ['0'] + "0" == "00";
    assert PadStart("0", SCORE_WIDTH, '0') == PadStart("00", SCORE_WIDTH, '0');
    assert ['0'] + "00" == "000";
    assert PadStart("00", SCORE_WIDTH, '0') == PadStart("000", SCORE_WIDTH, '0');
    assert ['0'] + "000" == "0000";
    assert PadStart("000", SCORE_WIDTH, '0') == PadStart("0000", SCORE_WIDTH, '0');
    assert ['0'] + "0000" == "00000";
    assert PadStart("0000", SCORE_WIDTH, '0') == PadStart("00000", SCORE_WIDTH, '0');
  }
}
