/** The Luhn checksum (Annex B of ISO/IEC 7812-1) as the card-number tests
    compute it, and the shape every issued card number must have. */
module Luhn {

  /** The numeric value Java's `Character.getNumericValue` gives an ASCII
      character: 0-9 for the decimal digits, 10-35 for the Latin letters in
      either case, and -1 for everything else. */
  function NumericValue(c: char): (v: int)
    ensures -1 <= v <= 35
    ensures '0' <= c <= '9' ==> v == c as int - '0' as int
  {
    if '0' <= c <= '9' then c as int - '0' as int
    else if 'a' <= c <= 'z' then c as int - 'a' as int + 10
    else if 'A' <= c <= 'Z' then c as int - 'A' as int + 10
    else -1
  }

  predicate IsDigit(c: char)
  {
    '0' <= c <= '9'
  }

  /** What one character adds to the sum: its value, or, when doubled, twice
      its value with 9 taken off a result above 9. */
  function Term(c: char, doubled: bool): (t: int)
    ensures IsDigit(c) ==> 0 <= t <= 9
    ensures !doubled ==> t == NumericValue(c)
  {
    var v := NumericValue(c);
    if doubled then (if 2 * v > 9 then 2 * v - 9 else 2 * v) else v
  }

  /** The Luhn sum read left to right: a character is doubled when an odd
      number of characters stand to its right (with `flip`, when an even
      number do). */
  function Weighted(s: string, flip: bool): int
  {
    if s == [] then 0
    else Term(s[0], ((|s| - 1) % 2 == 1) != flip) + Weighted(s[1..], flip)
  }

  function LuhnSum(s: string): int
  {
    Weighted(s, false)
  }

  /** The Luhn sum read the way the test helper reads it: from the rightmost
      character, whose value is added undoubled, alternating from there. */
  function LuhnFromRight(s: string, alternate: bool): int
  {
    if s == [] then 0
    else Term(s[|s| - 1], alternate) + LuhnFromRight(s[..|s| - 1], !alternate)
  }

  /** Appending a character on the right adds its undoubled term (under
      `flip`, its doubled one) and swaps the doubling of everything before it. */
  lemma {:induction false} WeightedSnoc(s: string, c: char, flip: bool)
    ensures Weighted(s + [c], flip) == Weighted(s, !flip) + Term(c, flip)
  {
    if s == [] {
      assert [c][1..] == [];
    } else {
      assert (s + [c])[1..] == s[1..] + [c];
      WeightedSnoc(s[1..], c, flip);
    }
  }

  /** The two readings agree: the rightmost character is never doubled and
      doubling alternates leftwards from it. */
  lemma {:induction false} LuhnDirectionsAgree(s: string, alternate: bool)
    ensures LuhnFromRight(s, alternate) == Weighted(s, alternate)
  {
    if s != [] {
      var init := s[..|s| - 1];
      assert s == init + [s[|s| - 1]];
      LuhnDirectionsAgree(init, !alternate);
      WeightedSnoc(init, s[|s| - 1], alternate);
    }
  }

  /** The check the tests apply to a card number. The sum is tested for
      divisibility by 10, which does not depend on how the remainder of a
      negative sum is rounded. */
  method IsValidLuhn(cardNumber: string) returns (valid: bool)
    ensures valid <==> LuhnSum(cardNumber) % 10 == 0
  {
    var sum := 0;
    var alternate := false;
    var i := |cardNumber| - 1;
    while i >= 0
      invariant -1 <= i < |cardNumber|
      invariant sum == LuhnSum(cardNumber[i + 1..])
      invariant alternate == ((|cardNumber| - 1 - i) % 2 == 1)
    {
      var digit := NumericValue(cardNumber[i]);
      if alternate {
        digit := digit * 2;
        if digit > 9 {
          digit := digit - 9;
        }
      }
      assert cardNumber[i..][1..] == cardNumber[i + 1..];
      sum := sum + digit;
      alternate := !alternate;
      i := i - 1;
    }
    assert cardNumber[0..] == cardNumber;
    valid := sum % 10 == 0;
  }

  /** Doubling with 9 taken off is a one-to-one map of the decimal digits. */
  lemma TermInjective(a: char, b: char, doubled: bool)
    requires IsDigit(a) && IsDigit(b) && a != b
    ensures Term(a, doubled) != Term(b, doubled)
  {
  }

  /** Changing the character at position `k` changes the sum by exactly the
      difference of that position's two terms. */
  lemma {:induction false} WeightedOneChange(s: string, t: string, k: int, flip: bool)
    requires |s| == |t| && 0 <= k < |s|
    requires forall j | 0 <= j < |s| && j != k :: s[j] == t[j]
    ensures Weighted(s, flip) - Weighted(t, flip)
         == Term(s[k], ((|s| - 1 - k) % 2 == 1) != flip) - Term(t[k], ((|s| - 1 - k) % 2 == 1) != flip)
  {
    if k == 0 {
      assert s[1..] == t[1..];
    } else {
      WeightedOneChange(s[1..], t[1..], k - 1, flip);
    }
  }

  /** The checksum catches every single-digit error: two numbers that differ
      in one decimal digit never both pass. */
  lemma DetectsSingleDigitError(s: string, t: string, k: int)
    requires |s| == |t| && 0 <= k < |s|
    requires IsDigit(s[k]) && IsDigit(t[k]) && s[k] != t[k]
    requires forall j | 0 <= j < |s| && j != k :: s[j] == t[j]
    ensures LuhnSum(s) % 10 != LuhnSum(t) % 10
  {
    var doubled := ((|s| - 1 - k) % 2 == 1) != false;
    WeightedOneChange(s, t, k, false);
    TermInjective(s[k], t[k], doubled);
    CloseSumsDifferModTen(LuhnSum(s), LuhnSum(t));
  }

  /** Two sums less than ten apart, and not equal, leave different remainders. */
  lemma CloseSumsDifferModTen(a: int, b: int)
    requires a != b && -9 <= a - b <= 9
    ensures a % 10 != b % 10
  {
  }

  function DigitChar(d: int): (c: char)
    requires 0 <= d <= 9
    ensures IsDigit(c) && NumericValue(c) == d
  {
    ('0' as int + d) as char
  }

  /** The digit that, appended to `payload`, makes the whole pass the check. */
  function CheckDigit(payload: string): (d: char)
    ensures IsDigit(d)
    ensures LuhnSum(payload + [d]) % 10 == 0
  {
    var x := Weighted(payload, true) % 10;
    var d := DigitChar((10 - x) % 10);
    WeightedSnoc(payload, d, false);
    d
  }

  /** What the tests demand of a generated card number: sixteen characters,
      a leading 4, and a passing checksum. */
  predicate IsIssuableNumber(s: string)
  {
    |s| == 16 && s[0] == '4' && LuhnSum(s) % 10 == 0
  }

  /** Completing fifteen characters that start with 4 by their check digit
      always gives an issuable number. */
  function WithCheckDigit(body: string): (n: string)
    requires |body| == 15 && body[0] == '4'
    ensures IsIssuableNumber(n)
    ensures n[..15] == body && IsDigit(n[15])
  {
    body + [CheckDigit(body)]
  }

  /** A run of `n` ones. */
  function Ones(n: nat): (s: string)
    ensures |s| == n && forall i | 0 <= i < n :: s[i] == '1'
  {
    seq(n, i => '1')
  }

  /** In a run of ones every doubled position adds 2, the others 1. */
  lemma {:induction false} OnesSum(n: nat, flip: bool)
    ensures Weighted(Ones(n), flip) == n + (if flip then n - n / 2 else n / 2)
  {
    if n > 0 {
      assert Ones(n)[1..] == Ones(n - 1);
      OnesSum(n - 1, flip);
    }
  }

  /** The test number 4111 1111 1111 1111 sums to 30 and is issuable. */
  lemma LuhnVectorValid()
    ensures ['4'] + Ones(15) == "4111111111111111"
    ensures LuhnSum(['4'] + Ones(15)) == 30
    ensures IsIssuableNumber(['4'] + Ones(15))
  {
    assert (['4'] + Ones(15))[1..] == Ones(15);
    OnesSum(15, false);
  }

  /** Changing its last digit to 2 gives a sum of 31, which fails. */
  lemma LuhnVectorInvalid()
    ensures ['4'] + Ones(14) + ['2'] == "4111111111111112"
    ensures LuhnSum(['4'] + Ones(14) + ['2']) == 31
  {
    WeightedSnoc(['4'] + Ones(14), '2', false);
    assert (['4'] + Ones(14))[1..] == Ones(14);
    OnesSum(14, true);
  }
}
