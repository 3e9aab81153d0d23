/**
 * The base-2 digit string of a natural number, as java.math.BigInteger's
 * `toString(2)` writes it (most significant digit first, no leading zero,
 * "0" for zero), and the value such a string denotes.
 */
module BinaryString {
  import opened Arith

  /** The weight the exponentiation loop gives a character: '1' is one, anything else zero. */
  function Digit(c: char): (d: nat)
    ensures d <= 1
  {
    if c == '1' then 1 else 0
  }

  /** The character for a binary digit. */
  function DigitChar(d: nat): (c: char)
    requires d <= 1
    ensures Digit(c) == d && (c == '0' || c == '1')
  {
    if d == 1 then '1' else '0'
  }

  /** Every character is '0' or '1'. */
  predicate IsBitString(s: seq<char>) {
    forall i :: 0 <= i < |s| ==> s[i] == '0' || s[i] == '1'
  }

  /** The canonical form `toString(2)` produces: "0", or a non-empty bit string starting with '1'. */
  predicate IsCanonical(s: seq<char>) {
    IsBitString(s) && |s| >= 1 && (s == "0" || s[0] == '1')
  }

  /** The number a big-endian bit string denotes; the first character has weight 2^(|s|-1). */
  function BitsValue(s: seq<char>): nat {
    if s == [] then 0 else Digit(s[0]) * Pow2(|s| - 1) + BitsValue(s[1..])
  }

  /** Appending a low digit doubles the value and adds the digit. */
  lemma {:induction false} BitsValueAppend(s: seq<char>, c: char)
    ensures BitsValue(s + [c]) == 2 * BitsValue(s) + Digit(c)
  {
    if s != [] {
      assert (s + [c])[1..] == s[1..] + [c];
      BitsValueAppend(s[1..], c);
      calc {
        BitsValue(s + [c]);
        Digit(s[0]) * Pow2(|s|) + BitsValue(s[1..] + [c]);
        Digit(s[0]) * (2 * Pow2(|s| - 1)) + 2 * BitsValue(s[1..]) + Digit(c);
        2 * (Digit(s[0]) * Pow2(|s| - 1) + BitsValue(s[1..])) + Digit(c);
        2 * BitsValue(s) + Digit(c);
      }
    }
  }

  /** Splitting the digit at position i off the suffix s[i..], as the backward scan does. */
  lemma BitsValueSuffix(s: seq<char>, i: nat)
    requires i < |s|
    ensures BitsValue(s[i..]) == Digit(s[i]) * Pow2(|s| - 1 - i) + BitsValue(s[i + 1..])
  {
    assert s[i..][1..] == s[i + 1..];
  }

  /** A string that starts with '1' denotes at least 2^(|s|-1). */
  lemma LeadingOne(s: seq<char>)
    requires |s| >= 1 && s[0] == '1'
    ensures BitsValue(s) >= Pow2(|s| - 1) >= 1
  {
  }

  /**
   * `n.toString(2)` for a non-negative n: the canonical binary numeral of n.
   * Its value is n, so the exponentiation loop really scans the bits of n.
   */
  function ToBinary(n: nat): (s: seq<char>)
    ensures IsCanonical(s) && BitsValue(s) == n
    decreases n
  {
    if n < 2 then [DigitChar(n)]
    else
      var high := ToBinary(n / 2);
      BitsValueAppend(high, DigitChar(n % 2));
      high + [DigitChar(n % 2)]
  }

  /** Zero is written "0": the loop then runs once and never multiplies. */
  lemma ToBinaryZero()
    ensures ToBinary(0) == "0"
  {
  }

  /** ToBinary is the inverse of BitsValue on canonical strings, so the canonical numeral is unique. */
  lemma {:induction false} ToBinaryOfValue(s: seq<char>)
    requires IsCanonical(s)
    ensures ToBinary(BitsValue(s)) == s
    decreases |s|
  {
    if |s| >= 2 {
      var init, last := s[..|s| - 1], s[|s| - 1];
      assert s == init + [last];
      assert init[0] == '1';
      assert IsCanonical(init);
      BitsValueAppend(init, last);
      LeadingOne(init);
      ToBinaryOfValue(init);
      var n := BitsValue(s);
      assert n / 2 == BitsValue(init) && n % 2 == Digit(last);
    } else {
      assert s == [s[0]];
    }
  }
}
