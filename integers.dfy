/** Ruby's `String#to_i` on the count lines of the catalog file, and decimal
    printing of a natural number (its inverse on canonical numerals). */
module Integers {

  predicate IsDigit(c: char) {
    '0' <= c <= '9'
  }

  /** The characters Ruby's C `isspace` accepts: space, \t, \n, \v, \f, \r. */
  predicate IsSpace(c: char) {
    c == ' ' || 9 <= c as int <= 13
  }

  predicate AllDigits(s: string) {
    forall i :: 0 <= i < |s| ==> IsDigit(s[i])
  }

  function DigitValue(c: char): nat
    requires IsDigit(c)
  {
    c as int - '0' as int
  }

  function DigitChar(v: nat): (c: char)
    requires v < 10
    ensures IsDigit(c) && DigitValue(c) == v
  {
    ('0' as int + v) as char
  }

  /** `s` without its leading white space. */
  function SkipSpace(s: string): string {
    if s != [] && IsSpace(s[0]) then SkipSpace(s[1..]) else s
  }

  /** Reads the rest of a decimal numeral from `s` into the number `acc` read
      so far: digits, each of which may be preceded by one underscore; anything
      else ends the number. */
  function ReadDigits(s: string, acc: nat): nat {
    if s != [] && IsDigit(s[0]) then ReadDigits(s[1..], acc * 10 + DigitValue(s[0]))
    else if |s| >= 2 && s[0] == '_' && IsDigit(s[1]) then ReadDigits(s[2..], acc * 10 + DigitValue(s[1]))
    else acc
  }

  /** The numeral at the start of `s`: it must start with a digit, else it reads as 0. */
  function Numeral(s: string): nat {
    if s != [] && IsDigit(s[0]) then ReadDigits(s, 0) else 0
  }

  /** `s` starts with the base-10 prefix "0d" or "0D" followed by a digit. */
  predicate HasDecimalPrefix(s: string) {
    |s| >= 3 && s[0] == '0' && (s[1] == 'd' || s[1] == 'D') && IsDigit(s[2])
  }

  /** The unsigned part of `to_i`: an optional "0d" prefix, then the numeral. */
  function Unsigned(s: string): nat {
    if HasDecimalPrefix(s) then Numeral(s[2..]) else Numeral(s)
  }

  /** Ruby's `to_i` (base 10): leading white space is skipped, an optional sign
      is read, then an optional "0d" prefix and the numeral, whose digits may be
      separated by single underscores; a string with no digit there gives 0. */
  function ToInt(s: string): (r: int)
    ensures r < 0 ==> SkipSpace(s) != [] && SkipSpace(s)[0] == '-'
  {
    var t := SkipSpace(s);
    if t != [] && t[0] == '-' then 0 - Unsigned(t[1..])
    else if t != [] && t[0] == '+' then Unsigned(t[1..]) as int
    else Unsigned(t) as int
  }

  /** Text that cannot continue a numeral: it does not start with a digit nor
      with an underscore followed by a digit. */
  predicate EndsNumeral(rest: string) {
    rest == [] || (!IsDigit(rest[0]) && !(|rest| >= 2 && rest[0] == '_' && IsDigit(rest[1])))
  }

  /** The canonical decimal numeral of `n` (no sign, no leading zeros). */
  function ShowNat(n: nat): (s: string)
    ensures s != [] && AllDigits(s)
    ensures n > 0 ==> s[0] != '0'
  {
    if n < 10 then [DigitChar(n)] else ShowNat(n / 10) + [DigitChar(n % 10)]
  }

  lemma {:induction false} ReadDigitsAppend(a: string, b: string, acc: nat)
    requires AllDigits(a)
    ensures ReadDigits(a + b, acc) == ReadDigits(b, ReadDigits(a, acc))
  {
    if a == [] {
      assert a + b == b;
    } else {
      assert (a + b)[1..] == a[1..] + b;
      ReadDigitsAppend(a[1..], b, acc * 10 + DigitValue(a[0]));
    }
  }

  lemma {:induction false} ReadDigitsOfShowNat(n: nat, rest: string)
    requires EndsNumeral(rest)
    ensures ReadDigits(ShowNat(n) + rest, 0) == n
  {
    ReadDigitsAppend(ShowNat(n), rest, 0);
    if n >= 10 {
      ReadDigitsAppend(ShowNat(n / 10), [DigitChar(n % 10)], 0);
      ReadDigitsOfShowNat(n / 10, []);
      assert ShowNat(n / 10) + [] == ShowNat(n / 10);
    }
  }

  /** `to_i` reads back the number a numeral starts with, whatever follows it
      that cannot continue the numeral (after "0", not a "d" or "D" and a digit
      either, which would make the "0" a prefix); in particular every count the
      catalog writer prints. */
  lemma ToIntOfShowNat(n: nat, rest: string)
    requires EndsNumeral(rest)
    requires n == 0 ==> !(|rest| >= 2 && (rest[0] == 'd' || rest[0] == 'D') && IsDigit(rest[1]))
    ensures ToInt(ShowNat(n) + rest) == n
  {
    var s := ShowNat(n) + rest;
    assert s[0] == ShowNat(n)[0];
    assert !HasDecimalPrefix(s) by {
      if n == 0 {
        assert ShowNat(0) == "0";
        if |s| >= 3 {
          assert s[1] == rest[0] && s[2] == rest[1];
        }
      }
    }
    ReadDigitsOfShowNat(n, rest);
  }

  /** The base-10 prefix "0d" or "0D" is skipped. */
  lemma ToIntOfDecimalPrefix(n: nat, d: char)
    requires d == 'd' || d == 'D'
    ensures ToInt(['0', d] + ShowNat(n)) == n
  {
    var s := ['0', d] + ShowNat(n);
    assert s[2] == ShowNat(n)[0];
    assert s[2..] == ShowNat(n) + [];
    ReadDigitsOfShowNat(n, []);
  }

  /** A single underscore between digits is skipped; a second one ends the number. */
  lemma ToIntUnderscores()
    ensures ToInt("1_000") == 1000
    ensures ToInt("1__0") == 1
    ensures ToInt("_1") == 0
  {
    assert ReadDigits("1_000", 0) == ReadDigits("_000", 1) == ReadDigits("00", 10) == 1000;
    assert ReadDigits("1__0", 0) == ReadDigits("__0", 1) == 1;
  }

  /** A leading minus sign negates the number. */
  lemma ToIntOfNegative(n: nat)
    ensures ToInt("-" + ShowNat(n)) == 0 - n
  {
    var s := "-" + ShowNat(n);
    assert s[1..] == ShowNat(n) + [];
    ReadDigitsOfShowNat(n, []);
  }

  /** A line that, after white space, starts with neither a sign nor a digit
      reads as 0. */
  lemma NonNumericIsZero(s: string)
    requires var t := SkipSpace(s); t == [] || (!IsDigit(t[0]) && t[0] != '-' && t[0] != '+')
    ensures ToInt(s) == 0
  {
  }
}
