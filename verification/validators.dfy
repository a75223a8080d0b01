// The request-field validators: a percentage range check, a name check by
// the pattern ^[a-zA-Z\s]+$, and a money check that renders the amount with
// two decimals and matches the rendering against ^\d+(\.\d{1,2})?$.

module Validators {

  /** A rate is a percentage when it lies between 0 and 100 inclusive. */
  predicate ValidPercentage(rate: real)
  {
    0.0 <= rate <= 100.0
  }

  // ------------------------------------------------------ character classes

  /** The two classes the patterns use: \d, and [a-zA-Z\s] where \s is the
      RE2 whitespace class (space, tab, newline, form feed, carriage return). */
  datatype Class = Digit | AlphaSpace

  predicate InClass(c: char, cls: Class)
  {
    match cls
    case Digit => '0' <= c <= '9'
    case AlphaSpace => ('a' <= c <= 'z') || ('A' <= c <= 'Z') || c == ' ' || c == '\t' || c == '\n' || c == '\U{000C}' || c == '\r'
  }

  /** Where a greedy run of class characters starting at `from` ends. */
  function RunEnd(s: string, from: nat, cls: Class): (k: nat)
    requires from <= |s|
    ensures from <= k <= |s|
    ensures forall i :: from <= i < k ==> InClass(s[i], cls)
    ensures k < |s| ==> !InClass(s[k], cls)
    decreases |s| - from
  {
    if from == |s| || !InClass(s[from], cls) then from else RunEnd(s, from + 1, cls)
  }

  /** A run over characters all in the class, followed by one that is not
      (or by the end), ends exactly there. */
  lemma {:induction false} RunEndAt(s: string, from: nat, to: nat, cls: Class)
    requires from <= to <= |s|
    requires forall i :: from <= i < to ==> InClass(s[i], cls)
    requires to < |s| ==> !InClass(s[to], cls)
    ensures RunEnd(s, from, cls) == to
    decreases |s| - from
  {
    if from < to {
      RunEndAt(s, from + 1, to, cls);
    }
  }

  // ------------------------------------------------------------------ names

  /** The matcher for ^[a-zA-Z\s]+$: one greedy run of the class that is
      non-empty and reaches the end. */
  predicate MatchAlphaSpace(name: string): (ok: bool)
    ensures ok ==> name != [] && InClass(name[0], AlphaSpace) && InClass(name[|name| - 1], AlphaSpace)
  {
    var k := RunEnd(name, 0, AlphaSpace);
    0 < k == |name|
  }

  /** A name passes exactly when it is non-empty and every character is an
      ASCII letter or whitespace. */
  lemma AlphaSpaceAccepts(name: string)
    ensures MatchAlphaSpace(name) <==> name != [] && forall i :: 0 <= i < |name| ==> InClass(name[i], AlphaSpace)
  {
    if name != [] && forall i :: 0 <= i < |name| ==> InClass(name[i], AlphaSpace) {
      RunEndAt(name, 0, |name|, AlphaSpace);
    }
  }

  // ------------------------------------------------------------------ money

  function DigitChar(d: nat): (c: char)
    requires d < 10
    ensures InClass(c, Digit)
  {
    "0123456789"[d]
  }

  /** Decimal digits of a natural number, most significant first, without
      leading zeros ("0" for zero). */
  function Decimal(n: nat): (s: string)
    ensures |s| >= 1
    ensures forall i :: 0 <= i < |s| ==> InClass(s[i], Digit)
  {
    if n < 10 then [DigitChar(n)] else Decimal(n / 10) + [DigitChar(n % 10)]
  }

  /** The amount in whole cents, rounded half away from zero, of its magnitude. */
  function Cents(amount: real): nat
  {
    var magnitude := if amount < 0.0 then -amount else amount;
    (magnitude * 100.0 + 0.5).Floor
  }

  /** The "%.2f" rendering: a minus sign for a negative amount, the whole
      part, a point and two decimals. */
  function FormatFixed2(amount: real): (s: string)
    ensures |s| >= 4
  {
    var c := Cents(amount);
    (if amount < 0.0 then "-" else "") + Decimal(c / 100) + "." + [DigitChar(c / 10 % 10), DigitChar(c % 10)]
  }

  /** The matcher for ^\d+(\.\d{1,2})?$: a non-empty greedy digit run, then
      either the end, or a point followed by one or two digits that end the
      string. */
  predicate MatchMoney(s: string): (ok: bool)
    ensures ok ==> s != [] && InClass(s[0], Digit) && InClass(s[|s| - 1], Digit)
  {
    var whole := RunEnd(s, 0, Digit);
    0 < whole &&
    (whole == |s| ||
     (s[whole] == '.' &&
      var fraction := RunEnd(s, whole + 1, Digit);
      fraction == |s| && 1 <= fraction - (whole + 1) <= 2))
  }

  /** The money check accepts an amount exactly when it is not negative. */
  lemma MoneyAcceptsNonNegative(amount: real)
    ensures MatchMoney(FormatFixed2(amount)) <==> amount >= 0.0
  {
    var s := FormatFixed2(amount);
    var c := Cents(amount);
    var whole := Decimal(c / 100);
    if amount < 0.0 {
      assert s[0] == '-';
      assert RunEnd(s, 0, Digit) == 0;
    } else {
      assert s == whole + "." + [DigitChar(c / 10 % 10), DigitChar(c % 10)];
      assert s[|whole|] == '.';
      RunEndAt(s, 0, |whole|, Digit);
      RunEndAt(s, |whole| + 1, |s|, Digit);
    }
  }
}
