/**
 * Amounts as integer cents. `ParseAmount` stands for the `float(...)` calls
 * that read an amount; `FormatAmount` writes the cell that an added
 * expense stores.  A readable amount is an optional sign, then digits with
 * at most one decimal point and at most two digits after it, and at least
 * one digit in all ("12", "12.5", "-3.05", ".5", "7." are amounts).
 */
module Amounts {
  import opened Wrappers
  import opened Numerals

  /** The position of the first `c` in `s`, or |s| when there is none. */
  function IndexOf(s: string, c: char): (k: nat)
    ensures k <= |s|
    ensures k < |s| ==> s[k] == c
    ensures forall i :: 0 <= i < k ==> s[i] != c
  {
    if s == [] then 0 else if s[0] == c then 0 else 1 + IndexOf(s[1..], c)
  }

  /** The first `c` of `a + [c] + b` is the one after `a` when `a` has none. */
  lemma {:induction false} IndexOfAfter(a: string, c: char, b: string)
    requires forall i :: 0 <= i < |a| ==> a[i] != c
    ensures IndexOf(a + [c] + b, c) == |a|
    decreases |a|
  {
    if a == [] {
      assert (a + [c] + b)[0] == c;
    } else {
      IndexOfAfter(a[1..], c, b);
      assert (a + [c] + b)[1..] == a[1..] + [c] + b;
    }
  }

  /**
   * The cents written by the digits before and after the point: at most
   * two digits after it, and at least one digit in all.
   */
  function PartsValue(whole: string, frac: string): Option<nat>
  {
    if AllDigits(whole) && AllDigits(frac) && |frac| <= 2 && |whole| + |frac| >= 1
    then Some(DigitsValue(whole) * 100 + (if |frac| == 1 then DigitsValue(frac) * 10 else DigitsValue(frac)))
    else None
  }

  /** Reads an unsigned amount in cents, split at its first point. */
  function ParseUnsigned(s: string): Option<nat>
  {
    var k := IndexOf(s, '.');
    PartsValue(s[..k], if k < |s| then s[k + 1..] else "")
  }

  /** Reads a signed amount in cents; None where `float` would raise ValueError. */
  function ParseAmount(s: string): Option<int>
  {
    if |s| > 0 && (s[0] == '-' || s[0] == '+') then
      match ParseUnsigned(s[1..])
      case Some(v) => var n: int := v; Some(if s[0] == '-' then -n else n)
      case None => None
    else ParseUnsigned(s)
  }

  /** Writes `cents` as `[-]D+.DD`. */
  function FormatAmount(cents: int): string
  {
    var a := if cents < 0 then -cents else cents;
    (if cents < 0 then "-" else "") + NatToString(a / 100) + "." + Fixed(a % 100, 2)
  }

  /** A string with a point and no earlier point splits there. */
  lemma ParseUnsignedSplit(whole: string, frac: string)
    requires forall i :: 0 <= i < |whole| ==> whole[i] != '.'
    ensures ParseUnsigned(whole + "." + frac) == PartsValue(whole, frac)
  {
    var s := whole + "." + frac;
    IndexOfAfter(whole, '.', frac);
    assert s[..|whole|] == whole && s[|whole| + 1..] == frac;
  }

  lemma UnsignedRoundTrip(a: nat)
    ensures ParseUnsigned(NatToString(a / 100) + "." + Fixed(a % 100, 2)) == Some(a)
  {
    var w, f := NatToString(a / 100), Fixed(a % 100, 2);
    ParseUnsignedSplit(w, f);
    NatToStringValue(a / 100);
    assert Pow10(2) == 100;
    FixedValue(a % 100, 2);
    assert DigitsValue(w) * 100 + DigitsValue(f) == a;
  }

  /** The cell written for an amount reads back as the same amount. */
  lemma AmountRoundTrip(cents: int)
    ensures ParseAmount(FormatAmount(cents)) == Some(cents)
  {
    var a := if cents < 0 then -cents else cents;
    var w := NatToString(a / 100);
    var body := w + "." + Fixed(a % 100, 2);
    UnsignedRoundTrip(a);
    FormatAmountShape(cents, a, body);
    if cents < 0 {
      ParseNegated(body, a);
    } else {
      assert body[0] == w[0];
      ParseUnsignedDigitFirst(body);
    }
  }

  /** The cell is the unsigned numeral of the magnitude, after a minus for a negative amount. */
  lemma FormatAmountShape(cents: int, a: nat, body: string)
    requires a == if cents < 0 then -cents else cents
    requires body == NatToString(a / 100) + "." + Fixed(a % 100, 2)
    ensures FormatAmount(cents) == if cents < 0 then "-" + body else body
  {
  }

  /** A minus in front of an unsigned amount negates it. */
  lemma ParseNegated(body: string, a: nat)
    requires ParseUnsigned(body) == Some(a)
    ensures ParseAmount("-" + body) == Some(-(a as int))
  {
    var s := "-" + body;
    assert s[0] == '-' && s[1..] == body;
  }

  /** A cell that starts with a digit carries no sign. */
  lemma ParseUnsignedDigitFirst(s: string)
    requires |s| > 0 && IsDigit(s[0])
    ensures ParseAmount(s) == ParseUnsigned(s)
  {
  }

  lemma AmountExamples()
    ensures ParseAmount("12.5") == Some(1250)
    ensures ParseAmount("-3.05") == Some(-305)
  {
    assert IndexOf("12.5", '.') == 2;
    assert "12.5"[..2] == "12" && "12.5"[3..] == "5";
    assert DigitsValue("12") == 12;
    assert "-3.05"[1..] == "3.05";
    assert IndexOf("3.05", '.') == 1;
    assert "3.05"[..1] == "3" && "3.05"[2..] == "05";
    assert DigitsValue("05") == 5;
  }

  lemma RejectsNonAmounts()
    ensures ParseAmount("abc") == None
    ensures ParseAmount("") == None
  {
    assert IndexOf("abc", '.') == 3;
    assert !IsDigit("abc"[0]);
  }
}
