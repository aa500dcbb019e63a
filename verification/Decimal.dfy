/** Decimal notation and the identifiers built from it. */
module Decimal {

  const DIGITS := "0123456789"

  predicate IsDigit(c: char) {
    '0' <= c <= '9'
  }

  function DigitValue(c: char): nat
    requires IsDigit(c)
  {
    c as int - '0' as int
  }

  predicate AllDigits(s: string) {
    forall c <- s :: IsDigit(c)
  }

  function Digits(n: nat): (s: string)
    ensures s != [] && AllDigits(s)
  {
    if n < 10 then [DIGITS[n]] else Digits(n / 10) + [DIGITS[n % 10]]
  }

  /** The number a digit string denotes; leading zeros do not matter. */
  function Value(s: string): nat
    requires AllDigits(s)
  {
    if s == [] then 0 else 10 * Value(s[..|s|-1]) + DigitValue(s[|s|-1])
  }

  lemma {:induction false} ValueOfDigits(n: nat)
    ensures Value(Digits(n)) == n
  {
    assert forall d :: 0 <= d < 10 ==> DigitValue(DIGITS[d]) == d;
    if n >= 10 {
      ValueOfDigits(n / 10);
      assert Digits(n)[..|Digits(n)|-1] == Digits(n / 10);
    } else {
      assert Digits(n)[..0] == [];
    }
  }

  /** Zero-padding on the left to a width. */
  function Pad(s: string, width: nat): (r: string)
    requires AllDigits(s)
    ensures AllDigits(r)
    decreases if width > |s| then width - |s| else 0
  {
    if |s| >= width then s else Pad("0" + s, width)
  }

  lemma {:induction false} ValueOfLeadingZero(s: string)
    requires AllDigits(s)
    ensures AllDigits("0" + s) && Value("0" + s) == Value(s)
  {
    if s != [] {
      assert ("0" + s)[..|s|] == "0" + s[..|s|-1];
      ValueOfLeadingZero(s[..|s|-1]);
    } else {
      assert "0" + s == "0" && "0"[..0] == [];
    }
  }

  lemma {:induction false} ValueOfPad(s: string, width: nat)
    requires AllDigits(s)
    ensures Value(Pad(s, width)) == Value(s)
    decreases if width > |s| then width - |s| else 0
  {
    if |s| < width {
      ValueOfLeadingZero(s);
      ValueOfPad("0" + s, width);
    }
  }

  // ----- Operation identifiers -----

  /** An actor label never contains the separator. */
  predicate SafeActor(actor: string) {
    ':' !in actor
  }

  /** The actor, a colon, and the counter in at least twenty digits. */
  function MakeId(actor: string, counter: nat): string {
    actor + ":" + Pad(Digits(counter), 20)
  }

  lemma ColonInId(actor: string, counter: nat)
    ensures ':' in MakeId(actor, counter)
  {
    assert MakeId(actor, counter)[|actor|] == ':';
  }

  /** Different (actor, counter) pairs have different identifiers. */
  lemma IdInjective(a: string, c: nat, b: string, d: nat)
    requires SafeActor(a) && SafeActor(b) && MakeId(a, c) == MakeId(b, d)
    ensures a == b && c == d
  {
    var s, t := MakeId(a, c), MakeId(b, d);
    assert s[|a|] == ':' && t[|b|] == ':';
    assert forall i :: 0 <= i < |a| ==> s[i] == a[i];
    assert forall i :: 0 <= i < |b| ==> t[i] == b[i];
    assert |a| == |b|;
    assert a == s[..|a|] == b;
    var p, q := Pad(Digits(c), 20), Pad(Digits(d), 20);
    assert p == s[|a|+1..] && q == t[|b|+1..];
    ValueOfPad(Digits(c), 20);
    ValueOfPad(Digits(d), 20);
    ValueOfDigits(c);
    ValueOfDigits(d);
  }
}
