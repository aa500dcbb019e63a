/** How rates are written and what they mean: digits, perhaps a decimal fraction, and a unit. */
module LimitReadings {
  import opened Basics
  import opened Sequences
  import opened Decimal
  import opened BandwidthLimits

  /** The i-th power of 1024. */
  function Kilo(i: nat): real {
    if i == 0 then 1.0 else 1024.0 * Kilo(i - 1)
  }

  predicate IsWhole(s: string) {
    s != "" && AllDigits(s)
  }

  /** Digits, or digits, a point and digits. */
  ghost predicate IsAmount(s: string) {
    IsWhole(s) || exists d, f :: IsDecimal(s, d, f)
  }

  predicate IsDecimal(s: string, d: string, f: string) {
    IsWhole(d) && IsWhole(f) && s == d + "." + f
  }

  predicate IsUnit(u: char, i: nat) {
    i < 6 && (u == "bkmgtp"[i] || u == "BKMGTP"[i])
  }

  /** The number with its decimal point n places to the right. */
  function Shifted(v: real, n: nat): real {
    if n == 0 then v else 10.0 * Shifted(v, n - 1)
  }

  lemma {:induction false} ShiftedSum(v: real, w: real, n: nat)
    ensures Shifted(v + w, n) == Shifted(v, n) + Shifted(w, n)
  {
    if n > 0 { ShiftedSum(v, w, n - 1); }
  }

  lemma {:induction false} ShiftedIsTimes(v: real, n: nat)
    ensures Shifted(v, n) == v * PowerOfTen(n)
  {
    if n > 0 {
      ShiftedIsTimes(v, n - 1);
      TenTimes(v, PowerOfTen(n - 1));
    }
  }

  lemma TenTimes(v: real, p: real)
    ensures 10.0 * (v * p) == v * (10.0 * p)
  {
  }

  ghost predicate NamesUnit(u: char) {
    exists i: nat :: IsUnit(u, i)
  }

  lemma {:induction false} ValueConcat(d: string, f: string)
    requires AllDigits(d) && AllDigits(f)
    ensures Value(d + f) as real == Shifted(Value(d) as real, |f|) + Value(f) as real
  {
    if f == "" {
      assert d + f == d;
    } else {
      var g, x := f[..|f|-1], f[|f|-1];
      assert x in f;
      ValueConcat(d, g);
      assert (d + f)[..|d + f|-1] == d + g;
      assert Value(d + f) == 10 * Value(d + g) + DigitValue(x);
      assert Value(f) == 10 * Value(g) + DigitValue(x);
    }
  }

  /** A number is read exactly if it is an amount. */
  lemma NumberExactly(s: string)
    ensures ParseNumber(s).Some? <==> IsAmount(s)
    ensures IsWhole(s) ==> ParseNumber(s) == Some(Value(s) as real)
  {
    var pieces := Split(s, '.');
    JoinSplit(s, '.');
    if IsWhole(s) {
      assert '.' !in s;
      SplitNone(s, '.');
    }
    if ParseNumber(s).Some? && |pieces| == 2 { assert IsDecimal(s, pieces[0], pieces[1]); }
    if d, f :| IsDecimal(s, d, f) { DecimalNumber(d, f); }
  }

  /** Shifted by its decimals, a fraction is the number its digits denote. */
  lemma DecimalNumber(d: string, f: string)
    requires IsWhole(d) && IsWhole(f)
    ensures ParseNumber(d + "." + f).Some?
    ensures Shifted(ParseNumber(d + "." + f).value, |f|) == Value(d + f) as real
  {
    SplitDecimal(d, f);
    PiecesNumber(d + "." + f, d, f);
    ValueConcat(d, f);
    ShiftedSum(Value(d) as real, Fraction(f), |f|);
    FractionShifted(f);
  }

  lemma FractionShifted(f: string)
    requires AllDigits(f)
    ensures Shifted(Fraction(f), |f|) == Value(f) as real
  {
    ShiftedIsTimes(Fraction(f), |f|);
    DivTimes(Value(f) as real, PowerOfTen(|f|));
  }

  lemma DivTimes(b: real, p: real)
    requires p > 0.0
    ensures b / p * p == b
  {
  }

  lemma SplitDecimal(d: string, f: string)
    requires IsWhole(d) && IsWhole(f)
    ensures Split(d + "." + f, '.') == [d, f]
  {
    assert '.' !in d && '.' !in f;
    SplitNone(d, '.');
    SplitNone(f, '.');
    SplitAt(d, '.', f);
    assert d + "." + f == d + ['.'] + f;
  }

  lemma PiecesNumber(s: string, d: string, f: string)
    requires IsWhole(d) && IsWhole(f) && Split(s, '.') == [d, f]
    ensures ParseNumber(s) == Some(Value(d) as real + Fraction(f))
  {
  }

  // ----- Units -----

  lemma AmountInLowerCase(s: string)
    requires IsAmount(s)
    ensures ParseNumber(s).Some? && Lower(s) == s && s != "off" && s != "" && Scale(s[|s|-1]).None?
  {
    NumberExactly(s);
    NumberChars(s);
    assert forall i :: 0 <= i < |s| ==> IsDigit(s[i]) || s[i] == '.';
    forall i | 0 <= i < |s| ensures LowerChar(s[i]) == s[i] { }
  }

  lemma UnitScale(u: char, i: nat)
    requires IsUnit(u, i)
    ensures Scale(LowerChar(u)) == Some(Kilo(i)) && LowerChar(u) != 'f' && LowerChar(u) == "bkmgtp"[i]
  {
    assert Kilo(1) == 1024.0 && Kilo(2) == 1024.0 * 1024.0 && Kilo(3) == 1024.0 * 1048576.0;
    assert Kilo(4) == 1024.0 * 1073741824.0 && Kilo(5) == 1024.0 * 1099511627776.0;
  }

  /** An amount is a rate in KiB per second, or in the unit behind it, in either case. */
  lemma ReadsAmount(s: string, u: char, i: nat)
    requires IsAmount(s) && IsUnit(u, i)
    ensures ParseNumber(s).Some? && ParsePart(s) == Some(Bytes(ParseNumber(s).value * 1024.0))
    ensures ParsePart(s + [u]) == Some(Bytes(ParseNumber(s).value * Kilo(i)))
  {
    AmountInLowerCase(s);
    UnitScale(u, i);
    InLowerCase(s, u);
    ReadsUnit(s, LowerChar(u), Kilo(i));
    assert ParsePart(s + [u]) == ParseLower(s + [LowerChar(u)]);
    assert ParsePart(s) == ParseLower(s);
  }

  lemma InLowerCase(s: string, u: char)
    requires Lower(s) == s
    ensures Lower(s + [u]) == s + [LowerChar(u)]
  {
    var part := Lower(s + [u]);
    forall k | 0 <= k < |part| ensures part[k] == (s + [LowerChar(u)])[k] {
      if k < |s| { assert Lower(s)[k] == LowerChar(s[k]); }
    }
  }

  lemma ReadsUnit(s: string, u: char, scale: real)
    requires ParseNumber(s).Some? && u != 'f' && Scale(u) == Some(scale)
    ensures ParseLower(s + [u]) == Some(Bytes(ParseNumber(s).value * scale))
  {
    var part := s + [u];
    assert part[|part|-1] == u && part[..|part|-1] == s;
    assert "off"[2] == 'f' && part != "off";
  }

  /** Off, in any case. */
  predicate IsOff(s: string) {
    |s| == 3 && (s[0] == 'o' || s[0] == 'O') && (s[1] == 'f' || s[1] == 'F') && (s[2] == 'f' || s[2] == 'F')
  }

  /** Accepted are exactly off, amounts, and amounts with a unit behind them. */
  lemma ParsesExactly(part: string)
    ensures ParsePart(part).Some? <==>
            || IsOff(part) || IsAmount(part)
            || (part != "" && NamesUnit(part[|part|-1]) && IsAmount(part[..|part|-1]))
    ensures ParsePart(part) == Some(Unlimited) <==> IsOff(part)
  {
    OffExactly(part);
    if IsAmount(part) { ReadsAmount(part, 'b', 0); }
    if part != "" && NamesUnit(part[|part|-1]) {
      var i: nat :| IsUnit(part[|part|-1], i);
      if IsAmount(part[..|part|-1]) {
        ReadsAmount(part[..|part|-1], part[|part|-1], i);
        assert part == part[..|part|-1] + [part[|part|-1]];
      }
    }
    if ParsePart(part).Some? && !IsOff(part) { ParsedIsAmount(part); }
  }

  lemma OffExactly(part: string)
    ensures Lower(part) == "off" <==> IsOff(part)
  {
    if IsOff(part) { assert Lower(part) == "off"; }
    if Lower(part) == "off" {
      assert LowerChar(part[0]) == 'o' && LowerChar(part[1]) == 'f' && LowerChar(part[2]) == 'f';
    }
  }

  lemma ParsedIsAmount(part: string)
    requires ParsePart(part).Some? && Lower(part) != "off"
    ensures part != ""
    ensures IsAmount(part) || (NamesUnit(part[|part|-1]) && IsAmount(part[..|part|-1]))
    ensures ParsePart(part).value.Bytes?
  {
    var s := Lower(part);
    var u := part[|part|-1];
    if Scale(LowerChar(u)).Some? {
      UnitOfScale(u);
      assert Lower(part[..|part|-1]) == s[..|s|-1];
      SameInLowerCase(part[..|part|-1]);
    } else {
      SameInLowerCase(part);
    }
  }

  lemma UnitOfScale(u: char)
    requires Scale(LowerChar(u)).Some?
    ensures NamesUnit(u)
  {
    var i: nat := match LowerChar(u) case 'b' => 0 case 'k' => 1 case 'm' => 2 case 'g' => 3 case 't' => 4 case _ => 5;
    assert IsUnit(u, i);
  }

  /** A number has no letters, so its text was in lower case before. */
  lemma SameInLowerCase(s: string)
    requires ParseNumber(Lower(s)).Some?
    ensures IsAmount(s)
  {
    NumberChars(Lower(s));
    forall i | 0 <= i < |s| ensures Lower(s)[i] == s[i] { }
    assert Lower(s) == s;
    NumberExactly(s);
  }

  // ----- Surrounding space -----

  predicate IsBlank(c: char) {
    c in {' ', '\t', '\n', '\r'} || c as int in {11, 12, 28, 29, 30, 31}
  }

  /** Space around a limit is dropped, and nothing else. */
  lemma {:induction false} StripExactly(before: string, core: string, behind: string)
    requires (forall c <- before + behind :: IsBlank(c))
    requires core != "" ==> !IsBlank(core[0]) && !IsBlank(core[|core|-1])
    ensures Strip(before + core + behind) == core
    decreases |before| + |behind|
  {
    var s := before + core + behind;
    if before != "" {
      assert before[0] in before + behind && s[1..] == before[1..] + core + behind;
      assert forall c <- before[1..] + behind :: c in before + behind;
      StripExactly(before[1..], core, behind);
    } else if behind != "" {
      StripBehind(core, behind);
      assert s == core + behind;
    } else {
      assert s == core;
    }
  }

  lemma {:induction false} StripBehind(core: string, behind: string)
    requires (forall c <- behind :: IsBlank(c))
    requires core != "" ==> !IsBlank(core[0]) && !IsBlank(core[|core|-1])
    ensures Strip(core + behind) == core
    decreases |behind|
  {
    var s := core + behind;
    if behind == "" {
      assert s == core;
    } else if core == "" {
      assert s[0] in behind && s[1..] == core + behind[1..];
      StripBehind(core, behind[1..]);
    } else {
      assert s[|s|-1] in behind && s[..|s|-1] == core + behind[..|behind|-1];
      StripBehind(core, behind[..|behind|-1]);
    }
  }

  // ----- Whole limits -----

  predicate AreRates(text: string, up: string, down: string) {
    text == up + ":" + down && ParsePart(up).Some? && ParsePart(down).Some?
  }

  /** Accepted are exactly an empty text, one rate, and two rates with a colon between, each without the
      space around the whole. */
  lemma NormalizesExactly(value: string)
    ensures var text := Strip(value);
            Normalize(value) ==
            if text == "" || ParsePart(text).Some? || exists up, down :: AreRates(text, up, down) then Some(text)
            else None
  {
    var text := Strip(value);
    var parts := Split(text, ':');
    JoinSplit(text, ':');
    if text != "" && ParsePart(text).Some? {
      ParsedHasNoColon(text);
      SplitNone(text, ':');
    }
    if up, down :| AreRates(text, up, down) { TwoParts(up, down); }
    if Normalize(value).Some? && text != "" {
      assert parts[0] in parts && parts[|parts|-1] in parts;
      if |parts| == 2 { assert AreRates(text, parts[0], parts[1]); }
    }
  }

  lemma TwoParts(up: string, down: string)
    requires ParsePart(up).Some? && ParsePart(down).Some?
    ensures Split(up + ":" + down, ':') == [up, down] && up + ":" + down != ""
  {
    ParsedHasNoColon(up);
    ParsedHasNoColon(down);
    SplitNone(up, ':');
    SplitNone(down, ':');
    SplitAt(up, ':', down);
    assert up + ":" + down == up + [':'] + down;
  }

  // ----- Spelling -----

  /** The rate of a direction as the limit spells it. */
  function Spelt(limit: string, d: Direction): string {
    var parts := Split(limit, ':');
    if d == Upload then parts[0] else parts[|parts|-1]
  }

  /** A combined limit spells each direction as one of the two limits does: as the global one if the job has no
      rate there or a higher one, else as the job does. It is written once if both directions are spelt
      alike but for case. */
  lemma EffectiveSpelling(g: string, j: string)
    requires ValidLimit(g) && ValidLimit(j) && g != "" && j != ""
    ensures exists up, down ::
              && Picks(g, j, up, Upload) && Picks(g, j, down, Download)
              && Effective(g, j) == Some(if Lower(up) == Lower(down) then up else up + ":" + down)
  {
    Selects(g, j, Upload);
    Selects(g, j, Download);
    var up := Select(PartFor(g, Upload), PartFor(j, Upload));
    var down := Select(PartFor(g, Download), PartFor(j, Download));
    assert Effective(g, j) == Some(Combine(up, down));
  }

  lemma Selects(g: string, j: string, d: Direction)
    requires ValidLimit(g) && ValidLimit(j) && g != "" && j != ""
    ensures ParsePart(PartFor(g, d)).Some? && ParsePart(PartFor(j, d)).Some?
    ensures Picks(g, j, Select(PartFor(g, d), PartFor(j, d)), d)
  {
    NormalizedParts(g);
    NormalizedParts(j);
  }

  predicate Picks(g: string, j: string, part: string, d: Direction)
    requires ValidLimit(g) && ValidLimit(j)
  {
    part ==
    if RateOf(g, d).Bytes? && (RateOf(j, d).Unlimited? || RateOf(j, d).value > RateOf(g, d).value) then Spelt(g, d)
    else Spelt(j, d)
  }

  /** A protected limit names one rate if and only if the limit does. */
  lemma ProtectedSpelling(limit: string, headroomPercent: int, parallelBudget: int)
    requires ValidLimit(limit)
    ensures var r := Protected(limit, headroomPercent, parallelBudget);
            r.Some? && (':' in r.value <==> ':' in limit)
  {
    if limit != "" {
      NormalizedParts(limit);
      var headroom, n := Headroom(headroomPercent), Consumers(parallelBudget);
      ProtectPartRate(PartFor(limit, Upload), headroom, n);
      ParsedHasNoColon(ProtectPart(PartFor(limit, Upload), headroom, n));
      JoinSplit(limit, ':');
      if ':' !in limit { SplitNone(limit, ':'); }
    }
  }
}
