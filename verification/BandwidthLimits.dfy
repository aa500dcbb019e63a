/** Upload:download limits as rclone writes them: parsing, combining and dividing them. */
module BandwidthLimits {
  import opened Basics
  import opened Sequences
  import opened Decimal

  /** A rate in bytes per second, or no limit. */
  datatype Rate = Unlimited | Bytes(value: real)

  datatype Direction = Upload | Download

  // ----- Text -----

  predicate IsSpace(c: char) {
    c == ' ' || 9 <= c as int <= 13 || 28 <= c as int <= 31
  }

  function Strip(s: string): string {
    if s == "" then ""
    else if IsSpace(s[0]) then Strip(s[1..])
    else if IsSpace(s[|s|-1]) then Strip(s[..|s|-1])
    else s
  }

  function LowerChar(c: char): char {
    if 'A' <= c <= 'Z' then (c as int + 32) as char else c
  }

  function Lower(s: string): (r: string)
    ensures |r| == |s| && forall i :: 0 <= i < |s| ==> r[i] == LowerChar(s[i])
  {
    seq(|s|, i requires 0 <= i < |s| => LowerChar(s[i]))
  }

  // ----- One rate -----

  function Scale(unit: char): (r: Option<real>)
    ensures r.Some? ==> r.value > 0.0
  {
    match unit
    case 'b' => Some(1.0)
    case 'k' => Some(1024.0)
    case 'm' => Some(1048576.0)
    case 'g' => Some(1073741824.0)
    case 't' => Some(1099511627776.0)
    case 'p' => Some(1125899906842624.0)
    case _ => None
  }

  function PowerOfTen(n: nat): (r: real)
    ensures r > 0.0
  {
    if n == 0 then 1.0 else 10.0 * PowerOfTen(n - 1)
  }

  /** The digits behind the decimal point. */
  function Fraction(digits: string): (r: real)
    requires AllDigits(digits)
    ensures r >= 0.0
  {
    DivNonNegative(Value(digits) as real, PowerOfTen(|digits|));
    Value(digits) as real / PowerOfTen(|digits|)
  }

  /** digits or digits.digits. */
  function ParseNumber(s: string): (r: Option<real>)
    ensures r.Some? ==> r.value >= 0.0
  {
    var pieces := Split(s, '.');
    if |pieces| == 1 && pieces[0] != "" && AllDigits(pieces[0]) then Some(Value(pieces[0]) as real)
    else if |pieces| == 2 && pieces[0] != "" && AllDigits(pieces[0]) && pieces[1] != "" && AllDigits(pieces[1]) then
      Some(Value(pieces[0]) as real + Fraction(pieces[1]))
    else None
  }

  lemma DivNonNegative(a: real, b: real)
    requires a >= 0.0 && b > 0.0
    ensures a / b >= 0.0
  {
  }

  /** One direction's rate: off, or a number with an optional unit; without a unit it counts KiB. */
  function ParsePart(part: string): (r: Option<Rate>)
    ensures r.Some? && r.value.Bytes? ==> r.value.value >= 0.0
  {
    ParseLower(Lower(part))
  }

  function ParseLower(s: string): (r: Option<Rate>)
    ensures r.Some? && r.value.Bytes? ==> r.value.value >= 0.0
  {
    if s == "off" then Some(Unlimited)
    else if s == "" then None
    else if Scale(s[|s|-1]).Some? then
      var number := ParseNumber(s[..|s|-1]);
      if number.Some? then Some(Bytes(number.value * Scale(s[|s|-1]).value)) else None
    else
      var number := ParseNumber(s);
      if number.Some? then Some(Bytes(number.value * 1024.0)) else None
  }

  // ----- A limit -----

  predicate AllParse(parts: seq<string>) {
    forall part <- parts :: ParsePart(part).Some?
  }

  /** normalize_bandwidth_limit: the stripped text, or None for a malformed limit. */
  function Normalize(value: string): (r: Option<string>) {
    var text := Strip(value);
    var parts := Split(text, ':');
    if text == "" then Some("")
    else if |parts| <= 2 && AllParse(parts) then Some(text)
    else None
  }

  /** A stripped, well-formed limit; the empty text limits nothing. */
  predicate ValidLimit(text: string) {
    Strip(text) == text && Normalize(text).Some?
  }

  function PartFor(text: string, d: Direction): string {
    var parts := Split(text, ':');
    if d == Upload then parts[0] else parts[|parts|-1]
  }

  /** _rate_bytes for a well-formed limit. */
  function RateOf(text: string, d: Direction): (r: Rate)
    requires ValidLimit(text)
    ensures r.Bytes? ==> r.value >= 0.0
  {
    if text == "" then Unlimited
    else
      var parts := Split(text, ':');
      assert PartFor(text, d) in parts;
      ParsePart(PartFor(text, d)).value
  }

  function Slower(a: Rate, b: Rate): (r: Rate)
    ensures r == a || r == b
    ensures a.Bytes? ==> r.Bytes? && r.value <= a.value
    ensures b.Bytes? ==> r.Bytes? && r.value <= b.value
  {
    if a.Unlimited? then b
    else if b.Unlimited? then a
    else if b.value <= a.value then b else a
  }

  /** The stricter of two parts; the job's on a tie. */
  function Select(globalPart: string, jobPart: string): string
    requires ParsePart(globalPart).Some? && ParsePart(jobPart).Some?
  {
    var g, j := ParsePart(globalPart).value, ParsePart(jobPart).value;
    if g.Unlimited? then jobPart
    else if j.Unlimited? then globalPart
    else if j.value <= g.value then jobPart else globalPart
  }

  /** One part when both directions read the same, else upload:download. */
  function Combine(up: string, down: string): string {
    if Lower(up) == Lower(down) then up else up + ":" + down
  }

  /** effective_rclone_limit; None when the global limit is malformed. */
  function Effective(globalLimit: string, jobLimit: string): Option<string> {
    var g := Normalize(globalLimit);
    var job := Strip(jobLimit);
    if g.None? then None
    else if g.value == "" then Some(job)
    else if job == "" then g
    else if Normalize(job).None? then g
    else
      StripTwice(jobLimit);
      NormalizedParts(globalLimit);
      NormalizedParts(job);
      Some(Combine(Select(PartFor(g.value, Upload), PartFor(job, Upload)),
                   Select(PartFor(g.value, Download), PartFor(job, Download))))
  }

  lemma {:induction false} StripTwice(s: string)
    ensures Strip(Strip(s)) == Strip(s)
  {
    if s != "" {
      if IsSpace(s[0]) { StripTwice(s[1..]); }
      else if IsSpace(s[|s|-1]) { StripTwice(s[..|s|-1]); }
    }
  }

  lemma NormalizedParts(value: string)
    requires Normalize(value).Some? && Strip(value) != ""
    ensures ParsePart(PartFor(Strip(value), Upload)).Some? && ParsePart(PartFor(Strip(value), Download)).Some?
  {
    var parts := Split(Strip(value), ':');
    assert parts[0] in parts && parts[|parts|-1] in parts;
  }

  // ----- Combining -----

  lemma ParsedHasNoColon(part: string)
    requires ParsePart(part).Some?
    ensures part != "" && (forall i :: 0 <= i < |part| ==> !IsSpace(part[i]) && part[i] != ':')
  {
    var s := Lower(part);
    if s != "off" {
      var body := if Scale(s[|s|-1]).Some? then s[..|s|-1] else s;
      NumberChars(body);
      forall i | 0 <= i < |part| ensures !IsSpace(part[i]) && part[i] != ':' {
        assert s[i] == LowerChar(part[i]);
        if i < |body| { assert body[i] == s[i]; }
      }
    } else {
      forall i | 0 <= i < |part| ensures !IsSpace(part[i]) && part[i] != ':' {
        assert s[i] == LowerChar(part[i]);
      }
    }
  }

  lemma {:induction false} SplitChars(s: string, sep: char, i: nat)
    requires i < |s| && s[i] != sep
    ensures exists piece <- Split(s, sep) :: s[i] in piece
  {
    var rest := Split(s[1..], sep);
    if i == 0 {
      assert s[0] in Split(s, sep)[0];
    } else {
      SplitChars(s[1..], sep, i - 1);
      var piece :| piece in rest && s[i] in piece;
      var k :| 0 <= k < |rest| && rest[k] == piece;
      if s[0] == sep {
        assert Split(s, sep)[k+1] == piece;
      } else {
        assert s[i] in Split(s, sep)[k];
      }
    }
  }

  lemma NumberChars(s: string)
    requires ParseNumber(s).Some?
    ensures s != "" && forall i :: 0 <= i < |s| ==> IsDigit(s[i]) || s[i] == '.'
  {
    forall i | 0 <= i < |s| ensures IsDigit(s[i]) || s[i] == '.' {
      if s[i] != '.' {
        SplitChars(s, '.', i);
        var piece :| piece in Split(s, '.') && s[i] in piece;
      }
    }
  }

  lemma JoinReads(up: string, down: string)
    requires ParsePart(up).Some? && ParsePart(down).Some?
    ensures ValidLimit(up) && RateOf(up, Upload) == RateOf(up, Download) == ParsePart(up).value
    ensures ValidLimit(up + ":" + down) && up != ""
    ensures RateOf(up + ":" + down, Upload) == ParsePart(up).value
            && RateOf(up + ":" + down, Download) == ParsePart(down).value
  {
    ParsedHasNoColon(up);
    ParsedHasNoColon(down);
    SplitNone(up, ':');
    SplitNone(down, ':');
    SplitAt(up, ':', down);
    assert up + ":" + down == up + [':'] + down;
    assert Split(up + ":" + down, ':') == [up, down];
  }

  /** Combining two parts makes a limit that reads them back, one for each direction. */
  lemma CombineReads(up: string, down: string)
    requires ParsePart(up).Some? && ParsePart(down).Some?
    ensures ValidLimit(Combine(up, down)) && Combine(up, down) != ""
    ensures RateOf(Combine(up, down), Upload) == ParsePart(up).value
    ensures RateOf(Combine(up, down), Download) == ParsePart(down).value
  {
    if Lower(up) == Lower(down) { CaseDoesNotMatter(up, down); }
    JoinReads(up, down);
  }

  lemma CaseDoesNotMatter(a: string, b: string)
    requires Lower(a) == Lower(b)
    ensures ParsePart(a) == ParsePart(b)
  {
  }

  lemma EffectiveParts(g: string, j: string)
    requires ValidLimit(g) && ValidLimit(j) && g != "" && j != ""
    ensures var r := Effective(g, j);
            && r.Some? && ValidLimit(r.value)
            && (forall d :: RateOf(r.value, d) == Slower(RateOf(g, d), RateOf(j, d)))
  {
    NormalizedParts(g);
    NormalizedParts(j);
    var up, down := Select(PartFor(g, Upload), PartFor(j, Upload)), Select(PartFor(g, Download), PartFor(j, Download));
    CombineReads(up, down);
    assert Effective(g, j) == Some(Combine(up, down));
    forall d ensures RateOf(Combine(up, down), d) == Slower(RateOf(g, d), RateOf(j, d)) {
      if d == Upload { } else { }
    }
  }

  lemma EffectiveStrips(g: string, j: string)
    ensures Effective(g, j) == Effective(Strip(g), Strip(j))
    ensures Normalize(g).Some? ==> ValidLimit(Strip(g))
  {
    StripTwice(g);
    StripTwice(j);
  }

  /** The effective limit is, direction by direction, the smaller of the two rates. */
  lemma EffectiveIsMin(globalLimit: string, jobLimit: string)
    requires Normalize(globalLimit).Some? && Normalize(jobLimit).Some?
    ensures ValidLimit(Strip(globalLimit)) && ValidLimit(Strip(jobLimit))
    ensures var r := Effective(globalLimit, jobLimit);
            && r.Some? && ValidLimit(r.value)
            && (forall d :: RateOf(r.value, d) == Slower(RateOf(Strip(globalLimit), d), RateOf(Strip(jobLimit), d)))
  {
    EffectiveStrips(globalLimit, jobLimit);
    EffectiveStrips(jobLimit, globalLimit);
    if Strip(globalLimit) != "" && Strip(jobLimit) != "" {
      EffectiveParts(Strip(globalLimit), Strip(jobLimit));
    }
  }

  /** A global limit that cannot be read is an error; without a global limit the job's own text counts, even
      one that cannot be read; a job's limit that is missing or cannot be read leaves the global one. */
  lemma EffectiveOtherwise(globalLimit: string, jobLimit: string)
    ensures Effective(globalLimit, jobLimit).None? <==> Normalize(globalLimit).None?
    ensures Strip(globalLimit) == "" ==> Effective(globalLimit, jobLimit) == Some(Strip(jobLimit))
    ensures Normalize(globalLimit).Some? && Strip(globalLimit) != "" &&
            (Strip(jobLimit) == "" || Normalize(jobLimit).None?) ==>
              Effective(globalLimit, jobLimit) == Some(Strip(globalLimit))
  {
    StripTwice(jobLimit);
  }

  ghost predicate SameRates(a: string, b: string)
    requires ValidLimit(a) && ValidLimit(b)
  {
    forall d :: RateOf(a, d) == RateOf(b, d)
  }

  /** Combining limits is commutative, associative and idempotent up to the rates they mean. */
  lemma EffectiveAlgebra(a: string, b: string, c: string)
    requires ValidLimit(a) && ValidLimit(b) && ValidLimit(c)
    ensures var ab, ba, bc := Effective(a, b), Effective(b, a), Effective(b, c);
            && ab.Some? && ba.Some? && bc.Some?
            && ValidLimit(ab.value) && ValidLimit(ba.value) && ValidLimit(bc.value) && SameRates(ab.value, ba.value)
            && Effective(ab.value, c).Some? && Effective(a, bc.value).Some?
            && ValidLimit(Effective(ab.value, c).value) && ValidLimit(Effective(a, bc.value).value)
            && SameRates(Effective(ab.value, c).value, Effective(a, bc.value).value)
            && Effective(a, a).Some? && ValidLimit(Effective(a, a).value) && SameRates(Effective(a, a).value, a)
  {
    EffectiveIsMin(a, b);
    EffectiveIsMin(b, a);
    EffectiveIsMin(b, c);
    EffectiveIsMin(Effective(a, b).value, c);
    EffectiveIsMin(a, Effective(b, c).value);
    EffectiveIsMin(a, a);
  }

  // ----- Dividing -----

  /** The share of a rate for one of n consumers, keeping the headroom free. */
  function Share(rate: real, headroom: int, consumers: int): real
    requires consumers >= 1
  {
    rate * ((100 - headroom) as real / 100.0 / consumers as real)
  }

  /** max(1, int(share)). */
  function WholeShare(rate: real, headroom: int, consumers: int): (k: int)
    requires consumers >= 1
    ensures k >= 1
  {
    var whole := Share(rate, headroom, consumers).Floor;
    if whole < 1 then 1 else whole
  }

  /** One protected part, printed in bytes. */
  function ProtectPart(part: string, headroom: int, consumers: int): string
    requires ParsePart(part).Some? && consumers >= 1
  {
    match ParsePart(part).value
    case Unlimited => "off"
    case Bytes(rate) => if rate <= 0.0 then "0B" else Digits(WholeShare(rate, headroom, consumers)) + "B"
  }

  /** Both parts of a well-formed limit, protected. */
  function ProtectText(text: string, headroom: int, consumers: int): string
    requires ValidLimit(text) && text != "" && consumers >= 1
  {
    NormalizedParts(text);
    var up := ProtectPart(PartFor(text, Upload), headroom, consumers);
    if |Split(text, ':')| == 1 then up
    else up + ":" + ProtectPart(PartFor(text, Download), headroom, consumers)
  }

  function Headroom(percent: int): (h: int)
    ensures 0 <= h <= 80
  {
    Clamp(percent, 0, 80)
  }

  function Consumers(budget: int): (n: int)
    ensures n >= 1
  {
    if budget < 1 then 1 else budget
  }

  /** protected_bandwidth_limit; None for a malformed limit. */
  function Protected(limit: string, headroomPercent: int, parallelBudget: int): Option<string> {
    var text := Normalize(limit);
    if text.None? then None
    else if text.value == "" then Some("")
    else
      StripTwice(limit);
      Some(ProtectText(text.value, Headroom(headroomPercent), Consumers(parallelBudget)))
  }

  lemma {:induction false} LowerDigits(s: string)
    requires AllDigits(s)
    ensures Lower(s) == s
  {
    forall i | 0 <= i < |s| ensures LowerChar(s[i]) == s[i] { assert s[i] in s; }
  }

  /** A whole number of bytes, printed, parses back to itself. */
  lemma PrintedBytesParse(k: nat)
    ensures ParsePart(Digits(k) + "B") == Some(Bytes(k as real))
  {
    var d, part := Digits(k), Digits(k) + "B";
    LowerDigits(d);
    var s := Lower(part);
    assert s == d + "b" by {
      forall i | 0 <= i < |s| ensures s[i] == (d + "b")[i] { if i < |d| { assert Lower(d)[i] == d[i]; } }
    }
    assert s[|s|-1] == 'b' && s[..|s|-1] == d;
    assert s != "off" by { assert "off"[2] == 'f'; }
    assert !IsDigit('.') && '.' !in d;
    SplitNone(d, '.');
    ValueOfDigits(k);
  }

  lemma ProtectPartRate(part: string, headroom: int, consumers: int)
    requires ParsePart(part).Some? && consumers >= 1
    ensures ParsePart(ProtectPart(part, headroom, consumers)) ==
            match ParsePart(part).value
            case Unlimited => Some(Unlimited)
            case Bytes(rate) => Some(Bytes(if rate <= 0.0 then 0.0 else WholeShare(rate, headroom, consumers) as real))
  {
    match ParsePart(part).value
    case Unlimited => assert Lower("off") == "off";
    case Bytes(rate) =>
      if rate <= 0.0 {
        PrintedBytesParse(0);
        assert Digits(0) + "B" == "0B";
      } else {
        PrintedBytesParse(WholeShare(rate, headroom, consumers));
      }
  }

  /** The rate each consumer gets; a zero or missing limit stays what it is. */
  function ProtectedRate(r: Rate, headroom: int, consumers: int): Rate
    requires consumers >= 1
  {
    match r
    case Unlimited => Unlimited
    case Bytes(rate) => Bytes(if rate <= 0.0 then 0.0 else WholeShare(rate, headroom, consumers) as real)
  }

  lemma ProtectTextMeans(text: string, headroom: int, consumers: int, d: Direction)
    requires ValidLimit(text) && text != "" && consumers >= 1
    ensures ValidLimit(ProtectText(text, headroom, consumers))
    ensures RateOf(ProtectText(text, headroom, consumers), d) == ProtectedRate(RateOf(text, d), headroom, consumers)
  {
    NormalizedParts(text);
    var up, down := PartFor(text, Upload), PartFor(text, Download);
    ProtectPartRate(up, headroom, consumers);
    ProtectPartRate(down, headroom, consumers);
    JoinReads(ProtectPart(up, headroom, consumers), ProtectPart(down, headroom, consumers));
  }

  /** The protected limit means the protected rate in each direction. */
  lemma ProtectedMeans(limit: string, headroomPercent: int, parallelBudget: int)
    requires ValidLimit(limit)
    ensures var r := Protected(limit, headroomPercent, parallelBudget);
            && r.Some? && ValidLimit(r.value)
            && forall d ::
               RateOf(r.value, d) ==
               ProtectedRate(RateOf(limit, d), Headroom(headroomPercent), Consumers(parallelBudget))
  {
    if limit != "" {
      forall d
        ensures ValidLimit(ProtectText(limit, Headroom(headroomPercent), Consumers(parallelBudget)))
        ensures RateOf(ProtectText(limit, Headroom(headroomPercent), Consumers(parallelBudget)), d) ==
                ProtectedRate(RateOf(limit, d), Headroom(headroomPercent), Consumers(parallelBudget))
      {
        ProtectTextMeans(limit, Headroom(headroomPercent), Consumers(parallelBudget), d);
      }
      ProtectTextMeans(limit, Headroom(headroomPercent), Consumers(parallelBudget), Upload);
    }
  }

  /** What n consumers may use together. */
  ghost predicate TotalWithin(total: real, n: int, rate: real, headroom: int) {
    total <= n as real || total <= rate * ((100 - headroom) as real / 100.0)
  }

  /** All consumers together stay within the rate minus the headroom, or within one byte each; one byte more
      for each would exceed it. */
  lemma ConsumersStayWithin(rate: real, headroom: int, n: int)
    requires rate > 0.0 && 0 <= headroom <= 80 && n >= 1
    ensures TotalWithin((n * WholeShare(rate, headroom, n)) as real, n, rate, headroom)
    ensures rate * ((100 - headroom) as real / 100.0) < (n * (WholeShare(rate, headroom, n) + 1)) as real
  {
    var part := (100 - headroom) as real / 100.0;
    var k, share := WholeShare(rate, headroom, n), Share(rate, headroom, n);
    ShareTimes(rate, part, n as real);
    if k > 1 {
      assert k as real <= share;
      TimesShare(k as real, share, n as real);
      assert (n * k) as real == n as real * k as real;
    }
    OneMoreExceeds(rate * part, share, n, k);
  }

  lemma OneMoreExceeds(total: real, share: real, n: int, k: int)
    requires n as real * share == total && share < k as real + 1.0 && n >= 1
    ensures total < (n * (k + 1)) as real
  {
    LessTimes(share, k as real + 1.0, n as real);
    OneMoreEach(n, k);
  }

  lemma ShareTimes(rate: real, part: real, n: real)
    requires n >= 1.0
    ensures n * (rate * (part / n)) == rate * part
  {
    assert part / n * n == part;
  }

  lemma OneMoreEach(n: int, k: int)
    ensures (n * (k + 1)) as real == n as real * (k as real + 1.0)
  {
    assert (n * k) as real == n as real * k as real;
    assert n * (k + 1) == n * k + n;
  }

  lemma LessTimes(share: real, k: real, n: real)
    requires share < k && n >= 1.0
    ensures n * share < n * k
  {
  }

  lemma TimesShare(k: real, share: real, n: real)
    requires k <= share && n >= 1.0
    ensures n * k <= n * share
  {
  }

  /** Whatever percentage and budget are asked for: a limited direction gets the largest whole number of
      bytes that all consumers may use within the rate minus 0 to 80 percent, but at least one. */
  lemma ProtectedWithin(limit: string, headroomPercent: int, parallelBudget: int, d: Direction)
    requires ValidLimit(limit)
    ensures var r := Protected(limit, headroomPercent, parallelBudget);
            var n := if parallelBudget < 1 then 1 else parallelBudget;
            var headroom := if headroomPercent < 0 then 0 else if headroomPercent > 80 then 80 else headroomPercent;
            && r.Some? && ValidLimit(r.value)
            && match RateOf(limit, d)
               case Unlimited => RateOf(r.value, d) == Unlimited
               case Bytes(rate) =>
                 if rate <= 0.0 then RateOf(r.value, d) == Bytes(0.0)
                 else exists k :: LargestShare(k, n, rate, headroom) && RateOf(r.value, d) == Bytes(k as real)
  {
    var n := if parallelBudget < 1 then 1 else parallelBudget;
    var headroom := if headroomPercent < 0 then 0 else if headroomPercent > 80 then 80 else headroomPercent;
    assert Headroom(headroomPercent) == headroom && Consumers(parallelBudget) == n;
    ProtectedMeans(limit, headroomPercent, parallelBudget);
    match RateOf(limit, d)
    case Unlimited =>
    case Bytes(rate) =>
      if rate > 0.0 {
        ConsumersStayWithin(rate, headroom, n);
        assert LargestShare(WholeShare(rate, headroom, n), n, rate, headroom);
      }
  }

  ghost predicate LargestShare(k: int, n: int, rate: real, headroom: int) {
    && k >= 1 && TotalWithin((n * k) as real, n, rate, headroom)
    && rate * ((100 - headroom) as real / 100.0) < (n * (k + 1)) as real
  }
}
