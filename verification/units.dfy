/** Bandwidth readings as CACTI reports them ("150k", "1.5 Mbps", "1500"):
    which unit a reading is in, how sure the guess is, and the conversion
    between units through their factor to bits per second. Rates are exact
    reals; the source's binary floating point is not modelled. */
module UnitConverter {
  import opened Text
  import opened Outcomes

  /** `BandwidthUnit`. */
  datatype Unit = Bps | Kbps | Mbps | Gbps | Unknown

  /** `UNIT_TO_BPS`: the factor to bits per second of every unit but
      `Unknown`, which has none. Each unit is a thousand of the one below. */
  function UnitToBps(u: Unit): (f: real)
    requires u != Unknown
    ensures f >= 1.0
  {
    match u
    case Bps => 1.0
    case Kbps => 1000.0
    case Mbps => 1000000.0
    case Gbps => 1000000000.0
  }

  lemma UnitToBpsSteps()
    ensures UnitToBps(Bps) == 1.0
    ensures UnitToBps(Kbps) == 1000.0 * UnitToBps(Bps)
    ensures UnitToBps(Mbps) == 1000.0 * UnitToBps(Kbps)
    ensures UnitToBps(Gbps) == 1000.0 * UnitToBps(Mbps)
  {
  }

  /** `ParsedValue`: the stripped input text, the number read from it, the
      unit guessed and the confidence of the guess. */
  datatype ParsedValue = ParsedValue(original: string, value: real, unit: Unit, confidence: real)

  /** The raw cell: `None`, or a value given by its `str()` text. */
  datatype Raw = NoneValue | Text(s: string)

  /** The `ValueError` that `float()` raises, with the text it rejected. */
  datatype ValueError = ValueError(text: string)

  /** A well-formed reading: a non-negative number, a confidence between 0
      and 1 that is 0 exactly when the unit is unknown, and no number with an
      unknown unit. */
  predicate WellFormed(p: ParsedValue)
  {
    && p.value >= 0.0
    && 0.0 <= p.confidence <= 1.0
    && (p.unit == Unknown <==> p.confidence == 0.0)
    && (p.unit == Unknown ==> p.value == 0.0)
  }

  // ---------------------------------------------------------------------
  // The pieces of the regular expressions: `[\d.]+`, `\s*` and the suffixes.

  predicate IsNumberChar(c: char)
  {
    IsDigit(c) || c == '.'
  }

  /** Text matched by `[\d.]*`. */
  predicate IsNumberText(d: string)
  {
    forall i :: 0 <= i < |d| ==> IsNumberChar(d[i])
  }

  /** The length of the longest `[\d.]*` prefix of `s`. */
  function NumberRun(s: string): (n: nat)
    ensures n <= |s|
    ensures IsNumberText(s[..n])
    ensures n < |s| ==> !IsNumberChar(s[n])
  {
    if s != [] && IsNumberChar(s[0]) then 1 + NumberRun(s[1..]) else 0
  }

  /** Where `re.search(r'[\d.]+', s)` starts, or `|s|` when it finds
      nothing. */
  function FirstNumber(s: string): (i: nat)
    ensures i <= |s|
    ensures forall j :: 0 <= j < i ==> !IsNumberChar(s[j])
    ensures i < |s| ==> IsNumberChar(s[i])
  {
    if s == [] || IsNumberChar(s[0]) then 0 else 1 + FirstNumber(s[1..])
  }

  /** The unit a whole word names, ignoring case: `bps`, `kbps`, `mbps` or
      `gbps`. */
  function UnitWord(w: string): (r: Option<Unit>)
    ensures r.Some? ==> r.value != Unknown && |w| >= 3 && LowerChar(w[|w| - 1]) == 's'
    ensures r.Some? ==> 'a' <= LowerChar(w[0]) <= 'z'
  {
    var l := Lower(w);
    if l == "bps" then Some(Bps)
    else if l == "kbps" then Some(Kbps)
    else if l == "mbps" then Some(Mbps)
    else if l == "gbps" then Some(Gbps)
    else None
  }

  /** A word names a unit exactly when, lower-cased, it is one of the four
      unit words, and each word names its own unit. */
  lemma UnitWordNames(w: string)
    ensures UnitWord(w).Some? <==> Lower(w) in {"bps", "kbps", "mbps", "gbps"}
    ensures Lower(w) == "bps" ==> UnitWord(w) == Some(Bps)
    ensures Lower(w) == "kbps" ==> UnitWord(w) == Some(Kbps)
    ensures Lower(w) == "mbps" ==> UnitWord(w) == Some(Mbps)
    ensures Lower(w) == "gbps" ==> UnitWord(w) == Some(Gbps)
  {
  }

  /** The unit a lower-case `k`, `m` or `g` stands for. */
  function LetterUnit(c: char): (r: Option<Unit>)
    ensures r.Some? <==> c == 'k' || c == 'm' || c == 'g'
    ensures r.Some? ==> r.value != Unknown
    ensures c == 'k' ==> r == Some(Kbps)
    ensures c == 'm' ==> r == Some(Mbps)
    ensures c == 'g' ==> r == Some(Gbps)
  {
    if c == 'k' then Some(Kbps)
    else if c == 'm' then Some(Mbps)
    else if c == 'g' then Some(Gbps)
    else None
  }

  // ---------------------------------------------------------------------
  // `float()` on a run of digits and dots.

  function Pow10(k: nat): (r: nat)
    ensures r >= 1
  {
    if k == 0 then 1 else 10 * Pow10(k - 1)
  }

  predicate HasDigit(d: string)
  {
    exists i :: 0 <= i < |d| && IsDigit(d[i])
  }

  predicate AtMostOneDot(d: string)
  {
    forall i, j :: 0 <= i < j < |d| && d[i] == '.' ==> d[j] != '.'
  }

  /** The position of the first dot, or `|d|`. */
  function DotIndex(d: string): (k: nat)
    ensures k <= |d|
    ensures forall j :: 0 <= j < k ==> d[j] != '.'
    ensures k < |d| ==> d[k] == '.'
  {
    if d == [] || d[0] == '.' then 0 else 1 + DotIndex(d[1..])
  }

  lemma AllDigits(d: string)
    requires IsNumberText(d) && '.' !in d
    ensures forall i :: 0 <= i < |d| ==> IsDigit(d[i])
  {
    forall i | 0 <= i < |d| ensures IsDigit(d[i]) {
      assert d[i] in d;
    }
  }

  /** The number a whole part and a fraction part of decimal digits stand
      for. */
  function DecimalValue(w: string, f: string): (v: real)
    requires forall i :: 0 <= i < |w| ==> IsDigit(w[i])
    requires forall i :: 0 <= i < |f| ==> IsDigit(f[i])
    ensures v >= DigitsValue(w) as real
  {
    DigitsValue(w) as real + DigitsValue(f) as real / Pow10(|f|) as real
  }

  /** `float(d)` for a run of digits and dots: the whole part before the
      first dot and the fraction after it; no digit at all, or a second dot,
      is a `ValueError`. The number read is never negative. */
  function ParseFloat(d: string): (r: Option<real>)
    requires IsNumberText(d)
    ensures r.Some? ==> r.value >= 0.0
  {
    var k := DotIndex(d);
    if k == |d| then
      AllDigits(d);
      if d == [] then None else Some(DigitsValue(d) as real)
    else
      var whole, frac := d[..k], d[k + 1..];
      assert '.' !in whole;
      AllDigits(whole);
      if '.' in frac || (whole == [] && frac == []) then None
      else
        AllDigits(frac);
        Some(DecimalValue(whole, frac))
  }

  /** `float()` accepts a run of digits and dots exactly when it holds a
      digit and at most one dot ("1.", ".5" and "007" included). */
  lemma ParseFloatAccepts(d: string)
    requires IsNumberText(d)
    ensures ParseFloat(d).Some? <==> HasDigit(d) && AtMostOneDot(d)
  {
    var k := DotIndex(d);
    if k == |d| {
      NoDotAccepts(d);
    } else {
      var whole, frac := d[..k], d[k + 1..];
      assert d == whole + ['.'] + frac;
      if '.' in frac {
        SecondDotRejected(d, k);
      } else if whole == [] && frac == [] {
        assert d == ".";
      } else {
        OneDotAccepted(d, k);
      }
    }
  }

  lemma NoDotAccepts(d: string)
    requires IsNumberText(d) && DotIndex(d) == |d|
    ensures ParseFloat(d).Some? <==> HasDigit(d) && AtMostOneDot(d)
  {
    AllDigits(d);
    if d != [] {
      assert IsDigit(d[0]);
    }
  }

  lemma SecondDotRejected(d: string, k: nat)
    requires IsNumberText(d) && k == DotIndex(d) < |d| && '.' in d[k + 1..]
    ensures ParseFloat(d).None? && !AtMostOneDot(d)
  {
    var frac := d[k + 1..];
    var j :| 0 <= j < |frac| && frac[j] == '.';
    assert d[k] == '.' && d[k + 1 + j] == '.';
  }

  lemma OneDotAccepted(d: string, k: nat)
    requires IsNumberText(d) && k == DotIndex(d) < |d| && '.' !in d[k + 1..]
    requires d[..k] != [] || d[k + 1..] != []
    ensures ParseFloat(d).Some? && HasDigit(d) && AtMostOneDot(d)
  {
    var whole, frac := d[..k], d[k + 1..];
    assert '.' !in whole;
    AllDigits(whole);
    AllDigits(frac);
    assert HasDigit(d) by {
      if whole != [] { assert IsDigit(d[0]); } else { assert IsDigit(d[k + 1]); }
    }
    assert AtMostOneDot(d) by {
      forall i, j | 0 <= i < j < |d| && d[i] == '.' ensures d[j] != '.' {
        if j > k {
          assert d[j] == frac[j - k - 1];
        }
      }
    }
  }

  /** `float(str(n))` reads `n` back. */
  lemma ParseFloatNat(n: nat)
    ensures ParseFloat(NatText(n)) == Some(n as real)
  {
    var d := NatText(n);
    assert IsDigit(d[0]);
    NatTextValue(n);
    assert DotIndex(d) == |d| by {
      assert forall j :: 0 <= j < |d| ==> IsDigit(d[j]);
    }
  }

  /** A whole part, a dot and a fraction part read as their sum, the
      fraction scaled by its number of digits; one of the parts may be
      empty. */
  lemma ParseFloatParts(w: string, f: string)
    requires forall i :: 0 <= i < |w| ==> IsDigit(w[i])
    requires forall i :: 0 <= i < |f| ==> IsDigit(f[i])
    requires w != [] || f != []
    ensures IsNumberText(w + ['.'] + f)
    ensures ParseFloat(w + ['.'] + f) == Some(DecimalValue(w, f))
  {
    var d := w + ['.'] + f;
    assert d[|w|] == '.';
    assert forall j :: 0 <= j < |w| ==> d[j] == w[j];
    var k := DotIndex(d);
    assert k == |w|;
    assert d[..k] == w && d[k + 1..] == f;
    assert '.' !in f by {
      forall j | 0 <= j < |f| ensures f[j] != '.' {
        assert IsDigit(f[j]);
      }
    }
    assert !(w == [] && f == []);
  }

  /** `float(str(a) + "." + str(b))`. */
  lemma ParseFloatDecimal(a: nat, b: nat)
    ensures var f := NatText(b);
      ParseFloat(NatText(a) + ['.'] + f) == Some(a as real + b as real / Pow10(|f|) as real)
  {
    ParseFloatParts(NatText(a), NatText(b));
    NatTextValue(a);
    NatTextValue(b);
    assert DecimalValue(NatText(a), NatText(b)) == a as real + b as real / Pow10(|NatText(b)|) as real;
  }

  // ---------------------------------------------------------------------
  // `_detect_unit_by_magnitude`.

  /** The unit a bare number is guessed to be in, from its size alone, with
      the confidence of the guess: below 100 Mbps, from 100 up to a million
      Kbps, from a million bps; the guess is never `Unknown`. */
  function DetectUnitByMagnitude(v: real): (r: (Unit, real))
    ensures r.0 == Mbps <==> v < 100.0
    ensures r.0 == Kbps <==> 100.0 <= v < 1000000.0
    ensures r.0 == Bps <==> v >= 1000000.0
    ensures 0.6 <= r.1 <= 0.9
    ensures v < 1.0 ==> r.1 == 0.7
    ensures 1.0 <= v < 100.0 ==> r.1 == 0.6
    ensures 100.0 <= v < 1000.0 ==> r.1 == 0.75
    ensures 1000.0 <= v < 1000000.0 ==> r.1 == 0.9
    ensures v >= 1000000.0 ==> r.1 == 0.8
  {
    if v < 1.0 then (Mbps, 0.7)
    else if v < 100.0 then (Mbps, 0.6)
    else if v < 1000.0 then (Kbps, 0.75)
    else if v < 1000000.0 then (Kbps, 0.9)
    else (Bps, 0.8)
  }

  /** A larger number is never guessed to be in a larger unit. */
  lemma MagnitudeMonotone(v: real, w: real)
    requires v <= w
    ensures UnitToBps(DetectUnitByMagnitude(w).0) <= UnitToBps(DetectUnitByMagnitude(v).0)
  {
  }

  // ---------------------------------------------------------------------
  // `parse_bandwidth_value`.

  /** Which rule recognised the reading. */
  datatype Rule = Explicit(u: Unit) | Short(u: Unit) | Plain | Letter(u: Unit) | Mixed

  /** The reading a rule gives once the number `d` has been found in the
      stripped text `t`; `float(d)` may raise. */
  function Read(t: string, d: string, rule: Rule): (r: Outcome<ParsedValue, ValueError>)
    requires IsNumberText(d)
    requires rule.Explicit? || rule.Short? || rule.Letter? ==> rule.u != Unknown
    ensures r.Returned? ==> WellFormed(r.value) && r.value.original == t && r.value.unit != Unknown
    ensures r.Raised? <==> ParseFloat(d).None?
    ensures r.Raised? ==> r.error.text == d
  {
    match ParseFloat(d)
    case None => Raised(ValueError(d))
    case Some(v) =>
      var guess := DetectUnitByMagnitude(v);
      match rule
      case Explicit(u) => Returned(ParsedValue(t, v, u, 1.0))
      case Short(u) => Returned(ParsedValue(t, v, u, 0.95))
      case Plain => Returned(ParsedValue(t, v, guess.0, guess.1))
      case Letter(u) => Returned(ParsedValue(t, v, u, 0.85))
      case Mixed => Returned(ParsedValue(t, v, guess.0, guess.1 * 0.8))
  }

  predicate HasNumberChar(s: string)
  {
    exists i :: 0 <= i < |s| && IsNumberChar(s[i])
  }

  /** The four rules on a stripped text, in the source's order: number and
      unit word, number and unit letter, bare number, the first number
      anywhere in the text. A reading is well formed, and `float()` raises
      only on a run of digits and dots it cannot read. */
  function ParseText(t: string): (r: Outcome<ParsedValue, ValueError>)
    ensures r.Returned? ==> WellFormed(r.value) && r.value.original == t
    ensures r.Raised? ==> r.error.text != [] && IsNumberText(r.error.text) && ParseFloat(r.error.text).None?
  {
    var n := NumberRun(t);
    var u := StripStart(t[n..]);
    if n > 0 then
      assert IsNumberChar(t[0]) by { assert t[..n][0] == t[0]; }
      if UnitWord(u).Some? then Read(t, t[..n], Explicit(UnitWord(u).value))
      else if |u| == 1 && LetterUnit(LowerChar(u[0])).Some? then
        Read(t, t[..n], Short(LetterUnit(LowerChar(u[0])).value))
      else if u == [] then Read(t, t[..n], Plain)
      else SearchText(t)
    else SearchText(t)
  }

  /** The fallback: the first run of digits and dots anywhere in `t`, with a
      unit letter when the rest of the text starts with one, and the guess by
      size at four fifths of its confidence otherwise. */
  function SearchText(t: string): (r: Outcome<ParsedValue, ValueError>)
    ensures r.Returned? ==> WellFormed(r.value) && r.value.original == t
    ensures r.Returned? && r.value.unit == Unknown ==> FirstNumber(t) == |t|
    ensures r.Raised? ==> r.error.text != [] && IsNumberText(r.error.text) && ParseFloat(r.error.text).None?
  {
    var i := FirstNumber(t);
    if i == |t| then Returned(ParsedValue(t, 0.0, Unknown, 0.0))
    else
      var rest := t[i..];
      var m := NumberRun(rest);
      ReadFound(t, rest[..m], rest[m..])
  }

  /** The fallback once it has found the number `d`, followed by `rest`: a
      unit letter when the stripped rest starts with one, the guess by size
      otherwise. */
  function ReadFound(t: string, d: string, rest: string): (r: Outcome<ParsedValue, ValueError>)
    requires IsNumberText(d)
    ensures r.Returned? ==> WellFormed(r.value) && r.value.original == t && r.value.unit != Unknown
    ensures r.Raised? ==> r.error.text == d && ParseFloat(d).None?
  {
    var after := Lower(Strip(rest));
    if after != [] && LetterUnit(after[0]).Some? then Read(t, d, Letter(LetterUnit(after[0]).value))
    else Read(t, d, Mixed)
  }

  /** The unit comes out unknown exactly when the text holds no digit and
      no dot. */
  lemma UnknownWithoutNumber(t: string)
    ensures ParseText(t).Returned? && ParseText(t).value.unit == Unknown <==> !HasNumberChar(t)
  {
    var n := NumberRun(t);
    if n > 0 {
      assert IsNumberChar(t[0]) by { assert t[..n][0] == t[0]; }
    }
    var i := FirstNumber(t);
    if i < |t| {
      assert IsNumberChar(t[i]);
    }
  }

  /** `parse_bandwidth_value`: `None`, the empty string and `N/A` are an
      unknown reading of 0 with confidence 0; anything else is stripped and
      read by the four rules. */
  function ParseBandwidth(raw: Raw): (r: Outcome<ParsedValue, ValueError>)
    ensures raw == NoneValue ==> r == Returned(ParsedValue("None", 0.0, Unknown, 0.0))
    ensures raw.Text? && (raw.s == "" || raw.s == "N/A") ==> r == Returned(ParsedValue(raw.s, 0.0, Unknown, 0.0))
    ensures raw.Text? && raw.s != "" && raw.s != "N/A" ==> r == ParseText(Strip(raw.s))
    ensures r.Returned? ==> WellFormed(r.value)
  {
    match raw
    case NoneValue => Returned(ParsedValue("None", 0.0, Unknown, 0.0))
    case Text(s) =>
      if s == "" || s == "N/A" then Returned(ParsedValue(s, 0.0, Unknown, 0.0))
      else ParseText(Strip(s))
  }

  // ---------------------------------------------------------------------
  // The shapes of input each rule recognises.

  /** Text with a digit or a dot in it is neither `""` nor `N/A`. */
  lemma NotAbsent(s: string)
    requires HasNumberChar(s)
    ensures s != "" && s != "N/A"
  {
    AbsentHasNoNumber();
  }

  lemma AbsentHasNoNumber()
    ensures !HasNumberChar("N/A")
  {
  }

  lemma {:induction false} NumberRunOf(d: string, rest: string)
    requires IsNumberText(d)
    requires rest == [] || !IsNumberChar(rest[0])
    ensures NumberRun(d + rest) == |d|
  {
    if d != [] {
      assert (d + rest)[1..] == d[1..] + rest;
      NumberRunOf(d[1..], rest);
    }
  }

  lemma {:induction false} StripStartOf(gap: string, w: string)
    requires forall i :: 0 <= i < |gap| ==> IsSpace(gap[i])
    requires w == [] || !IsSpace(w[0])
    ensures StripStart(gap + w) == w
  {
    if gap != [] {
      assert (gap + w)[1..] == gap[1..] + w;
      StripStartOf(gap[1..], w);
    }
  }

  /** A number, optional blanks and a unit word in any letter case
      (`1.5 Mbps`, `150KBPS`) is read in that unit with confidence 1. */
  lemma ExplicitUnitReading(d: string, gap: string, word: string, v: real)
    requires IsNumberText(d) && ParseFloat(d) == Some(v)
    requires forall i :: 0 <= i < |gap| ==> IsSpace(gap[i])
    requires UnitWord(word).Some?
    ensures var s := d + gap + word;
      ParseBandwidth(Text(s)) == Returned(ParsedValue(s, v, UnitWord(word).value, 1.0))
  {
    var s := d + gap + word;
    assert d != [];
    assert s == d + (gap + word);
    assert word[0] != '.' && !IsDigit(word[0]) && !IsSpace(word[0]);
    NumberFirst(d, gap + word);
    assert s[|s| - 1] == word[|word| - 1];
    StrippedText(s);
    StripStartOf(gap, word);
    AnchoredExplicit(s, |d|);
  }

  /** A number run followed, after blanks, by a unit word is read by the
      first anchored rule. */
  lemma AnchoredExplicit(t: string, n: nat)
    requires 0 < n == NumberRun(t)
    requires UnitWord(StripStart(t[n..])).Some?
    ensures ParseText(t) == Read(t, t[..n], Explicit(UnitWord(StripStart(t[n..])).value))
  {
  }

  /** A number, optional blanks and one of the letters `k`, `M`, `G` in
      either case (`150k`, `1.5 M`) is read in that unit with confidence
      0.95. */
  lemma ShortSuffixReading(d: string, gap: string, c: char, v: real)
    requires IsNumberText(d) && ParseFloat(d) == Some(v)
    requires forall i :: 0 <= i < |gap| ==> IsSpace(gap[i])
    requires LetterUnit(LowerChar(c)).Some?
    ensures var s := d + gap + [c];
      ParseBandwidth(Text(s)) == Returned(ParsedValue(s, v, LetterUnit(LowerChar(c)).value, 0.95))
  {
    var s := d + gap + [c];
    assert d != [];
    assert s == d + (gap + [c]);
    NumberFirst(d, gap + [c]);
    StrippedText(s);
    StripStartOf(gap, [c]);
    assert UnitWord([c]).None?;
    assert ParseText(s) == Read(s, d, Short(LetterUnit(LowerChar(c)).value));
  }

  /** A bare number is read in the unit its size suggests, with that
      guess's confidence. */
  lemma PlainNumberReading(d: string, v: real)
    requires IsNumberText(d) && ParseFloat(d) == Some(v)
    ensures var guess := DetectUnitByMagnitude(v);
      ParseBandwidth(Text(d)) == Returned(ParsedValue(d, v, guess.0, guess.1))
  {
    assert d != [];
    assert d + [] == d;
    NumberFirst(d, []);
    StrippedText(d);
    assert ParseText(d) == Read(d, d, Plain);
  }

  /** A bare run of digits and dots that `float()` rejects (`1.2.3`, `.`)
      raises `ValueError`. */
  lemma MalformedNumberRaises(d: string)
    requires d != [] && IsNumberText(d) && ParseFloat(d).None?
    ensures ParseBandwidth(Text(d)) == Raised(ValueError(d))
  {
    assert d + [] == d;
    NumberFirst(d, []);
    StrippedText(d);
    assert ParseText(d) == Read(d, d, Plain);
  }

  /** Text before the number (`In: 150 kbit`): the number is the first run
      of digits and dots, and a `k`, `m` or `g` (either case) that starts
      the rest of the text, after its blanks, gives the unit with confidence
      0.85. */
  lemma LetterAfterNumberReading(pre: string, d: string, post: string, v: real)
    requires pre != [] && !HasNumberChar(pre)
    requires IsNumberText(d) && ParseFloat(d) == Some(v)
    requires post == [] || !IsNumberChar(post[0])
    requires IsStripped(pre + d + post)
    requires Strip(post) != [] && LetterUnit(LowerChar(Strip(post)[0])).Some?
    ensures var s := pre + d + post;
      ParseBandwidth(Text(s)) == Returned(ParsedValue(s, v, LetterUnit(LowerChar(Strip(post)[0])).value, 0.85))
  {
    var s := pre + d + post;
    FallbackShape(pre, d, post, v);
    SearchShape(s, |pre|, d, post);
    var u := LetterUnit(LowerChar(Strip(post)[0])).value;
    ReadFoundLetter(s, d, post);
    ReadLetter(s, d, u, v);
  }

  lemma ReadFoundLetter(t: string, d: string, post: string)
    requires IsNumberText(d)
    requires Strip(post) != [] && LetterUnit(LowerChar(Strip(post)[0])).Some?
    ensures ReadFound(t, d, post) == Read(t, d, Letter(LetterUnit(LowerChar(Strip(post)[0])).value))
  {
    var after := Lower(Strip(post));
    assert after[0] == LowerChar(Strip(post)[0]);
  }

  lemma ReadLetter(t: string, d: string, u: Unit, v: real)
    requires IsNumberText(d) && ParseFloat(d) == Some(v) && u != Unknown
    ensures Read(t, d, Letter(u)) == Returned(ParsedValue(t, v, u, 0.85))
  {
  }

  /** Text before the number and no unit letter after it: the guess by size,
      at four fifths of its confidence. */
  lemma MixedTextReading(pre: string, d: string, post: string, v: real)
    requires pre != [] && !HasNumberChar(pre)
    requires IsNumberText(d) && ParseFloat(d) == Some(v)
    requires post == [] || !IsNumberChar(post[0])
    requires IsStripped(pre + d + post)
    requires Strip(post) == [] || LetterUnit(LowerChar(Strip(post)[0])).None?
    ensures var s := pre + d + post; var guess := DetectUnitByMagnitude(v);
      ParseBandwidth(Text(s)) == Returned(ParsedValue(s, v, guess.0, guess.1 * 0.8))
  {
    var s := pre + d + post;
    FallbackShape(pre, d, post, v);
    SearchShape(s, |pre|, d, post);
    ReadFoundMixed(s, d, post);
    ReadMixed(s, d, v);
  }

  lemma ReadFoundMixed(t: string, d: string, post: string)
    requires IsNumberText(d)
    requires Strip(post) == [] || LetterUnit(LowerChar(Strip(post)[0])).None?
    ensures ReadFound(t, d, post) == Read(t, d, Mixed)
  {
    var after := Lower(Strip(post));
    assert after != [] ==> after[0] == LowerChar(Strip(post)[0]);
  }

  lemma ReadMixed(t: string, d: string, v: real)
    requires IsNumberText(d) && ParseFloat(d) == Some(v)
    ensures var guess := DetectUnitByMagnitude(v);
      Read(t, d, Mixed) == Returned(ParsedValue(t, v, guess.0, guess.1 * 0.8))
  {
  }

  /** A text that starts with its number but goes on with something that is
      neither a unit word nor a lone unit letter (`150 kbit`, `1.5 Mb/s`,
      `20 Mbps total`) is not matched by the anchored rules and falls back to
      the search, which finds that same leading number. */
  lemma LeadingNumberFallback(d: string, post: string)
    requires d != [] && IsNumberText(d)
    requires post != [] && !IsNumberChar(post[0])
    requires IsStripped(d + post)
    requires UnitWord(StripStart(post)).None?
    requires !(|StripStart(post)| == 1 && LetterUnit(LowerChar(StripStart(post)[0])).Some?)
    ensures ParseBandwidth(Text(d + post)) == ReadFound(d + post, d, post)
  {
    var s := d + post;
    NumberFirst(d, post);
    LeadingNumberSearched(s, |d|);
    LeadingSearch(d, post);
  }

  /** The search on a text that starts with the number `d` finds `d`. */
  lemma LeadingSearch(d: string, post: string)
    requires d != [] && IsNumberText(d)
    requires post != [] && !IsNumberChar(post[0])
    ensures SearchText(d + post) == ReadFound(d + post, d, post)
  {
    var s := d + post;
    NumberFirst(d, post);
    SearchShape(s, 0, d, post);
  }

  lemma LeadingNumberSearched(t: string, n: nat)
    requires IsStripped(t)
    requires 0 < n == NumberRun(t) < |t|
    requires UnitWord(StripStart(t[n..])).None?
    requires !(|StripStart(t[n..])| == 1 && LetterUnit(LowerChar(StripStart(t[n..])[0])).Some?)
    ensures ParseBandwidth(Text(t)) == SearchText(t)
  {
    RunThenText(t, n);
    AnchoredMiss(t, n);
    StrippedText(t);
  }

  lemma RunThenText(t: string, n: nat)
    requires IsStripped(t)
    requires 0 < n == NumberRun(t) < |t|
    ensures HasNumberChar(t) && StripStart(t[n..]) != []
  {
    assert IsNumberChar(t[0]) by { assert t[..n][0] == t[0]; }
    assert t[n..][|t| - n - 1] == t[|t| - 1];
  }

  /** A number run whose remainder the anchored rules do not match leaves
      the text to the search. */
  lemma AnchoredMiss(t: string, n: nat)
    requires 0 < n == NumberRun(t)
    requires StripStart(t[n..]) != [] && UnitWord(StripStart(t[n..])).None?
    requires !(|StripStart(t[n..])| == 1 && LetterUnit(LowerChar(StripStart(t[n..])[0])).Some?)
    ensures ParseText(t) == SearchText(t)
  {
  }

  /** A leading number followed by such text whose first letter is `k`,
      `m` or `g` in either case is read in that unit with confidence 0.85. */
  lemma LeadingNumberLetterReading(d: string, post: string, v: real)
    requires IsNumberText(d) && ParseFloat(d) == Some(v)
    requires post != [] && !IsNumberChar(post[0])
    requires IsStripped(d + post)
    requires UnitWord(StripStart(post)).None?
    requires !(|StripStart(post)| == 1 && LetterUnit(LowerChar(StripStart(post)[0])).Some?)
    requires Strip(post) != [] && LetterUnit(LowerChar(Strip(post)[0])).Some?
    ensures var s := d + post;
      ParseBandwidth(Text(s)) == Returned(ParsedValue(s, v, LetterUnit(LowerChar(Strip(post)[0])).value, 0.85))
  {
    var s := d + post;
    assert d != [];
    LeadingNumberFallback(d, post);
    var u := LetterUnit(LowerChar(Strip(post)[0])).value;
    ReadFoundLetter(s, d, post);
    ReadLetter(s, d, u, v);
  }

  /** A leading number followed by such text without a unit letter first:
      the guess by size, at four fifths of its confidence. */
  lemma LeadingNumberMixedReading(d: string, post: string, v: real)
    requires IsNumberText(d) && ParseFloat(d) == Some(v)
    requires post != [] && !IsNumberChar(post[0])
    requires IsStripped(d + post)
    requires UnitWord(StripStart(post)).None?
    requires !(|StripStart(post)| == 1 && LetterUnit(LowerChar(StripStart(post)[0])).Some?)
    requires Strip(post) == [] || LetterUnit(LowerChar(Strip(post)[0])).None?
    ensures var s := d + post; var guess := DetectUnitByMagnitude(v);
      ParseBandwidth(Text(s)) == Returned(ParsedValue(s, v, guess.0, guess.1 * 0.8))
  {
    var s := d + post;
    assert d != [];
    LeadingNumberFallback(d, post);
    ReadFoundMixed(s, d, post);
    ReadMixed(s, d, v);
  }

  /** The fallback on a text whose first number `d` starts at `i` and is
      followed by `post`. */
  lemma SearchShape(s: string, i: nat, d: string, post: string)
    requires IsNumberText(d)
    requires FirstNumber(s) == i < |s|
    requires s[i..] == d + post && NumberRun(d + post) == |d|
    ensures SearchText(s) == ReadFound(s, d, post)
  {
    SearchTextFound(s);
    assert (d + post)[..|d|] == d;
    assert (d + post)[|d|..] == post;
  }

  lemma SearchTextFound(t: string)
    requires FirstNumber(t) < |t|
    ensures var rest := t[FirstNumber(t)..]; var m := NumberRun(rest);
      SearchText(t) == ReadFound(t, rest[..m], rest[m..])
  {
  }

  /** Text that is stripped and holds a digit or a dot goes straight to the
      four rules. */
  lemma StrippedText(s: string)
    requires IsStripped(s) && HasNumberChar(s)
    ensures ParseBandwidth(Text(s)) == ParseText(s)
  {
    NotAbsent(s);
    StripStripped(s);
  }

  /** A text that starts with the number `d`: the number and what follows
      it. */
  lemma NumberFirst(d: string, rest: string)
    requires d != [] && IsNumberText(d)
    requires rest == [] || !IsNumberChar(rest[0])
    ensures var s := d + rest;
      NumberRun(s) == |d| && s[..|d|] == d && s[|d|..] == rest && HasNumberChar(s) && IsNumberChar(s[0])
  {
    var s := d + rest;
    assert s[0] == d[0];
    NumberRunOf(d, rest);
  }

  /** How the fallback takes `pre + d + post` apart. */
  lemma FallbackShape(pre: string, d: string, post: string, v: real)
    requires pre != [] && !HasNumberChar(pre)
    requires IsNumberText(d) && ParseFloat(d) == Some(v)
    requires post == [] || !IsNumberChar(post[0])
    requires IsStripped(pre + d + post)
    ensures var s := pre + d + post;
      && ParseBandwidth(Text(s)) == SearchText(s)
      && FirstNumber(s) == |pre|
      && s[|pre|..] == d + post
      && NumberRun(d + post) == |d|
  {
    var s := pre + d + post;
    assert d != [];
    FallbackSplit(pre, d, post);
    assert ParseText(s) == SearchText(s) by {
      assert !IsNumberChar(s[0]) by { assert s[0] == pre[0]; }
      assert NumberRun(s) == 0;
    }
    StrippedText(s);
  }

  lemma FallbackSplit(pre: string, d: string, post: string)
    requires !HasNumberChar(pre)
    requires d != [] && IsNumberText(d)
    requires post == [] || !IsNumberChar(post[0])
    ensures var s := pre + d + post;
      && HasNumberChar(s)
      && FirstNumber(s) == |pre|
      && s[|pre|..] == d + post
      && NumberRun(d + post) == |d|
  {
    var s := pre + d + post;
    assert s[|pre|..] == d + post;
    NumberFirst(d, post);
    assert IsNumberChar(s[|pre|]);
    FirstNumberAfter(pre, d + post);
  }

  lemma FirstNumberAfter(pre: string, rest: string)
    requires !HasNumberChar(pre)
    requires rest != [] && IsNumberChar(rest[0])
    ensures FirstNumber(pre + rest) == |pre|
  {
    var s := pre + rest;
    assert forall j :: 0 <= j < |pre| ==> s[j] == pre[j];
    assert s[|pre|] == rest[0];
  }

  // ---------------------------------------------------------------------
  // `convert_to_unit`, `convert_value_to_mbps`, `convert_value_to_kbps`.

  /** The rate a known-unit reading stands for, in bits per second. */
  function Bits(p: ParsedValue): real
    requires p.unit != Unknown
  {
    p.value * UnitToBps(p.unit)
  }

  lemma DivideThenScale(a: real, f: real)
    requires f > 0.0
    ensures (a / f) * f == a
  {
  }

  /** `convert_to_unit`: with a known unit on both sides, the same rate in
      bits per second expressed in the target unit; with `Unknown` on either
      side, the number unchanged. */
  function ConvertToUnit(p: ParsedValue, target: Unit): (r: real)
    ensures p.unit == Unknown || target == Unknown ==> r == p.value
    ensures p.unit != Unknown && target != Unknown ==> r * UnitToBps(target) == Bits(p)
  {
    if p.unit == Unknown || target == Unknown then p.value
    else
      DivideThenScale(Bits(p), UnitToBps(target));
      Bits(p) / UnitToBps(target)
  }

  /** Converting to the unit a reading is already in changes nothing. */
  lemma ConvertToSameUnit(p: ParsedValue)
    ensures ConvertToUnit(p, p.unit) == p.value
  {
    if p.unit != Unknown {
      CancelFactor(ConvertToUnit(p, p.unit), p.value, UnitToBps(p.unit));
    }
  }

  /** Converting there and back gives the number read. */
  lemma ConvertRoundTrip(p: ParsedValue, target: Unit)
    requires p.unit != Unknown && target != Unknown
    ensures ConvertToUnit(ParsedValue(p.original, ConvertToUnit(p, target), target, p.confidence), p.unit) == p.value
  {
    var q := ParsedValue(p.original, ConvertToUnit(p, target), target, p.confidence);
    var r := ConvertToUnit(q, p.unit);
    assert r * UnitToBps(p.unit) == Bits(q) == Bits(p);
    CancelFactor(r, p.value, UnitToBps(p.unit));
  }

  /** Converting in two steps is converting in one. */
  lemma ConvertCompose(p: ParsedValue, mid: Unit, target: Unit)
    requires p.unit != Unknown && mid != Unknown && target != Unknown
    ensures ConvertToUnit(ParsedValue(p.original, ConvertToUnit(p, mid), mid, p.confidence), target) == ConvertToUnit(p, target)
  {
    var q := ParsedValue(p.original, ConvertToUnit(p, mid), mid, p.confidence);
    var a, b := ConvertToUnit(q, target), ConvertToUnit(p, target);
    assert a * UnitToBps(target) == Bits(q) == Bits(p);
    CancelFactor(a, b, UnitToBps(target));
  }

  lemma CancelFactor(a: real, b: real, f: real)
    requires f > 0.0 && a * f == b * f
    ensures a == b
  {
  }

  /** Kbps to Mbps divides by a thousand; Mbps to Kbps multiplies by a
      thousand. */
  lemma KbpsMbpsFactor(p: ParsedValue)
    ensures p.unit == Kbps ==> ConvertToUnit(p, Mbps) * 1000.0 == p.value
    ensures p.unit == Mbps ==> ConvertToUnit(p, Kbps) == p.value * 1000.0
  {
  }

  /** What both `convert_value_to_*` functions do with a parse: pass a
      `ValueError` on, give 0 for an unknown unit, and otherwise the same
      rate expressed in the target unit. */
  function Rate(parsed: Outcome<ParsedValue, ValueError>, target: Unit): (r: Outcome<real, ValueError>)
    requires target != Unknown
    ensures r.Raised? <==> parsed.Raised?
    ensures r.Raised? ==> r.error == parsed.error
    ensures r.Returned? && parsed.value.unit == Unknown ==> r.value == 0.0
    ensures r.Returned? && parsed.value.unit != Unknown ==> r.value * UnitToBps(target) == Bits(parsed.value)
  {
    match parsed
    case Raised(e) => Raised(e)
    case Returned(p) => if p.unit == Unknown then Returned(0.0) else Returned(ConvertToUnit(p, target))
  }

  /** `convert_value_to_mbps`. */
  function ToMbps(raw: Raw): (r: Outcome<real, ValueError>)
    ensures var parsed := ParseBandwidth(raw);
      && (parsed.Raised? ==> r == Raised(parsed.error))
      && (parsed.Returned? && parsed.value.unit == Unknown ==> r == Returned(0.0))
      && (parsed.Returned? && parsed.value.unit != Unknown ==> r.Returned? && r.value * 1000000.0 == Bits(parsed.value))
  {
    assert UnitToBps(Mbps) == 1000000.0;
    Rate(ParseBandwidth(raw), Mbps)
  }

  /** `convert_value_to_kbps`. */
  function ToKbps(raw: Raw): (r: Outcome<real, ValueError>)
    ensures var parsed := ParseBandwidth(raw);
      && (parsed.Raised? ==> r == Raised(parsed.error))
      && (parsed.Returned? && parsed.value.unit == Unknown ==> r == Returned(0.0))
      && (parsed.Returned? && parsed.value.unit != Unknown ==> r.Returned? && r.value * 1000.0 == Bits(parsed.value))
  {
    assert UnitToBps(Kbps) == 1000.0;
    Rate(ParseBandwidth(raw), Kbps)
  }

  /** A rate is never negative. */
  lemma RateNonNegative(parsed: Outcome<ParsedValue, ValueError>, target: Unit)
    requires target != Unknown
    requires parsed.Returned? ==> WellFormed(parsed.value)
    ensures Rate(parsed, target).Returned? ==> Rate(parsed, target).value >= 0.0
  {
    if parsed.Returned? && parsed.value.unit != Unknown {
      var p := parsed.value;
      var r := Rate(parsed, target).value;
      assert Bits(p) >= 0.0 by { NonNegativeProduct(p.value, UnitToBps(p.unit)); }
    }
  }

  lemma NonNegativeProduct(a: real, b: real)
    requires a >= 0.0 && b >= 0.0
    ensures a * b >= 0.0
  {
  }

  /** The two conversions agree: the Kbps figure is a thousand times the
      Mbps figure, and they fail together. */
  lemma KbpsIsThousandMbps(raw: Raw)
    ensures ToKbps(raw).Raised? <==> ToMbps(raw).Raised?
    ensures ToKbps(raw).Returned? ==> ToKbps(raw).value == 1000.0 * ToMbps(raw).value
  {
    var parsed := ParseBandwidth(raw);
    RateKbpsMbps(parsed);
    assert ToKbps(raw) == Rate(parsed, Kbps) && ToMbps(raw) == Rate(parsed, Mbps);
  }

  lemma RateKbpsMbps(parsed: Outcome<ParsedValue, ValueError>)
    ensures Rate(parsed, Kbps).Raised? <==> Rate(parsed, Mbps).Raised?
    ensures Rate(parsed, Kbps).Returned? ==> Rate(parsed, Kbps).value == 1000.0 * Rate(parsed, Mbps).value
  {
    if parsed.Returned? && parsed.value.unit != Unknown {
      var k, m := Rate(parsed, Kbps).value, Rate(parsed, Mbps).value;
      assert k * UnitToBps(Kbps) == m * UnitToBps(Mbps);
      ThousandFold(k, m);
    }
  }

  lemma ThousandFold(k: real, m: real)
    requires k * 1000.0 == m * 1000000.0
    ensures k == 1000.0 * m
  {
  }

  /** Every value a cell converts to is non-negative. */
  lemma ConvertedNonNegative(raw: Raw)
    ensures ToMbps(raw).Returned? ==> ToMbps(raw).value >= 0.0
    ensures ToKbps(raw).Returned? ==> ToKbps(raw).value >= 0.0
  {
    RateNonNegative(ParseBandwidth(raw), Mbps);
    RateNonNegative(ParseBandwidth(raw), Kbps);
  }

  /** Missing cells convert to 0. */
  lemma MissingConvertsToZero(raw: Raw)
    requires raw == NoneValue || raw == Text("") || raw == Text("N/A")
    ensures ToMbps(raw) == Returned(0.0) && ToKbps(raw) == Returned(0.0)
  {
  }

  /** `150k` is 0.15 Mbps. */
  lemma KiloSuffixToMbps(d: string, gap: string, c: char, v: real)
    requires IsNumberText(d) && ParseFloat(d) == Some(v)
    requires forall i :: 0 <= i < |gap| ==> IsSpace(gap[i])
    requires c == 'k' || c == 'K'
    ensures ToMbps(Text(d + gap + [c])).Returned?
    ensures ToMbps(Text(d + gap + [c])).value * 1000.0 == v
  {
    var s := d + gap + [c];
    assert LowerChar(c) == 'k';
    ShortSuffixReading(d, gap, c, v);
    KbpsRateInMbps(ParsedValue(s, v, Kbps, 0.95));
  }

  lemma KbpsRateInMbps(p: ParsedValue)
    requires p.unit == Kbps
    ensures Rate(Returned(p), Mbps).Returned? && Rate(Returned(p), Mbps).value * 1000.0 == p.value
  {
    KbpsMbpsFactor(p);
  }
}
