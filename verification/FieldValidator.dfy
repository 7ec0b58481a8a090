/** The validator of structured schedules, and the grammar it decides. */
module FieldValidator {
  import opened Domain
  import opened Text

  // ----- numbers -----

  const MAX_INT64: int := 0x7FFF_FFFF_FFFF_FFFF
  const MIN_INT64: int := -0x8000_0000_0000_0000

  predicate IsDigit(c: char) {
    '0' <= c <= '9'
  }

  predicate AllDigits(s: string) {
    forall i :: 0 <= i < |s| ==> IsDigit(s[i])
  }

  function ValueOf(digits: string): nat
    requires AllDigits(digits)
  {
    if digits == "" then 0
    else 10 * ValueOf(digits[..|digits| - 1]) + (digits[|digits| - 1] as int - '0' as int)
  }

  /** Decimal digits after at most one sign, in the range of a 64-bit integer. */
  function Atoi(s: string): Option<int> {
    var signed := s != "" && (s[0] == '+' || s[0] == '-');
    var digits := if signed then s[1..] else s;
    if digits == "" || !AllDigits(digits) then None
    else
      var v: int := if signed && s[0] == '-' then 0 - ValueOf(digits) else ValueOf(digits);
      if MIN_INT64 <= v <= MAX_INT64 then Some(v) else None
  }

  // ----- the validator -----

  predicate ValidateStepValue(s: string) {
    Atoi(s).Some? && Atoi(s).value > 0
  }

  predicate ValidateRange(value: string, lo: int, hi: int) {
    var parts := Split(value, '/');
    if '/' in value && (|parts| != 2 || !ValidateStepValue(parts[1])) then false
    else
      var ends := Split(if '/' in value then parts[0] else value, '-');
      if |ends| != 2 || Atoi(ends[0]).None? || Atoi(ends[1]).None? then false
      else
        var start, end := Atoi(ends[0]).value, Atoi(ends[1]).value;
        !(start < lo || start > hi || end < lo || end > hi || start > end)
  }

  predicate ValidateSingleValue(value: string, lo: int, hi: int) {
    Atoi(value).Some? && !(Atoi(value).value < lo || Atoi(value).value > hi)
  }

  lemma TrimIsNoLonger(s: string)
    ensures |Trim(s)| <= |s|
  {
    var lead, trail := TrimSplits(s);
  }

  predicate ValidateCronField(value: string, lo: int, hi: int)
    decreases |value|, 1
  {
    if HasPrefix(value, "*/") then ValidateStepValue(value[2..])
    else if '-' in value && ',' !in value then ValidateRange(value, lo, hi)
    else if ',' in value then ValidateList(value, lo, hi)
    else ValidateSingleValue(value, lo, hi)
  }

  /** Only called on a value with a comma, so every part is shorter and the two calling each other comes to an end. */
  predicate ValidateList(value: string, lo: int, hi: int)
    requires ',' in value
    decreases |value|, 0
  {
    var parts := Split(value, ',');
    forall i :: 0 <= i < |parts| ==>
      (SplitParts(value, ',', i);
       TrimIsNoLonger(parts[i]);
       ValidatePart(Trim(parts[i]), lo, hi, |value|))
  }

  predicate ValidatePart(part: string, lo: int, hi: int, bound: nat)
    requires |part| < bound
    decreases |part|, 2
  {
    if '-' in part then ValidateCronField(part, lo, hi) else ValidateSingleValue(part, lo, hi)
  }

  // ----- the grammar -----

  /** An unsigned or plus-signed decimal numeral and its value. */
  ghost predicate Numeral(t: string, v: int) {
    exists digits :: digits != "" && AllDigits(digits) && (t == digits || t == "+" + digits)
                     && v == ValueOf(digits) && v <= MAX_INT64
  }

  ghost predicate IsOne(t: string, lo: int, hi: int, v: int) {
    Numeral(t, v) && lo <= v <= hi
  }

  ghost predicate IsRange(t: string, lo: int, hi: int, a: string, b: string, from: int, to: int) {
    t == a + "-" + b && Numeral(a, from) && Numeral(b, to) && lo <= from <= to <= hi
  }

  ghost predicate IsStepped(t: string, lo: int, hi: int, a: string, b: string, c: string, from: int, to: int,
                            step: int)
  {
    t == a + "-" + b + "/" + c && IsRange(a + "-" + b, lo, hi, a, b, from, to) && Numeral(c, step) && step > 0
  }

  /** v, from-to or from-to/step, all within bounds. */
  ghost predicate Item(t: string, lo: int, hi: int) {
    || (exists v :: IsOne(t, lo, hi, v))
    || (exists a, b, from, to :: IsRange(t, lo, hi, a, b, from, to))
    || (exists a, b, c, from, to, step :: IsStepped(t, lo, hi, a, b, c, from, to, step))
  }

  ghost predicate IsEvery(s: string, c: string, step: int) {
    s == "*/" + c && Numeral(c, step) && step > 0
  }

  /** A list of items; the items of a list of two or more may have white space around them. */
  ghost predicate IsList(s: string, lo: int, hi: int, items: seq<string>) {
    && items != [] && s == Join(items, ',') && (forall i :: 0 <= i < |items| ==> ',' !in items[i])
    && if |items| == 1 then Item(items[0], lo, hi) else forall i :: 0 <= i < |items| ==> Item(Trim(items[i]), lo, hi)
  }

  ghost predicate Field(s: string, lo: int, hi: int) {
    (exists c, step :: IsEvery(s, c, step)) || (exists items :: IsList(s, lo, hi, items))
  }

  // ----- the validator decides the grammar -----

  lemma NumeralChars(t: string, v: int)
    requires Numeral(t, v)
    ensures t != "" && forall c :: c in t ==> IsDigit(c) || c == '+'
  {
  }

  /** Without a minus, the number reader accepts exactly the numerals. */
  lemma AtoiIsNumeral(t: string, v: int)
    ensures Numeral(t, v) <==> Atoi(t) == Some(v) && '-' !in t
  {
    if Numeral(t, v) {
      NumeralChars(t, v);
      var digits :| digits != "" && AllDigits(digits) && (t == digits || t == "+" + digits)
                    && v == ValueOf(digits) && v <= MAX_INT64;
      assert t[0] == '+' ==> t[1..] == digits;
    }
  }

  lemma PositiveIsNumeral(t: string, v: int)
    requires v > 0
    ensures Numeral(t, v) <==> Atoi(t) == Some(v)
  {
    AtoiIsNumeral(t, v);
    if Atoi(t) == Some(v) {
      assert t[0] != '-';
      assert forall i :: 0 < i < |t| ==> IsDigit(t[i]);
    }
  }

  lemma SplitsInTwo(a: string, b: string, sep: char)
    requires sep !in a && sep !in b
    ensures Split(a + [sep] + b, sep) == [a, b]
  {
    SplitFirst(a, b, sep);
    SplitWord(b, sep);
  }

  lemma TwoParts(s: string, sep: char)
    requires |Split(s, sep)| == 2
    ensures s == Split(s, sep)[0] + [sep] + Split(s, sep)[1]
    ensures sep !in Split(s, sep)[0] && sep !in Split(s, sep)[1]
  {
    JoinSplit(s, sep);
    SplitParts(s, sep, 0);
    SplitParts(s, sep, 1);
    var p := Split(s, sep);
    assert p[1..] == [p[1]];
  }

  /** The from-to part of a range. */
  predicate ValidateEnds(r: string, lo: int, hi: int) {
    var ends := Split(r, '-');
    |ends| == 2 && Atoi(ends[0]).Some? && Atoi(ends[1]).Some?
    && lo <= Atoi(ends[0]).value <= Atoi(ends[1]).value <= hi
  }

  lemma EndsExact(r: string, lo: int, hi: int)
    ensures ValidateEnds(r, lo, hi) <==> exists a, b, from, to :: IsRange(r, lo, hi, a, b, from, to)
  {
    if ValidateEnds(r, lo, hi) {
      var ends := Split(r, '-');
      TwoParts(r, '-');
      AtoiIsNumeral(ends[0], Atoi(ends[0]).value);
      AtoiIsNumeral(ends[1], Atoi(ends[1]).value);
      assert IsRange(r, lo, hi, ends[0], ends[1], Atoi(ends[0]).value, Atoi(ends[1]).value);
    }
    if a, b, from, to :| IsRange(r, lo, hi, a, b, from, to) {
      AtoiIsNumeral(a, from);
      AtoiIsNumeral(b, to);
      SplitsInTwo(a, b, '-');
    }
  }

  lemma RangeChars(r: string, lo: int, hi: int, a: string, b: string, from: int, to: int)
    requires IsRange(r, lo, hi, a, b, from, to)
    ensures '-' in r && r != "" && (IsDigit(r[0]) || r[0] == '+')
    ensures forall c :: c in r ==> IsDigit(c) || c == '+' || c == '-'
  {
    NumeralChars(a, from);
    NumeralChars(b, to);
    assert r[|a|] == '-';
    assert r[0] == a[0] && a[0] in a;
    forall c | c in r ensures IsDigit(c) || c == '+' || c == '-' {
      assert c in a || c == '-' || c in b;
    }
  }

  lemma SteppedExact(t: string, lo: int, hi: int)
    requires '/' in t
    ensures ValidateRange(t, lo, hi) <==>
            exists a, b, c, from, to, step :: IsStepped(t, lo, hi, a, b, c, from, to, step)
  {
    var parts := Split(t, '/');
    if ValidateRange(t, lo, hi) {
      TwoParts(t, '/');
      EndsExact(parts[0], lo, hi);
      assert ValidateEnds(parts[0], lo, hi);
      var a, b, from, to :| IsRange(parts[0], lo, hi, a, b, from, to);
      PositiveIsNumeral(parts[1], Atoi(parts[1]).value);
      assert IsStepped(t, lo, hi, a, b, parts[1], from, to, Atoi(parts[1]).value);
    }
    if a, b, c, from, to, step :| IsStepped(t, lo, hi, a, b, c, from, to, step) {
      var r := a + "-" + b;
      RangeChars(r, lo, hi, a, b, from, to);
      NumeralChars(c, step);
      SplitsInTwo(r, c, '/');
      PositiveIsNumeral(c, step);
      EndsExact(r, lo, hi);
      assert ValidateEnds(r, lo, hi);
    }
  }

  lemma RangeExact(t: string, lo: int, hi: int)
    ensures ValidateRange(t, lo, hi) <==>
            || (exists a, b, from, to :: IsRange(t, lo, hi, a, b, from, to))
            || (exists a, b, c, from, to, step :: IsStepped(t, lo, hi, a, b, c, from, to, step))
  {
    if a, b, from, to :| IsRange(t, lo, hi, a, b, from, to) {
      RangeChars(t, lo, hi, a, b, from, to);
    }
    if a, b, c, from, to, step :| IsStepped(t, lo, hi, a, b, c, from, to, step) {
      assert t[|a + "-" + b|] == '/';
    }
    if '/' in t {
      SteppedExact(t, lo, hi);
    } else {
      EndsExact(t, lo, hi);
    }
  }

  /** What an item looks like from outside. */
  lemma ItemChars(t: string, lo: int, hi: int)
    requires Item(t, lo, hi)
    ensures t != "" && (IsDigit(t[0]) || t[0] == '+')
    ensures forall c :: c in t ==> IsDigit(c) || c in "+-/"
    ensures '-' !in t <==> exists v :: IsOne(t, lo, hi, v)
  {
    if v :| IsOne(t, lo, hi, v) {
      NumeralChars(t, v);
      assert t[0] in t;
    } else if a, b, from, to :| IsRange(t, lo, hi, a, b, from, to) {
      RangeChars(t, lo, hi, a, b, from, to);
    } else {
      var a, b, c, from, to, step :| IsStepped(t, lo, hi, a, b, c, from, to, step);
      var r := a + "-" + b;
      RangeChars(r, lo, hi, a, b, from, to);
      NumeralChars(c, step);
      assert t[0] == r[0] && t[|a|] == '-';
      forall x | x in t ensures IsDigit(x) || x in "+-/" {
        assert x in r || x == '/' || x in c;
      }
    }
  }

  lemma SingleExact(t: string, lo: int, hi: int)
    requires '-' !in t
    ensures ValidateSingleValue(t, lo, hi) <==> Item(t, lo, hi)
  {
    if Item(t, lo, hi) {
      ItemChars(t, lo, hi);
      var v :| IsOne(t, lo, hi, v);
      AtoiIsNumeral(t, v);
    }
    if ValidateSingleValue(t, lo, hi) {
      AtoiIsNumeral(t, Atoi(t).value);
      assert IsOne(t, lo, hi, Atoi(t).value);
    }
  }

  /** One part of a list, or a whole field without a comma that is not a step over everything. */
  lemma PartExact(t: string, lo: int, hi: int)
    requires ',' !in t
    ensures ValidatePart(t, lo, hi, |t| + 1) <==> Item(t, lo, hi)
  {
    if '-' !in t {
      SingleExact(t, lo, hi);
    } else {
      if Item(t, lo, hi) { ItemChars(t, lo, hi); }
      RangeExact(t, lo, hi);
      if HasPrefix(t, "*/") {
        assert '-' in t[2..];
        if ValidateStepValue(t[2..]) {
          PositiveIsNumeral(t[2..], Atoi(t[2..]).value);
          NumeralChars(t[2..], Atoi(t[2..]).value);
        }
      }
    }
  }

  lemma EveryExact(s: string)
    ensures HasPrefix(s, "*/") && ValidateStepValue(s[2..]) <==> exists c, step :: IsEvery(s, c, step)
  {
    if HasPrefix(s, "*/") && ValidateStepValue(s[2..]) {
      PositiveIsNumeral(s[2..], Atoi(s[2..]).value);
      assert IsEvery(s, s[2..], Atoi(s[2..]).value);
    }
    if c, step :| IsEvery(s, c, step) {
      assert s[2..] == c;
      PositiveIsNumeral(c, step);
    }
  }

  /** The items of a list are the parts between its commas, and nothing else is. */
  lemma ListIsSplit(s: string, lo: int, hi: int, items: seq<string>)
    requires IsList(s, lo, hi, items)
    ensures items == Split(s, ',')
  {
    SplitJoin(items, ',');
  }

  lemma ListStart(s: string, lo: int, hi: int, items: seq<string>)
    requires IsList(s, lo, hi, items)
    ensures s != "" && s[0] != '*' && (IsDigit(s[0]) || s[0] == '+' || IsSpace(s[0]))
  {
    var first := items[0];
    if |items| == 1 {
      ItemChars(first, lo, hi);
    } else {
      assert s == first + [','] + Join(items[1..], ',');
      ItemChars(Trim(first), lo, hi);
      var lead, trail := TrimSplits(first);
      assert s[0] == if lead != "" then lead[0] else Trim(first)[0];
    }
  }

  lemma TrimKeepsChars(s: string)
    ensures forall c :: c in Trim(s) ==> c in s
  {
    var lead, trail := TrimSplits(s);
  }

  lemma ListExact(s: string, lo: int, hi: int)
    requires ',' in s
    ensures ValidateList(s, lo, hi) <==> exists items :: IsList(s, lo, hi, items)
  {
    var parts := Split(s, ',');
    JoinSplit(s, ',');
    if |parts| == 1 {
      SplitParts(s, ',', 0);
    }
    forall i | 0 <= i < |parts|
      ensures ',' !in parts[i] && |Trim(parts[i])| < |s|
      ensures ValidatePart(Trim(parts[i]), lo, hi, |s|) <==> Item(Trim(parts[i]), lo, hi)
    {
      SplitParts(s, ',', i);
      TrimIsNoLonger(parts[i]);
      TrimKeepsChars(parts[i]);
      PartExact(Trim(parts[i]), lo, hi);
    }
    if ValidateList(s, lo, hi) {
      assert IsList(s, lo, hi, parts);
    }
    if items :| IsList(s, lo, hi, items) {
      ListIsSplit(s, lo, hi, items);
    }
  }

  /** The validator accepts exactly the fields of the grammar. */
  lemma FieldExact(s: string, lo: int, hi: int)
    ensures ValidateCronField(s, lo, hi) <==> Field(s, lo, hi)
  {
    EveryExact(s);
    if items :| IsList(s, lo, hi, items) {
      ListStart(s, lo, hi, items);
      ListIsSplit(s, lo, hi, items);
      if ',' !in s { SplitWord(s, ','); }
    }
    if ',' in s {
      ListExact(s, lo, hi);
    } else {
      PartExact(s, lo, hi);
      if Item(s, lo, hi) {
        assert IsList(s, lo, hi, [s]);
      }
    }
  }

  // ----- said of digits alone -----

  function Pow10(n: nat): nat {
    if n == 0 then 1 else 10 * Pow10(n - 1)
  }

  lemma ValueOfDigit(c: char)
    requires IsDigit(c)
    ensures ValueOf([c]) == c as int - '0' as int
  {
  }

  lemma MulAssoc(a: nat, b: nat)
    ensures 10 * (a * b) == a * (10 * b)
  {
  }

  /** Digits in front count for as many powers of ten as there are digits behind. */
  lemma {:induction false} ValueOfCat(a: string, b: string)
    requires AllDigits(a) && AllDigits(b)
    ensures AllDigits(a + b) && ValueOf(a + b) == ValueOf(a) * Pow10(|b|) + ValueOf(b)
  {
    if b == "" {
      assert a + b == a;
    } else {
      var n := |b| - 1;
      ValueOfCat(a, b[..n]);
      assert (a + b)[..|a + b| - 1] == a + b[..n];
      MulAssoc(ValueOf(a), Pow10(n));
    }
  }

  /** A number fits a 64-bit integer or is refused; a sign in front may make it negative. */
  lemma AtoiReads(d: string)
    requires d != "" && AllDigits(d)
    ensures Atoi(d) == if ValueOf(d) <= 9223372036854775807 then Some(ValueOf(d)) else None
    ensures Atoi("+" + d) == if ValueOf(d) <= 9223372036854775807 then Some(ValueOf(d)) else None
    ensures Atoi("-" + d) == if ValueOf(d) <= 9223372036854775808 then Some(0 - ValueOf(d)) else None
  {
    assert ("+" + d)[1..] == d && ("-" + d)[1..] == d;
  }

  lemma DigitsHaveNoMarks(d: string)
    requires d != "" && AllDigits(d)
    ensures '-' !in d && ',' !in d && '/' !in d && d[0] != '*' && !HasPrefix(d, "*/")
  {
    assert IsDigit(d[0]);
  }

  /** Digits are accepted exactly within the bounds. */
  lemma NumberAcceptedIff(d: string, lo: int, hi: int)
    requires d != "" && AllDigits(d) && hi <= 9223372036854775807
    ensures ValidateCronField(d, lo, hi) <==> lo <= ValueOf(d) <= hi
  {
    DigitsHaveNoMarks(d);
    AtoiReads(d);
  }

  lemma EndsIff(a: string, b: string, lo: int, hi: int)
    requires a != "" && AllDigits(a) && b != "" && AllDigits(b) && hi <= 9223372036854775807
    ensures ValidateEnds(a + "-" + b, lo, hi) <==> lo <= ValueOf(a) <= ValueOf(b) <= hi
  {
    DigitsHaveNoMarks(a);
    DigitsHaveNoMarks(b);
    AtoiReads(a);
    AtoiReads(b);
    SplitsInTwo(a, b, '-');
  }

  lemma DashedChars(a: string, b: string)
    requires a != "" && AllDigits(a) && b != "" && AllDigits(b)
    ensures var r := a + "-" + b; '-' in r && '/' !in r && ',' !in r && r != "" && r[0] != '*'
  {
    var r := a + "-" + b;
    DigitsHaveNoMarks(a);
    DigitsHaveNoMarks(b);
    assert r[|a|] == '-' && r[0] == a[0];
    forall c | c in r ensures c != ',' && c != '/' {
      assert c in a || c == '-' || c in b;
    }
  }

  /** Two numbers with a dash are accepted exactly within the bounds and in order. */
  lemma RangeAcceptedIff(a: string, b: string, lo: int, hi: int)
    requires a != "" && AllDigits(a) && b != "" && AllDigits(b) && hi <= 9223372036854775807
    ensures ValidateCronField(a + "-" + b, lo, hi) <==> lo <= ValueOf(a) <= ValueOf(b) <= hi
  {
    DashedChars(a, b);
    EndsIff(a, b, lo, hi);
  }

  lemma SteppedParts(r: string, c: string, lo: int, hi: int)
    requires '-' in r && '/' !in r && ',' !in r && r != "" && r[0] != '*' && '/' !in c && ',' !in c
    ensures ValidateCronField(r + "/" + c, lo, hi) <==> ValidateEnds(r, lo, hi) && ValidateStepValue(c)
  {
    var t := r + "/" + c;
    SplitsInTwo(r, c, '/');
    var dash :| 0 <= dash < |r| && r[dash] == '-';
    assert t[dash] == '-' && t[|r|] == '/' && t[0] == r[0];
    assert ',' !in t;
  }

  /** And with a step exactly when the step is positive too. */
  lemma StepAcceptedIff(a: string, b: string, c: string, lo: int, hi: int)
    requires a != "" && AllDigits(a) && b != "" && AllDigits(b) && hi <= 9223372036854775807
    requires c != "" && AllDigits(c)
    ensures ValidateCronField(a + "-" + b + "/" + c, lo, hi) <==>
            lo <= ValueOf(a) <= ValueOf(b) <= hi && 0 < ValueOf(c) <= 9223372036854775807
  {
    DashedChars(a, b);
    DigitsHaveNoMarks(c);
    SteppedParts(a + "-" + b, c, lo, hi);
    EndsIff(a, b, lo, hi);
    AtoiReads(c);
  }

  /** A step over everything is accepted exactly when it is positive. */
  lemma EveryAcceptedIff(c: string, lo: int, hi: int)
    requires c != "" && AllDigits(c)
    ensures ValidateCronField("*/" + c, lo, hi) <==> 0 < ValueOf(c) <= 9223372036854775807
  {
    AtoiReads(c);
    assert ("*/" + c)[2..] == c;
  }

  /** A list of two or more numbers is accepted exactly when each of them is within the bounds. */
  lemma ListAcceptedIff(items: seq<string>, lo: int, hi: int)
    requires |items| >= 2 && hi <= 9223372036854775807
    requires forall i :: 0 <= i < |items| ==> items[i] != "" && AllDigits(items[i])
    ensures ValidateCronField(Join(items, ','), lo, hi) <==>
            forall i :: 0 <= i < |items| ==> lo <= ValueOf(items[i]) <= hi
  {
    var s := Join(items, ',');
    forall i | 0 <= i < |items| ensures ',' !in items[i] && '-' !in items[i] && Trim(items[i]) == items[i] {
      DigitsHaveNoMarks(items[i]);
      TrimmedStays(items[i]);
      AtoiReads(items[i]);
    }
    SplitJoin(items, ',');
    assert s == items[0] + "," + Join(items[1..], ',');
    assert s[|items[0]|] == ',' && s[0] == items[0][0];
    forall i | 0 <= i < |items|
      ensures |items[i]| < |s| && (ValidatePart(items[i], lo, hi, |s|) <==> lo <= ValueOf(items[i]) <= hi)
    {
      SplitParts(s, ',', i);
      AtoiReads(items[i]);
    }
  }

  // ----- what a field denotes -----

  /** The values an item stands for. */
  ghost predicate InItem(t: string, lo: int, hi: int, x: int) {
    || IsOne(t, lo, hi, x)
    || (exists a, b, from, to :: IsRange(t, lo, hi, a, b, from, to) && from <= x <= to)
    || (exists a, b, c, from, to, step ::
          IsStepped(t, lo, hi, a, b, c, from, to, step) && from <= x <= to && (x - from) % step == 0)
  }

  ghost predicate InField(s: string, lo: int, hi: int, x: int) {
    || (exists c, step :: IsEvery(s, c, step) && lo <= x <= hi && (x - lo) % step == 0)
    || (exists items, i :: IsList(s, lo, hi, items) && 0 <= i < |items|
          && InItem(if |items| == 1 then items[0] else Trim(items[i]), lo, hi, x))
  }

  lemma ItemHasValue(t: string, lo: int, hi: int) returns (x: int)
    requires Item(t, lo, hi)
    ensures InItem(t, lo, hi, x)
  {
    if v :| IsOne(t, lo, hi, v) {
      x := v;
    } else if a, b, from, to :| IsRange(t, lo, hi, a, b, from, to) {
      x := from;
    } else {
      var a, b, c, from, to, step :| IsStepped(t, lo, hi, a, b, c, from, to, step);
      x := from;
      assert (x - from) % step == 0;
    }
  }

  lemma InItemIsBounded(t: string, lo: int, hi: int, x: int)
    requires InItem(t, lo, hi, x)
    ensures lo <= x <= hi
  {
  }

  lemma InFieldIsBounded(s: string, lo: int, hi: int, x: int)
    requires InField(s, lo, hi, x)
    ensures lo <= x <= hi
  {
    if items, i :| IsList(s, lo, hi, items) && 0 <= i < |items|
                   && InItem(if |items| == 1 then items[0] else Trim(items[i]), lo, hi, x) {
      InItemIsBounded(if |items| == 1 then items[0] else Trim(items[i]), lo, hi, x);
    }
  }

  lemma ListHasValue(s: string, lo: int, hi: int, items: seq<string>) returns (x: int)
    requires IsList(s, lo, hi, items)
    ensures InField(s, lo, hi, x)
  {
    x := ItemHasValue(if |items| == 1 then items[0] else Trim(items[0]), lo, hi);
  }

  /** Every accepted field stands for at least one value, and only for values within the bounds. */
  lemma AcceptedFieldDenotes(s: string, lo: int, hi: int) returns (x: int)
    requires lo <= hi && ValidateCronField(s, lo, hi)
    ensures InField(s, lo, hi, x)
    ensures forall y :: InField(s, lo, hi, y) ==> lo <= y <= hi
  {
    FieldExact(s, lo, hi);
    if c, step :| IsEvery(s, c, step) {
      x := lo;
      assert (x - lo) % step == 0;
    } else {
      var items :| IsList(s, lo, hi, items);
      x := ListHasValue(s, lo, hi, items);
    }
    forall y | InField(s, lo, hi, y) ensures lo <= y <= hi {
      InFieldIsBounded(s, lo, hi, y);
    }
  }

  // ----- the five fields -----

  datatype Schedule = Schedule(minute: string, hour: string, day: string, month: string, weekday: string)

  const DAY_NAMES: set<string> := {"MON", "TUE", "WED", "THU", "FRI", "SAT", "SUN"}

  /** The letters whose upper case is an ASCII letter: a to z, the dotless i and the long s. Any other letter keeps away
      from ASCII, so a pattern of ASCII letters does not tell it from its upper case. */
  function UpperOf(c: char): char {
    if 'a' <= c <= 'z' then (c as int - 32) as char
    else if c == '\U{131}' then 'I'
    else if c == '\U{17F}' then 'S'
    else c
  }

  function Upper(s: string): string {
    if s == "" then "" else [UpperOf(s[0])] + Upper(s[1..])
  }

  predicate NamesAndDashes(s: string) {
    || s == ""
    || (s[0] == '-' && NamesAndDashes(s[1..]))
    || (|s| >= 3 && s[..3] in DAY_NAMES && NamesAndDashes(s[3..]))
  }

  /** A day name followed by any mix of dashes and day names, in any case. */
  predicate IsWeekdayName(s: string) {
    var u := Upper(s);
    |u| >= 3 && u[..3] in DAY_NAMES && NamesAndDashes(u[3..])
  }

  predicate FieldAccepted(s: string, lo: int, hi: int, named: bool) {
    s == "" || s == "*" || (named && IsWeekdayName(s)) || ValidateCronField(s, lo, hi)
  }

  predicate ValidateSchedFields(s: Schedule) {
    && FieldAccepted(s.minute, 0, 59, false)
    && FieldAccepted(s.hour, 0, 23, false)
    && FieldAccepted(s.day, 1, 31, false)
    && FieldAccepted(s.month, 1, 12, false)
    && FieldAccepted(s.weekday, 0, 7, true)
  }

  lemma DigitsAreNoName(d: string)
    requires d != "" && AllDigits(d)
    ensures !IsWeekdayName(d)
  {
    assert Upper(d)[0] == d[0];
  }

  /** The bounds of the five fields. */
  lemma ScheduleBounds(d: string)
    requires d != "" && AllDigits(d)
    ensures ValidateSchedFields(Schedule(d, "", "", "", "")) <==> ValueOf(d) <= 59
    ensures ValidateSchedFields(Schedule("", d, "", "", "")) <==> ValueOf(d) <= 23
    ensures ValidateSchedFields(Schedule("", "", d, "", "")) <==> 1 <= ValueOf(d) <= 31
    ensures ValidateSchedFields(Schedule("", "", "", d, "")) <==> 1 <= ValueOf(d) <= 12
    ensures ValidateSchedFields(Schedule("", "", "", "", d)) <==> ValueOf(d) <= 7
    ensures ValidateSchedFields(Schedule("*", "*", "*", "*", "*"))
  {
    DigitsAreNoName(d);
    NumberAcceptedIff(d, 0, 59);
    NumberAcceptedIff(d, 0, 23);
    NumberAcceptedIff(d, 1, 31);
    NumberAcceptedIff(d, 1, 12);
    NumberAcceptedIff(d, 0, 7);
  }

  /** The same letters, but for the case of some. */
  predicate SameButCase(s: string, t: string) {
    |s| == |t| &&
    forall i :: 0 <= i < |s| ==>
      s[i] == t[i] || ('A' <= s[i] <= 'Z' && t[i] as int - 'a' as int == s[i] as int - 'A' as int)
  }

  lemma {:induction false} SameUpper(s: string, t: string)
    requires SameButCase(s, t)
    ensures Upper(s) == Upper(t)
  {
    if s != "" {
      SameUpper(s[1..], t[1..]);
    }
  }

  /** Case makes no difference to a weekday name. */
  lemma WeekdayNameInAnyCase(s: string, t: string)
    requires SameButCase(s, t)
    ensures IsWeekdayName(s) <==> IsWeekdayName(t)
  {
    SameUpper(s, t);
  }

  /** In capitals it is read as it stands. */
  lemma {:induction false} UpperStays(s: string)
    requires forall i :: 0 <= i < |s| ==> 'A' <= s[i] <= 'Z' || s[i] == '-'
    ensures Upper(s) == s
  {
    if s != "" {
      UpperStays(s[1..]);
    }
  }

  lemma NameIsNoField(s: string, lo: int, hi: int)
    requires IsWeekdayName(s)
    ensures !ValidateCronField(s, lo, hi) && |s| >= 3
  {
    FieldExact(s, lo, hi);
    UpperKeepsMarks(s);
    assert Upper(s)[0] == UpperOf(s[0]) && Upper(s)[0] in {'M', 'T', 'W', 'F', 'S'} by {
      assert Upper(s)[..3][0] == Upper(s)[0];
    }
    forall items ensures !IsList(s, lo, hi, items) {
      if IsList(s, lo, hi, items) {
        ListStart(s, lo, hi, items);
      }
    }
  }

  /** A weekday name is accepted for the weekday and for no other field. */
  lemma NamesAreForWeekdays(s: string)
    requires IsWeekdayName(s)
    ensures ValidateSchedFields(Schedule("", "", "", "", s))
    ensures !ValidateSchedFields(Schedule(s, "", "", "", "")) && !ValidateSchedFields(Schedule("", s, "", "", ""))
    ensures !ValidateSchedFields(Schedule("", "", s, "", "")) && !ValidateSchedFields(Schedule("", "", "", s, ""))
  {
    NameIsNoField(s, 0, 59);
    NameIsNoField(s, 0, 23);
    NameIsNoField(s, 1, 31);
    NameIsNoField(s, 1, 12);
  }

  function Concat(tokens: seq<string>): string {
    if tokens == [] then "" else tokens[0] + Concat(tokens[1..])
  }

  ghost predicate AreTokens(tokens: seq<string>) {
    forall i :: 0 <= i < |tokens| ==> tokens[i] in {"MON", "TUE", "WED", "THU", "FRI", "SAT", "SUN", "-"}
  }

  lemma {:induction false} TokensOf(s: string) returns (tokens: seq<string>)
    requires NamesAndDashes(s)
    ensures AreTokens(tokens) && s == Concat(tokens)
  {
    if s == "" {
      tokens := [];
    } else {
      var n := if s[0] == '-' then 1 else 3;
      var rest := TokensOf(s[n..]);
      tokens := [s[..n]] + rest;
      assert tokens[1..] == rest && s == s[..n] + s[n..];
      assert s[..n] in DAY_NAMES || s[..n] == "-";
    }
  }

  lemma {:induction false} TokensAreNames(tokens: seq<string>)
    requires AreTokens(tokens)
    ensures NamesAndDashes(Concat(tokens))
  {
    if tokens != [] {
      var t, rest := tokens[0], Concat(tokens[1..]);
      assert forall i :: 0 <= i < |tokens| - 1 ==> tokens[1..][i] == tokens[i + 1];
      TokensAreNames(tokens[1..]);
      assert t in DAY_NAMES || t == "-";
      assert (t + rest)[|t|..] == rest && (t + rest)[..|t|] == t;
    }
  }

  lemma NamesIff(s: string)
    ensures NamesAndDashes(s) <==> exists tokens :: AreTokens(tokens) && s == Concat(tokens)
  {
    if NamesAndDashes(s) {
      var tokens := TokensOf(s);
    }
    if tokens :| AreTokens(tokens) && s == Concat(tokens) {
      TokensAreNames(tokens);
    }
  }

  /** A weekday name is, in upper case, a day's three letters and then any number of days and dashes. */
  lemma WeekdayNameIff(s: string)
    ensures IsWeekdayName(s) <==>
            exists day, tokens :: day in {"MON", "TUE", "WED", "THU", "FRI", "SAT", "SUN"} && AreTokens(tokens)
                                  && Upper(s) == day + Concat(tokens)
  {
    var u := Upper(s);
    if IsWeekdayName(s) {
      var tokens := TokensOf(u[3..]);
      assert u == u[..3] + Concat(tokens);
    }
    if day, tokens :| day in {"MON", "TUE", "WED", "THU", "FRI", "SAT", "SUN"} && AreTokens(tokens)
                      && u == day + Concat(tokens) {
      TokensAreNames(tokens);
      assert u[..3] == day && u[3..] == Concat(tokens);
    }
  }

  /** A character that can mark a comment or a descriptor. */
  predicate IsMark(c: char) {
    c == '#' || c == '@'
  }

  lemma {:induction false} UpperKeepsMarks(s: string)
    ensures |Upper(s)| == |s| && forall i :: 0 <= i < |s| && IsMark(s[i]) ==> IsMark(Upper(s)[i])
  {
    if s != "" { UpperKeepsMarks(s[1..]); }
  }

  lemma {:induction false} NamesHaveNoMarks(s: string)
    requires NamesAndDashes(s)
    ensures forall c :: c in s ==> !IsMark(c)
  {
    if s != "" {
      if s[0] == '-' {
        NamesHaveNoMarks(s[1..]);
        assert s == [s[0]] + s[1..];
      } else {
        NamesHaveNoMarks(s[3..]);
        DayNameChars(s[..3]);
        assert s == s[..3] + s[3..];
      }
    }
  }

  lemma DayNameChars(s: string)
    requires s in DAY_NAMES
    ensures forall c :: c in s ==> !IsMark(c)
  {
  }

  lemma ListHasNoMarks(s: string, lo: int, hi: int, items: seq<string>)
    requires IsList(s, lo, hi, items)
    ensures forall c :: c in s ==> !IsMark(c)
  {
    forall i | 0 <= i < |items| ensures forall c :: c in items[i] ==> !IsMark(c) {
      if |items| == 1 {
        ItemChars(items[i], lo, hi);
      } else {
        ItemChars(Trim(items[i]), lo, hi);
        var lead, trail := TrimSplits(items[i]);
        forall c | c in items[i] ensures !IsMark(c) {
          assert c in lead || c in Trim(items[i]) || c in trail;
        }
      }
    }
    JoinHasNoMarks(items);
  }

  lemma {:induction false} JoinHasNoMarks(items: seq<string>)
    requires forall i :: 0 <= i < |items| ==> forall c :: c in items[i] ==> !IsMark(c)
    ensures forall c :: c in Join(items, ',') ==> !IsMark(c)
  {
    if |items| > 1 {
      JoinHasNoMarks(items[1..]);
      forall c | c in Join(items, ',') ensures !IsMark(c) {
        assert c in items[0] || c == ',' || c in Join(items[1..], ',');
      }
    }
  }

  /** An accepted field holds no '#' and no '@'. */
  lemma AcceptedHasNoMarks(s: string, lo: int, hi: int, named: bool)
    requires FieldAccepted(s, lo, hi, named)
    ensures forall c :: c in s ==> !IsMark(c)
  {
    if s == "" || s == "*" {
    } else if named && IsWeekdayName(s) {
      var u := Upper(s);
      NamesHaveNoMarks(u[3..]);
      DayNameChars(u[..3]);
      UpperKeepsMarks(s);
      forall i | 0 <= i < |s| ensures !IsMark(s[i]) {
        assert u[i] == if i < 3 then u[..3][i] else u[3..][i - 3];
      }
    } else {
      FieldExact(s, lo, hi);
      if c, step :| IsEvery(s, c, step) {
        NumeralChars(c, step);
        forall x | x in s ensures !IsMark(x) {
          assert x in "*/" || x in c;
        }
      } else {
        var items :| IsList(s, lo, hi, items);
        ListHasNoMarks(s, lo, hi, items);
      }
    }
  }
}
