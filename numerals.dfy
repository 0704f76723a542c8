/** Conversion between Western digits (0-9) and Eastern Arabic-Indic digits
    (٠-٩), the input sanitiser of the answer field, and decimal parsing and
    rendering of natural numbers. Everything here is pure. */
module Numerals {

  datatype Option<+T> = None | Some(value: T)

  /** The value of one decimal digit. */
  type Digit = v: nat | v < 10

  /** The table the app uses to read an Eastern Arabic-Indic digit. */
  const WesternArabicMap: map<char, Digit> := map[
    '٠' := 0, '١' := 1, '٢' := 2, '٣' := 3, '٤' := 4,
    '٥' := 5, '٦' := 6, '٧' := 7, '٨' := 8, '٩' := 9
  ]

  predicate IsEasternDigit(c: char) { c in WesternArabicMap }

  predicate IsWesternDigit(c: char) { '0' <= c <= '9' }

  /** Neither kind of digit: what a grouping separator must be. */
  predicate IsNonDigit(c: char) { !IsEasternDigit(c) && !IsWesternDigit(c) }

  /** The answer buffer's invariant: the text matches ^[0-9]*$. */
  predicate AllWestern(s: string) {
    forall i :: 0 <= i < |s| ==> IsWesternDigit(s[i])
  }

  predicate NoEasternDigits(s: string) {
    forall i :: 0 <= i < |s| ==> !IsEasternDigit(s[i])
  }

  /** The Western character of a digit value (what JavaScript's string
      conversion of a number below ten yields). */
  function DigitChar(v: Digit): (c: char)
    ensures IsWesternDigit(c)
    ensures DigitValue(c) == v
  {
    ('0' as int + v) as char
  }

  function DigitValue(c: char): (r: Digit)
    requires IsWesternDigit(c)
  {
    c as int - '0' as int
  }

  /** The two digit alphabets are disjoint. */
  lemma AllWesternHasNoEastern(s: string)
    requires AllWestern(s)
    ensures NoEasternDigits(s)
  {
    forall i | 0 <= i < |s| ensures !IsEasternDigit(s[i]) {
      assert s[i] as int < 0x660;
    }
  }

  lemma DigitCharOfValue(c: char)
    requires IsWesternDigit(c)
    ensures DigitChar(DigitValue(c)) == c
  {
  }

  /** The Eastern Arabic-Indic character of a digit value, as the ar-EG
      number formatter writes it. */
  function EasternDigitChar(v: Digit): (c: char)
    ensures IsEasternDigit(c) && WesternArabicMap[c] == v
  {
    if v == 0 then '٠' else if v == 1 then '١' else if v == 2 then '٢'
    else if v == 3 then '٣' else if v == 4 then '٤' else if v == 5 then '٥'
    else if v == 6 then '٦' else if v == 7 then '٧' else if v == 8 then '٨'
    else '٩'
  }

  // ---------------------------------------------------------------------
  // convertToWesternArabic
  // ---------------------------------------------------------------------

  /** One character through the replace callback of convertToWesternArabic. */
  function ToWesternChar(c: char): char {
    if IsEasternDigit(c) then DigitChar(WesternArabicMap[c]) else c
  }

  /** The global replace of Eastern digits, character by character. */
  function MapToWestern(s: string): (r: string)
    ensures |r| == |s|
    ensures forall i :: 0 <= i < |s| ==>
      (IsEasternDigit(s[i]) ==> r[i] == DigitChar(WesternArabicMap[s[i]])) &&
      (!IsEasternDigit(s[i]) ==> r[i] == s[i])
    ensures NoEasternDigits(r)
  {
    if s == [] then [] else [ToWesternChar(s[0])] + MapToWestern(s[1..])
  }

  /** convertToWesternArabic: null or undefined (None) gives the empty text,
      any text has each Eastern digit replaced by the Western digit of the
      same value, every other character staying where it was. */
  function ConvertToWestern(v: Option<string>): (r: string)
    ensures v.None? ==> r == []
    ensures v.Some? ==> |r| == |v.value|
    ensures v.Some? ==> forall i :: 0 <= i < |r| ==>
      (IsEasternDigit(v.value[i]) ==> r[i] == DigitChar(WesternArabicMap[v.value[i]])) &&
      (!IsEasternDigit(v.value[i]) ==> r[i] == v.value[i])
  {
    match v
    case None => []
    case Some(s) => MapToWestern(s)
  }

  // ---------------------------------------------------------------------
  // The filter of handleAnswerChange and the sanitiser as a whole
  // ---------------------------------------------------------------------

  /** The global replace of /[^0-9]/ by the empty text. */
  function KeepWesternDigits(s: string): (r: string)
    ensures AllWestern(r)
    ensures |r| <= |s|
  {
    if s == [] then []
    else if IsWesternDigit(s[0]) then [s[0]] + KeepWesternDigits(s[1..])
    else KeepWesternDigits(s[1..])
  }

  /** The filter works piece by piece: what it keeps of a text is what it
      keeps of each part, in the same order. */
  lemma {:induction false} KeepWesternDigitsConcat(a: string, b: string)
    ensures KeepWesternDigits(a + b) == KeepWesternDigits(a) + KeepWesternDigits(b)
  {
    if a == [] {
      assert a + b == b;
    } else {
      assert (a + b)[1..] == a[1..] + b;
      KeepWesternDigitsConcat(a[1..], b);
    }
  }

  /** The filter leaves a text unchanged exactly when it holds only digits. */
  lemma {:induction false} KeepWesternDigitsFixes(s: string)
    ensures KeepWesternDigits(s) == s <==> AllWestern(s)
  {
    if s != [] && AllWestern(s) {
      assert AllWestern(s[1..]);
      KeepWesternDigitsFixes(s[1..]);
    }
  }

  /** The sanitising step of handleAnswerChange: convert Eastern digits,
      then drop everything that is not 0-9. */
  function Sanitize(raw: string): (r: string)
    ensures AllWestern(r)
    ensures |r| <= |raw|
  {
    KeepWesternDigits(ConvertToWestern(Some(raw)))
  }

  /** What the sanitiser makes of one character. */
  function SanitizeChar(c: char): (r: string)
  {
    if IsEasternDigit(c) then [DigitChar(WesternArabicMap[c])]
    else if IsWesternDigit(c) then [c]
    else []
  }

  /** A one-pass reference definition: each character contributes what
      SanitizeChar makes of it, in the order of the input. */
  function SanitizeEach(s: string): (r: string) {
    if s == [] then [] else SanitizeChar(s[0]) + SanitizeEach(s[1..])
  }

  /** The two-pass sanitiser agrees with the one-pass reference: Eastern
      digits become their Western counterparts, Western digits stay, every
      other character is dropped, and order is kept. */
  lemma {:induction false} SanitizeIsEach(s: string)
    ensures Sanitize(s) == SanitizeEach(s)
  {
    if s != [] {
      SanitizeIsEach(s[1..]);
      assert MapToWestern(s) == [ToWesternChar(s[0])] + MapToWestern(s[1..]);
      KeepWesternDigitsConcat([ToWesternChar(s[0])], MapToWestern(s[1..]));
    }
  }

  lemma {:induction false} MapToWesternConcat(a: string, b: string)
    ensures MapToWestern(a + b) == MapToWestern(a) + MapToWestern(b)
  {
    if a != [] {
      assert (a + b)[1..] == a[1..] + b;
      MapToWesternConcat(a[1..], b);
    }
  }

  /** The sanitiser works piece by piece. */
  lemma SanitizeConcat(a: string, b: string)
    ensures Sanitize(a + b) == Sanitize(a) + Sanitize(b)
  {
    MapToWesternConcat(a, b);
    KeepWesternDigitsConcat(MapToWestern(a), MapToWestern(b));
  }

  /** A text already holding only Western digits goes through unchanged,
      and only such a text does. */
  lemma SanitizeFixes(s: string)
    ensures Sanitize(s) == s <==> AllWestern(s)
  {
    if AllWestern(s) {
      assert MapToWestern(s) == s;
      KeepWesternDigitsFixes(s);
    }
  }

  /** Applying the sanitiser to its own output changes nothing. */
  lemma SanitizeIdempotent(s: string)
    ensures Sanitize(Sanitize(s)) == Sanitize(s)
  {
    SanitizeFixes(Sanitize(s));
  }

  // ---------------------------------------------------------------------
  // Decimal digits and parseInt
  // ---------------------------------------------------------------------

  /** No superfluous leading zero: the shape of a rendered number. */
  predicate Canonical(s: string) {
    s != [] && (s[0] == '0' ==> s == "0")
  }

  /** The Western decimal digits of n, most significant first. */
  function DecimalDigits(n: nat): (r: string)
    ensures AllWestern(r)
    ensures Canonical(r)
  {
    if n < 10 then [DigitChar(n)] else DecimalDigits(n / 10) + [DigitChar(n % 10)]
  }

  function Pow10(k: nat): (r: nat)
    ensures r >= 1
  {
    if k == 0 then 1 else 10 * Pow10(k - 1)
  }

  /** The value of a text of Western digits read in base ten: below 10^k
      for k digits, and at least 10^(k-1) when the first digit is not 0. */
  function ValueOf(s: string): (r: nat)
    requires AllWestern(s)
    ensures r < Pow10(|s|)
    ensures s != [] && s[0] != '0' ==> r >= Pow10(|s| - 1)
  {
    if s == [] then 0
    else
      var p := s[..|s| - 1];
      assert p != [] ==> p[0] == s[0];
      ValueOf(p) * 10 + DigitValue(s[|s| - 1])
  }

  /** parseInt on a text of Western digits: NaN (None) for the empty text,
      the base-ten value otherwise; leading zeros are allowed. */
  function ParseDecimal(s: string): (r: Option<nat>)
    requires AllWestern(s)
    ensures r.None? <==> s == []
  {
    if s == [] then None else Some(ValueOf(s))
  }

  /** Reading the rendered digits of n gives back n. */
  lemma {:induction false} ValueOfDecimalDigits(n: nat)
    ensures ValueOf(DecimalDigits(n)) == n
  {
    if n >= 10 {
      ValueOfDecimalDigits(n / 10);
      var s := DecimalDigits(n);
      assert s[..|s| - 1] == DecimalDigits(n / 10);
    }
  }

  lemma ParseDecimalDigits(n: nat)
    ensures ParseDecimal(DecimalDigits(n)) == Some(n)
  {
    ValueOfDecimalDigits(n);
  }

  /** Rendering the value of a canonical digit text gives back the text. */
  lemma {:induction false} DecimalDigitsOfValue(s: string)
    requires AllWestern(s) && Canonical(s)
    ensures DecimalDigits(ValueOf(s)) == s
  {
    if |s| > 1 {
      var p := s[..|s| - 1];
      var d := DigitValue(s[|s| - 1]);
      DecimalDigitsOfValue(p);
      var n := ValueOf(s);
      assert n / 10 == ValueOf(p) && n % 10 == d;
      DigitCharOfValue(s[|s| - 1]);
      assert s == p + [s[|s| - 1]];
    } else {
      DigitCharOfValue(s[0]);
    }
  }

  /** A leading zero does not change the value. */
  lemma {:induction false} ValueIgnoresLeadingZero(s: string)
    requires AllWestern(s)
    ensures AllWestern(['0'] + s) && ValueOf(['0'] + s) == ValueOf(s)
  {
    var t := ['0'] + s;
    if s != [] {
      assert t[..|t| - 1] == ['0'] + s[..|s| - 1];
      ValueIgnoresLeadingZero(s[..|s| - 1]);
    }
  }

  /** The number of '0' characters at the head of s. */
  function LeadingZeros(s: string): (k: nat)
    ensures k <= |s|
    ensures forall i :: 0 <= i < k ==> s[i] == '0'
    ensures k < |s| ==> s[k] != '0'
  {
    if s != [] && s[0] == '0' then 1 + LeadingZeros(s[1..]) else 0
  }

  /** Any run of leading zeros can be skipped without changing the value. */
  lemma {:induction false} ValueSkipsLeadingZeros(s: string, k: nat)
    requires AllWestern(s) && k <= |s|
    requires forall i :: 0 <= i < k ==> s[i] == '0'
    ensures ValueOf(s) == ValueOf(s[k..])
  {
    if k > 0 {
      assert s == ['0'] + s[1..];
      ValueIgnoresLeadingZero(s[1..]);
      ValueSkipsLeadingZeros(s[1..], k - 1);
      assert s[1..][k - 1..] == s[k..];
    }
  }

  /** The texts parseInt reads as a positive n are exactly the decimal
      digits of n after any number of leading zeros ("035" reads as 35). */
  lemma ParsesTo(s: string, n: nat)
    requires AllWestern(s) && n > 0
    ensures ParseDecimal(s) == Some(n) <==> s[LeadingZeros(s)..] == DecimalDigits(n)
  {
    var k := LeadingZeros(s);
    ValueSkipsLeadingZeros(s, k);
    ValueOfDecimalDigits(n);
    if ParseDecimal(s) == Some(n) {
      var t := s[k..];
      if t != [] {
        DecimalDigitsOfValue(t);
      }
    }
  }

  // ---------------------------------------------------------------------
  // convertToEasternArabic
  // ---------------------------------------------------------------------

  /** The per-digit map of the ar-EG formatter: every Western digit becomes
      the Eastern digit of the same value, any other character stays. */
  function MapToEastern(s: string): (r: string)
    ensures |r| == |s|
    ensures forall i :: 0 <= i < |s| ==>
      (IsWesternDigit(s[i]) ==> r[i] == EasternDigitChar(DigitValue(s[i]))) &&
      (!IsWesternDigit(s[i]) ==> r[i] == s[i])
  {
    if s == [] then []
    else [if IsWesternDigit(s[0]) then EasternDigitChar(DigitValue(s[0])) else s[0]]
         + MapToEastern(s[1..])
  }

  /** Reading back Eastern digits undoes writing them, for any text that
      held no Eastern digit to begin with. */
  lemma MapToWesternUndoesEastern(s: string)
    requires NoEasternDigits(s)
    ensures MapToWestern(MapToEastern(s)) == s
  {
    var e := MapToEastern(s);
    forall i | 0 <= i < |s| ensures MapToWestern(e)[i] == s[i] {
      if IsWesternDigit(s[i]) {
        DigitCharOfValue(s[i]);
      }
    }
  }

  /** The optional grouping separator: a separator after every three digits
      counted from the right, as a grouping locale writes 1234 as 1,234. */
  predicate SeparatorOk(sep: Option<char>) {
    sep.Some? ==> IsNonDigit(sep.value)
  }

  /** Every character of s is a Western digit or the separator. */
  predicate DigitsOrSeparator(s: string, sep: Option<char>) {
    forall i :: 0 <= i < |s| ==> IsWesternDigit(s[i]) || Some(s[i]) == sep
  }

  lemma DigitsOrSeparatorConcat(a: string, b: string, sep: Option<char>)
    requires DigitsOrSeparator(a, sep) && DigitsOrSeparator(b, sep)
    ensures DigitsOrSeparator(a + b, sep)
  {
    forall i | 0 <= i < |a + b| ensures IsWesternDigit((a + b)[i]) || Some((a + b)[i]) == sep {
      if i >= |a| {
        assert (a + b)[i] == b[i - |a|];
      }
    }
  }

  /** One separator between a grouped head and a digit tail adds nothing
      the filter keeps. */
  lemma GroupStep(g: string, c: char, head: string, tail: string)
    requires IsNonDigit(c) && AllWestern(tail)
    requires KeepWesternDigits(g) == head && DigitsOrSeparator(g, Some(c))
    ensures KeepWesternDigits(g + [c] + tail) == head + tail
    ensures DigitsOrSeparator(g + [c] + tail, Some(c))
  {
    KeepWesternDigitsConcat(g, [c]);
    KeepWesternDigitsConcat(g + [c], tail);
    KeepWesternDigitsFixes(tail);
    DigitsOrSeparatorConcat(g, [c], Some(c));
    DigitsOrSeparatorConcat(g + [c], tail, Some(c));
  }

  function Group(ds: string, sep: Option<char>): (r: string)
    requires AllWestern(ds) && SeparatorOk(sep)
    ensures KeepWesternDigits(r) == ds
    ensures DigitsOrSeparator(r, sep)
    decreases |ds|
  {
    if sep.None? || |ds| <= 3 then
      KeepWesternDigitsFixes(ds);
      ds
    else
      var head, tail := ds[..|ds| - 3], ds[|ds| - 3..];
      var g := Group(head, sep);
      GroupStep(g, sep.value, head, tail);
      assert head + tail == ds;
      g + [sep.value] + tail
  }

  /** The argument of convertToEasternArabic: null, undefined, a text or a
      number. */
  datatype JsValue = Null | Undefined | Text(text: string) | Number(n: nat)

  /** The three values the function maps to the empty text without calling
      the formatter. */
  predicate IsBlank(v: JsValue) {
    v.Null? || v.Undefined? || v == Text([])
  }

  predicate Renderable(v: JsValue) {
    v.Text? ==> AllWestern(v.text)
  }

  /** Number(v) for a value that is not blank, taken exactly: for a digit
      text it agrees with parseInt. JavaScript's Number is a double, so the
      source agrees with this only up to MaxExactInteger. */
  function NumberOf(v: JsValue): (r: nat)
    requires Renderable(v) && !IsBlank(v)
    ensures v.Number? ==> r == v.n
    ensures v.Text? ==> ParseDecimal(v.text) == Some(r)
  {
    match v
    case Number(n) => n
    case Text(s) => ValueOf(s)
  }

  /** 2^53: every integer up to it is a double, so Number() keeps it. */
  const MaxExactInteger: nat := 0x20_0000_0000_0000

  /** A value whose Number() is exact, so that its display is its digits. */
  predicate ExactNumber(v: JsValue)
    requires Renderable(v)
  {
    IsBlank(v) || NumberOf(v) <= MaxExactInteger
  }

  lemma {:induction false} Pow10Monotone(j: nat, k: nat)
    requires j <= k
    ensures Pow10(j) <= Pow10(k)
  {
    if j < k {
      Pow10Monotone(j, k - 1);
    }
  }

  /** Any answer of at most fifteen digits is converted exactly. */
  lemma ShortTextsExact(s: string)
    requires AllWestern(s) && |s| <= 15
    ensures ExactNumber(Text(s))
  {
    Pow10Monotone(|s|, 15);
    assert Pow10(15) == 1_000_000_000_000_000;
  }

  /** convertToEasternArabic: the empty text for null, undefined or '',
      otherwise the decimal digits of the number, grouped by sep and written
      in Eastern Arabic-Indic digits. */
  function ToEastern(v: JsValue, sep: Option<char>): (r: string)
    requires Renderable(v) && SeparatorOk(sep)
    ensures r == [] <==> IsBlank(v)
    ensures ExactNumber(v) ==> forall i :: 0 <= i < |r| ==> IsEasternDigit(r[i]) || Some(r[i]) == sep
  {
    if IsBlank(v) then []
    else
      MapToEastern(Group(DecimalDigits(NumberOf(v)), sep))
  }

  /** The round trip the answer field relies on: sanitising the Eastern
      display of a number, separators and all, yields its Western decimal
      digits (and the empty text for a blank value), as long as Number()
      is exact. */
  lemma DisplayRoundTrip(v: JsValue, sep: Option<char>)
    requires Renderable(v) && SeparatorOk(sep)
    ensures ExactNumber(v) ==>
      Sanitize(ToEastern(v, sep)) == if IsBlank(v) then [] else DecimalDigits(NumberOf(v))
  {
    if !IsBlank(v) {
      var g := Group(DecimalDigits(NumberOf(v)), sep);
      assert NoEasternDigits(g);
      MapToWesternUndoesEastern(g);
    }
  }

  /** Without grouping the display needs no filtering at all: converting it
      back to Western digits gives the decimal digits of the number. */
  lemma UngroupedRoundTrip(n: nat)
    ensures n <= MaxExactInteger ==>
      ConvertToWestern(Some(ToEastern(Number(n), None))) == DecimalDigits(n)
  {
    var ds := DecimalDigits(n);
    var e := ToEastern(Number(n), None);
    assert e == MapToEastern(ds) by {
      assert Group(ds, None) == ds;
    }
    AllWesternHasNoEastern(ds);
    MapToWesternUndoesEastern(ds);
    assert ConvertToWestern(Some(e)) == MapToWestern(e);
  }

  /** Feeding the displayed answer back through the sanitiser keeps its
      value; only leading zeros are lost, and a canonical answer comes back
      as it was, as long as Number() is exact. */
  lemma EditRoundTrip(b: string, sep: Option<char>)
    requires AllWestern(b) && SeparatorOk(sep)
    ensures ValueOf(b) <= MaxExactInteger ==>
      ParseDecimal(Sanitize(ToEastern(Text(b), sep))) == ParseDecimal(b)
    ensures ValueOf(b) <= MaxExactInteger && (b == [] || Canonical(b)) ==>
      Sanitize(ToEastern(Text(b), sep)) == b
  {
    DisplayRoundTrip(Text(b), sep);
    if b != [] {
      ValueOfDecimalDigits(ValueOf(b));
      if Canonical(b) {
        DecimalDigitsOfValue(b);
      }
    }
  }
}
