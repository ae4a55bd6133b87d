/**
 * The text helpers of the Input control (src/components/Input/Input.tsx):
 * the `DD/MM/YYYY` typing mask, the conversions between that display form and
 * ISO `YYYY-MM-DD` text (the extended calendar-date form of ISO 8601:2004,
 * section 4.1.2.2), the currency digit handling and the locale-to-currency
 * table.
 */
module InputFormat {
  import opened Common
  import Text

  // ---------------------------------------------------------------- date mask

  /** The at most eight digits the mask keeps. */
  function Take8(d: string): (r: string)
    ensures |r| == MinInt(|d|, 8) && r == d[..|r|]
  {
    if |d| <= 8 then d else d[..8]
  }

  /** The mask laid over a digit string: `D`, `DD/M…`, or `DD/MM/YYYY`. */
  function MaskDigits(d: string): string
    requires Text.AllDigits(d)
  {
    if |d| <= 2 then d
    else if |d| <= 4 then d[..2] + "/" + d[2..]
    else d[..2] + "/" + d[2..4] + "/" + Take8(d)[4..]
  }

  /** The pieces between the mask's slashes: the day, then the month, then the year, as far as typed. */
  function MaskPieces(t: string): seq<string>
    requires |t| <= 8
  {
    if |t| <= 2 then [t]
    else if |t| <= 4 then [t[..2], t[2..]]
    else [t[..2], t[2..4], t[4..]]
  }

  /** `formatDateMask`: keep the digits and lay the first eight out as `DD/MM/YYYY`. */
  function FormatDateMask(val: string): (r: string)
    ensures |r| <= 10
    ensures Text.DigitsOf(r) == Take8(Text.DigitsOf(val))
    ensures Text.DigitsOf(val) == [] <==> r == []
    ensures Text.Split(r, '/') == MaskPieces(Take8(Text.DigitsOf(val)))
  {
    var d := Text.DigitsOf(val);
    var r := MaskDigits(d);
    MaskDigitsDigits(d);
    MaskDigitsLayout(d);
    r
  }

  lemma MaskDigitsDigits(d: string)
    requires Text.AllDigits(d)
    ensures |MaskDigits(d)| <= 10
    ensures Text.DigitsOf(MaskDigits(d)) == Take8(d)
    ensures MaskDigits(d) == MaskDigits(Take8(d))
  {
    var t := Take8(d);
    if |d| <= 2 {
      Text.DigitsOfDigits(d);
    } else if |d| <= 4 {
      DigitsAround(d[..2], d[2..]);
      Text.DigitsOfDigits(d[..2]);
      assert d[..2] + d[2..] == d;
    } else {
      var a, b, c := d[..2], d[2..4], t[4..];
      DigitsAround(a + "/" + b, c);
      DigitsAround(a, b);
      Text.DigitsOfDigits(a);
      assert a + b + c == t;
      assert t[..2] == a && t[2..4] == b && Take8(t) == t;
    }
  }

  /** The mask puts a slash after the day and after the month, and nowhere else. */
  lemma MaskDigitsLayout(d: string)
    requires Text.AllDigits(d)
    ensures Text.Split(MaskDigits(d), '/') == MaskPieces(Take8(d))
  {
    var t := Take8(d);
    if |d| <= 2 {
      Text.DigitsHaveNoSep(d, '/');
      Text.SplitNoSep(d, '/');
    } else if |d| <= 4 {
      DigitsSlice(d, 0, 2);
      DigitsSlice(d, 2, |d|);
      Text.DigitsHaveNoSep(d[..2], '/');
      Text.DigitsHaveNoSep(d[2..], '/');
      Text.SplitNoSep(d[2..], '/');
      Text.SplitCons(d[..2], d[2..], '/');
      assert t == d;
    } else {
      DigitsSlice(d, 0, 2);
      DigitsSlice(d, 2, 4);
      DigitsSlice(t, 4, |t|);
      Text.SplitThree(d[..2], d[2..4], t[4..], '/');
      assert t[..2] == d[..2] && t[2..4] == d[2..4];
    }
  }

  /** A slice of a digit string is a digit string without slashes. */
  lemma DigitsSlice(d: string, i: nat, j: nat)
    requires Text.AllDigits(d) && i <= j <= |d|
    ensures Text.AllDigits(d[i..j]) && '/' !in d[i..j]
  {
    assert forall k :: 0 <= k < j - i ==> d[i..j][k] == d[i + k];
  }

  /** Slashes between digit runs vanish from the digit string. */
  lemma DigitsAround(a: string, b: string)
    requires Text.AllDigits(b)
    ensures Text.DigitsOf(a + "/" + b) == Text.DigitsOf(a) + b
  {
    Text.DigitsOfDigits(b);
    Text.DigitsOfAppend(a, "/");
    Text.DigitsOfAppend(a + "/", b);
  }

  /** Masking an already masked text changes nothing. */
  lemma FormatDateMaskIdempotent(val: string)
    ensures FormatDateMask(FormatDateMask(val)) == FormatDateMask(val)
  {
    var d := Text.DigitsOf(val);
    var t := Take8(d);
    assert Text.DigitsOf(FormatDateMask(val)) == t;
    MaskDigitsDigits(d);
    MaskDigitsDigits(t);
    assert Take8(t) == t;
  }

  /** A string without digits masks to the empty string. */
  lemma FormatDateMaskNoDigits(val: string)
    requires forall i :: 0 <= i < |val| ==> !Text.IsDigit(val[i])
    ensures FormatDateMask(val) == ""
  {
    Text.DigitsOfEmpty(val);
  }

  // ------------------------------------------------- display form <-> ISO

  /** `parseDate`: `DD/MM/YYYY` to `YYYY-MM-DD`, or `''` unless the three parts have lengths 2, 2, 4. */
  function ParseDate(dateStr: string): (r: string)
    ensures r != [] <==> var parts := Text.Split(dateStr, '/');
              |parts| == 3 && |parts[0]| == 2 && |parts[1]| == 2 && |parts[2]| == 4
    ensures r != [] ==> var parts := Text.Split(dateStr, '/');
              r == parts[2] + "-" + parts[1] + "-" + parts[0]
  {
    var parts := Text.Split(dateStr, '/');
    if |parts| == 3 && |parts[2]| == 4 && |parts[1]| == 2 && |parts[0]| == 2 then
      parts[2] + "-" + parts[1] + "-" + parts[0]
    else ""
  }

  /** `formatDateDisplay`: `YYYY-MM-DD` to `DD/MM/YYYY`; `''` and texts without exactly three parts give `''`. */
  function FormatDateDisplay(isoDate: string): (r: string)
    ensures isoDate == [] ==> r == []
    ensures isoDate != [] && |Text.Split(isoDate, '-')| == 3 ==> var parts := Text.Split(isoDate, '-');
              r == parts[2] + "/" + parts[1] + "/" + parts[0]
    ensures |Text.Split(isoDate, '-')| != 3 ==> r == []
  {
    if isoDate == [] then ""
    else
      var parts := Text.Split(isoDate, '-');
      if |parts| == 3 then parts[2] + "/" + parts[1] + "/" + parts[0] else ""
  }

  /** A mask yields an ISO date exactly once eight digits have been typed. */
  lemma ParseMaskComplete(val: string)
    ensures ParseDate(FormatDateMask(val)) != [] <==> |Text.DigitsOf(val)| >= 8
    ensures |Text.DigitsOf(val)| >= 8 ==> var d := Text.DigitsOf(val);
              ParseDate(FormatDateMask(val)) == d[4..8] + "-" + d[2..4] + "-" + d[..2]
  {
    var d := Text.DigitsOf(val);
    var m := FormatDateMask(val);
    if |d| <= 2 {
      Text.DigitsHaveNoSep(d, '/');
      Text.SplitNoSep(d, '/');
    } else if |d| <= 4 {
      Text.DigitsHaveNoSep(d[..2], '/');
      Text.DigitsHaveNoSep(d[2..], '/');
      Text.SplitCons(d[..2], d[2..], '/');
      Text.SplitNoSep(d[2..], '/');
      assert m == d[..2] + ['/'] + d[2..];
    } else {
      var c := Take8(d)[4..];
      Text.DigitsHaveNoSep(d[..2], '/');
      Text.DigitsHaveNoSep(d[2..4], '/');
      Text.DigitsHaveNoSep(c, '/');
      Text.SplitThree(d[..2], d[2..4], c, '/');
      assert m == d[..2] + ['/'] + d[2..4] + ['/'] + c;
      if |d| >= 8 {
        assert c == d[4..8];
      }
    }
  }

  /** A complete mask survives the trip to ISO and back. */
  lemma DisplayParseMask(val: string)
    requires |Text.DigitsOf(val)| >= 8
    ensures FormatDateDisplay(ParseDate(FormatDateMask(val))) == FormatDateMask(val)
  {
    var d := Text.DigitsOf(val);
    ParseMaskComplete(val);
    var a, b, c := d[..2], d[2..4], d[4..8];
    Text.DigitsHaveNoSep(a, '-');
    Text.DigitsHaveNoSep(b, '-');
    Text.DigitsHaveNoSep(c, '-');
    Text.SplitThree(c, b, a, '-');
    assert ParseDate(FormatDateMask(val)) == c + ['-'] + b + ['-'] + a;
    assert FormatDateMask(val) == a + "/" + b + "/" + c;
  }

  /** ISO text `YYYY-MM-DD` of digits: the shape `handleDayClick` emits for four-digit years. */
  predicate IsIsoDigits(iso: string) {
    |iso| == 10 && iso[4] == '-' && iso[7] == '-'
    && Text.AllDigits(iso[..4]) && Text.AllDigits(iso[5..7]) && Text.AllDigits(iso[8..])
  }

  /** Showing an ISO date and parsing the display gives the ISO date back. */
  lemma ParseDisplayIso(iso: string)
    requires IsIsoDigits(iso)
    ensures |FormatDateDisplay(iso)| == 10
    ensures ParseDate(FormatDateDisplay(iso)) == iso
  {
    var y, m, d := iso[..4], iso[5..7], iso[8..];
    Text.DigitsHaveNoSep(y, '-');
    Text.DigitsHaveNoSep(m, '-');
    Text.DigitsHaveNoSep(d, '-');
    assert iso == y + ['-'] + m + ['-'] + d;
    Text.SplitThree(y, m, d, '-');
    Text.DigitsHaveNoSep(y, '/');
    Text.DigitsHaveNoSep(m, '/');
    Text.DigitsHaveNoSep(d, '/');
    assert FormatDateDisplay(iso) == d + ['/'] + m + ['/'] + y;
    Text.SplitThree(d, m, y, '/');
  }

  /**
   * As written, the `value` effect shows `formatDateDisplay(value)` whenever
   * a controlled date `value` changes, including to the `''` emitted for an
   * incomplete mask. The text being typed plays no part. The branch only
   * brings in the display/ISO round trip for a complete value.
   */
  function DateValueDisplayAsWritten(value: string): (r: string)
    ensures value == [] ==> r == []
    ensures IsIsoDigits(value) ==> ParseDate(r) == value
  {
    if IsIsoDigits(value) then
      ParseDisplayIso(value);
      FormatDateDisplay(value)
    else
      FormatDateDisplay(value)
  }

  /** Deleting the last digit of `15/01/2024` emits `''`, and echoing it back blanks the field. */
  lemma DateEchoClears()
    ensures FormatDateMask("15/01/202") == "15/01/202"
    ensures ParseDate("15/01/202") == ""
    ensures DateValueDisplayAsWritten(ParseDate("15/01/202")) == ""
  {
    assert "15/01/202" == "15" + "/" + "01" + "/" + "202";
    MaskedTextIsKept("15", "01", "202");
    NoDateForShortYear("15", "01", "202");
  }

  /** A text already laid out as `DD/MM/Y…` masks to itself. */
  lemma MaskedTextIsKept(a: string, b: string, c: string)
    requires Text.AllDigits(a) && Text.AllDigits(b) && Text.AllDigits(c)
    requires |a| == 2 && |b| == 2 && 1 <= |c| <= 4
    ensures FormatDateMask(a + "/" + b + "/" + c) == a + "/" + b + "/" + c
  {
    DigitsAround(a + "/" + b, c);
    DigitsAround(a, b);
    Text.DigitsOfDigits(a);
    var d := a + b + c;
    assert d[..2] == a && d[2..4] == b && Take8(d)[4..] == c;
  }

  lemma NoDateForShortYear(a: string, b: string, c: string)
    requires '/' !in a && '/' !in b && '/' !in c && |c| != 4
    ensures ParseDate(a + "/" + b + "/" + c) == ""
  {
    Text.SplitThree(a, b, c, '/');
    assert a + "/" + b + "/" + c == a + ['/'] + b + ['/'] + c;
  }

  /**
   * The intended effect: keep what the user typed when it already denotes
   * the value, otherwise show the value in display form.
   */
  function DateValueDisplay(display: string, value: string): (r: string)
    ensures ParseDate(display) == value ==> r == display
    ensures ParseDate(display) != value ==> r == FormatDateDisplay(value)
  {
    if ParseDate(display) == value then display else FormatDateDisplay(value)
  }

  /** Echoing the emitted value back leaves the typed text alone, complete or not. */
  lemma DateEchoStable(val: string)
    ensures DateValueDisplay(FormatDateMask(val), ParseDate(FormatDateMask(val))) == FormatDateMask(val)
  {
  }

  /** A complete ISO value is always shown as its `DD/MM/YYYY` form. */
  lemma DateValueDisplayIso(display: string, value: string)
    requires IsIsoDigits(value)
    ensures DateValueDisplay(display, value) == FormatDateDisplay(value)
  {
    if ParseDate(display) == value {
      var parts := Text.Split(display, '/');
      var y, m, d := value[..4], value[5..7], value[8..];
      assert value == parts[2] + "-" + parts[1] + "-" + parts[0];
      assert parts[2] == y && parts[1] == m && parts[0] == d;
      Text.DigitsHaveNoSep(y, '-');
      Text.DigitsHaveNoSep(m, '-');
      Text.DigitsHaveNoSep(d, '-');
      assert value == y + ['-'] + m + ['-'] + d;
      Text.SplitThree(y, m, d, '-');
      Text.JoinSplit(display, '/');
      assert Text.Join(parts[1..], '/') == parts[1] + ['/'] + parts[2] by {
        assert parts[1..][0] == parts[1] && parts[1..][1..] == [parts[2]];
      }
      assert display == parts[0] + ['/'] + (parts[1] + ['/'] + parts[2]);
    }
  }

  // ------------------------------------------------------------------ currency

  /** The amount, in cents, `formatCurrency` hands to `Intl.NumberFormat` (`None`: it returns `''`). */
  function CurrencyAmount(val: string): (r: Option<nat>)
    ensures r.None? <==> Text.DigitsOf(val) == []
    ensures r.Some? ==> r.value == Text.DigitsValue(Text.DigitsOf(val))
  {
    var d := Text.DigitsOf(val);
    if d == [] then None else Some(Text.DigitsValue(d))
  }

  /** `(cents / 100).toString()`: the shortest decimal text of the amount. */
  function CentsText(c: nat): (s: string)
    ensures s != []
  {
    var whole, frac := c / 100, c % 100;
    if frac == 0 then Text.NatToString(whole)
    else if frac % 10 == 0 then Text.NatToString(whole) + "." + [Text.DigitChar(frac / 10)]
    else Text.NatToString(whole) + "." + Text.PadStart2(Text.NatToString(frac))
  }

  /** Reads a decimal text with at most two decimals back as cents. */
  function ParseCents(s: string): Option<nat> {
    ParsePieces(Text.Split(s, '.'))
  }

  /** The cents read from the pieces of a decimal text split at its points. */
  function ParsePieces(parts: seq<string>): Option<nat> {
    if |parts| == 1 && parts[0] != [] && Text.AllDigits(parts[0]) then
      Some(Text.DigitsValue(parts[0]) * 100)
    else if |parts| == 2 && parts[0] != [] && Text.AllDigits(parts[0]) && Text.AllDigits(parts[1])
            && 1 <= |parts[1]| <= 2 then
      Some(Text.DigitsValue(parts[0]) * 100
           + (if |parts[1]| == 1 then 10 * Text.DigitsValue(parts[1]) else Text.DigitsValue(parts[1])))
    else None
  }

  /** The decimal text of an amount reads back as the same amount. */
  lemma CentsTextRoundTrip(c: nat)
    ensures ParseCents(CentsText(c)) == Some(c)
  {
    var whole, frac := c / 100, c % 100;
    var w := Text.NatToString(whole);
    Text.NatToStringValue(whole);
    Text.DigitsHaveNoSep(w, '.');
    if frac == 0 {
      Text.SplitNoSep(w, '.');
    } else if frac % 10 == 0 {
      TenthsRoundTrip(w, whole, frac);
    } else {
      HundredthsRoundTrip(w, whole, frac);
    }
  }

  /** Whole digits, a point and decimal digits split into those two pieces before they are read. */
  lemma ParseWithDecimals(w: string, f: string)
    requires Text.AllDigits(w) && Text.AllDigits(f)
    ensures ParseCents(w + "." + f) == ParsePieces([w, f])
  {
    Text.DigitsHaveNoSep(w, '.');
    Text.DigitsHaveNoSep(f, '.');
    Text.SplitCons(w, f, '.');
    Text.SplitNoSep(f, '.');
    assert w + "." + f == w + ['.'] + f;
  }

  /** `w.d` with one decimal reads back as `w` whole units and `d` tenths. */
  lemma TenthsRoundTrip(w: string, whole: nat, frac: nat)
    requires Text.AllDigits(w) && w != [] && Text.DigitsValue(w) == whole
    requires 0 < frac < 100 && frac % 10 == 0
    ensures ParseCents(w + "." + [Text.DigitChar(frac / 10)]) == Some(whole * 100 + frac)
  {
    var f := [Text.DigitChar(frac / 10)];
    ParseWithDecimals(w, f);
    assert f[..0] == [];
    assert Text.DigitsValue(f) == frac / 10;
  }

  /** `w.dd` with two decimals reads back as `w` whole units and `dd` hundredths. */
  lemma HundredthsRoundTrip(w: string, whole: nat, frac: nat)
    requires Text.AllDigits(w) && w != [] && Text.DigitsValue(w) == whole
    requires 0 < frac < 100
    ensures ParseCents(w + "." + Text.PadStart2(Text.NatToString(frac))) == Some(whole * 100 + frac)
  {
    var f := Text.PadStart2(Text.NatToString(frac));
    Text.PadStartValue(frac);
    ParseWithDecimals(w, f);
  }

  /** `unformatCurrency`: the digits read as cents and printed as a decimal, or `''`. */
  function UnformatCurrency(val: string): (r: string)
    ensures r == [] <==> Text.DigitsOf(val) == []
    ensures r != [] ==> ParseCents(r) == CurrencyAmount(val)
  {
    match CurrencyAmount(val)
    case None => ""
    case Some(c) =>
      CentsTextRoundTrip(c);
      CentsText(c)
  }

  /**
   * As written, the `value` effect re-displays a currency value with
   * `formatCurrency(value)`, reading the raw decimal's digits as cents again.
   */
  function ValueAmountAsWritten(value: string): (r: Option<nat>)
    ensures r.None? <==> Text.DigitsOf(value) == []
    ensures r.Some? ==> r.value == Text.DigitsValue(Text.DigitsOf(value))
  {
    CurrencyAmount(value)
  }

  /** Typing `R$ 12,30` emits `12.3`, and echoing that value back shows 1.23. */
  lemma CurrencyEchoShrinks()
    ensures CurrencyAmount("R$ 12,30") == Some(1230)
    ensures UnformatCurrency("R$ 12,30") == "12.3"
    ensures ValueAmountAsWritten(UnformatCurrency("R$ 12,30")) == Some(123)
  {
    TypedAmount();
    TypedCentsText();
    EchoedAmount();
  }

  /** 1230 cents print as `12.3`. */
  lemma TypedCentsText()
    ensures CentsText(1230) == "12.3"
  {
    assert Text.NatToString(12) == "12";
  }

  /** The digits of `R$ 12,30` read as 1230 cents. */
  lemma TypedAmount()
    ensures CurrencyAmount("R$ 12,30") == Some(1230)
  {
    TypedDigits();
    assert Text.DigitsValue("1230") == 1230 by {
      assert "1230"[..3] == "123" && "123"[..2] == "12" && "12"[..1] == "1";
    }
  }

  /** The digits typed in `R$ 12,30` are `1230`. */
  lemma TypedDigits()
    ensures Text.DigitsOf("R$ 12,30") == "1230"
  {
    assert Text.DigitsOf("R$ ") == [] && Text.DigitsOf(",") == [];
    assert "R$ 12,30" == "R$ " + "12" + "," + "30";
    DigitsBetween("R$ ", "12", ",", "30");
    assert "12" + "30" == "1230";
  }

  /** Digit runs separated by digit-free text keep only the runs. */
  lemma DigitsBetween(lead: string, d1: string, sep: string, d2: string)
    requires Text.AllDigits(d1) && Text.AllDigits(d2)
    requires Text.DigitsOf(lead) == [] && Text.DigitsOf(sep) == []
    ensures Text.DigitsOf(lead + d1 + sep + d2) == d1 + d2
  {
    var x := lead + d1;
    var y := x + sep;
    Text.DigitsOfAppend(lead, d1);
    Text.DigitsOfDigits(d1);
    assert [] + d1 == d1;
    assert Text.DigitsOf(x) == d1;
    Text.DigitsOfAppend(x, sep);
    assert d1 + [] == d1;
    assert Text.DigitsOf(y) == d1;
    Text.DigitsOfAppend(y, d2);
    Text.DigitsOfDigits(d2);
  }

  /** The digits of `12.3` read as 123 cents. */
  lemma EchoedAmount()
    ensures CurrencyAmount("12.3") == Some(123)
  {
    assert Text.DigitsOf("12.3") == "123";
    assert Text.DigitsValue("123") == 123 by {
      assert "123"[..2] == "12" && "12"[..1] == "1";
    }
  }

  /** The intended reading of a currency `value`: a decimal amount, falling back to its digits. */
  function ValueAmount(value: string): (r: Option<nat>)
    ensures ParseCents(value).Some? ==> r == ParseCents(value)
    ensures ParseCents(value).None? ==> r == CurrencyAmount(value)
  {
    var p := ParseCents(value);
    if p.Some? then
      p
    else
      CurrencyAmount(value)
  }

  /** Echoing the emitted value back re-displays the amount that was typed. */
  lemma CurrencyEchoStable(val: string)
    ensures ValueAmount(UnformatCurrency(val)) == CurrencyAmount(val)
  {
    if Text.DigitsOf(val) == [] {
      assert UnformatCurrency(val) == "";
      assert Text.Split("", '.') == [""];
    }
  }

  /** `getCurrencyFromLocale`'s table. */
  const CurrencyMap: map<string, string> := map[
    "pt-BR" := "BRL", "pt-PT" := "EUR", "en-US" := "USD", "en-GB" := "GBP",
    "en-CA" := "CAD", "en-AU" := "AUD", "de-DE" := "EUR", "de-AT" := "EUR",
    "de-CH" := "CHF", "fr-FR" := "EUR", "fr-BE" := "EUR", "fr-CH" := "CHF",
    "fr-CA" := "CAD", "es-ES" := "EUR", "es-MX" := "MXN", "es-AR" := "ARS",
    "it-IT" := "EUR", "nl-NL" := "EUR", "nl-BE" := "EUR", "ja-JP" := "JPY",
    "zh-CN" := "CNY", "zh-TW" := "TWD", "zh-HK" := "HKD", "ko-KR" := "KRW",
    "ru-RU" := "RUB", "sv-SE" := "SEK", "no-NO" := "NOK", "dk-DK" := "DKK",
    "pl-PL" := "PLN", "tr-TR" := "TRY", "in-ID" := "IDR", "th-TH" := "THB",
    "vi-VN" := "VND", "ar-SA" := "SAR", "he-IL" := "ILS"]

  /** The distinct codes the table maps to. */
  const CurrencyCodes: set<string> := {"BRL", "EUR", "USD", "GBP", "CAD", "AUD", "CHF", "MXN", "ARS",
    "JPY", "CNY", "TWD", "HKD", "KRW", "RUB", "SEK", "NOK", "DKK", "PLN", "TRY", "IDR", "THB",
    "VND", "SAR", "ILS"}

  predicate IsCurrencyCode(s: string) {
    |s| == 3 && forall i :: 0 <= i < 3 ==> 'A' <= s[i] <= 'Z'
  }

  /** The table entry for the locale, `USD` for every other locale. */
  function CurrencyFromLocale(locale: string): (c: string)
    ensures locale in CurrencyMap ==> c == CurrencyMap[locale]
    ensures locale !in CurrencyMap ==> c == "USD"
    ensures IsCurrencyCode(c)
  {
    CurrencyTableCodes();
    if locale in CurrencyMap then CurrencyMap[locale] else "USD"
  }

  lemma CurrencyTableCodes()
    ensures forall l :: l in CurrencyMap ==> IsCurrencyCode(CurrencyMap[l])
  {
    assert forall c | c in CurrencyCodes :: IsCurrencyCode(c);
    assert CurrencyMap.Values <= CurrencyCodes;
    forall l | l in CurrencyMap ensures IsCurrencyCode(CurrencyMap[l]) {
      assert CurrencyMap[l] in CurrencyMap.Values;
    }
  }

  /** Brazilian Portuguese gets reais and an unknown locale gets dollars. */
  lemma CurrencyExamples()
    ensures CurrencyFromLocale("pt-BR") == "BRL"
    ensures CurrencyFromLocale("xx-XX") == "USD"
  {
  }
}
