/** The date helpers of the userscript: the `DateFormatter` getters, `pad0`,
    `formatDate`'s token substitution, `dateToDayDateString` and
    `firefoxDateFix`. JavaScript's own `Date` parser is a parameter. */
module DateFormat {
  import opened Wrappers
  import opened Text
  import opened Decimal

  /** The calendar fields a JavaScript `Date` reports through its UTC getters;
      `month0` is 0-based, as `getUTCMonth` returns it. */
  datatype DateTime = DateTime(year: int, month0: int, day: int, hour: int, minute: int, second: int)

  /** A `Date` object: `Some` fields, or `None` for an "Invalid Date", whose
      getters all return `NaN`. */
  type JsDate = Option<DateTime>

  /** The calendar fields of a date a browser can produce and `YYYY` can show
      in four digits. */
  predicate InRange(d: DateTime) {
    0 <= d.year < 10000 && 0 <= d.month0 < 12 && 1 <= d.day <= 31
    && 0 <= d.hour < 24 && 0 <= d.minute < 60 && 0 <= d.second < 60
  }

  /** The pattern tokens `/YYYY|YY|MM|DD|HH|mm|SS/`; `Minutes` is `mm`. */
  datatype Token = YYYY | YY | MM | DD | HH | Minutes | SS

  function TokenText(t: Token): string {
    match t
    case YYYY => "YYYY"
    case YY => "YY"
    case MM => "MM"
    case DD => "DD"
    case HH => "HH"
    case Minutes => "mm"
    case SS => "SS"
  }

  /** Position of a token among the alternatives of the pattern's regular
      expression; an earlier alternative is tried first. */
  function Rank(t: Token): nat {
    match t
    case YYYY => 0
    case YY => 1
    case MM => 2
    case DD => 3
    case HH => 4
    case Minutes => 5
    case SS => 6
  }

  /** A character that appears in some token. */
  predicate IsTokenLetter(c: char) {
    c == 'Y' || c == 'M' || c == 'D' || c == 'H' || c == 'm' || c == 'S'
  }

  /** The alternative the regular expression matches at the start of `p`:
      the first one, in alternative order, that `p` starts with. */
  function TokenAt(p: string): (r: Option<Token>)
    ensures r.Some? ==> StartsWith(p, TokenText(r.value))
    ensures r.None? ==> forall t :: !StartsWith(p, TokenText(t))
  {
    // every token is one letter written twice, or `Y` four times
    if |p| < 2 || p[1] != p[0] then None
    else if p[0] == 'Y' then
      if 4 <= |p| && p[2] == 'Y' && p[3] == 'Y' then Some(YYYY) else Some(YY)
    else if p[0] == 'M' then Some(MM)
    else if p[0] == 'D' then Some(DD)
    else if p[0] == 'H' then Some(HH)
    else if p[0] == 'm' then Some(Minutes)
    else if p[0] == 'S' then Some(SS)
    else None
  }

  /** The alternatives are tried in order: the token chosen is never preceded,
      in that order, by another token the text also starts with (so `YYYY`
      wins over `YY`). */
  lemma TokenAtFirstAlternative(p: string, t: Token)
    requires TokenAt(p).Some? && Rank(t) < Rank(TokenAt(p).value)
    ensures !StartsWith(p, TokenText(t))
  {
  }

  /** `pad0` applied to a getter's result, where an invalid date's `NaN`
      prints as "NaN". */
  function PadField(v: Option<int>, width: nat): string {
    match v
    case Some(x) => Pad0(x, width)
    case None => PadStart("NaN", width, '0')
  }

  /** The `YYYY` getter: the full year padded to four characters. */
  function YearText(d: JsDate): (r: string)
    ensures |r| >= 4
  {
    PadField(if d.Some? then Some(d.value.year) else None, 4)
  }

  /** The `DateFormatter` getter named by `t` (UTC variant); `YY` is
      `YYYY.slice(2)`. */
  function Field(d: JsDate, t: Token): string {
    match t
    case YYYY => YearText(d)
    case YY => YearText(d)[2..]
    case MM => PadField(if d.Some? then Some(d.value.month0 + 1) else None, 2)
    case DD => PadField(if d.Some? then Some(d.value.day) else None, 2)
    case HH => PadField(if d.Some? then Some(d.value.hour) else None, 2)
    case Minutes => PadField(if d.Some? then Some(d.value.minute) else None, 2)
    case SS => PadField(if d.Some? then Some(d.value.second) else None, 2)
  }

  /** `pattern.replaceAll(/YYYY|YY|MM|DD|HH|mm|SS/g, …)` with a callback
      that reads the getter named by the matched token: the pattern is
      scanned left to right, each token is replaced by `getter`'s text for it
      and every other character is copied. */
  function ReplaceTokens(getter: Token -> string, pattern: string): string
    decreases |pattern|
  {
    if pattern == [] then []
    else
      match TokenAt(pattern)
      case Some(t) => getter(t) + ReplaceTokens(getter, pattern[|TokenText(t)|..])
      case None => [pattern[0]] + ReplaceTokens(getter, pattern[1..])
  }

  /** `formatDate(date, pattern)` on an already constructed `Date`, with the
      `DateFormatter` of that date as the callback's source. */
  function FormatDate(d: JsDate, pattern: string): string {
    ReplaceTokens(t => Field(d, t), pattern)
  }

  /** A pattern in which no token letter occurs is copied unchanged. */
  lemma {:induction false} ReplaceTokensNoToken(getter: Token -> string, pattern: string)
    requires forall k :: 0 <= k < |pattern| ==> !IsTokenLetter(pattern[k])
    ensures ReplaceTokens(getter, pattern) == pattern
    decreases |pattern|
  {
    if pattern != [] {
      assert TokenAt(pattern).None? by {
        forall t ensures !StartsWith(pattern, TokenText(t)) {
          assert IsTokenLetter(TokenText(t)[0]);
        }
      }
      ReplaceTokensNoToken(getter, pattern[1..]);
      assert pattern == [pattern[0]] + pattern[1..];
    }
  }

  /** Tokens are matched where the scan stands: appending text after a
      pattern whose last character is not a token letter leaves the
      alternative chosen at the front unchanged. */
  lemma TokenAtAppend(p: string, q: string)
    requires p != [] && !IsTokenLetter(p[|p| - 1])
    ensures TokenAt(p + q) == TokenAt(p)
    ensures TokenAt(p).Some? ==> |TokenText(TokenAt(p).value)| < |p|
  {
    assert forall k :: 0 <= k < |p| ==> (p + q)[k] == p[k];
  }

  /** Substitution distributes over concatenation when the first part does
      not end in the middle of a token. */
  lemma {:induction false} ReplaceTokensAppend(getter: Token -> string, p: string, q: string)
    requires p == [] || !IsTokenLetter(p[|p| - 1])
    ensures ReplaceTokens(getter, p + q) == ReplaceTokens(getter, p) + ReplaceTokens(getter, q)
    decreases |p|
  {
    if p == [] {
      assert p + q == q;
    } else {
      var n := ScanStep(p);
      var rest := p[n..];
      assert n < |p| ==> rest[|rest| - 1] == p[|p| - 1];
      ReplaceTokensAppend(getter, rest, q);
      ScanAppend(getter, p, q);
      AppendAssoc(ScanEmit(getter, p), ReplaceTokens(getter, rest), ReplaceTokens(getter, q),
        ReplaceTokens(getter, p + q), ReplaceTokens(getter, p));
    }
  }

  /** One scan step over `p + q` is the step over `p`. */
  lemma ScanAppend(getter: Token -> string, p: string, q: string)
    requires p != [] && !IsTokenLetter(p[|p| - 1])
    ensures ReplaceTokens(getter, p + q) == ScanEmit(getter, p) + ReplaceTokens(getter, p[ScanStep(p)..] + q)
    ensures ReplaceTokens(getter, p) == ScanEmit(getter, p) + ReplaceTokens(getter, p[ScanStep(p)..])
  {
    TokenAtAppend(p, q);
    ScanUnfold(getter, p);
    ScanUnfold(getter, p + q);
    assert (p + q)[0] == p[0];
    SliceOfAppend(p, q, ScanStep(p));
  }

  lemma AppendAssoc(e: string, r1: string, r2: string, whole: string, left: string)
    requires whole == e + (r1 + r2) && left == e + r1
    ensures whole == left + r2
  {
  }

  lemma SliceOfAppend(p: string, q: string, n: nat)
    requires n <= |p|
    ensures (p + q)[n..] == p[n..] + q
  {
  }

  /** How far one step of the scan advances: past the token, or past one
      copied character. */
  function ScanStep(p: string): (n: nat)
    requires p != []
    ensures 1 <= n <= |p|
  {
    match TokenAt(p)
    case Some(t) => |TokenText(t)|
    case None => 1
  }

  /** What one step of the scan emits. */
  function ScanEmit(getter: Token -> string, p: string): string
    requires p != []
  {
    match TokenAt(p)
    case Some(t) => getter(t)
    case None => [p[0]]
  }

  lemma ScanUnfold(getter: Token -> string, p: string)
    requires p != []
    ensures ReplaceTokens(getter, p) == ScanEmit(getter, p) + ReplaceTokens(getter, p[ScanStep(p)..])
  {
  }

  /** The day pattern "YYYY.MM.DD" renders as the `YYYY`, `MM` and `DD`
      texts separated by dots. */
  lemma DayPattern(getter: Token -> string)
    ensures ReplaceTokens(getter, "YYYY.MM.DD") == getter(YYYY) + "." + getter(MM) + "." + getter(DD)
  {
    ScanDay(getter);
    ScanDotDay(getter);
    ScanMonthDay(getter);
    ScanDotMonthDay(getter);
    ScanYearMonthDay(getter);
    DotsAssoc(getter(YYYY), getter(MM), getter(DD));
  }

  lemma DotsAssoc(y: string, m: string, d: string)
    ensures y + ("." + (m + ("." + d))) == y + "." + m + "." + d
  {
  }

  lemma ScanDay(getter: Token -> string)
    ensures ReplaceTokens(getter, "DD") == getter(DD)
  {
    assert TokenAt("DD") == Some(DD) && "DD"[2..] == "";
  }

  lemma ScanDotDay(getter: Token -> string)
    ensures ReplaceTokens(getter, ".DD") == "." + ReplaceTokens(getter, "DD")
  {
    assert TokenAt(".DD") == None && ".DD"[1..] == "DD";
  }

  lemma ScanMonthDay(getter: Token -> string)
    ensures ReplaceTokens(getter, "MM.DD") == getter(MM) + ReplaceTokens(getter, ".DD")
  {
    assert TokenAt("MM.DD") == Some(MM) && "MM.DD"[2..] == ".DD";
  }

  lemma ScanDotMonthDay(getter: Token -> string)
    ensures ReplaceTokens(getter, ".MM.DD") == "." + ReplaceTokens(getter, "MM.DD")
  {
    assert TokenAt(".MM.DD") == None && ".MM.DD"[1..] == "MM.DD";
  }

  lemma ScanYearMonthDay(getter: Token -> string)
    ensures ReplaceTokens(getter, "YYYY.MM.DD") == getter(YYYY) + ReplaceTokens(getter, ".MM.DD")
  {
    assert TokenAt("YYYY.MM.DD") == Some(YYYY) && "YYYY.MM.DD"[4..] == ".MM.DD";
  }

  /** The number a getter reports for an in-range date. */
  function FieldValue(d: DateTime, t: Token): int {
    match t
    case YYYY => d.year
    case YY => d.year % 100
    case MM => d.month0 + 1
    case DD => d.day
    case HH => d.hour
    case Minutes => d.minute
    case SS => d.second
  }

  function FieldWidth(t: Token): nat {
    if t == YYYY then 4 else 2
  }

  /** The getters of an in-range date print fixed-width digits that read back
      as the field: four for the year, two for the others, and `YY` gives the
      year modulo 100. */
  lemma FieldDigits(d: DateTime, t: Token)
    requires InRange(d)
    ensures |Field(Some(d), t)| == FieldWidth(t)
    ensures AllDigits(Field(Some(d), t))
    ensures DigitsValue(Field(Some(d), t)) == FieldValue(d, t)
  {
    assert Pow10(4) == 10000 by { assert Pow10(2) == 100; }
    if t == YY {
      Pad0Fixed(d.year, 4);
      LastTwoDigits(YearText(Some(d)));
    } else {
      var v := FieldValue(d, t);
      assert 0 <= v < Pow10(FieldWidth(t));
      assert Field(Some(d), t) == Pad0(v, FieldWidth(t));
      Pad0Fixed(v, FieldWidth(t));
    }
  }

  lemma LastTwoDigits(y: string)
    requires |y| == 4 && AllDigits(y)
    ensures AllDigits(y[2..]) && DigitsValue(y[2..]) == DigitsValue(y) % 100
  {
    var c, e := DigitValue(y[2]), DigitValue(y[3]);
    var hi := DigitsValue(y[..2]);
    assert y[..4][..3] == y[..3] && y[..3][..2] == y[..2];
    assert DigitsValue(y[..3]) == 10 * hi + c;
    assert y == y[..4];
    assert DigitsValue(y) == 100 * hi + (10 * c + e);
    var t := y[2..];
    assert t[..1][..0] == [] && t[..1] == [y[2]];
    assert DigitsValue(t[..1]) == c;
    assert DigitsValue(t) == 10 * c + e;
  }

  /** `dddd.dd.dd`, the first match `firefoxDateFix` looks for, starts at `i`. */
  predicate DottedDateAt(s: string, i: nat) {
    i + 10 <= |s|
    && IsDigit(s[i]) && IsDigit(s[i + 1]) && IsDigit(s[i + 2]) && IsDigit(s[i + 3])
    && s[i + 4] == '.' && IsDigit(s[i + 5]) && IsDigit(s[i + 6])
    && s[i + 7] == '.' && IsDigit(s[i + 8]) && IsDigit(s[i + 9])
  }

  /** The first index at or after `from` where `dddd.dd.dd` starts. */
  function FirstDottedDate(s: string, from: nat): (r: Option<nat>)
    ensures r.Some? ==> from <= r.value && DottedDateAt(s, r.value)
    ensures r.Some? ==> forall j: nat :: from <= j < r.value ==> !DottedDateAt(s, j)
    ensures r.None? ==> forall j: nat :: from <= j ==> !DottedDateAt(s, j)
    decreases |s| - from
  {
    if |s| < from + 10 then None
    else if DottedDateAt(s, from) then Some(from)
    else FirstDottedDate(s, from + 1)
  }

  /** A value handed to `formatDate`: a string, or an existing `Date`. */
  datatype DateArg = DateString(text: string) | DateObject(date: JsDate)

  /** `s` with the dots of a `dddd.dd.dd` at `i` replaced by dashes, as
      the replacement `$<y>-$<m>-$<d>` writes it. */
  function Dashed(s: string, i: nat): (r: string)
    requires i + 10 <= |s|
    ensures |r| == |s| && r[i + 4] == '-' && r[i + 7] == '-'
    ensures forall k :: 0 <= k < |s| && k != i + 4 && k != i + 7 ==> r[k] == s[k]
  {
    s[..i + 4] + "-" + s[i + 5..i + 7] + "-" + s[i + 8..]
  }

  /** `firefoxDateFix`: a string has its first `dddd.dd.dd` rewritten to
      `dddd-dd-dd`; a `Date` object is returned as it is. */
  function FirefoxDateFix(v: DateArg): (r: DateArg)
    ensures v.DateObject? ==> r == v
    ensures v.DateString? ==> r.DateString? && |r.text| == |v.text|
    ensures v.DateString? && (forall j: nat :: !DottedDateAt(v.text, j)) ==> r == v
  {
    match v
    case DateObject(_) => v
    case DateString(s) =>
      match FirstDottedDate(s, 0)
      case None => v
      case Some(i) => DateString(Dashed(s, i))
  }

  /** Only the first match changes: its two dots become dashes and every
      other character, later matches included, stays as it was. */
  lemma FirefoxDateFixFirstOnly(s: string, i: nat)
    requires DottedDateAt(s, i) && forall j: nat :: j < i ==> !DottedDateAt(s, j)
    ensures var r := FirefoxDateFix(DateString(s)).text;
      r[i + 4] == '-' && r[i + 7] == '-'
      && forall k :: 0 <= k < |s| && k != i + 4 && k != i + 7 ==> r[k] == s[k]
  {
    assert FirstDottedDate(s, 0) == Some(i);
  }

  /** After the repair no `dddd.dd.dd` starts at or before the position of
      the one that was repaired: the repair removes the first match and
      creates none ahead of it. */
  lemma FirefoxDateFixRemovesFirst(s: string, i: nat)
    requires DottedDateAt(s, i) && forall j: nat :: j < i ==> !DottedDateAt(s, j)
    ensures forall j: nat :: j <= i ==> !DottedDateAt(FirefoxDateFix(DateString(s)).text, j)
  {
    FirefoxDateFixFirstOnly(s, i);
    var r := FirefoxDateFix(DateString(s)).text;
    forall j: nat | j <= i ensures !DottedDateAt(r, j) {
      if DottedDateAt(r, j) {
        if j + 10 <= i + 4 {
          assert DottedDateAt(s, j);
        }
        assert false;
      }
    }
  }

  /** `new Date(value)`: a string goes through the browser's date parser
      `parse`, a `Date` is copied. */
  function ToDate(v: DateArg, parse: string -> JsDate): JsDate {
    match v
    case DateString(s) => parse(s)
    case DateObject(d) => d
  }

  /** `formatDate(value, pattern)` with UTC getters. */
  function FormatDateValue(v: DateArg, pattern: string, parse: string -> JsDate): string {
    FormatDate(ToDate(FirefoxDateFix(v), parse), pattern)
  }

  /** `dateToDayDateString(value)`. */
  function DayDateString(v: DateArg, parse: string -> JsDate): string {
    FormatDateValue(v, "YYYY.MM.DD", parse)
  }

  /** An in-range date prints as ten characters: four year digits, a dot,
      two month digits (the 0-based month plus one), a dot and two day
      digits, and each group reads back as its field; the text is itself a
      `dddd.dd.dd` that `firefoxDateFix` would repair. */
  lemma DayDateShape(d: DateTime)
    requires InRange(d)
    ensures var r := FormatDate(Some(d), "YYYY.MM.DD");
      |r| == 10 && r[4] == '.' && r[7] == '.'
      && AllDigits(r[..4]) && DigitsValue(r[..4]) == d.year
      && AllDigits(r[5..7]) && DigitsValue(r[5..7]) == d.month0 + 1
      && AllDigits(r[8..]) && DigitsValue(r[8..]) == d.day
      && DottedDateAt(r, 0)
  {
    var y, m, dd := Field(Some(d), YYYY), Field(Some(d), MM), Field(Some(d), DD);
    DayPattern(t => Field(Some(d), t));
    FieldDigits(d, YYYY);
    FieldDigits(d, MM);
    FieldDigits(d, DD);
    DottedShape(y, m, dd);
  }

  /** Three digit groups of widths 4, 2 and 2 joined by dots. */
  lemma DottedShape(y: string, m: string, dd: string)
    requires |y| == 4 && |m| == 2 && |dd| == 2 && AllDigits(y) && AllDigits(m) && AllDigits(dd)
    ensures var r := y + "." + m + "." + dd;
      |r| == 10 && r[4] == '.' && r[7] == '.'
      && r[..4] == y && r[5..7] == m && r[8..] == dd
      && DottedDateAt(r, 0)
  {
    var r := y + "." + m + "." + dd;
    assert r[..4] == y && r[5..7] == m && r[8..] == dd;
    assert r[0] == y[0] && r[1] == y[1] && r[2] == y[2] && r[3] == y[3];
    assert r[5] == m[0] && r[6] == m[1] && r[8] == dd[0] && r[9] == dd[1];
  }

  /** An invalid date prints its `NaN` getters: `YYYY` pads "NaN" to
      "0NaN", the other two stay "NaN". */
  lemma InvalidDayDate()
    ensures FormatDate(None, "YYYY.MM.DD") == "0NaN.NaN.NaN"
  {
    NaNPadding();
    assert Field(None, YYYY) == "0NaN";
    assert Field(None, MM) == "NaN" && Field(None, DD) == "NaN";
    DayPattern(t => Field(None, t));
  }

  lemma NaNPadding()
    ensures PadStart("NaN", 4, '0') == "0NaN"
    ensures PadStart("NaN", 2, '0') == "NaN"
  {
    assert seq(1, _ => '0') == "0";
  }
}
