/**
 * Date handling of the editor: formatDate (script.js:198-207), which renders a local
 * date-time as "YYYY-MM-DD HH:MM" for the frontmatter, the value format of the
 * datetime-local input ("YYYY-MM-DDTHH:MM", written at script.js:392 and :402), and the
 * conversion of a frontmatter Date back into that input format (script.js:388-408).
 * The JavaScript Date object is not modelled: a date-time is given by its components.
 */
module Dates {
  import opened Options
  import opened Text

  /** A local date-time with minute precision, as the date input holds it. */
  datatype DateTime = DateTime(year: nat, month: nat, day: nat, hour: nat, minute: nat)

  predicate IsLeapYear(y: nat) {
    (y % 4 == 0 && y % 100 != 0) || y % 400 == 0
  }

  function DaysInMonth(y: nat, m: nat): nat {
    if m == 2 then (if IsLeapYear(y) then 29 else 28)
    else if m == 4 || m == 6 || m == 9 || m == 11 then 30
    else 31
  }

  /** A calendar-correct date-time. */
  predicate ValidDateTime(dt: DateTime) {
    1 <= dt.month <= 12 && 1 <= dt.day <= DaysInMonth(dt.year, dt.month)
    && dt.hour < 24 && dt.minute < 60
  }

  /** A date-time whose year String(year) renders with exactly four digits. */
  predicate FourDigitYear(dt: DateTime) {
    1000 <= dt.year <= 9999
  }

  function DigitChar(d: nat): char
    requires d < 10
  {
    ('0' as int + d) as char
  }

  function DigitValue(c: char): nat
    requires IsDigit(c)
  {
    c as int - '0' as int
  }

  predicate AllDigits(s: string) {
    forall i :: 0 <= i < |s| ==> IsDigit(s[i])
  }

  /** The number a string of decimal digits denotes. */
  function DigitsValue(s: string): nat
    requires AllDigits(s)
  {
    if s == [] then 0 else DigitsValue(s[..|s| - 1]) * 10 + DigitValue(s[|s| - 1])
  }

  /** String(n) for a non-negative integer: its decimal digits without leading zeros. */
  function Decimal(n: nat): (r: string)
    ensures AllDigits(r) && DigitsValue(r) == n
    ensures n < 10 ==> |r| == 1
    ensures 10 <= n < 100 ==> |r| == 2
    ensures 1000 <= n < 10000 ==> |r| == 4
    ensures n > 0 ==> r[0] != '0'
  {
    if n < 10 then [DigitChar(n)]
    else
      var r := Decimal(n / 10) + [DigitChar(n % 10)];
      assert r[..|r| - 1] == Decimal(n / 10);
      r
  }

  /** String(n).padStart(2, '0'). */
  function Pad2(n: nat): (r: string)
    ensures AllDigits(r)
    ensures n < 100 ==> |r| == 2 && DigitsValue(r) == n
  {
    if n < 10 then
      var r := "0" + Decimal(n);
      assert r[..1] == "0";
      r
    else Decimal(n)
  }

  /** Positions of the digits in a 16-character "YYYY-MM-DD?HH:MM" stamp. */
  predicate DigitAt(s: string, i: nat) {
    i < |s| && IsDigit(s[i])
  }

  /** s has the shape YYYY-MM-DD, followed by sep, followed by HH:MM. */
  predicate IsStamp(s: string, sep: char) {
    |s| == 16
    && DigitAt(s, 0) && DigitAt(s, 1) && DigitAt(s, 2) && DigitAt(s, 3) && s[4] == '-'
    && DigitAt(s, 5) && DigitAt(s, 6) && s[7] == '-' && DigitAt(s, 8) && DigitAt(s, 9)
    && s[10] == sep
    && DigitAt(s, 11) && DigitAt(s, 12) && s[13] == ':' && DigitAt(s, 14) && DigitAt(s, 15)
  }

  /** The components a stamp spells out. */
  function StampValue(s: string): DateTime
    requires |s| == 16 && IsStamp(s, s[10])
  {
    DateTime(DigitsValue(s[0..4]), DigitsValue(s[5..7]), DigitsValue(s[8..10]),
             DigitsValue(s[11..13]), DigitsValue(s[14..16]))
  }

  /** `${year}-${month}-${day}${sep}${hours}:${minutes}` with the four last fields padded to two digits. */
  function Render(dt: DateTime, sep: char): (r: string)
    ensures ValidDateTime(dt) && FourDigitYear(dt) ==> IsStamp(r, sep) && StampValue(r) == dt
  {
    var r := Decimal(dt.year) + "-" + Pad2(dt.month) + "-" + Pad2(dt.day) + [sep]
             + Pad2(dt.hour) + ":" + Pad2(dt.minute);
    if ValidDateTime(dt) && FourDigitYear(dt) then
      StampLayout(Decimal(dt.year), Pad2(dt.month), Pad2(dt.day), sep, Pad2(dt.hour), Pad2(dt.minute));
      r
    else r
  }

  /** Where each field lands in a rendering whose year has four digits and other fields two. */
  lemma StampLayout(y: string, mo: string, d: string, sep: char, h: string, mi: string)
    requires |y| == 4 && |mo| == 2 && |d| == 2 && |h| == 2 && |mi| == 2
    requires AllDigits(y) && AllDigits(mo) && AllDigits(d) && AllDigits(h) && AllDigits(mi)
    ensures var r := y + "-" + mo + "-" + d + [sep] + h + ":" + mi;
            IsStamp(r, sep) && r[0..4] == y && r[5..7] == mo && r[8..10] == d
            && r[11..13] == h && r[14..16] == mi
  {
    var a := y + "-" + mo + "-" + d;
    assert |a| == 10 && a[0..4] == y && a[4] == '-' && a[5..7] == mo && a[7] == '-' && a[8..10] == d;
    var b := [sep] + h + ":" + mi;
    assert |b| == 6 && b[0] == sep && b[1..3] == h && b[3] == ':' && b[4..6] == mi;
    var r := y + "-" + mo + "-" + d + [sep] + h + ":" + mi;
    assert r == a + b;
    assert r[0..4] == a[0..4] && r[5..7] == a[5..7] && r[8..10] == a[8..10];
    assert r[11..13] == b[1..3] && r[14..16] == b[4..6];
    assert forall i :: 0 <= i < 4 ==> r[i] == y[i];
    assert r[5] == mo[0] && r[6] == mo[1] && r[8] == d[0] && r[9] == d[1];
    assert r[11] == h[0] && r[12] == h[1] && r[14] == mi[0] && r[15] == mi[1];
  }

  /** formatDate (script.js:198-207): the frontmatter rendering "YYYY-MM-DD HH:MM". */
  function FormatDate(dt: DateTime): (r: string)
    ensures ValidDateTime(dt) && FourDigitYear(dt) ==> IsStamp(r, ' ') && StampValue(r) == dt
  {
    Render(dt, ' ')
  }

  /**
   * The value text script.js writes into the datetime-local input: "YYYY-MM-DDTHH:MM"
   * (script.js:397-402). It is Render with a 'T' where formatDate puts a space.
   */
  function InputText(dt: DateTime): (r: string)
    ensures ValidDateTime(dt) && FourDigitYear(dt) ==> IsStamp(r, 'T') && StampValue(r) == dt
  {
    Render(dt, 'T')
  }

  /**
   * What a datetime-local input keeps when script.js assigns text to its value: a valid
   * "YYYY-MM-DDTHH:MM" date-time (year at least 1); anything else empties the input (None).
   */
  function DecodeInputDate(s: string): (r: Option<DateTime>)
    ensures r.Some? ==> IsStamp(s, 'T') && StampValue(s) == r.value && ValidDateTime(r.value)
    ensures r.Some? && s[0] != '0' ==> s == InputText(r.value)
  {
    if |s| == 16 && IsStamp(s, 'T') && StampValue(s).year >= 1 && ValidDateTime(StampValue(s)) then
      var dt := StampValue(s);
      if s[0] != '0' then
        StampDigits(s, dt);
        Some(dt)
      else Some(dt)
    else None
  }

  /** A stamp without a leading zero is the rendering of the components it spells out. */
  lemma StampDigits(s: string, dt: DateTime)
    requires |s| == 16 && IsStamp(s, s[10]) && dt == StampValue(s) && s[0] != '0'
    ensures Render(dt, s[10]) == s
  {
    var y, mo, d, h, mi := s[0..4], s[5..7], s[8..10], s[11..13], s[14..16];
    StampPieces(s);
    TwoDigits(mo);
    TwoDigits(d);
    TwoDigits(h);
    TwoDigits(mi);
    FourDigits(y);
    assert Render(dt, s[10]) == y + "-" + mo + "-" + d + [s[10]] + h + ":" + mi;
  }

  /** A stamp is its five digit fields with the separators between them. */
  lemma StampPieces(s: string)
    requires |s| == 16 && IsStamp(s, s[10])
    ensures AllDigits(s[0..4]) && AllDigits(s[5..7]) && AllDigits(s[8..10])
    ensures AllDigits(s[11..13]) && AllDigits(s[14..16])
    ensures s == s[0..4] + "-" + s[5..7] + "-" + s[8..10] + [s[10]] + s[11..13] + ":" + s[14..16]
  {
  }

  lemma TwoDigits(s: string)
    requires |s| == 2 && AllDigits(s)
    ensures DigitsValue(s) < 100 && Pad2(DigitsValue(s)) == s
  {
    var d0, d1 := DigitValue(s[0]), DigitValue(s[1]);
    assert DigitsValue(s[..1]) == d0 by {
      assert s[..1][..0] == [];
    }
    var n := DigitsValue(s);
    assert n == d0 * 10 + d1;
    assert s == [s[0], s[1]];
    if d0 == 0 {
      assert Pad2(n) == "0" + [DigitChar(d1)];
    } else {
      assert n / 10 == d0 && n % 10 == d1;
      assert Decimal(n) == [DigitChar(d0)] + [DigitChar(d1)];
    }
  }

  lemma FourDigits(s: string)
    requires |s| == 4 && AllDigits(s)
    ensures DigitsValue(s) < 10000
    ensures s[0] != '0' ==> Decimal(DigitsValue(s)) == s
  {
    DigitsValueBound(s);
    if s[0] != '0' {
      DecimalOfDigits(s);
    }
  }

  lemma {:induction false} DigitsValueBound(s: string)
    requires AllDigits(s)
    ensures DigitsValue(s) < Power10(|s|)
  {
    if s != [] {
      DigitsValueBound(s[..|s| - 1]);
    }
  }

  function Power10(k: nat): nat {
    if k == 0 then 1 else 10 * Power10(k - 1)
  }

  /** A digit string that does not start with 0 denotes a positive number. */
  lemma {:induction false} DigitsValuePositive(s: string)
    requires AllDigits(s) && s != [] && s[0] != '0'
    ensures DigitsValue(s) > 0
  {
    if |s| > 1 {
      DigitsValuePositive(s[..|s| - 1]);
    }
  }

  /** String(n) inverts the reading of a digit string without a leading zero. */
  lemma {:induction false} DecimalOfDigits(s: string)
    requires AllDigits(s) && s != [] && s[0] != '0'
    ensures Decimal(DigitsValue(s)) == s
  {
    var n := DigitsValue(s);
    if |s| == 1 {
      assert s[..0] == [];
    } else {
      var p := s[..|s| - 1];
      var d := DigitValue(s[|s| - 1]);
      DigitsValuePositive(p);
      DecimalOfDigits(p);
      assert n == DigitsValue(p) * 10 + d;
      assert n / 10 == DigitsValue(p) && n % 10 == d;
      assert s == p + [s[|s| - 1]];
    }
  }

  /** The calendar value of an input text, when it is one, renders back to that text. */
  lemma DecodeInputText(dt: DateTime)
    requires ValidDateTime(dt) && FourDigitYear(dt)
    ensures DecodeInputDate(InputText(dt)) == Some(dt)
  {
  }

  /** The pattern \d{4}-\d{2}-\d{2} of script.js:390. */
  predicate IsDatePart(s: string) {
    |s| == 10 && DigitAt(s, 0) && DigitAt(s, 1) && DigitAt(s, 2) && DigitAt(s, 3) && s[4] == '-'
    && DigitAt(s, 5) && DigitAt(s, 6) && s[7] == '-' && DigitAt(s, 8) && DigitAt(s, 9)
  }

  /** The pattern \d{2}:\d{2} of script.js:390. */
  predicate IsTimePart(s: string) {
    |s| == 5 && DigitAt(s, 0) && DigitAt(s, 1) && s[2] == ':' && DigitAt(s, 3) && DigitAt(s, 4)
  }

  /**
   * /^(\d{4}-\d{2}-\d{2})\s+(\d{2}:\d{2})/ matches s with a whitespace run of length w
   * between the date and the time. As the time starts with a digit, w is the whole run.
   */
  predicate DateMatchAt(s: string, w: nat) {
    w >= 1 && 15 + w <= |s| && IsDatePart(s[..10]) && AllWhitespace(s[10..10 + w])
    && IsTimePart(s[10 + w..15 + w])
  }

  /**
   * The match of /^(\d{4}-\d{2}-\d{2})\s+(\d{2}:\d{2})/ on a frontmatter Date and the text
   * `${date}T${time}` built from its groups (script.js:390-392); None when it does not match.
   * Anything after the time is ignored, as the pattern is anchored at the start only.
   */
  function FrontmatterDateToInput(s: string): (r: Option<string>)
    ensures r.Some? ==> |s| >= 10 && IsStamp(r.value, 'T') && r.value[..10] == s[..10]
    ensures |s| >= 16 && IsStamp(s[..16], ' ') ==> r == Some(s[..10] + "T" + s[11..16])
    ensures r.Some? ==> DateMatchAt(s, LeadingWhitespace(s[10..]))
  {
    SpacedStampMatch(s);
    if |s| < 10 then None
    else
      var w := LeadingWhitespace(s[10..]);
      if DateMatchAt(s, w) then Some(MatchedInput(s, w)) else None
  }

  /** The text `${date}T${time}` built from the groups of a match. */
  function MatchedInput(s: string, w: nat): (r: string)
    requires DateMatchAt(s, w)
    ensures IsStamp(r, 'T') && r[..10] == s[..10] && r[11..] == s[10 + w..15 + w]
  {
    var r := s[..10] + "T" + s[10 + w..15 + w];
    assert r[11..] == s[10 + w..15 + w];
    r
  }

  /** A date written as "YYYY-MM-DD HH:MM" matches with a one-space run. */
  lemma SpacedStampMatch(s: string)
    ensures |s| >= 16 && IsStamp(s[..16], ' ') ==> LeadingWhitespace(s[10..]) == 1 && DateMatchAt(s, 1)
  {
    if |s| >= 16 && IsStamp(s[..16], ' ') {
      assert s[..10] == s[..16][..10];
      assert s[11..16] == s[..16][11..16];
      assert s[10..][..1] == [s[10]];
      WhitespaceRunIs(s[10..], 1);
    }
  }

  /** Whatever whitespace separates date and time, the time is the five characters after it. */
  lemma FrontmatterDateMatches(s: string, w: nat)
    requires DateMatchAt(s, w)
    ensures FrontmatterDateToInput(s) == Some(s[..10] + "T" + s[10 + w..15 + w])
  {
    var t := s[10..];
    assert t[..w] == s[10..10 + w];
    assert t[w] == s[10 + w] && DigitAt(s[10 + w..15 + w], 0);
    WhitespaceRunIs(t, w);
  }

  /** The pattern matches exactly when the conversion gives a value. */
  lemma FrontmatterDateMatchIff(s: string)
    ensures FrontmatterDateToInput(s).Some? <==> exists w: nat :: DateMatchAt(s, w)
  {
    if FrontmatterDateToInput(s).Some? {
      assert DateMatchAt(s, LeadingWhitespace(s[10..]));
    }
    if w: nat :| DateMatchAt(s, w) {
      FrontmatterDateMatches(s, w);
    }
  }

  /** A whitespace run followed by a non-space character has exactly that length. */
  lemma {:induction false} WhitespaceRunIs(t: string, w: nat)
    requires w < |t| && AllWhitespace(t[..w]) && !IsWhitespace(t[w])
    ensures LeadingWhitespace(t) == w
    decreases w
  {
    if w > 0 {
      assert IsWhitespace(t[..w][0]);
      assert t[1..][..w - 1] == t[..w][1..];
      WhitespaceRunIs(t[1..], w - 1);
    }
  }

  /** Reading back a date formatDate wrote yields the input text of the same date-time. */
  lemma {:induction false} FrontmatterDateRoundTrip(dt: DateTime)
    requires ValidDateTime(dt) && FourDigitYear(dt)
    ensures FrontmatterDateToInput(FormatDate(dt)) == Some(InputText(dt))
  {
    var f := FormatDate(dt);
    assert f[..16] == f;
    var r := f[..10] + "T" + f[11..16];
    assert forall i :: 0 <= i < 16 && i != 10 ==> r[i] == f[i];
    assert IsStamp(r, 'T');
    assert f[0] != '0' by { assert f[0] == Decimal(dt.year)[0]; }
    assert r[0..4] == f[0..4] && r[5..7] == f[5..7] && r[8..10] == f[8..10];
    assert r[11..13] == f[11..13] && r[14..16] == f[14..16];
    assert StampValue(r) == dt;
    StampDigits(r, dt);
  }
}
