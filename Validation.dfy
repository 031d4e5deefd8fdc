/**
 * The form validators: validateFilename (tests/validation.test.js:36-73), validateTitle
 * (script.js:83-95), validateDate (script.js:97-106) and validateSummary (script.js:108-123).
 * Each writes a message next to its field and returns whether the field is acceptable; the
 * model returns both instead of writing the message element.
 */
module Validation {
  import opened Options
  import opened Text
  import opened Dates

  /** The verdict of a validator and the message it shows ("" when the field is acceptable). */
  datatype Verdict = Verdict(ok: bool, message: string)

  /** The verdict of validateSummary together with the "<count>/250" counter it displays. */
  datatype SummaryVerdict = SummaryVerdict(ok: bool, message: string, counter: string)

  /** The character class [a-z0-9-]. */
  predicate IsSlugChar(c: char) {
    'a' <= c <= 'z' || '0' <= c <= '9' || c == '-'
  }

  /** The pattern /^[a-z0-9-]+$/. */
  predicate IsSlug(s: string) {
    |s| >= 1 && forall i :: 0 <= i < |s| ==> IsSlugChar(s[i])
  }

  predicate EndsWith(s: string, suffix: string) {
    |suffix| <= |s| && s[|s| - |suffix|..] == suffix
  }

  /** s.lastIndexOf(c) for a character that occurs in s. */
  function LastIndexOf(s: string, c: char): (i: nat)
    requires c in s
    ensures i < |s| && s[i] == c
    ensures forall j :: i < j < |s| ==> s[j] != c
  {
    if s[|s| - 1] == c then |s| - 1
    else
      assert c in s[..|s| - 1] by {
        var k :| 0 <= k < |s| && s[k] == c;
        assert s[..|s| - 1][k] == c;
      }
      LastIndexOf(s[..|s| - 1], c)
  }

  /** validateFilename (tests/validation.test.js:36-73). */
  function ValidateFilename(value: string): (r: Verdict)
    ensures r.ok <==> r.message == ""
    ensures Trim(value) == [] ==> r == Verdict(false, "Filename is required for download")
    ensures '.' in Trim(value) && !EndsWith(Trim(value), ".md") ==> r == Verdict(false, "Only .md extension is allowed")
    ensures Trim(value) != [] && !('.' in Trim(value) && !EndsWith(Trim(value), ".md")) && !r.ok ==>
              r.message == "Filename must be lowercase with hyphens only"
  {
    var f := Trim(value);
    if |f| == 0 then Verdict(false, "Filename is required for download")
    else if '.' in f then
      if !EndsWith(f, ".md") then Verdict(false, "Only .md extension is allowed")
      else if !IsSlug(f[..LastIndexOf(f, '.')]) then Verdict(false, "Filename must be lowercase with hyphens only")
      else Verdict(true, "")
    else if !IsSlug(f) then Verdict(false, "Filename must be lowercase with hyphens only")
    else Verdict(true, "")
  }

  /**
   * The names validateFilename accepts: after trimming, a non-empty run of [a-z0-9-],
   * optionally followed by ".md". So "a.b.md" and ".md" are both refused.
   */
  lemma FilenameAcceptance(value: string)
    ensures var f := Trim(value);
            ValidateFilename(value).ok <==> IsSlug(f) || (EndsWith(f, ".md") && IsSlug(f[..|f| - 3]))
  {
    var f := Trim(value);
    if '.' in f && EndsWith(f, ".md") {
      MdName(f);
    } else if '.' in f {
      DottedName(f);
    }
  }

  /** A name ending in ".md" has its last dot three from the end, and is no slug. */
  lemma MdName(f: string)
    requires EndsWith(f, ".md")
    ensures '.' in f && LastIndexOf(f, '.') == |f| - 3 && !IsSlug(f)
  {
    assert f[|f| - 3] == '.' && f[|f| - 2] == 'm' && f[|f| - 1] == 'd';
    assert !IsSlugChar(f[|f| - 3]);
  }

  /** A name with a dot is no slug. */
  lemma DottedName(f: string)
    requires '.' in f
    ensures !IsSlug(f)
  {
    var k :| 0 <= k < |f| && f[k] == '.';
    assert !IsSlugChar(f[k]);
  }

  /** Appending ".md" to a name gives a name that ends in ".md" and has the name as its stem. */
  lemma AppendMd(f: string)
    ensures EndsWith(f + ".md", ".md") && (f + ".md")[..|f + ".md"| - 3] == f
  {
  }

  /** The name the download uses (tests/menu-actions.test.js:151-154): ".md" appended unless present. */
  function DownloadName(value: string): (r: string)
    ensures EndsWith(r, ".md")
    ensures ValidateFilename(value).ok ==> IsSlug(r[..|r| - 3])
  {
    var f := Trim(value);
    FilenameAcceptance(value);
    if EndsWith(f, ".md") then
      MdName(f);
      f
    else
      AppendMd(f);
      f + ".md"
  }

  /** validateTitle (script.js:83-95): at least five characters once trimmed. */
  function ValidateTitle(value: string): (r: Verdict)
    ensures r.ok <==> |Trim(value)| >= 5
    ensures r.ok <==> r.message == ""
    ensures Trim(value) == [] ==> r.message == "Title is required"
    ensures 0 < |Trim(value)| < 5 ==> r.message == "Title should be at least 5 characters"
  {
    var t := Trim(value);
    if |t| == 0 then Verdict(false, "Title is required")
    else if |t| < 5 then Verdict(false, "Title should be at least 5 characters")
    else Verdict(true, "")
  }

  /** validateDate (script.js:97-106): the date input must hold a value. */
  function ValidateDate(date: Option<DateTime>): (r: Verdict)
    ensures r.ok <==> date.Some?
    ensures !r.ok ==> r.message == "Date is required"
    ensures r.ok ==> r.message == ""
  {
    if date.None? then Verdict(false, "Date is required") else Verdict(true, "")
  }

  /**
   * validateSummary (script.js:108-123): at least ten characters once trimmed, with no upper
   * bound enforced; the counter shows the trimmed length over 250.
   */
  function ValidateSummary(value: string): (r: SummaryVerdict)
    ensures r.ok <==> |Trim(value)| >= 10
    ensures r.ok <==> r.message == ""
    ensures Trim(value) == [] ==> r.message == "Summary is required"
    ensures 0 < |Trim(value)| < 10 ==> r.message == "Summary should be at least 10 characters"
    ensures r.counter == Decimal(|Trim(value)|) + "/250"
  {
    var t := Trim(value);
    var counter := Decimal(|t|) + "/250";
    if |t| == 0 then SummaryVerdict(false, "Summary is required", counter)
    else if |t| < 10 then SummaryVerdict(false, "Summary should be at least 10 characters", counter)
    else SummaryVerdict(true, "", counter)
  }
}
