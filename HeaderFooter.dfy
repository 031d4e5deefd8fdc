/**
 * extractHeaderAndFooter (script.js:458-496): splits the body of an uploaded post into a
 * header, a footer and what remains. A saved header or footer template wins when the body
 * contains it; otherwise a short first paragraph is taken as the header, and a final block of
 * two to six lines that mentions contact details or site links is taken as the footer.
 * The saved templates are passed in as plain strings.
 */
module HeaderFooter {
  import opened Options
  import opened Text

  /** s is lo to hi non-empty lines, consecutive lines separated by one "\n". */
  predicate IsLineBlock(s: string, lo: nat, hi: nat) {
    var lines := SplitOn(s, '\n');
    lo <= |lines| <= hi && forall i :: 0 <= i < |lines| ==> lines[i] != []
  }

  /** A string with no line break is one line. */
  lemma OneLine(s: string)
    requires '\n' !in s
    ensures SplitOn(s, '\n') == [s]
  {
    SplitJoin([s], '\n');
  }

  /** Two lines without line breaks, joined by one. */
  lemma TwoLines(a: string, b: string)
    requires '\n' !in a && '\n' !in b
    ensures SplitOn(a + "\n" + b, '\n') == [a, b]
  {
    assert Join([a, b], "\n") == a + "\n" + b by {
      assert [a, b][1..] == [b];
    }
    SplitJoin([a, b], '\n');
  }

  /** The characters before position n are no line breaks. */
  lemma NoBreakBefore(c: string, n: nat)
    requires n <= |c| && forall k :: 0 <= k < n ==> c[k] != '\n'
    ensures '\n' !in c[..n]
  {
    forall k | 0 <= k < n ensures c[..n][k] != '\n' {
      assert c[k] != '\n';
    }
  }

  /**
   * The group of /^([^\n]+(?:\n[^\n]+)?)\n\n/: the first line, and the second line when the
   * two are followed by a blank line; otherwise the first line alone when it is.
   */
  function HeaderParagraph(c: string): (r: Option<string>)
    ensures r.Some? ==> IsLineBlock(r.value, 1, 2) && OccursAt(c, r.value + "\n\n", 0)
  {
    var n1 := RunUntil(c, 0, '\n');
    if n1 == 0 then None
    else if n1 + 1 < |c| && c[n1] == '\n' && RunUntil(c, n1 + 1, '\n') >= 1
            && OccursAt(c, "\n\n", n1 + 1 + RunUntil(c, n1 + 1, '\n')) then
      var n2 := RunUntil(c, n1 + 1, '\n');
      TwoLineGroup(c, n1, n2);
      Some(c[..n1 + 1 + n2])
    else if OccursAt(c, "\n\n", n1) then
      OneLineGroup(c, n1);
      Some(c[..n1])
    else None
  }

  /** The one-line header group: a line break-free prefix followed by a blank line. */
  lemma OneLineGroup(c: string, n1: nat)
    requires n1 <= |c| && forall k :: 0 <= k < n1 ==> c[k] != '\n'
    requires n1 >= 1 && OccursAt(c, "\n\n", n1)
    ensures IsLineBlock(c[..n1], 1, 2) && OccursAt(c, c[..n1] + "\n\n", 0)
  {
    NoBreakBefore(c, n1);
    OneLine(c[..n1]);
    assert c[..n1 + 2] == c[..n1] + c[n1..n1 + 2];
  }

  /** The two-line header group: two line break-free lines and a blank line after them. */
  lemma TwoLineGroup(c: string, n1: nat, n2: nat)
    requires n1 + 1 + n2 <= |c| && c[n1] == '\n' && n1 >= 1 && n2 >= 1
    requires forall k :: 0 <= k < n1 ==> c[k] != '\n'
    requires forall k :: n1 + 1 <= k < n1 + 1 + n2 ==> c[k] != '\n'
    requires OccursAt(c, "\n\n", n1 + 1 + n2)
    ensures IsLineBlock(c[..n1 + 1 + n2], 1, 2) && OccursAt(c, c[..n1 + 1 + n2] + "\n\n", 0)
  {
    var g := c[..n1 + 1 + n2];
    var a := c[..n1];
    var b := c[n1 + 1..n1 + 1 + n2];
    NoBreakBefore(c, n1);
    forall k | 0 <= k < n2 ensures b[k] != '\n' {
      assert b[k] == c[n1 + 1 + k];
      assert c[n1 + 1 + k] != '\n';
    }
    assert g == a + "\n" + b;
    TwoLines(a, b);
    assert c[..|g| + 2] == g + c[|g|..|g| + 2];
  }

  /** Every one- or two-line paragraph followed by a blank line is found as the header group. */
  lemma HeaderParagraphComplete(g: string, rest: string)
    requires IsLineBlock(g, 1, 2)
    ensures HeaderParagraph(g + "\n\n" + rest) == Some(g)
  {
    var lines := SplitOn(g, '\n');
    assert Join(lines, "\n") == g;
    var a := lines[0];
    assert a != [] && '\n' !in a;
    if |lines| == 1 {
      assert g == a;
      OneLineComplete(a, rest);
    } else {
      var b := lines[1];
      assert lines[1..] == [b];
      assert g == a + "\n" + b;
      assert b != [] && '\n' !in b;
      TwoLineComplete(a, b, rest);
    }
  }

  /** A line that occurs at i and is followed by a line break is the run RunUntil measures there. */
  lemma LineRun(c: string, i: nat, a: string)
    requires OccursAt(c, a, i) && '\n' !in a && i + |a| < |c| && c[i + |a|] == '\n'
    ensures RunUntil(c, i, '\n') == |a|
  {
    forall k | i <= k < i + |a| ensures c[k] != '\n' {
      assert c[k] == c[i..i + |a|][k - i];
    }
    RunUntilUnique(c, i, '\n', |a|);
  }

  /** One line and a blank line: the line is the header group. */
  lemma OneLineComplete(a: string, rest: string)
    requires a != [] && '\n' !in a
    ensures HeaderParagraph(a + "\n\n" + rest) == Some(a)
  {
    var c := a + "\n\n" + rest;
    assert c[..|a|] == a;
    LineRun(c, 0, a);
    assert c[|a| + 1] == '\n';
    assert OccursAt(c, "\n\n", |a|) by {
      assert c[|a|..|a| + 2] == "\n\n";
    }
  }

  /** Two lines and a blank line: the two lines are the header group. */
  lemma TwoLineComplete(a: string, b: string, rest: string)
    requires a != [] && '\n' !in a && b != [] && '\n' !in b
    ensures HeaderParagraph(a + "\n" + b + "\n\n" + rest) == Some(a + "\n" + b)
  {
    var c := a + "\n" + b + "\n\n" + rest;
    var n := |a| + 1 + |b|;
    assert c[..|a|] == a;
    LineRun(c, 0, a);
    assert c[|a| + 1..n] == b;
    LineRun(c, |a| + 1, b);
    assert OccursAt(c, "\n\n", n) by {
      assert c[n..n + 2] == "\n\n";
    }
    assert c[..n] == a + "\n" + b;
  }

  /** /\n\n([^\n]+(?:\n[^\n]+){1,5})$/ matches at p: a blank line, then 2 to 6 lines up to the end. */
  predicate FooterAt(c: string, p: nat) {
    OccursAt(c, "\n\n", p) && IsLineBlock(c[p + 2..], 2, 6)
  }

  /** String.prototype.match with the footer pattern: the leftmost position at or after from. */
  function FooterFrom(c: string, from: nat): (r: Option<nat>)
    ensures r.Some? ==> from <= r.value && FooterAt(c, r.value)
                        && forall q :: from <= q < r.value ==> !FooterAt(c, q)
    ensures r.None? ==> forall q :: from <= q ==> !FooterAt(c, q)
    decreases |c| - from
  {
    if from + 2 > |c| then None
    else if FooterAt(c, from) then Some(from)
    else FooterFrom(c, from + 1)
  }

  function FooterMatch(c: string): Option<nat> {
    FooterFrom(c, 0)
  }

  /** Lines that are all non-empty, joined by single line breaks, hold no blank line. */
  lemma {:induction false} NoBlankLineInBlock(lines: seq<string>)
    requires |lines| >= 1
    requires forall i :: 0 <= i < |lines| ==> lines[i] != [] && '\n' !in lines[i]
    ensures var s := Join(lines, "\n");
            |s| >= 1 && s[0] != '\n' && forall j :: 0 <= j ==> !OccursAt(s, "\n\n", j)
  {
    var a := lines[0];
    if |lines| == 1 {
      LineNoBlank(a);
    } else {
      NoBlankLineInBlock(lines[1..]);
      JoinNoBlank(a, Join(lines[1..], "\n"));
    }
  }

  /** One non-empty line holds no blank line. */
  lemma LineNoBlank(a: string)
    requires a != [] && '\n' !in a
    ensures a[0] != '\n' && forall j :: 0 <= j ==> !OccursAt(a, "\n\n", j)
  {
    forall j: nat | j + 2 <= |a| ensures !OccursAt(a, "\n\n", j) {
      assert a[j..j + 2][0] == a[j] && a[j] in a;
    }
    assert a[0] in a;
  }

  /** A line, a line break and a block without blank lines hold no blank line. */
  lemma JoinNoBlank(a: string, t: string)
    requires a != [] && '\n' !in a && |t| >= 1 && t[0] != '\n'
    requires forall j :: 0 <= j ==> !OccursAt(t, "\n\n", j)
    ensures var s := a + "\n" + t;
            s[0] != '\n' && forall j :: 0 <= j ==> !OccursAt(s, "\n\n", j)
  {
    var s := a + "\n" + t;
    forall j: nat | j + 2 <= |s| ensures !OccursAt(s, "\n\n", j) {
      if j < |a| {
        assert s[j..j + 2][0] == s[j] == a[j] && a[j] in a;
      } else if j == |a| {
        assert s[j..j + 2][1] == t[0];
      } else {
        assert s[j..j + 2] == t[j - |a| - 1..j - |a| + 1];
        assert !OccursAt(t, "\n\n", j - |a| - 1);
      }
    }
    assert s[0] == a[0] && a[0] in a;
  }

  /** The footer pattern can only match at the last blank line of c. */
  lemma FooterAtLastBlankLine(c: string, p: nat)
    ensures FooterAt(c, p) ==> forall j :: p < j ==> !OccursAt(c, "\n\n", j)
  {
    if FooterAt(c, p) {
      var s := c[p + 2..];
      var lines := SplitOn(s, '\n');
      NoBlankLineInBlock(lines);
      forall j | p < j ensures !OccursAt(c, "\n\n", j) {
        if j == p + 1 && j + 2 <= |c| {
          assert c[j..j + 2][1] == c[p + 2] == s[0];
        } else if j >= p + 2 && j + 2 <= |c| {
          assert c[j..j + 2] == s[j - p - 2..j - p];
          assert !OccursAt(s, "\n\n", j - p - 2);
        }
      }
    }
  }

  /** A blank line followed by 2 to 6 lines at the very end is where the footer pattern matches. */
  lemma FooterMatchComplete(before: string, f: string)
    requires IsLineBlock(f, 2, 6)
    ensures FooterMatch(before + "\n\n" + f) == Some(|before|)
  {
    var c := before + "\n\n" + f;
    assert OccursAt(c, "\n\n", |before|) by {
      assert c[|before|..|before| + 2] == "\n\n";
    }
    assert c[|before| + 2..] == f;
    assert FooterAt(c, |before|);
    forall q | 0 <= q < |before| ensures !FooterAt(c, q) {
      FooterAtLastBlankLine(c, q);
    }
  }

  /** The footer heuristic only takes a block that mentions contact details or site links. */
  predicate MentionsFooterMarker(f: string) {
    Contains(f, "Contact") || Contains(f, "{filename}") || Contains(f, "{static}")
  }

  /** The header and footer templates saved in the editor ("" when none is saved). */
  datatype Templates = Templates(header: string, footer: string)

  /** What extractHeaderAndFooter returns. */
  datatype Extracted = Extracted(header: string, footer: string, remaining: string)

  /** The header stage: the header found in content and the content left after it. */
  function HeaderStage(content: string, template: string): (r: (string, string))
    ensures template != [] && Contains(content, template) ==> r == (template, Trim(ReplaceFirst(content, template)))
    ensures !(template != [] && Contains(content, template)) ==>
              (r.0 != [] <==> HeaderParagraph(content).Some? && |HeaderParagraph(content).value| < 200)
    ensures !(template != [] && Contains(content, template)) && r.0 != [] ==>
              content == r.0 + "\n\n" + r.1 && IsLineBlock(r.0, 1, 2) && |r.0| < 200
    ensures !(template != [] && Contains(content, template)) && r.0 == [] ==> r.1 == content
  {
    if template != [] && Contains(content, template) then
      (template, Trim(ReplaceFirst(content, template)))
    else
      match HeaderParagraph(content)
      case Some(g) =>
        if |g| < 200 then
          ReplaceFirstPrefix(content, g + "\n\n");
          assert content == g + "\n\n" + content[|g| + 2..] by {
            assert content[..|g| + 2] == g + "\n\n";
          }
          assert g != [] by { assert |SplitOn(g, '\n')| >= 1; assert SplitOn(g, '\n')[0] != []; assert Join(SplitOn(g, '\n'), "\n") == g; JoinFirst(SplitOn(g, '\n'), "\n"); }
          (g, ReplaceFirst(content, g + "\n\n"))
        else ([], content)
      case None => ([], content)
  }

  /** The first part is where a join starts. */
  lemma JoinFirst(parts: seq<string>, sep: string)
    requires |parts| >= 1
    ensures |Join(parts, sep)| >= |parts[0]| && Join(parts, sep)[..|parts[0]|] == parts[0]
  {
    if |parts| > 1 {
      assert Join(parts, sep) == parts[0] + (sep + Join(parts[1..], sep));
    }
  }

  /**
   * The footer stage. The template is looked for in the original content but removed from
   * what the header stage left; the heuristic works on what the header stage left.
   */
  function FooterStage(content: string, remaining: string, template: string): (r: (string, string))
    ensures template != [] && Contains(content, template) ==> r == (template, Trim(ReplaceFirst(remaining, template)))
    ensures !(template != [] && Contains(content, template)) ==>
              (r.0 != [] <==> FooterMatch(remaining).Some?
                              && MentionsFooterMarker(remaining[FooterMatch(remaining).value + 2..]))
    ensures !(template != [] && Contains(content, template)) && r.0 != [] ==>
              var p := FooterMatch(remaining).value;
              r.0 == remaining[p + 2..] && r.1 == ReplaceFirst(remaining, remaining[p..])
    ensures !(template != [] && Contains(content, template)) && r.0 == [] ==> r.1 == remaining
  {
    if template != [] && Contains(content, template) then
      (template, Trim(ReplaceFirst(remaining, template)))
    else
      match FooterMatch(remaining)
      case Some(p) =>
        if MentionsFooterMarker(remaining[p + 2..]) then
          assert remaining[p + 2..] != [] by {
            var lines := SplitOn(remaining[p + 2..], '\n');
            JoinFirst(lines, "\n");
          }
          (remaining[p + 2..], ReplaceFirst(remaining, remaining[p..]))
        else ([], remaining)
      case None => ([], remaining)
  }

  /** extractHeaderAndFooter as a value: the header stage, then the footer stage. */
  function SplitHeaderFooter(content: string, templates: Templates): Extracted {
    var (header, afterHeader) := HeaderStage(content, templates.header);
    var (footer, remaining) := FooterStage(content, afterHeader, templates.footer);
    Extracted(header, footer, remaining)
  }

  /** The header half of extractHeaderAndFooter: the header and the content left after it. */
  method FindHeader(content: string, template: string) returns (header: string, remaining: string)
    ensures (header, remaining) == HeaderStage(content, template)
  {
    header := "";
    remaining := content;
    if template != [] && Contains(content, template) {
      header := template;
      remaining := Trim(ReplaceFirst(remaining, template));
    } else {
      var paragraph := HeaderParagraph(remaining);
      if paragraph.Some? && |paragraph.value| < 200 {
        header := paragraph.value;
        remaining := ReplaceFirst(remaining, paragraph.value + "\n\n");
      }
    }
  }

  /** The footer half: the template is looked for in content, the rest works on remaining. */
  method FindFooter(content: string, remaining: string, template: string) returns (footer: string, rest: string)
    ensures (footer, rest) == FooterStage(content, remaining, template)
  {
    footer := "";
    rest := remaining;
    if template != [] && Contains(content, template) {
      footer := template;
      rest := Trim(ReplaceFirst(rest, template));
    } else {
      var block := FooterMatch(rest);
      if block.Some? && MentionsFooterMarker(rest[block.value + 2..]) {
        footer := rest[block.value + 2..];
        rest := ReplaceFirst(rest, rest[block.value..]);
      }
    }
  }

  /** extractHeaderAndFooter: the header stage, then the footer stage on what is left. */
  method ExtractHeaderAndFooter(content: string, templates: Templates) returns (r: Extracted)
    ensures r == SplitHeaderFooter(content, templates)
  {
    var header, remaining := FindHeader(content, templates.header);
    var footer;
    footer, remaining := FindFooter(content, remaining, templates.footer);
    r := Extracted(header, footer, remaining);
  }

  /** The header heuristic needs a blank line in the content. */
  lemma HeaderNeedsBlankLine(c: string)
    ensures HeaderParagraph(c).Some? ==> Contains(c, "\n\n")
  {
    if HeaderParagraph(c).Some? {
      var g := HeaderParagraph(c).value;
      assert c[|g|..|g| + 2] == c[..|g| + 2][|g|..] == (g + "\n\n")[|g|..];
      ContainsIff(c, "\n\n");
      assert OccursAt(c, "\n\n", |g|);
    }
  }

  /** So does the footer heuristic. */
  lemma FooterNeedsBlankLine(c: string)
    ensures FooterMatch(c).Some? ==> Contains(c, "\n\n")
  {
    ContainsIff(c, "\n\n");
  }

  /** Content without a blank line and without templates passes through whole. */
  lemma NoBlankLineNoSplit(content: string)
    requires !Contains(content, "\n\n")
    ensures SplitHeaderFooter(content, Templates("", "")) == Extracted("", "", content)
  {
    HeaderNeedsBlankLine(content);
    FooterNeedsBlankLine(content);
  }

  /**
   * The heuristic footer is removed with String.prototype.replace, which cuts the first copy
   * of "\n\n" + footer: when the same block also stands earlier, that earlier copy goes and the
   * footer itself stays in the remaining content.
   */
  lemma FooterRemovesFirstCopy(f: string)
    requires IsLineBlock(f, 2, 6) && MentionsFooterMarker(f)
    ensures SplitHeaderFooter("\n\n" + f + "\n\n" + f, Templates("", "")) == Extracted("", f, "\n\n" + f)
  {
    var c := "\n\n" + f + "\n\n" + f;
    assert RunUntil(c, 0, '\n') == 0;
    assert HeaderStage(c, "") == ([], c);
    assert c == ("\n\n" + f) + "\n\n" + f;
    FooterMatchComplete("\n\n" + f, f);
    var p := |f| + 2;
    assert c[p + 2..] == f;
    assert c[p..] == "\n\n" + f;
    ReplaceFirstPrefix(c, c[p..]);
    assert c[|c[p..]|..] == "\n\n" + f;
    assert FooterStage(c, c, "") == (f, "\n\n" + f);
  }

  /** A one- or two-line opening paragraph under 200 characters becomes the header ("Hello\n\nWorld"). */
  lemma ShortParagraphIsHeader(g: string, rest: string)
    requires IsLineBlock(g, 1, 2) && |g| < 200
    requires !Contains(rest, "\n\n")
    ensures SplitHeaderFooter(g + "\n\n" + rest, Templates("", "")) == Extracted(g, "", rest)
  {
    HeaderParagraphComplete(g, rest);
    var c := g + "\n\n" + rest;
    ReplaceFirstPrefix(c, g + "\n\n");
    assert c[|g + "\n\n"|..] == rest;
    FooterNeedsBlankLine(rest);
  }
}
