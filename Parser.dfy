/**
 * parseMarkdownFile (script.js:368-455): an uploaded post is split into its YAML
 * frontmatter and its content, the frontmatter fields are copied into the editor form, and
 * the content goes through extractHeaderAndFooter. The frontmatter is found with
 * /^---\s*[\r\n]+(.*?)[\r\n]+---\s*[\r\n]+/s, written out below as a search that follows
 * the backtracking order of the regular-expression engine. The YAML library (jsyaml.load)
 * and the Date constructor are parameters.
 */
module Parser {
  import opened Options
  import opened Text
  import opened Dates
  import opened HeaderFooter
  import opened Preview

  /** The length of the run of whitespace characters (\s* read greedily) that starts at c[i]. */
  function WhitespaceRun(c: string, i: nat): (n: nat)
    requires i <= |c|
    ensures i + n <= |c|
    ensures i + n < |c| ==> !IsWhitespace(c[i + n])
    decreases |c| - i
  {
    if i == |c| || !IsWhitespace(c[i]) then 0 else 1 + WhitespaceRun(c, i + 1)
  }

  /** Everything WhitespaceRun counts is whitespace. */
  lemma {:induction false} WhitespaceRunAll(c: string, i: nat)
    requires i <= |c|
    ensures forall k :: i <= k < i + WhitespaceRun(c, i) ==> IsWhitespace(c[k])
    decreases |c| - i
  {
    if i < |c| && IsWhitespace(c[i]) {
      WhitespaceRunAll(c, i + 1);
    }
  }

  /** The length of the run of line breaks ([\r\n]* read greedily) that starts at c[i]. */
  function LineBreakRun(c: string, i: nat): (n: nat)
    requires i <= |c|
    ensures i + n <= |c|
    ensures i + n < |c| ==> !IsLineBreak(c[i + n])
    decreases |c| - i
  {
    if i == |c| || !IsLineBreak(c[i]) then 0 else 1 + LineBreakRun(c, i + 1)
  }

  /** Everything LineBreakRun counts is a line break. */
  lemma {:induction false} LineBreakRunAll(c: string, i: nat)
    requires i <= |c|
    ensures forall k :: i <= k < i + LineBreakRun(c, i) ==> IsLineBreak(c[k])
    decreases |c| - i
  {
    if i < |c| && IsLineBreak(c[i]) {
      LineBreakRunAll(c, i + 1);
    }
  }

  /** The position of the last line break in c[i..j], if there is one. */
  function LastLineBreak(c: string, i: nat, j: nat): (r: Option<nat>)
    requires i <= j <= |c|
    ensures r.Some? ==> i <= r.value < j && IsLineBreak(c[r.value])
    decreases j - i
  {
    if j == i then None
    else if IsLineBreak(c[j - 1]) then Some(j - 1)
    else LastLineBreak(c, i, j - 1)
  }

  /** No line break in c[i..j] comes after the one LastLineBreak finds. */
  lemma {:induction false} LastLineBreakIsLast(c: string, i: nat, j: nat, k: nat)
    requires i <= k < j <= |c| && IsLineBreak(c[k])
    ensures LastLineBreak(c, i, j).Some? && k <= LastLineBreak(c, i, j).value
    decreases j - i
  {
    if !IsLineBreak(c[j - 1]) {
      LastLineBreakIsLast(c, i, j - 1, k);
    }
  }

  /** The three dashes of a fence start at c[p]. */
  predicate FenceAt(c: string, p: nat) {
    p + 3 <= |c| && c[p] == '-' && c[p + 1] == '-' && c[p + 2] == '-'
  }

  /** ^---\s*[\r\n]+ can end at g: "---", then whitespace up to g, the last of it a line break. */
  predicate Opening(c: string, g: nat) {
    4 <= g <= |c| && FenceAt(c, 0) && (forall k :: 3 <= k < g ==> IsWhitespace(c[k]))
    && IsLineBreak(c[g - 1])
  }

  /**
   * [\r\n]+---\s*[\r\n]+ can run from t to e: line breaks from t up to p, "---" at p, then
   * whitespace up to e, the last of it a line break.
   */
  predicate Closing(c: string, t: nat, p: nat, e: nat) {
    t < p && p + 3 < e <= |c| && (forall k :: t <= k < p ==> IsLineBreak(c[k]))
    && FenceAt(c, p) && (forall k :: p + 3 <= k < e ==> IsWhitespace(c[k]))
    && IsLineBreak(c[e - 1])
  }

  /** The frontmatter pattern can match c[..e] with the group (.*?) spanning c[g..t]. */
  predicate Matches(c: string, g: nat, t: nat, p: nat, e: nat) {
    Opening(c, g) && g <= t && Closing(c, t, p, e)
  }

  /**
   * The closing part of the pattern at t, as the engine reads it: the line breaks greedily,
   * "---", and the whitespace greedily, given back up to its last line break. The result is
   * where the match ends.
   */
  function TailAt(c: string, t: nat): Option<nat>
    requires t <= |c|
  {
    var p := t + LineBreakRun(c, t);
    if p == t || !FenceAt(c, p) then None
    else
      match LastLineBreak(c, p + 3, p + 3 + WhitespaceRun(c, p + 3))
      case None => None
      case Some(q) => Some(q + 1)
  }

  /** Where TailAt succeeds, the closing part of the pattern does run from t to its result. */
  lemma TailAtSound(c: string, t: nat)
    requires t <= |c| && TailAt(c, t).Some?
    ensures Closing(c, t, t + LineBreakRun(c, t), TailAt(c, t).value)
  {
    LineBreakRunAll(c, t);
    WhitespaceRunAll(c, t + LineBreakRun(c, t) + 3);
  }

  /** Whenever the closing part can run from t to e, TailAt finds it, ending at e or later. */
  lemma TailAtComplete(c: string, t: nat, p: nat, e: nat)
    requires Closing(c, t, p, e)
    ensures TailAt(c, t).Some? && e <= TailAt(c, t).value
  {
    var n := LineBreakRun(c, t);
    LineBreakRunAll(c, t);
    assert n == p - t;
    var w := WhitespaceRun(c, p + 3);
    WhitespaceRunAll(c, p + 3);
    assert e <= p + 3 + w;
    LastLineBreakIsLast(c, p + 3, p + 3 + w, e - 1);
  }

  /** The lazy group (.*?) from `from`: the first position at which the closing part matches. */
  function GroupFrom(c: string, from: nat): (r: Option<nat>)
    requires from <= |c|
    ensures r.Some? ==> from <= r.value <= |c| && TailAt(c, r.value).Some?
    decreases |c| - from
  {
    if TailAt(c, from).Some? then Some(from)
    else if from == |c| then None
    else GroupFrom(c, from + 1)
  }

  /** The group is the shortest one: the closing part matches nowhere before its end. */
  lemma {:induction false} GroupFromFirst(c: string, from: nat, t: nat)
    requires from <= t <= |c| && TailAt(c, t).Some?
    ensures GroupFrom(c, from).Some? && GroupFrom(c, from).value <= t
    decreases t - from
  {
    if TailAt(c, from).None? {
      GroupFromFirst(c, from + 1, t);
    }
  }

  /** Positions where the closing part does not match are skipped over. */
  lemma {:induction false} GroupFromSkip(c: string, from: nat, x: nat)
    requires from <= x <= |c| && forall t :: from <= t < x ==> TailAt(c, t).None?
    ensures GroupFrom(c, from) == GroupFrom(c, x)
    decreases x - from
  {
    if from < x {
      GroupFromSkip(c, from + 1, x);
    }
  }

  /**
   * The group starts the engine tries, from g down: each position just after a line break
   * of the opening whitespace, the latest first (\s* gives back one character at a time,
   * and [\r\n]+ takes as many line breaks as it can).
   */
  function StartFrom(c: string, g: nat): (r: Option<nat>)
    requires g <= |c|
    ensures r.Some? ==> 4 <= r.value <= g && IsLineBreak(c[r.value - 1]) && GroupFrom(c, r.value).Some?
    decreases g
  {
    if g < 4 then None
    else if IsLineBreak(c[g - 1]) && GroupFrom(c, g).Some? then Some(g)
    else StartFrom(c, g - 1)
  }

  /** No group start after the one StartFrom picks leads to a match. */
  lemma {:induction false} StartFromLatest(c: string, g: nat, h: nat)
    requires g <= |c| && 4 <= h <= g && IsLineBreak(c[h - 1]) && GroupFrom(c, h).Some?
    ensures StartFrom(c, g).Some? && h <= StartFrom(c, g).value
    decreases g
  {
    if !(IsLineBreak(c[g - 1]) && GroupFrom(c, g).Some?) {
      StartFromLatest(c, g - 1, h);
    }
  }

  /** A match of the frontmatter pattern: the group is c[groupStart..groupEnd], the match c[..end]. */
  datatype FrontmatterMatch = FrontmatterMatch(groupStart: nat, groupEnd: nat, end: nat)

  /** content.match(frontmatterRegex): the pattern is anchored, so it is tried at 0 only. */
  function MatchFrontmatter(c: string): Option<FrontmatterMatch>
  {
    if !FenceAt(c, 0) then None
    else
      match StartFrom(c, 3 + WhitespaceRun(c, 3))
      case None => None
      case Some(g) =>
        var t := GroupFrom(c, g).value;
        Some(FrontmatterMatch(g, t, TailAt(c, t).value))
  }

  /** A match found is a match of the pattern, its group ending where the closing line breaks start. */
  lemma MatchFrontmatterSound(c: string, m: FrontmatterMatch)
    requires MatchFrontmatter(c) == Some(m)
    ensures m.groupEnd <= |c| && Matches(c, m.groupStart, m.groupEnd, m.groupEnd + LineBreakRun(c, m.groupEnd), m.end)
  {
    var w := WhitespaceRun(c, 3);
    var s := MatchedStart(c, m, w);
    MatchFrontmatterAt(c, w, s);
    var t := GroupFrom(c, s).value;
    MatchesFound(c, w, m);
  }

  /** The pieces the search puts together make a match of the pattern. */
  lemma MatchesFound(c: string, w: nat, m: FrontmatterMatch)
    requires 3 <= |c| && w == WhitespaceRun(c, 3) && FenceAt(c, 0) && StartFrom(c, 3 + w) == Some(m.groupStart)
    requires GroupFrom(c, m.groupStart) == Some(m.groupEnd) && TailAt(c, m.groupEnd) == Some(m.end)
    ensures m.groupEnd <= |c| && Matches(c, m.groupStart, m.groupEnd, m.groupEnd + LineBreakRun(c, m.groupEnd), m.end)
  {
    TailAtSound(c, m.groupEnd);
    OpeningWithin(c, w, m.groupStart);
    assert Opening(c, m.groupStart) && m.groupStart <= m.groupEnd;
  }

  /** A match found starts its group where StartFrom says. */
  lemma MatchedStart(c: string, m: FrontmatterMatch, w: nat) returns (s: nat)
    requires MatchFrontmatter(c) == Some(m) && 3 <= |c| && w == WhitespaceRun(c, 3)
    ensures FenceAt(c, 0) && StartFrom(c, 3 + w) == Some(s)
  {
    s := StartFrom(c, 3 + w).value;
  }

  /** Every line break of the whitespace after the opening dashes can end the opening part. */
  lemma OpeningWithin(c: string, w: nat, g: nat)
    requires 3 <= |c| && w == WhitespaceRun(c, 3) && FenceAt(c, 0)
    requires 4 <= g <= 3 + w && IsLineBreak(c[g - 1])
    ensures Opening(c, g)
  {
    WhitespaceRunAll(c, 3);
  }

  /**
   * The match is the one the engine's backtracking order picks: whenever the pattern can
   * match at all, one is found, and among all the ways it can match it has the latest
   * group start, then for that start the shortest group, then the longest ending.
   */
  lemma MatchFrontmatterLatest(c: string, g: nat, t: nat, p: nat, e: nat)
    requires Matches(c, g, t, p, e)
    ensures MatchFrontmatter(c).Some?
    ensures var m := MatchFrontmatter(c).value;
            g <= m.groupStart && (g == m.groupStart ==> m.groupEnd <= t)
            && (g == m.groupStart && t == m.groupEnd ==> e <= m.end)
  {
    TailAtComplete(c, t, p, e);
    var w := OpeningWithinRun(c, g);
    GroupFromFirst(c, g, t);
    StartFromLatest(c, 3 + w, g);
    var s := StartFrom(c, 3 + w).value;
    MatchFrontmatterAt(c, w, s);
  }

  /** A group start that can begin a match lies within the whitespace after the opening dashes. */
  lemma OpeningWithinRun(c: string, g: nat) returns (w: nat)
    requires Opening(c, g)
    ensures 3 <= |c| && w == WhitespaceRun(c, 3) && g <= 3 + w
  {
    w := WhitespaceRun(c, 3);
  }

  /** The match, given where the engine starts the group. */
  lemma MatchFrontmatterAt(c: string, w: nat, s: nat)
    requires 3 <= |c| && w == WhitespaceRun(c, 3) && FenceAt(c, 0) && StartFrom(c, 3 + w) == Some(s)
    ensures GroupFrom(c, s).Some? && TailAt(c, GroupFrom(c, s).value).Some?
    ensures MatchFrontmatter(c) == Some(FrontmatterMatch(s, GroupFrom(c, s).value, TailAt(c, GroupFrom(c, s).value).value))
  {
  }

  /** The preview of a form without any field is not read back as frontmatter. */
  lemma EmptyFrontmatterNotRecognized(rest: string)
    requires !Contains(rest, "---")
    ensures MatchFrontmatter("---\n---\n\n" + rest).None?
  {
    var c := "---\n---\n\n" + rest;
    assert WhitespaceRun(c, 3) == 1 by {
      assert IsWhitespace(c[3]) && !IsWhitespace(c[4]);
    }
    ContainsIff(rest, "---");
    forall t | 4 <= t <= |c| ensures TailAt(c, t).None? {
      NoClosingAfterFence(c, rest, t);
    }
    GroupFromSkip(c, 4, |c|);
  }

  /** In "---\n---\n\n" + rest, with no "---" in rest, the closing part matches nowhere after the first fence. */
  lemma NoClosingAfterFence(c: string, rest: string, t: nat)
    requires c == "---\n---\n\n" + rest && forall i :: 0 <= i ==> !OccursAt(rest, "---", i)
    requires 4 <= t <= |c|
    ensures TailAt(c, t).None?
  {
    var p := t + LineBreakRun(c, t);
    assert c[7] == '\n' && c[8] == '\n';
    if 8 < p {
      FenceInRest(c, rest, p);
    }
  }

  /** A fence after the first nine characters of "---\n---\n\n" + rest is a fence in rest. */
  lemma FenceInRest(c: string, rest: string, p: nat)
    requires c == "---\n---\n\n" + rest && 8 < p
    ensures FenceAt(c, p) ==> OccursAt(rest, "---", p - 9)
  {
    if FenceAt(c, p) {
      assert rest[p - 9..p - 6] == "---";
    }
  }

  /**
   * A frontmatter with nothing between a blank line and the second fence still matches:
   * the engine gives back the last line break of the opening whitespace to the group's
   * closing part, and the group is empty.
   */
  lemma BlankFrontmatterMatches()
    ensures MatchFrontmatter("---\n\n---\n") == Some(FrontmatterMatch(4, 4, 9))
  {
    var c := "---\n\n---\n";
    assert WhitespaceRun(c, 3) == 2 by {
      assert IsWhitespace(c[3]) && IsWhitespace(c[4]) && !IsWhitespace(c[5]);
    }
    forall t | 5 <= t <= |c| ensures TailAt(c, t).None? {
      BlankTailAfter(c, t);
    }
    GroupFromSkip(c, 5, |c|);
    BlankTailAtGroup(c);
  }

  /** In "---\n\n---\n" no closing part starts after the blank line. */
  lemma BlankTailAfter(c: string, t: nat)
    requires c == "---\n\n---\n" && 5 <= t <= |c|
    ensures TailAt(c, t).None?
  {
    if t == 8 {
      assert LineBreakRun(c, 8) == 1;
    }
  }

  /** In "---\n\n---\n" the closing part starting at the blank line runs to the end. */
  lemma BlankTailAtGroup(c: string)
    requires c == "---\n\n---\n"
    ensures TailAt(c, 4) == Some(9)
  {
    assert LineBreakRun(c, 4) == 1;
    assert WhitespaceRun(c, 8) == 1;
  }

  /**
   * A value of the loaded frontmatter, as far as parseMarkdownFile can tell values apart: a
   * string, an array (its items as the text they convert to), or anything else, with its
   * JavaScript truthiness and the text it converts to.
   */
  datatype YamlValue = YString(s: string) | YList(items: seq<string>) | YOther(truthy: bool, text: string)

  /**
   * The keys of the loaded frontmatter that the parser reads; None for a missing key
   * (undefined). Other keys play no part.
   */
  datatype FrontmatterFields = FrontmatterFields(
    title: Option<YamlValue>, date: Option<YamlValue>, tags: Option<YamlValue>, summary: Option<YamlValue>)

  /**
   * What jsyaml.load returns: an object, or null/undefined (an empty frontmatter). A scalar
   * or an array has none of the keys the parser reads, and is a Mapping without them.
   */
  datatype YamlDocument = Mapping(fields: FrontmatterFields) | NoDocument

  /** jsyaml.load either throws or returns a document. */
  datatype LoadOutcome = LoadFailed | Loaded(doc: YamlDocument)

  /**
   * How parseMarkdownFile ends: the success alert, the no-frontmatter alert, or the error
   * alert of its catch block.
   */
  datatype ParseStatus = Parsed | NoFrontmatter | YamlError

  /** The editor form after parseMarkdownFile, and which alert it ends with. */
  datatype ParseResult = ParseResult(doc: PostDocument, status: ParseStatus)

  /** JavaScript truthiness: a non-empty string, any array, or whatever the other value is. */
  predicate Truthy(v: Option<YamlValue>) {
    match v
    case None => false
    case Some(YString(s)) => s != []
    case Some(YList(_)) => true
    case Some(YOther(truthy, _)) => truthy
  }

  /** The text an input element's value holds after the value is assigned to it. */
  function InputValue(v: YamlValue): string {
    match v
    case YString(s) => s
    case YList(items) => Join(items, ",")
    case YOther(_, text) => text
  }

  /** What `${year}-${month}-...` gives for an Invalid Date. */
  const InvalidDateText := "NaN-NaN-NaNTNaN:NaN"

  /**
   * The text script.js assigns to the date input for a string Date: the reformatted
   * "YYYY-MM-DD HH:MM" prefix when there is one, otherwise the Date constructor's reading of
   * the string (parseDate, None for an Invalid Date) written out field by field.
   */
  function DateInputText(s: string, parseDate: string -> Option<DateTime>): (r: string)
    ensures FrontmatterDateToInput(s).Some? ==> r == FrontmatterDateToInput(s).value
    ensures FrontmatterDateToInput(s).None? && parseDate(s).Some? ==> r == InputText(parseDate(s).value)
    ensures FrontmatterDateToInput(s).None? && parseDate(s).None? ==> DecodeInputDate(r).None?
  {
    match FrontmatterDateToInput(s)
    case Some(text) => text
    case None =>
      match parseDate(s)
      case Some(dt) => InputText(dt)
      case None => InvalidDateText
  }

  /** The Title step: a truthy Title is assigned to the title input. */
  function SetTitle(form: PostDocument, fields: FrontmatterFields): (r: PostDocument)
    ensures Truthy(fields.title) ==> r == form.(title := InputValue(fields.title.value))
    ensures !Truthy(fields.title) ==> r == form
  {
    if Truthy(fields.title) then form.(title := InputValue(fields.title.value)) else form
  }

  /**
   * The Date step. A truthy Date that is not a string has no match method, and the call
   * throws (None); a string is turned into input text, which the datetime-local input keeps
   * only when it is a valid date-time.
   */
  function SetDate(form: PostDocument, fields: FrontmatterFields, parseDate: string -> Option<DateTime>): (r: Option<PostDocument>)
    ensures !Truthy(fields.date) ==> r == Some(form)
    ensures Truthy(fields.date) ==> (r.None? <==> !fields.date.value.YString?)
    ensures r.Some? ==> r.value == form.(date := r.value.date)
    ensures Truthy(fields.date) && fields.date.value.YString? ==>
              r == Some(form.(date := DecodeInputDate(DateInputText(fields.date.value.s, parseDate))))
  {
    if !Truthy(fields.date) then Some(form)
    else
      match fields.date.value
      case YString(s) => Some(form.(date := DecodeInputDate(DateInputText(s, parseDate))))
      case _ => None
  }

  /**
   * The Tags step: a truthy string is split on commas and each piece trimmed, an array is
   * taken as it is, and any other truthy value empties the tag list.
   */
  function SetTags(form: PostDocument, fields: FrontmatterFields): (r: PostDocument)
    ensures r == form.(tags := r.tags)
    ensures !Truthy(fields.tags) ==> r == form
    ensures Truthy(fields.tags) && fields.tags.value.YString? ==>
              |r.tags| == |SplitOn(fields.tags.value.s, ',')|
              && forall i :: 0 <= i < |r.tags| ==> r.tags[i] == Trim(SplitOn(fields.tags.value.s, ',')[i])
    ensures Truthy(fields.tags) && fields.tags.value.YList? ==> r.tags == fields.tags.value.items
    ensures Truthy(fields.tags) && fields.tags.value.YOther? ==> r.tags == []
  {
    if !Truthy(fields.tags) then form
    else
      match fields.tags.value
      case YString(s) => form.(tags := MapTrim(SplitOn(s, ',')))
      case YList(items) => form.(tags := items)
      case YOther(_, _) => form.(tags := [])
  }

  /** The Summary step: a truthy Summary is assigned to the summary input. */
  function SetSummary(form: PostDocument, fields: FrontmatterFields): (r: PostDocument)
    ensures Truthy(fields.summary) ==> r == form.(summary := InputValue(fields.summary.value))
    ensures !Truthy(fields.summary) ==> r == form
  {
    if Truthy(fields.summary) then form.(summary := InputValue(fields.summary.value)) else form
  }

  /**
   * A string Date starting "YYYY-MM-DD HH:MM" is written into the date input as
   * "YYYY-MM-DDTHH:MM", whatever the Date constructor would make of it.
   */
  lemma DateFieldReformatted(form: PostDocument, fields: FrontmatterFields, s: string, parseDate: string -> Option<DateTime>)
    requires fields.date == Some(YString(s)) && |s| >= 16 && IsStamp(s[..16], ' ')
    ensures SetDate(form, fields, parseDate) == Some(form.(date := DecodeInputDate(s[..10] + "T" + s[11..16])))
  {
  }

  /** Tags read from a string are not checked for repeats, unlike the ones addTag adds. */
  lemma ParsedTagsMayRepeat(form: PostDocument, tag: string)
    requires IsTrimmed(tag) && ',' !in tag
    ensures SetTags(form, FrontmatterFields(None, None, Some(YString(tag + "," + tag)), None)).tags == [tag, tag]
  {
    var parts := JoinTwice(tag);
    TrimTwice(tag, parts);
  }

  /** Trimming tags that are already trimmed changes nothing. */
  lemma {:induction false} TrimTwice(tag: string, parts: seq<string>)
    requires forall i :: 0 <= i < |parts| ==> parts[i] == tag
    requires IsTrimmed(tag)
    ensures MapTrim(parts) == parts
  {
    if parts != [] {
      TrimTwice(tag, parts[1..]);
      TrimTrimmed(parts[0]);
    }
  }

  /** A tag, a comma and the tag again split into the tag twice. */
  lemma JoinTwice(tag: string) returns (parts: seq<string>)
    requires ',' !in tag
    ensures parts == [tag, tag] && SplitOn(tag + "," + tag, ',') == parts
  {
    parts := [tag, tag];
    assert Join(parts, [',']) == tag + "," + tag by {
      assert Join(parts[1..], [',']) == tag;
    }
    SplitJoin(parts, ',');
  }

  /** The form after the field steps, and whether one of them threw. */
  datatype Applied = Applied(doc: PostDocument, thrown: bool)

  /**
   * The field steps in the order script.js runs them. A throw in the Date step leaves the
   * title already assigned and skips Tags and Summary.
   */
  function ApplyFields(form: PostDocument, fields: FrontmatterFields, parseDate: string -> Option<DateTime>): (r: Applied)
    ensures r.thrown <==> Truthy(fields.date) && !fields.date.value.YString?
    ensures r.thrown ==> r.doc == SetTitle(form, fields)
    ensures !r.thrown ==> r.doc.date == SetDate(SetTitle(form, fields), fields, parseDate).value.date
                          && r.doc.title == SetTitle(form, fields).title
                          && r.doc.tags == SetTags(form, fields).tags
                          && r.doc.summary == SetSummary(form, fields).summary
    ensures r.doc == form.(title := r.doc.title, date := r.doc.date, tags := r.doc.tags, summary := r.doc.summary)
  {
    var titled := SetTitle(form, fields);
    match SetDate(titled, fields, parseDate)
    case None => Applied(titled, true)
    case Some(dated) => Applied(SetSummary(SetTags(dated, fields), fields), false)
  }

  /** The content fields after extractHeaderAndFooter: header, trimmed remainder, footer. */
  function WithContent(form: PostDocument, x: Extracted): (r: PostDocument)
    ensures r.header == x.header && r.footer == x.footer && r.body == Trim(x.remaining)
    ensures r == form.(header := r.header, body := r.body, footer := r.footer)
  {
    form.(header := x.header, body := Trim(x.remaining), footer := x.footer)
  }

  /** match[1]: the text between the fences when the frontmatter pattern matches. */
  function FrontmatterText(content: string): (r: Option<string>)
    ensures r.None? <==> MatchFrontmatter(content).None?
    ensures r.Some? ==> var m := MatchFrontmatter(content).value;
              m.groupStart <= m.groupEnd <= m.end <= |content| && r.value == content[m.groupStart..m.groupEnd]
  {
    match MatchFrontmatter(content)
    case None => None
    case Some(m) =>
      MatchFrontmatterSound(content, m);
      TailAtSound(content, m.groupEnd);
      Some(content[m.groupStart..m.groupEnd])
  }

  /**
   * Whether the try block throws once the frontmatter is found: jsyaml.load throws, the
   * document is null so reading its Title throws, or a field step throws.
   */
  predicate LoadThrows(form: PostDocument, outcome: LoadOutcome, parseDate: string -> Option<DateTime>) {
    match outcome
    case LoadFailed => true
    case Loaded(NoDocument) => true
    case Loaded(Mapping(fields)) => ApplyFields(form, fields, parseDate).thrown
  }

  /**
   * parseMarkdownFile: the frontmatter fields go into the form and what follows the
   * frontmatter goes through extractHeaderAndFooter; without frontmatter the whole content
   * does; when loading the frontmatter or a field step throws, the content fields stay as
   * they were.
   */
  function ParseMarkdownFile(form: PostDocument, content: string, load: string -> LoadOutcome,
                             parseDate: string -> Option<DateTime>, templates: Templates): (r: ParseResult)
    ensures r.doc.heroUpload == form.heroUpload && r.doc.imageFilename == form.imageFilename
            && r.doc.imageAlt == form.imageAlt
    ensures r.status == NoFrontmatter <==> MatchFrontmatter(content).None?
    ensures r.status == NoFrontmatter ==>
              r.doc == WithContent(form, SplitHeaderFooter(content, templates))
    ensures r.status == YamlError <==>
              FrontmatterText(content).Some? && LoadThrows(form, load(FrontmatterText(content).value), parseDate)
    ensures r.status == YamlError ==>
              r.doc.header == form.header && r.doc.body == form.body && r.doc.footer == form.footer
    ensures FrontmatterText(content).Some? ==>
              var outcome := load(FrontmatterText(content).value);
              (outcome.LoadFailed? || outcome.doc.NoDocument? ==> r.doc == form)
              && (outcome.Loaded? && outcome.doc.Mapping? && ApplyFields(form, outcome.doc.fields, parseDate).thrown ==>
                    r.doc == SetTitle(form, outcome.doc.fields))
    ensures r.status == Parsed ==>
              var m := MatchFrontmatter(content).value;
              m.end <= |content| && load(content[m.groupStart..m.groupEnd]).Loaded?
              && load(content[m.groupStart..m.groupEnd]).doc.Mapping?
              && var applied := ApplyFields(form, load(content[m.groupStart..m.groupEnd]).doc.fields, parseDate);
                 !applied.thrown && r.doc == WithContent(applied.doc, SplitHeaderFooter(content[m.end..], templates))
  {
    match MatchFrontmatter(content)
    case None => ParseResult(WithContent(form, SplitHeaderFooter(content, templates)), NoFrontmatter)
    case Some(m) =>
      MatchFrontmatterSound(content, m);
      TailAtSound(content, m.groupEnd);
      match load(content[m.groupStart..m.groupEnd])
      case LoadFailed => ParseResult(form, YamlError)
      case Loaded(NoDocument) => ParseResult(form, YamlError)
      case Loaded(Mapping(fields)) =>
        var applied := ApplyFields(form, fields, parseDate);
        if applied.thrown then ParseResult(applied.doc, YamlError)
        else ParseResult(WithContent(applied.doc, SplitHeaderFooter(content[m.end..], templates)), Parsed)
  }

  /**
   * A failed parse can still change the form: a Title is assigned before a Date that is not
   * a string (a YAML timestamp, say) throws, and the error alert leaves that title in place.
   */
  lemma TitleSetBeforeDateThrows(form: PostDocument, content: string, load: string -> LoadOutcome,
                                 parseDate: string -> Option<DateTime>, templates: Templates,
                                 fields: FrontmatterFields, title: string, dateText: string)
    requires FrontmatterText(content).Some? && load(FrontmatterText(content).value) == Loaded(Mapping(fields))
    requires fields.title == Some(YString(title)) && title != []
    requires fields.date == Some(YOther(true, dateText))
    ensures var r := ParseMarkdownFile(form, content, load, parseDate, templates);
            r.status == YamlError && r.doc == form.(title := title)
  {
  }

  // Reading a preview back

  /** No line break in s. */
  predicate LineFree(s: string) {
    forall i :: 0 <= i < |s| ==> !IsLineBreak(s[i])
  }

  /** A character that can start a field line: neither whitespace nor a dash. */
  predicate StartsLine(ch: char) {
    !IsWhitespace(ch) && ch != '-'
  }

  /**
   * Field lines as updatePreview writes them: each ends with a line break and starts with a
   * character that is neither whitespace nor a dash.
   */
  predicate FieldBlock(f: string) {
    f == [] || (f[|f| - 1] == '\n' && StartsLine(f[0])
                && forall k :: 0 <= k < |f| - 1 && IsLineBreak(f[k]) ==> StartsLine(f[k + 1]))
  }

  /** A name that can start a field line. */
  predicate FieldName(name: string) {
    name != [] && StartsLine(name[0]) && LineFree(name)
  }

  /** The four names updatePreview writes. */
  lemma FieldNames()
    ensures FieldName("Title") && FieldName("Date") && FieldName("Tags") && FieldName("Summary")
  {
    assert FieldName("Title");
    assert FieldName("Date");
    assert FieldName("Tags");
    assert FieldName("Summary");
  }

  /** One field line with a value free of line breaks is a field block. */
  lemma FieldLineBlock(name: string, value: string)
    requires FieldName(name) && LineFree(value)
    ensures FieldBlock(FieldLine(name, value))
  {
    if value != [] {
      var r := FieldLine(name, value);
      assert r == name + (": " + value) + "\n";
      forall k | 0 <= k < |r| - 1 ensures !IsLineBreak(r[k]) {
        if k < |name| {
          assert r[k] == name[k];
        } else if k >= |name| + 2 {
          assert r[k] == value[k - |name| - 2];
        }
      }
    }
  }

  /** Field blocks written one after the other make a field block. */
  lemma BlockConcat(a: string, b: string)
    requires FieldBlock(a) && FieldBlock(b)
    ensures FieldBlock(a + b)
  {
    var f := a + b;
    if a != [] && b != [] {
      forall k | 0 <= k < |f| - 1 && IsLineBreak(f[k]) ensures StartsLine(f[k + 1]) {
        if k < |a| - 1 {
          assert f[k] == a[k] && f[k + 1] == a[k + 1];
        } else if k == |a| - 1 {
          assert f[k + 1] == b[0];
        } else {
          assert f[k] == b[k - |a|] && f[k + 1] == b[k + 1 - |a|];
        }
      }
    }
  }

  /** The field lines of a document whose values hold no line break form a field block. */
  lemma FieldsBlock(doc: PostDocument)
    requires LineFree(Trim(doc.title)) && LineFree(DateValue(doc.date))
    requires LineFree(Join(doc.tags, ", ")) && LineFree(Trim(doc.summary))
    ensures FieldBlock(Fields(doc))
  {
    FieldNames();
    FieldLineBlock("Title", Trim(doc.title));
    FieldLineBlock("Date", DateValue(doc.date));
    FieldLineBlock("Tags", Join(doc.tags, ", "));
    FieldLineBlock("Summary", Trim(doc.summary));
    FourBlocks(FieldLine("Title", Trim(doc.title)), FieldLine("Date", DateValue(doc.date)),
               FieldLine("Tags", Join(doc.tags, ", ")), FieldLine("Summary", Trim(doc.summary)));
  }

  /** Four field blocks one after the other make a field block. */
  lemma FourBlocks(t: string, d: string, g: string, m: string)
    requires FieldBlock(t) && FieldBlock(d) && FieldBlock(g) && FieldBlock(m)
    ensures FieldBlock(t + d + g + m)
  {
    BlockConcat(t, d);
    BlockConcat(t + d, g);
    BlockConcat(t + d + g, m);
  }

  /** trim() keeps a string free of line breaks. */
  lemma TrimLineFree(s: string)
    requires LineFree(s)
    ensures LineFree(Trim(s))
  {
    var lead := LeadingWhitespace(s);
    var t := s[lead..];
    var r := t[..|t| - TrailingWhitespace(t)];
    assert Trim(s) == r;
    forall i | 0 <= i < |r| ensures !IsLineBreak(r[i]) {
      assert r[i] == s[lead + i];
    }
  }

  /** Parts free of line breaks joined by a separator free of them stay free of them. */
  lemma {:induction false} JoinLineFree(parts: seq<string>, sep: string)
    requires LineFree(sep) && forall i :: 0 <= i < |parts| ==> LineFree(parts[i])
    ensures LineFree(Join(parts, sep))
  {
    if |parts| > 1 {
      JoinLineFree(parts[1..], sep);
      var j := Join(parts, sep);
      var a := parts[0] + sep;
      assert j == a + Join(parts[1..], sep);
      forall i | 0 <= i < |j| ensures !IsLineBreak(j[i]) {
        if i < |parts[0]| {
          assert j[i] == parts[0][i];
        } else if i < |a| {
          assert j[i] == sep[i - |parts[0]|];
        } else {
          assert j[i] == Join(parts[1..], sep)[i - |a|];
        }
      }
    }
  }

  /** A "YYYY-MM-DD HH:MM" stamp has no line break. */
  lemma StampLineFree(s: string)
    requires IsStamp(s, ' ')
    ensures LineFree(s)
  {
  }

  /** The preview "---\n" + fields + "---\n\n" + rest, with fields the field block f. */
  predicate Serialized(c: string, f: string, rest: string) {
    f != [] && FieldBlock(f) && c == "---\n" + f + "---\n\n" + rest
  }

  /** The opening whitespace of a preview with fields is its first line break alone. */
  lemma SerializedOpening(c: string, f: string, rest: string)
    requires Serialized(c, f, rest)
    ensures 3 <= |c| && FenceAt(c, 0) && WhitespaceRun(c, 3) == 1 && IsLineBreak(c[3])
  {
    assert c[4] == f[0];
    assert WhitespaceRun(c, 4) == 0;
  }

  /** Inside the field lines the closing part of the pattern never matches. */
  lemma InnerTailFails(c: string, f: string, rest: string, t: nat)
    requires Serialized(c, f, rest) && 4 <= t < 3 + |f|
    ensures TailAt(c, t).None?
  {
    assert c[t] == f[t - 4] && c[t + 1] == f[t - 3];
    if IsLineBreak(c[t]) {
      assert LineBreakRun(c, t + 1) == 0;
    }
  }

  /** The line break ending the field lines starts the closing part, which ends after the blank line. */
  lemma LastTail(c: string, f: string, rest: string)
    requires Serialized(c, f, rest)
    ensures TailAt(c, 3 + |f|).Some? && 9 + |f| <= TailAt(c, 3 + |f|).value <= |c|
    ensures rest == [] || !IsWhitespace(rest[0]) ==> TailAt(c, 3 + |f|) == Some(9 + |f|)
    ensures c[9 + |f|..] == rest
  {
    var q := 3 + |f|;
    assert c[q] == f[|f| - 1];
    assert c[q + 6..] == rest;
    FenceTail(c, q);
  }

  /** A line break, "---" and a blank line at q: the closing part runs at least to after the blank line. */
  lemma FenceTail(c: string, q: nat)
    requires q + 6 <= |c| && c[q] == '\n' && c[q + 1] == '-' && c[q + 2] == '-' && c[q + 3] == '-'
    requires c[q + 4] == '\n' && c[q + 5] == '\n'
    ensures TailAt(c, q).Some? && q + 6 <= TailAt(c, q).value <= |c|
    ensures q + 6 == |c| || !IsWhitespace(c[q + 6]) ==> TailAt(c, q) == Some(q + 6)
  {
    assert LineBreakRun(c, q + 1) == 0;
    assert LineBreakRun(c, q) == 1;
    var w := WhitespaceRun(c, q + 4);
    assert WhitespaceRun(c, q + 5) == w - 1;
    LastLineBreakIsLast(c, q + 4, q + 4 + w, q + 5);
    if q + 6 == |c| || !IsWhitespace(c[q + 6]) {
      assert w == 2;
    }
  }

  /** The match the pattern finds in a preview with fields: the group is the field lines. */
  lemma MatchSerialized(c: string, f: string, rest: string) returns (m: FrontmatterMatch)
    requires Serialized(c, f, rest)
    ensures MatchFrontmatter(c) == Some(m)
    ensures m.groupStart == 4 && m.groupEnd == 3 + |f| && 9 + |f| <= m.end <= |c|
    ensures rest == [] || !IsWhitespace(rest[0]) ==> m.end == 9 + |f| && c[m.end..] == rest
  {
    SerializedOpening(c, f, rest);
    forall t | 4 <= t < 3 + |f| ensures TailAt(c, t).None? {
      InnerTailFails(c, f, rest, t);
    }
    GroupFromSkip(c, 4, 3 + |f|);
    LastTail(c, f, rest);
    assert GroupFrom(c, 3 + |f|) == Some(3 + |f|);
    assert StartFrom(c, 4) == Some(4);
    m := FrontmatterMatch(4, 3 + |f|, TailAt(c, 3 + |f|).value);
  }

  /** The group of a preview with fields is its field lines without the last line break. */
  lemma SerializedGroup(c: string, f: string, rest: string)
    requires Serialized(c, f, rest)
    ensures c[4..3 + |f|] == f[..|f| - 1]
  {
    assert c[4..4 + |f|] == f;
  }

  /** The value a field line stands for: none for an empty value. */
  function Written(value: string): Option<YamlValue> {
    if value == [] then None else Some(YString(value))
  }

  /**
   * The document a YAML library reads from the field lines of a preview: each field that
   * updatePreview writes, with its value as a string.
   */
  function WrittenFields(doc: PostDocument): FrontmatterFields {
    FrontmatterFields(Written(Trim(doc.title)), Written(DateValue(doc.date)),
                      Written(Join(doc.tags, ", ")), Written(Trim(doc.summary)))
  }

  /** Tags as addTag keeps them: non-empty, trimmed, free of commas and line breaks. */
  predicate WellFormedTags(tags: seq<string>) {
    forall i :: 0 <= i < |tags| ==> tags[i] != [] && IsTrimmed(tags[i]) && ',' !in tags[i] && LineFree(tags[i])
  }

  /** A form whose preview the parser can read back field for field. */
  predicate ReadableDocument(doc: PostDocument) {
    LineFree(doc.title) && LineFree(doc.summary) && WellFormedTags(doc.tags)
    && (doc.date.Some? ==> ValidDateTime(doc.date.value) && FourDigitYear(doc.date.value))
  }

  /** A written Date comes back as the date-time it was written from. */
  lemma DateReadBack(dt: DateTime, parseDate: string -> Option<DateTime>)
    requires ValidDateTime(dt) && FourDigitYear(dt)
    ensures FormatDate(dt) != []
    ensures DecodeInputDate(DateInputText(FormatDate(dt), parseDate)) == Some(dt)
  {
    FrontmatterDateRoundTrip(dt);
    DecodeInputText(dt);
  }

  /** Joined tags are empty exactly when there are none. */
  lemma JoinedTagsEmpty(tags: seq<string>)
    requires WellFormedTags(tags)
    ensures Join(tags, ", ") == [] <==> tags == []
  {
    if tags != [] {
      JoinFirst(tags, ", ");
    }
  }

  /**
   * The field steps on the written fields give back the written values, and leave a field
   * that was not written as the form had it.
   */
  lemma FieldsReadBack(form: PostDocument, doc: PostDocument, parseDate: string -> Option<DateTime>)
    requires ReadableDocument(doc)
    ensures var a := ApplyFields(form, WrittenFields(doc), parseDate);
            !a.thrown
            && a.doc.title == (if Trim(doc.title) != [] then Trim(doc.title) else form.title)
            && a.doc.date == (if doc.date.Some? then doc.date else form.date)
            && a.doc.tags == (if doc.tags != [] then doc.tags else form.tags)
            && a.doc.summary == (if Trim(doc.summary) != [] then Trim(doc.summary) else form.summary)
  {
    var fields := WrittenFields(doc);
    var titled := SetTitle(form, fields);
    DateStep(titled, fields, doc.date, parseDate);
    var dated := SetDate(titled, fields, parseDate).value;
    TagsStep(dated, fields, doc.tags);
    assert ApplyFields(form, fields, parseDate) == Applied(SetSummary(SetTags(dated, fields), fields), false);
  }

  /** The Date step on a written Date gives back its date-time; without one the date stays. */
  lemma DateStep(form: PostDocument, fields: FrontmatterFields, date: Option<DateTime>, parseDate: string -> Option<DateTime>)
    requires fields.date == Written(DateValue(date))
    requires date.Some? ==> ValidDateTime(date.value) && FourDigitYear(date.value)
    ensures SetDate(form, fields, parseDate).Some?
    ensures SetDate(form, fields, parseDate).value.date == if date.Some? then date else form.date
  {
    if date.Some? {
      var text := FormatDate(date.value);
      DateReadBack(date.value, parseDate);
      assert fields.date == Some(YString(text));
      assert SetDate(form, fields, parseDate) == Some(form.(date := DecodeInputDate(DateInputText(text, parseDate))));
    } else {
      assert fields.date == None;
    }
  }

  /** The Tags step on written tags gives them back; without them the tags stay. */
  lemma TagsStep(form: PostDocument, fields: FrontmatterFields, tags: seq<string>)
    requires fields.tags == Written(Join(tags, ", ")) && WellFormedTags(tags)
    ensures SetTags(form, fields).tags == if tags != [] then tags else form.tags
  {
    JoinedTagsEmpty(tags);
    if tags != [] {
      TagsRoundTrip(tags);
    }
  }

  /**
   * Reading back a preview: when the YAML library reads the field lines as the strings
   * written in them, parseMarkdownFile puts the trimmed title and summary, the date and the
   * tags of the previewed form back into the editor, keeps the editor's value for a field
   * the preview left out, and hands the content after the frontmatter to
   * extractHeaderAndFooter whole when it does not start with whitespace.
   */
  lemma FrontmatterRoundTrip(form: PostDocument, doc: PostDocument, variant: Variant, load: string -> LoadOutcome,
                             parseDate: string -> Option<DateTime>, templates: Templates)
    requires ReadableDocument(doc) && Fields(doc) != []
    requires load(Fields(doc)[..|Fields(doc)| - 1]) == Loaded(Mapping(WrittenFields(doc)))
    ensures var r := ParseMarkdownFile(form, Serialize(doc, variant), load, parseDate, templates);
            r.status == Parsed
            && r.doc.title == (if Trim(doc.title) != [] then Trim(doc.title) else form.title)
            && r.doc.date == (if doc.date.Some? then doc.date else form.date)
            && r.doc.tags == (if doc.tags != [] then doc.tags else form.tags)
            && r.doc.summary == (if Trim(doc.summary) != [] then Trim(doc.summary) else form.summary)
    ensures var content := Content(doc, variant);
            content == [] || !IsWhitespace(content[0]) ==>
              var r := ParseMarkdownFile(form, Serialize(doc, variant), load, parseDate, templates);
              var x := SplitHeaderFooter(content, templates);
              r.doc.header == x.header && r.doc.body == Trim(x.remaining) && r.doc.footer == x.footer
  {
    var f := Fields(doc);
    var rest := Content(doc, variant);
    var c := Serialize(doc, variant);
    SerializedPreview(doc, variant);
    var m := MatchSerialized(c, f, rest);
    SerializedGroup(c, f, rest);
    ReadBackAt(form, doc, c, m, load, parseDate, templates);
  }

  /** parseMarkdownFile on text whose frontmatter the YAML library reads as the written fields of doc. */
  lemma ReadBackAt(form: PostDocument, doc: PostDocument, c: string, m: FrontmatterMatch, load: string -> LoadOutcome,
                   parseDate: string -> Option<DateTime>, templates: Templates)
    requires ReadableDocument(doc)
    requires MatchFrontmatter(c) == Some(m) && m.groupStart <= m.groupEnd <= m.end <= |c|
    requires load(c[m.groupStart..m.groupEnd]) == Loaded(Mapping(WrittenFields(doc)))
    ensures var r := ParseMarkdownFile(form, c, load, parseDate, templates);
            r.status == Parsed
            && r.doc.title == (if Trim(doc.title) != [] then Trim(doc.title) else form.title)
            && r.doc.date == (if doc.date.Some? then doc.date else form.date)
            && r.doc.tags == (if doc.tags != [] then doc.tags else form.tags)
            && r.doc.summary == (if Trim(doc.summary) != [] then Trim(doc.summary) else form.summary)
            && var x := SplitHeaderFooter(c[m.end..], templates);
               r.doc.header == x.header && r.doc.body == Trim(x.remaining) && r.doc.footer == x.footer
  {
    FieldsReadBack(form, doc, parseDate);
    ParseFound(form, c, m, WrittenFields(doc), load, parseDate, templates);
  }

  /** The preview of a readable form is "---\n", its field lines as a field block, "---\n\n" and its content. */
  lemma SerializedPreview(doc: PostDocument, variant: Variant)
    requires ReadableDocument(doc) && Fields(doc) != []
    ensures Serialized(Serialize(doc, variant), Fields(doc), Content(doc, variant))
  {
    TrimLineFree(doc.title);
    TrimLineFree(doc.summary);
    JoinLineFree(doc.tags, ", ");
    if doc.date.Some? {
      StampLineFree(FormatDate(doc.date.value));
    }
    FieldsBlock(doc);
  }

  /** parseMarkdownFile once the frontmatter is found and its fields load without a throw. */
  lemma ParseFound(form: PostDocument, c: string, m: FrontmatterMatch, fields: FrontmatterFields,
                   load: string -> LoadOutcome, parseDate: string -> Option<DateTime>, templates: Templates)
    requires MatchFrontmatter(c) == Some(m) && m.groupStart <= m.groupEnd <= m.end <= |c|
    requires load(c[m.groupStart..m.groupEnd]) == Loaded(Mapping(fields))
    requires !ApplyFields(form, fields, parseDate).thrown
    ensures ParseMarkdownFile(form, c, load, parseDate, templates)
            == ParseResult(WithContent(ApplyFields(form, fields, parseDate).doc, SplitHeaderFooter(c[m.end..], templates)), Parsed)
  {
  }

  /**
   * The preview of a form with no field is not read back as frontmatter: parseMarkdownFile
   * hands the whole text, fences included, to extractHeaderAndFooter.
   */
  lemma EmptyPreviewNotParsed(form: PostDocument, doc: PostDocument, variant: Variant, load: string -> LoadOutcome,
                              parseDate: string -> Option<DateTime>, templates: Templates)
    requires Trim(doc.title) == [] && doc.date.None? && doc.tags == [] && Trim(doc.summary) == []
    requires !Contains(Content(doc, variant), "---")
    ensures var r := ParseMarkdownFile(form, Serialize(doc, variant), load, parseDate, templates);
            r.status == NoFrontmatter && r.doc == WithContent(form, SplitHeaderFooter(Serialize(doc, variant), templates))
  {
    EmptyFormFrontmatter(doc);
    EmptyFrontmatterNotRecognized(Content(doc, variant));
  }
}
