/**
 * The serializer updatePreview (script.js:209-246): the editor form rendered as a Pelican
 * markdown post, a frontmatter block of "Field: value" lines followed by the header, the
 * hero-image line, the body and the footer. The test suite's copy
 * (tests/data-transformation.test.js:100-139) also falls back to a file name extracted
 * from an uploaded post when no image was uploaded; both variants are modelled.
 */
module Preview {
  import opened Options
  import opened Text
  import opened Dates
  import opened HeroImage

  /**
   * The editor form as updatePreview reads it: the raw input values, the tag list, the
   * datetime-local value (None when empty), the name of an uploaded image (None when no
   * image was uploaded), and the image file name and alt text inputs.
   */
  datatype PostDocument = PostDocument(
    title: string, date: Option<DateTime>, tags: seq<string>, summary: string,
    header: string, body: string, footer: string,
    heroUpload: Option<string>, imageFilename: string, imageAlt: string)

  /** Which copy of updatePreview: script.js's, or the test suite's with the file-name fallback. */
  datatype Variant = EditorPreview | FilenameFallback

  /** `${name}: ${value}\n`, or nothing when the value is empty. */
  function FieldLine(name: string, value: string): (r: string)
    ensures value == [] <==> r == []
    ensures value != [] ==> OccursAt(r, name + ": " + value, 0) && r[|r| - 1] == '\n'
  {
    if value == [] then [] else name + ": " + value + "\n"
  }

  /** The Date value: formatDate of the input, or empty when the input is. */
  function DateValue(date: Option<DateTime>): string {
    match date
    case None => ""
    case Some(dt) => FormatDate(dt)
  }

  /** The field lines of the frontmatter, in the order updatePreview writes them. */
  function Fields(doc: PostDocument): string {
    FieldLine("Title", Trim(doc.title)) + FieldLine("Date", DateValue(doc.date))
    + FieldLine("Tags", Join(doc.tags, ", ")) + FieldLine("Summary", Trim(doc.summary))
  }

  /** The frontmatter block, "---\n" and the field lines, closed by "---\n\n". */
  function Frontmatter(doc: PostDocument): string {
    "---\n" + Fields(doc) + "---\n\n"
  }

  /** The path the preview writes for an uploaded image. */
  function StaticPath(name: string): string {
    "{static}/images/" + name
  }

  /** The attribute list of the hero image, inside its braces. */
  const CrispAttributes := ": .image-process-crisp"

  /** The markdown line of the hero image: ![alt]({static}/images/name){: .image-process-crisp} and a blank line. */
  function HeroLine(alt: string, name: string): string {
    "![" + alt + "](" + StaticPath(name) + ")" + ("{" + CrispAttributes + "}") + "\n\n"
  }

  /**
   * The hero-image part: present exactly when there is an image (an upload, or in the test
   * suite's copy an extracted file name) and the trimmed alt text is not empty.
   */
  function HeroPart(doc: PostDocument, variant: Variant): (r: string)
    ensures variant == EditorPreview ==>
              (r != [] <==> doc.heroUpload.Some? && Trim(doc.imageAlt) != [])
    ensures variant == FilenameFallback ==>
              (r != [] <==> (doc.heroUpload.Some? || Trim(doc.imageFilename) != []) && Trim(doc.imageAlt) != [])
    ensures r != [] && doc.heroUpload.Some? ==> r == HeroLine(Trim(doc.imageAlt), doc.heroUpload.value)
    ensures r != [] && doc.heroUpload.None? ==> r == HeroLine(Trim(doc.imageAlt), Trim(doc.imageFilename))
  {
    var alt := Trim(doc.imageAlt);
    if doc.heroUpload.Some? && alt != [] then HeroLine(alt, doc.heroUpload.value)
    else if variant == FilenameFallback && Trim(doc.imageFilename) != [] && alt != [] then
      HeroLine(alt, Trim(doc.imageFilename))
    else []
  }

  /** The trimmed header and a blank line, or nothing when the header is empty. */
  function HeaderPart(doc: PostDocument): (r: string)
    ensures r == [] <==> Trim(doc.header) == []
  {
    var header := Trim(doc.header);
    if header != [] then header + "\n\n" else []
  }

  /** A blank line and the trimmed footer, or nothing when the footer is empty. */
  function FooterPart(doc: PostDocument): (r: string)
    ensures r == [] <==> Trim(doc.footer) == []
  {
    var footer := Trim(doc.footer);
    if footer != [] then "\n\n" + footer else []
  }

  /** The content after the frontmatter: header, hero image, body, footer. */
  function Content(doc: PostDocument, variant: Variant): string {
    HeaderPart(doc) + HeroPart(doc, variant) + doc.body + FooterPart(doc)
  }

  /** The text of the preview. */
  function Serialize(doc: PostDocument, variant: Variant): string {
    Frontmatter(doc) + Content(doc, variant)
  }

  /** One `if (value) frontmatter += `${name}: ${value}\n`` step of updatePreview. */
  method AppendField(frontmatter: string, name: string, value: string) returns (r: string)
    ensures r == frontmatter + FieldLine(name, value)
    ensures |r| >= |frontmatter| && r[..|frontmatter|] == frontmatter
  {
    r := frontmatter;
    if value != [] {
      r := r + (name + ": " + value + "\n");
    }
  }

  /** The frontmatter of updatePreview, one line appended per non-empty field. */
  method BuildFrontmatter(doc: PostDocument) returns (frontmatter: string)
    ensures frontmatter == Frontmatter(doc)
  {
    var title := Trim(doc.title);
    var date := DateValue(doc.date);
    var tagsString := Join(doc.tags, ", ");
    var summary := Trim(doc.summary);

    frontmatter := "---\n";
    frontmatter := AppendField(frontmatter, "Title", title);
    frontmatter := AppendField(frontmatter, "Date", date);
    frontmatter := AppendField(frontmatter, "Tags", tagsString);
    frontmatter := AppendField(frontmatter, "Summary", summary);
    AppendAll("---\n", FieldLine("Title", title), FieldLine("Date", date), FieldLine("Tags", tagsString),
              FieldLine("Summary", summary));
    frontmatter := frontmatter + "---\n\n";
  }

  /** Appending four pieces in turn appends their concatenation. */
  lemma AppendAll(start: string, a: string, b: string, c: string, d: string)
    ensures start + a + b + c + d == start + (a + b + c + d)
  {
  }

  /** The content of updatePreview: header, hero image, body and footer appended in turn. */
  method BuildContent(doc: PostDocument, variant: Variant) returns (content: string)
    ensures content == Content(doc, variant)
  {
    var header := Trim(doc.header);
    content := "";
    if header != [] {
      content := header + "\n\n";
    }
    assert content == HeaderPart(doc);
    content := AppendHero(content, doc, variant);
    content := content + doc.body;
    content := AppendFooter(content, doc);
  }

  /** The footer step of updatePreview: a blank line and the footer appended when there is one. */
  method AppendFooter(content: string, doc: PostDocument) returns (r: string)
    ensures r == content + FooterPart(doc)
  {
    var footer := Trim(doc.footer);
    r := content;
    if footer != [] {
      r := content + ("\n\n" + footer);
    } else {
      assert content + [] == content;
    }
  }

  /** The hero-image step of updatePreview: the image line appended when there is one. */
  method AppendHero(content: string, doc: PostDocument, variant: Variant) returns (r: string)
    ensures r == content + HeroPart(doc, variant)
  {
    var alt := Trim(doc.imageAlt);
    r := content;
    if doc.heroUpload.Some? && alt != [] {
      r := content + HeroLine(alt, doc.heroUpload.value);
    } else if variant == FilenameFallback && Trim(doc.imageFilename) != [] && alt != [] {
      r := content + HeroLine(alt, Trim(doc.imageFilename));
    } else {
      assert HeroPart(doc, variant) == [];
      assert content + [] == content;
    }
  }

  /** updatePreview: the frontmatter and the content, accumulated field by field. */
  method UpdatePreview(doc: PostDocument, variant: Variant) returns (text: string)
    ensures text == Serialize(doc, variant)
  {
    var frontmatter := BuildFrontmatter(doc);
    var content := BuildContent(doc, variant);
    text := frontmatter + content;
  }

  /** The preview opens with "---\n" and its frontmatter closes with "---\n\n". */
  lemma SerializeFences(doc: PostDocument, variant: Variant)
    ensures OccursAt(Serialize(doc, variant), "---\n", 0)
    ensures OccursAt(Serialize(doc, variant), "---\n\n", |Frontmatter(doc)| - 5)
  {
    Fenced(Fields(doc), Content(doc, variant));
  }

  /** Field lines between the two fences, and anything after them. */
  lemma Fenced(fields: string, rest: string)
    ensures |"---\n" + fields + "---\n\n"| >= 5
    ensures OccursAt("---\n" + fields + "---\n\n" + rest, "---\n", 0)
    ensures OccursAt("---\n" + fields + "---\n\n" + rest, "---\n\n", |"---\n" + fields + "---\n\n"| - 5)
  {
    var f := "---\n" + fields + "---\n\n";
    var text := f + rest;
    assert text[..4] == f[..4] == "---\n";
    assert text[|f| - 5..|f|] == f[|f| - 5..] == "---\n\n";
  }

  /** An empty form has no field lines: the frontmatter is the two fences alone. */
  lemma EmptyFormFrontmatter(doc: PostDocument)
    requires Trim(doc.title) == [] && doc.date.None? && doc.tags == [] && Trim(doc.summary) == []
    ensures Frontmatter(doc) == "---\n---\n\n"
    ensures !Contains(Frontmatter(doc), "Title:") && !Contains(Frontmatter(doc), "Date:")
    ensures !Contains(Frontmatter(doc), "Tags:") && !Contains(Frontmatter(doc), "Summary:")
  {
    assert Fields(doc) == [];
    FencesHoldNoField(Frontmatter(doc), Fields(doc));
  }

  /** The two fences alone hold none of the field names. */
  lemma FencesHoldNoField(f: string, fields: string)
    requires fields == [] && f == "---\n" + fields + "---\n\n"
    ensures f == "---\n---\n\n"
    ensures !Contains(f, "Title:") && !Contains(f, "Date:") && !Contains(f, "Tags:") && !Contains(f, "Summary:")
  {
    assert f == "---\n---\n\n";
    assert forall k :: 0 <= k < |f| ==> f[k] == '-' || f[k] == '\n';
    FirstCharAbsent(f, "Title:");
    FirstCharAbsent(f, "Date:");
    FirstCharAbsent(f, "Tags:");
    FirstCharAbsent(f, "Summary:");
  }

  /** The tags joined with ", ", each a tag with a space in front of all but the first. */
  function SpacedTags(tags: seq<string>): (r: seq<string>)
    requires |tags| >= 1
    ensures |r| == |tags| && r[0] == tags[0]
    ensures forall i :: 1 <= i < |tags| ==> r[i] == " " + tags[i]
  {
    [tags[0]] + SpaceEach(tags[1..])
  }

  function SpaceEach(tags: seq<string>): (r: seq<string>)
    ensures |r| == |tags| && forall i :: 0 <= i < |tags| ==> r[i] == " " + tags[i]
  {
    if tags == [] then [] else [" " + tags[0]] + SpaceEach(tags[1..])
  }

  /** Joining with ", " is joining with "," after putting a space before every tag but the first. */
  lemma {:induction false} JoinCommaSpace(tags: seq<string>)
    requires |tags| >= 1
    ensures Join(tags, ", ") == Join(SpacedTags(tags), ",")
  {
    if |tags| > 1 {
      var rest := tags[1..];
      JoinCommaSpace(rest);
      var sr := SpacedTags(rest);
      var st := SpacedTags(tags);
      assert st[1..] == [" " + rest[0]] + sr[1..];
      assert Join(st[1..], ",") == " " + Join(sr, ",") by {
        if |rest| == 1 {
          assert st[1..] == [" " + rest[0]];
        } else {
          assert Join(st[1..], ",") == st[1..][0] + "," + Join(st[1..][1..], ",");
          assert st[1..][1..] == sr[1..];
          assert Join(sr, ",") == sr[0] + "," + Join(sr[1..], ",");
        }
      }
    }
  }

  /**
   * The Tags line reads back as the tags: splitting the joined value on "," and trimming
   * each piece (script.js:413-414) gives the list back, for tags that are trimmed and
   * hold no comma.
   */
  lemma TagsRoundTrip(tags: seq<string>)
    requires |tags| >= 1
    requires forall i :: 0 <= i < |tags| ==> IsTrimmed(tags[i]) && ',' !in tags[i]
    ensures MapTrim(SplitOn(Join(tags, ", "), ',')) == tags
  {
    JoinCommaSpace(tags);
    SpacedHaveNoComma(tags);
    SplitJoin(SpacedTags(tags), ',');
    TrimSpaced(tags);
  }

  /** Putting spaces before tags without commas adds no comma. */
  lemma SpacedHaveNoComma(tags: seq<string>)
    requires |tags| >= 1
    requires forall i :: 0 <= i < |tags| ==> ',' !in tags[i]
    ensures forall i :: 0 <= i < |tags| ==> ',' !in SpacedTags(tags)[i]
  {
    var st := SpacedTags(tags);
    forall i | 0 <= i < |st| ensures ',' !in st[i] {
      if i > 0 {
        assert st[i] == " " + tags[i];
      }
    }
  }

  /** Trimming the spaced tags gives back trimmed tags. */
  lemma TrimSpaced(tags: seq<string>)
    requires |tags| >= 1
    requires forall i :: 0 <= i < |tags| ==> IsTrimmed(tags[i])
    ensures MapTrim(SpacedTags(tags)) == tags
  {
    var st := SpacedTags(tags);
    forall i | 0 <= i < |tags| ensures Trim(st[i]) == tags[i] {
      if i == 0 {
        TrimTrimmed(tags[0]);
      } else {
        TrimAfterWhitespace(" ", tags[i]);
      }
    }
  }

  /**
   * The extractor reads the preview's hero line back: the alt text, the uploaded name, and
   * the content that follows, trimmed.
   */
  lemma HeroLineRoundTrip(alt: string, name: string, rest: string)
    requires ']' !in alt && ')' !in name
    requires |name| >= 1 && forall k :: 0 <= k < |name| ==> !IsWhitespace(name[k])
    ensures ExtractHeroImage(HeroLine(alt, name) + rest) == Extraction(Trim("\n\n" + rest), true, alt, name)
  {
    var c := HeroLine(alt, name) + rest;
    StaticPathNoParen(name);
    assert '}' !in CrispAttributes;
    HeroLineLayout(alt, name, rest);
    ExtractWritten(c, alt, StaticPath(name), CrispAttributes, "\n\n" + rest);
    ResolveStaticPath(name);
  }

  /** The hero line is an image written out as "![alt](path){attributes}", then a blank line. */
  lemma HeroLineLayout(alt: string, name: string, rest: string)
    ensures HeroLine(alt, name) + rest
            == "![" + alt + "](" + StaticPath(name) + ")" + ("{" + CrispAttributes + "}") + ("\n\n" + rest)
  {
  }

  /** The path the preview writes holds no ')' when the name holds none. */
  lemma StaticPathNoParen(name: string)
    requires ')' !in name
    ensures ')' !in StaticPath(name)
  {
    var path := StaticPath(name);
    forall k | 0 <= k < |path| ensures path[k] != ')' {
      if k >= 16 {
        assert path[k] == name[k - 16];
      }
    }
  }
}
