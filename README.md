# meta-editor: the markdown round-trip engine in Dafny

meta-editor is a single-page browser form for writing the metadata of a Pelican blog post:
title, date, tags, summary, a hero image, a header and a footer. As the form is edited, it
renders a live preview of the post: a frontmatter block of `Field: value` lines between `---`
fences, followed by the header, the hero-image line, the body and the footer. An uploaded
markdown file goes the other way. Its frontmatter is matched by a regular expression, loaded as
YAML and copied into the form, and its body is split into header, body and footer.

This project models that engine and the small validators around it, one module per concern:

- `Text`: JavaScript's `trim`, `includes`, `indexOf`, the first-occurrence `replace`, `split`
  on one character and `join`, on `seq<char>`. The whitespace set is the one `trim` and `\s` use.
- `Dates`: `formatDate` on integer date-time components. It also models the frontmatter date
  reformatting and the `datetime-local` input, which keeps only a valid `YYYY-MM-DDTHH:MM`
  value.
- `Validation`: `validateFilename`, `validateTitle`, `validateDate`, `validateSummary`, and the
  `.md` suffix of the download name. Each returns its verdict and message instead of writing a
  message element.
- `Tags`: the module-level tag list as a class `TagEditor`. `addTag` and both versions of
  `removeTag` update its fields in place.
- `HeroImage`: `extractHeroImage`. The image regex and the three filename regexes are written
  out as scanners, with lemmas tying each to the text it recognises.
- `HeaderFooter`: `extractHeaderAndFooter`. There is a function for each stage, and a method
  that reassigns the remaining text stage by stage as the source does.
- `Preview`: `updatePreview`, both as a function from the form record to the preview text and
  as a method that builds the text by appending, as the source does. Both the editor's copy and
  the test suite's copy are modelled; the test suite's copy falls back to the extracted image
  file name.
- `Parser`: `parseMarkdownFile`.
  - The frontmatter regex `/^---\s*[\r\n]+(.*?)[\r\n]+---\s*[\r\n]+/s` is a search that follows
    the regex engine's backtracking order. It is proved sound, and proved to pick the match that
    engine picks.
  - The field mapping is modelled step by step, including the throw that a non-string `Date`
    causes.
  - Serialising a form and parsing the preview back is proved to give back the title, the date,
    the tags and the summary. This assumes that the YAML library reads each written
    `Field: value` line back as the string it holds (see the `Parser.FrontmatterRoundTrip` line
    under "Left out").

The YAML library (`jsyaml.load`) and the `Date` constructor are parameters of the parser: `load`
maps the frontmatter text to a loaded document, or to a failure, and `parseDate` maps a date
string to a date-time, or to `None` for an Invalid Date. The saved header and footer templates,
which the source reads from localStorage, are passed in as plain strings.

## Model

| member | source | states |
|---|---|---|
| Text.Trim | script.js:84 | the result has no leading or trailing whitespace, and is the input with whitespace runs removed from both ends |
| Text.TrimTrimmed | script.js:134 | trimming text that is already trimmed changes nothing |
| Text.IndexOfFrom | script.js:468 | the first occurrence at or after the start index, or none at all |
| Text.ContainsIff | script.js:468 | `includes` holds exactly when the text occurs at some index |
| Text.ReplaceFirstAt | script.js:470 | replacing a string removes its first occurrence and nothing else |
| Text.ReplaceFirstPrefix | script.js:476 | replacing a string found at index 0 leaves what follows it |
| Text.RunUntil | tests/data-transformation.test.js:57 | the run before the first stop character: no stop inside, and a stop or the end right after |
| Text.SplitOn | script.js:414 | `split(',')` gives at least one piece, no piece holds the separator, and joining the pieces gives back the text |
| Text.SplitJoin | script.js:414 | splitting the join of separator-free pieces gives back the pieces |
| Text.MapTrim | script.js:414 | `map(tag => tag.trim())` trims each piece in place |
| Dates.Decimal | script.js:200 | decimal digits whose value is the number, with no leading zero, four digits for four-digit years |
| Dates.Pad2 | script.js:201-204 | `padStart(2, '0')`: two digits whose value is the number below 100 |
| Dates.FormatDate | script.js:198-207 | a valid date-time with a four-digit year renders as a `YYYY-MM-DD HH:MM` stamp whose fields read back as the date-time |
| Dates.InputText | script.js:397-402 | the same for the `YYYY-MM-DDTHH:MM` text written into the date input; it is `Render` with a `T` separator, so this row covers `Render` as well |
| Dates.DecodeInputDate | script.js:392 | the date input keeps a value only if it is a `T` stamp of a valid date-time; then it is that date-time, and re-rendering gives back the text |
| Dates.DecodeInputText | script.js:402 | the text written for a valid date-time is kept by the date input and decodes back to that date-time |
| Dates.FrontmatterDateToInput | script.js:390-392 | a Date starting `YYYY-MM-DD HH:MM` becomes `YYYY-MM-DDTHH:MM`; any result is a `T` stamp with the same date part, and comes from a match of the pattern whose whitespace run is the Date's whole run after the date part |
| Dates.FrontmatterDateMatches | script.js:390-392 | whatever run of whitespace (spaces, tabs, several of them) separates the date part and the time part, the result is the date part, `T` and the time part |
| Dates.FrontmatterDateMatchIff | script.js:390-391 | there is a result exactly when the pattern matches with some whitespace run; otherwise none |
| Dates.FrontmatterDateRoundTrip | script.js:390-392 | the reformatting turns formatDate's output back into the date input's text for the same date-time |
| Dates.DecimalOfDigits | script.js:200 | decimal digits without a leading zero are the rendering of their value |
| Validation.LastIndexOf | tests/validation.test.js:53 | `lastIndexOf('.')`: a dot, with no dot after it |
| Validation.ValidateFilename | tests/validation.test.js:36-73 | ok exactly when the message is empty; an empty name, a wrong extension and a bad base name each get their own message |
| Validation.FilenameAcceptance | tests/validation.test.js:36-73 | a name is accepted exactly when, trimmed, it is `s` or `s.md` with `s` a non-empty run of `[a-z0-9-]` |
| Validation.DownloadName | tests/menu-actions.test.js:151-154 | the download name ends in `.md`, and for an accepted name its stem is a valid base name |
| Validation.ValidateTitle | script.js:83-95 | ok exactly when the trimmed title has at least 5 characters, with the source's two messages for empty and short titles |
| Validation.ValidateDate | script.js:97-106 | ok exactly when the date input holds a value, otherwise "Date is required" |
| Validation.ValidateSummary | script.js:108-123 | ok exactly when the trimmed summary has at least 10 characters, with no upper bound; both messages; the counter is the trimmed length over 250 |
| Tags.SpliceStart | script.js:144 | `splice`'s start index: negative indices count from the end, and out-of-range ones are clamped |
| Tags.SpliceOne | script.js:144 | `splice(index, 1)` removes the element at the resolved index and keeps the rest in order, or changes nothing past the end or on an empty list |
| Tags.RemoveAtKeepsDistinct | tests/data-transformation.test.js:158-166 | removing one element keeps a duplicate-free list duplicate-free |
| Tags.SpliceKeepsDistinct | script.js:143-147 | removing a tag by any index never creates a duplicate |
| Tags.TagEditor.constructor | script.js:37 | the tag list starts empty and valid |
| Tags.TagEditor.AddTag | script.js:133-141 | the trimmed input is appended, and the input cleared, exactly when it is non-empty and new; otherwise nothing changes; the list stays duplicate-free |
| Tags.TagEditor.RemoveTag | script.js:143-147 | the new list is `splice(index, 1)` of the old, for any index, and stays duplicate-free |
| Tags.TagEditor.RemoveTagChecked | tests/data-transformation.test.js:158-166 | exactly element `index` goes, the rest keep their order, and only for `0 <= index < length`; the result reports which |
| HeroImage.RunNonSpace | tests/data-transformation.test.js:71-72 | `[^\s]+` as a maximal run of non-whitespace |
| HeroImage.AttrsShape | tests/data-transformation.test.js:57 | the optional `(\{[^\}]*\})?` group is empty or a brace-delimited block with no `}` inside, and is empty only when no closing brace follows |
| HeroImage.ImageAt | tests/data-transformation.test.js:57 | a match found at an index starts there and fits in the text |
| HeroImage.ImageAtShape | tests/data-transformation.test.js:57 | a match is `![`, an alt without `]`, `](`, a non-empty path without `)`, `)` and the attribute block |
| HeroImage.TextMatches | tests/data-transformation.test.js:57 | the pattern matches wherever a copy of image text occurs |
| HeroImage.MatchTextDecides | tests/data-transformation.test.js:89 | wherever a copy of the matched text occurs, the pattern matches there too |
| HeroImage.FindImageFrom | tests/data-transformation.test.js:57-58 | the first index at which the pattern matches, or none at any index |
| HeroImage.MatchAtStart | tests/data-transformation.test.js:58 | a match at index 0 is the match used |
| HeroImage.MarkerFrom | tests/data-transformation.test.js:71-72 | the first occurrence of a path marker followed by a non-whitespace character |
| HeroImage.MarkerCapture | tests/data-transformation.test.js:71-72 | no capture exactly when no marker is followed by a non-whitespace character; otherwise the capture starts right after the first such marker and runs to the next whitespace or the end, so it is non-empty and whitespace-free |
| HeroImage.CaptureAfter | tests/data-transformation.test.js:71-72 | after text lacking the marker's first character, the marker captures the whitespace-free rest of the path |
| HeroImage.CaptureAtStartStops | tests/data-transformation.test.js:72 | a capture stops at the first whitespace, whatever follows |
| HeroImage.SimpleFrom | tests/data-transformation.test.js:73 | the leftmost start of an image file name that runs to the end of the path |
| HeroImage.ResolveFilename | tests/data-transformation.test.js:75-85 | the file name is a piece of the path, and a whitespace-free one unless it is the whole path; each of the four rules, and their order, is stated by the `Resolve` lemmas below |
| HeroImage.ResolveStaticPath | tests/data-transformation.test.js:76-77 | `{static}/images/<name>` resolves to the name |
| HeroImage.ResolveStaticAfter | tests/data-transformation.test.js:76-77 | `{static}/images/<name>` after any prefix without `{` resolves to the name |
| HeroImage.ResolveStaticFirst | tests/data-transformation.test.js:75-79 | the first rule wins over the second: in `/images/<a> {static}/images/<name>` both capture, and the name is the `{static}` one |
| HeroImage.ResolveImagesPath | tests/data-transformation.test.js:78-79 | `/images/<name>` resolves to the name |
| HeroImage.NoImagesDirectory | tests/data-transformation.test.js:71-72 | neither directory rule applies to a path without `/images/` |
| HeroImage.ResolveLastSegment | tests/data-transformation.test.js:80-81 | otherwise the last segment, when it is an image file name, is the name |
| HeroImage.ResolveBareName | tests/data-transformation.test.js:73 | a bare image file name resolves to itself |
| HeroImage.ResolveFallback | tests/data-transformation.test.js:75-85 | the fourth rule: a path with no `/images/` and no image file name at its end is the file name as it is |
| HeroImage.ResolvePlainName | tests/data-transformation.test.js:83-85 | a path without `/` or `.` is its own file name |
| HeroImage.ResolvePhoto | tests/data-transformation.test.js:83-85 | `photo` resolves to `photo` |
| HeroImage.ExtractHeroImage | tests/data-transformation.test.js:55-97 | found exactly when the pattern matches somewhere; then the first match, with its attributes, is cut out and the rest trimmed, the alt text is verbatim and the name resolved; otherwise the content is unchanged |
| HeroImage.ExtractWritten | tests/data-transformation.test.js:55-97 | text opening with an image line gives back its alt text, its resolved path and the trimmed rest |
| HeroImage.FirstCopyIsTheMatch | tests/data-transformation.test.js:89 | `replace(fullMatch, '')` removes the match itself, not an earlier copy of its text |
| HeaderFooter.HeaderParagraph | script.js:473 | a header paragraph is one or two non-empty lines at the start, followed by a blank line |
| HeaderFooter.HeaderParagraphComplete | script.js:473 | one or two non-empty lines followed by a blank line are always found as the paragraph |
| HeaderFooter.FooterFrom | script.js:486 | the first index where a blank line starts a final block of 2 to 6 non-empty lines |
| HeaderFooter.FooterAtLastBlankLine | script.js:486 | no blank line follows the start of a footer block |
| HeaderFooter.FooterMatchComplete | script.js:486 | a final block of 2 to 6 non-empty lines after a blank line is always found |
| HeaderFooter.HeaderStage | script.js:467-478 | a saved header found in the content is taken, its first copy removed and the rest trimmed; otherwise a paragraph under 200 characters is split off; otherwise nothing changes |
| HeaderFooter.FooterStage | script.js:480-493 | a saved footer found in the original content is taken, and its first copy removed from the remaining text; otherwise a final block mentioning `Contact`, `{filename}` or `{static}` is taken; otherwise the remaining text is unchanged |
| HeaderFooter.FindHeader | script.js:467-478 | the header stage, as the source runs it |
| HeaderFooter.FindFooter | script.js:480-493 | the footer stage, as the source runs it |
| HeaderFooter.ExtractHeaderAndFooter | script.js:458-496 | the stages run in the source's order, reassigning the remaining text |
| HeaderFooter.HeaderNeedsBlankLine | script.js:473 | there is no header paragraph in text without a blank line |
| HeaderFooter.FooterNeedsBlankLine | script.js:486 | there is no footer block in text without a blank line |
| HeaderFooter.NoBlankLineNoSplit | script.js:458-496 | without templates, text with no blank line is left whole as the body |
| HeaderFooter.ShortParagraphIsHeader | script.js:472-477 | without templates, a short opening paragraph is split off as the header even when it was body text |
| HeaderFooter.FooterRemovesFirstCopy | script.js:490-491 | removing the footer by text removes its first copy, not the matched one at the end |
| Preview.FieldLine | script.js:218-221 | a field line is written exactly when its value is non-empty, as `Name: value` ending in a line break |
| Preview.HeaderPart | script.js:228-230 | the header part is present exactly when the trimmed header is non-empty |
| Preview.FooterPart | script.js:239-241 | the footer part is present exactly when the trimmed footer is non-empty |
| Preview.HeroPart | tests/data-transformation.test.js:122-129 | the hero line is written exactly when an image was uploaded, or in the test copy a file name was extracted, and the trimmed alt is non-empty; the uploaded name wins |
| Preview.AppendField | script.js:218-221 | appending a field line keeps what was already written |
| Preview.BuildFrontmatter | script.js:217-222 | the frontmatter accumulated line by line is `---`, the four field lines in order and `---` with a blank line |
| Preview.AppendHero | script.js:232-234 | appending the hero part |
| Preview.AppendFooter | script.js:239-241 | appending the footer part |
| Preview.BuildContent | script.js:225-241 | the content accumulated part by part is header, hero line, verbatim body and footer |
| Preview.UpdatePreview | script.js:210-246 | the preview text is the frontmatter followed by the content |
| Preview.SerializeFences | script.js:217-222 | the preview opens with `---` and a line break, and the frontmatter closes with `---` and a blank line |
| Preview.EmptyFormFrontmatter | script.js:217-222 | an empty form writes no `Title:`, `Date:`, `Tags:` or `Summary:` line, only the two fences |
| Preview.SpacedTags | script.js:214 | the tags as `join(', ')` lays them out: each after the first gains one leading space |
| Preview.JoinCommaSpace | script.js:214 | joining with `", "` is joining the spaced tags with `","` |
| Preview.TagsRoundTrip | script.js:413-414 | splitting the joined tags on commas and trimming the pieces gives back the tags, when they are trimmed and comma-free |
| Preview.HeroLineRoundTrip | script.js:233 | the extractor reads the hero line back as its alt text and image name |
| Parser.WhitespaceRun | script.js:370 | `\s*` as a maximal whitespace run |
| Parser.LineBreakRun | script.js:370 | `[\r\n]+` as a maximal line-break run |
| Parser.LastLineBreak | script.js:370 | the last line break in a range |
| Parser.LastLineBreakIsLast | script.js:370 | every line break in the range is at or before the one found |
| Parser.TailAtSound | script.js:370 | the tail the search finds matches `[\r\n]+---\s*[\r\n]+` |
| Parser.TailAtComplete | script.js:370 | wherever the tail can match, it is found, with the longest ending |
| Parser.GroupFrom | script.js:370 | the lazy group `(.*?)` ends at the first index where the tail matches |
| Parser.GroupFromFirst | script.js:370 | no earlier group end can be followed by the tail |
| Parser.StartFrom | script.js:370 | the group starts just after a line break of the opening whitespace, latest first |
| Parser.StartFromLatest | script.js:370 | no later group start leads to a match |
| Parser.MatchFrontmatterSound | script.js:370-371 | the match found is a match of the frontmatter pattern |
| Parser.MatchFrontmatterLatest | script.js:370-371 | whenever the pattern can match, a match is found, and it is the backtracking engine's: the latest group start, then the shortest group, then the longest end |
| Parser.EmptyFrontmatterNotRecognized | script.js:370 | `---`, a line break, `---` and a blank line, with no further `---`, is not frontmatter |
| Parser.BlankFrontmatterMatches | script.js:370 | `---`, a line break, a blank line, `---` and a blank line is frontmatter with an empty group |
| Parser.DateInputText | script.js:388-406 | the reformatted `YYYY-MM-DD HH:MM` prefix when there is one, else the Date constructor's reading written out, which the input drops when it is invalid |
| Parser.SetTitle | script.js:383-386 | a truthy Title is assigned and nothing else changes |
| Parser.SetDate | script.js:388-408 | the step throws exactly for a truthy non-string Date, and otherwise changes only the date; a string Date becomes what the date input keeps of `DateInputText` (the reformatted stamp prefix for any whitespace run, else the Date constructor's reading) |
| Parser.SetTags | script.js:410-421 | a truthy string Tags becomes its comma-split pieces, each trimmed; a truthy array is taken as it is; any other truthy value empties the list; only the tags change |
| Parser.SetSummary | script.js:423-426 | a truthy Summary is assigned and nothing else changes |
| Parser.DateFieldReformatted | script.js:390-392 | a Date starting `YYYY-MM-DD HH:MM` reaches the date input as `YYYY-MM-DDTHH:MM`, whatever the Date constructor makes of it |
| Parser.ParsedTagsMayRepeat | script.js:413-414 | tags read from a string are not deduplicated: `a,a` gives the tag twice |
| Parser.ApplyFields | script.js:383-426 | the steps run in order; a throw keeps the title already set and skips the rest; only the four fields change |
| Parser.WithContent | script.js:429-434 | header and footer as extracted, the remaining text trimmed as the body |
| Parser.FrontmatterText | script.js:370-376 | the frontmatter group, present exactly when the pattern matches, as the text between the group bounds of the match |
| Parser.ParseMarkdownFile | script.js:368-455 | no frontmatter exactly when the pattern does not match, and then the whole content is split; a YAML error exactly when there is a group and loading it fails, gives no document, or its fields throw; a load failure or an empty document leaves the form as it was, a throw leaves only the title set; a YAML error keeps the content fields; a parse applies the fields and splits what follows the match; the image fields never change |
| Parser.TitleSetBeforeDateThrows | script.js:383-395 | a non-empty Title with a non-string Date ends in a YAML error with the title already assigned and nothing else changed |
| Parser.FieldsBlock | script.js:218-221 | the field lines of a form without line breaks in its values form a block no fence can break into |
| Parser.MatchSerialized | script.js:370-377 | in a preview, the pattern matches with the field lines as its group, and the text after the match is the content when that starts with a non-whitespace character |
| Parser.SerializedGroup | script.js:376 | the group is the field lines without the last line break |
| Parser.DateReadBack | script.js:390-392 | the frontmatter Date of a valid date-time is read back as that date-time |
| Parser.FieldsReadBack | script.js:383-426 | the written fields read back without a throw, as the written title, date, tags and summary, or keep the form's value when the field was omitted |
| Parser.ParseFound | script.js:373-434 | once the frontmatter is found and loads as fields that do not throw, the parse applies them and splits the rest |
| Parser.ReadBackAt | script.js:373-434 | parsing text whose frontmatter loads as a form's written fields gives back those fields |
| Parser.SerializedPreview | script.js:217-222 | a readable form's preview is the fences around its field block, followed by its content |
| Parser.FrontmatterRoundTrip | script.js:368-434 | parsing a preview gives back its title, date, tags and summary, and splits its content as extractHeaderAndFooter would split it |
| Parser.EmptyPreviewNotParsed | script.js:370-373 | the preview of an empty form is not read back as frontmatter; the whole text, fences included, is split as body |

## Code and documentation

Where the repository's written description and its code disagree, the model follows the code:

- `parseMarkdownFile` (script.js:368-455) never calls `extractHeroImage`. The extractor appears
  only in the test suite, so it is modelled on its own, and the parser leaves the image fields
  unchanged.
- A YAML array of tags is taken as it is (script.js:415-416), without trimming the elements.
  Tags read from a string are trimmed but not deduplicated (`Parser.ParsedTagsMayRepeat`).
- The described round trip of the body does not hold. Without templates, a short opening
  paragraph of the body is split off as the header (`HeaderFooter.ShortParagraphIsHeader`).
  `Parser.FrontmatterRoundTrip` states what does hold: the content is split as
  `extractHeaderAndFooter` splits it.
- The footer condition (script.js:487-489) guards every alternative with `footerMatch`, so it
  means "there is a final block, and it mentions one of the three markers". It is modelled that
  way.
- A `Date` that is not a string makes `frontmatter.Date.match` throw after `Title` has been
  assigned (script.js:383-390). The catch at script.js:440-442 reports a YAML error, but the form
  keeps the new title: the parse applies in part (`Parser.ApplyFields`,
  `Parser.TitleSetBeforeDateThrows`).
- The saved footer is looked for in the original content (script.js:481), but removed from the
  remaining text. Removal by text takes out the first copy (`HeaderFooter.FooterRemovesFirstCopy`).
- The preview of an empty form is not recognised as frontmatter when it is read back
  (`Parser.EmptyPreviewNotParsed`). The pattern needs a line break both before and after its
  group.
- The end of the match takes in the content's leading whitespace up to its last line break.
  `Parser.FrontmatterRoundTrip` therefore states the content split only when the content is
  empty or starts with a non-whitespace character.
- The expectation at tests/data-transformation.test.js:246-248 keeps one blank line where the
  image was. The extractor as written removes only the image and trims the ends, which leaves
  both blank lines. The model follows the extractor.

## Left out

- DOM access, FileReader, clipboard, Blob download, `alert`, `console` and event wiring are
  browser I/O. The validators return their message instead of writing it. The `validateTitle`,
  `validateDate` and `validateSummary` calls made after each parser assignment only write
  messages, so they are not modelled.
- `renderTags` only redraws the tag list and is left out. The `updatePreview` calls after
  `addTag`, `removeTag` and a parse are separate calls of `Preview.UpdatePreview`.
- localStorage is left out; the saved header and footer templates are parameters.
- `jsyaml.load` is the parameter `load`. A loaded document is modelled as the record of the
  four keys the parser reads. A list value keeps its items as strings, and a value of any other
  type keeps only its truthiness and its text as an input would show it. A scalar or array
  document is modelled as a mapping without those keys, and a `null` document as one whose
  property access throws.
- The `Date` constructor and its time-zone-dependent parsing are the parameter `parseDate`.
  `formatDate` is modelled on the date-time components the input holds.
- The sanitisation that text inputs apply to assigned values, such as removing line breaks, is
  not modelled. An assigned Title or Summary is stored as it is.
- Dates.DecodeInputDate: accepts the 16-character `YYYY-MM-DDTHH:MM` form only. It does not
  accept the seconds that a browser's `datetime-local` input also allows, nor years of more
  than four digits.
- Dates.FormatDate: states the `YYYY-MM-DD HH:MM` layout only for valid date-times with a
  four-digit year. For other years `getFullYear` prints a different number of digits.
- Parser.FrontmatterRoundTrip: requires title, summary and tags without line breaks, and tags
  that are non-empty, trimmed and comma-free, because other values do not survive the YAML
  text. It states the content split only when the content does not start with whitespace. It
  also assumes, as its `load` requirement, that the YAML library reads each written line back
  as the string it holds. `jsyaml.load` does not do that for every text: a title such as
  `true`, `123`, `a: b` or `#x` is read back as a boolean, a number, a nested mapping or a
  comment. The model does not describe YAML scalar resolution.
- The test suite's copy of `updatePreview` (tests/data-transformation.test.js:100-135) writes
  the two characters `\n` where script.js writes a line break, because its template strings
  escape the backslash. `Preview.Serialize` with `FilenameFallback` writes line breaks, so it
  models only that copy's file-name fallback, not its escaped line breaks.
- Strings are sequences of characters; the UTF-16 code units of JavaScript strings and
  case-insensitive matching beyond ASCII are not modelled.
- The settings, AI endpoint, zen mode and menu code is not part of this model, and neither are
  the end-to-end browser scripts.
