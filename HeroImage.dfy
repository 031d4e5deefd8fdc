/**
 * extractHeroImage (tests/data-transformation.test.js:55-97): the first markdown image
 * ![alt](path){attributes} of a post body is taken out of the body, and its alt text and a
 * file name resolved from its path are returned. The regular expressions of the source are
 * written out as scans: each pattern is matched at one position by following its characters,
 * and a search takes the leftmost position where the pattern matches.
 */
module HeroImage {
  import opened Options
  import opened Text

  /** The length of the run of non-space characters ([^\s]* read greedily) that starts at s[i]. */
  function RunNonSpace(s: string, i: nat): (n: nat)
    requires i <= |s|
    ensures i + n <= |s|
    ensures forall k :: i <= k < i + n ==> !IsWhitespace(s[k])
    ensures i + n < |s| ==> IsWhitespace(s[i + n])
    decreases |s| - i
  {
    if i == |s| || IsWhitespace(s[i]) then 0 else 1 + RunNonSpace(s, i + 1)
  }

  /**
   * One match of /!\[([^\]]*)\]\(([^\)]+)\)(\{[^\}]*\})?/ in c, by position: the whole match
   * is c[start..end], the alt group ends at altEnd (where "](" stands), the path group at
   * pathEnd (where ")" stands), and the attributes group fills the rest, up to end.
   */
  datatype ImageMatch = ImageMatch(start: nat, altEnd: nat, pathEnd: nat, end: nat)

  /** The positions of a match lie in c in the order the pattern reads them. */
  predicate Fits(c: string, m: ImageMatch) {
    m.start + 2 <= m.altEnd && m.altEnd + 2 < m.pathEnd < m.end <= |c|
  }

  /** The alt-text group. */
  function Alt(c: string, m: ImageMatch): string
    requires Fits(c, m)
  {
    c[m.start + 2..m.altEnd]
  }

  /** The path group. */
  function Path(c: string, m: ImageMatch): string
    requires Fits(c, m)
  {
    c[m.altEnd + 2..m.pathEnd]
  }

  /** The attributes group, empty when the optional group did not match. */
  function Attrs(c: string, m: ImageMatch): string
    requires Fits(c, m)
  {
    c[m.pathEnd + 1..m.end]
  }

  /** The length of the optional group (\{[^\}]*\})? at e: taken whenever it can match, as the greedy ? does. */
  function AttrsLen(c: string, e: nat): (n: nat)
    requires e <= |c|
    ensures e + n <= |c|
  {
    if e < |c| && c[e] == '{' then
      var k := RunUntil(c, e + 1, '}');
      if e + 1 + k < |c| then k + 2 else 0
    else 0
  }

  /**
   * The attributes group is either empty or "{", characters other than "}", "}"; it is empty
   * after a "{" only when no "}" follows.
   */
  lemma AttrsShape(c: string, e: nat)
    requires e <= |c|
    ensures var n := AttrsLen(c, e);
            n == 0 || (n >= 2 && c[e] == '{' && c[e + n - 1] == '}'
                       && forall k :: e < k < e + n - 1 ==> c[k] != '}')
    ensures AttrsLen(c, e) == 0 && e < |c| && c[e] == '{' ==> forall k :: e < k < |c| ==> c[k] != '}'
  {
  }

  /** The image pattern matched at position p of c, if it matches there. */
  function ImageAt(c: string, p: nat): (r: Option<ImageMatch>)
    requires p <= |c|
    ensures r.Some? ==> r.value.start == p && Fits(c, r.value)
  {
    if p + 2 > |c| || c[p] != '!' || c[p + 1] != '[' then None
    else
      var q := p + 2 + RunUntil(c, p + 2, ']');
      if q + 1 >= |c| || c[q + 1] != '(' then None
      else
        var np := RunUntil(c, q + 2, ')');
        if np == 0 || q + 2 + np == |c| then None
        else Some(ImageMatch(p, q, q + 2 + np, q + 3 + np + AttrsLen(c, q + 3 + np)))
  }

  /**
   * A match at p is read by scanning: "![", the run without ']' that follows, "](", the
   * non-empty run without ')' that follows, ")", and the attributes group after it.
   */
  lemma MatchRuns(c: string, p: nat)
    requires p <= |c| && ImageAt(c, p).Some?
    ensures var m := ImageAt(c, p).value;
            c[m.start] == '!' && c[m.start + 1] == '[' && RunUntil(c, m.start + 2, ']') == m.altEnd - (m.start + 2)
            && c[m.altEnd] == ']' && c[m.altEnd + 1] == '('
            && RunUntil(c, m.altEnd + 2, ')') == m.pathEnd - (m.altEnd + 2) && c[m.pathEnd] == ')'
            && m.end == m.pathEnd + 1 + AttrsLen(c, m.pathEnd + 1)
  {
  }

  /**
   * What a match looks like: "![", the alt text, which holds no ']', "](", the path, which is
   * non-empty and holds no ')', ")", and the attributes group (see AttrsShape).
   */
  lemma ImageAtShape(c: string, p: nat)
    requires p <= |c| && ImageAt(c, p).Some?
    ensures var m := ImageAt(c, p).value;
            c[m.start..m.start + 2] == "![" && c[m.altEnd..m.altEnd + 2] == "](" && c[m.pathEnd] == ')'
            && ']' !in Alt(c, m) && |Path(c, m)| >= 1 && ')' !in Path(c, m)
            && |Attrs(c, m)| == AttrsLen(c, m.pathEnd + 1)
  {
    MatchRuns(c, p);
    var m := ImageAt(c, p).value;
    ScannedFences(c, m);
    ScannedAlt(c, m);
    ScannedPath(c, m);
  }

  /** The fences "![" and "](" of a scanned match. */
  lemma ScannedFences(c: string, m: ImageMatch)
    requires Fits(c, m)
    requires c[m.start] == '!' && c[m.start + 1] == '[' && c[m.altEnd] == ']' && c[m.altEnd + 1] == '('
    ensures c[m.start..m.start + 2] == "![" && c[m.altEnd..m.altEnd + 2] == "]("
  {
  }

  /** The alt text of a scanned match holds no ']'. */
  lemma ScannedAlt(c: string, m: ImageMatch)
    requires Fits(c, m) && RunUntil(c, m.start + 2, ']') == m.altEnd - (m.start + 2)
    ensures ']' !in Alt(c, m)
  {
    RunUntilAbsent(c, m.start + 2, m.altEnd, ']');
  }

  /** The path of a scanned match is not empty and holds no ')'. */
  lemma ScannedPath(c: string, m: ImageMatch)
    requires Fits(c, m) && RunUntil(c, m.altEnd + 2, ')') == m.pathEnd - (m.altEnd + 2)
    ensures |Path(c, m)| >= 1 && ')' !in Path(c, m)
  {
    RunUntilAbsent(c, m.altEnd + 2, m.pathEnd, ')');
  }

  /** In an image written out as "![alt](path){inner}", the alt text is the run after "![". */
  lemma WrittenAltRun(c: string, alt: string, path: string, inner: string, tail: string)
    requires ']' !in alt
    requires c == "![" + alt + "](" + path + ")" + ("{" + inner + "}") + tail
    ensures RunUntil(c, 2, ']') == |alt|
  {
    forall k | 2 <= k < |alt| + 2 ensures c[k] != ']' {
      assert c[k] == alt[k - 2];
    }
    assert c[|alt| + 2] == ']';
    RunUntilUnique(c, 2, ']', |alt|);
  }

  /** ... the path is the run after "](" ... */
  lemma WrittenPathRun(c: string, alt: string, path: string, inner: string, tail: string)
    requires ')' !in path
    requires c == "![" + alt + "](" + path + ")" + ("{" + inner + "}") + tail
    ensures RunUntil(c, |alt| + 4, ')') == |path|
  {
    var b := |alt| + 4;
    forall k | b <= k < b + |path| ensures c[k] != ')' {
      assert c[k] == path[k - b];
    }
    assert c[b + |path|] == ')';
    RunUntilUnique(c, b, ')', |path|);
  }

  /** ... and inner is the run after "{". */
  lemma WrittenAttrsRun(c: string, alt: string, path: string, inner: string, tail: string)
    requires '}' !in inner
    requires c == "![" + alt + "](" + path + ")" + ("{" + inner + "}") + tail
    ensures RunUntil(c, |alt| + |path| + 6, '}') == |inner|
  {
    var e := |alt| + |path| + 5;
    forall k | e + 1 <= k < e + 1 + |inner| ensures c[k] != '}' {
      assert c[k] == inner[k - e - 1];
    }
    assert c[e + 1 + |inner|] == '}';
    RunUntilUnique(c, e + 1, '}', |inner|);
  }

  /** Where the pieces of an image written out as "![alt](path){inner}" stand. */
  lemma WrittenPieces(c: string, alt: string, path: string, inner: string, tail: string)
    requires c == "![" + alt + "](" + path + ")" + ("{" + inner + "}") + tail
    ensures c[0] == '!' && c[1] == '[' && c[|alt| + 3] == '(' && c[|alt| + |path| + 5] == '{'
    ensures c[2..|alt| + 2] == alt && c[|alt| + 4..|alt| + |path| + 4] == path
    ensures c[|alt| + |path| + 5..|alt| + |path| + |inner| + 7] == "{" + inner + "}"
  {
  }

  /**
   * The scan of an image written out as "![alt](path){inner}"; nb and np are the lengths
   * of the alt text and the path.
   */
  lemma WrittenRuns(c: string, alt: string, path: string, inner: string, tail: string, nb: nat, np: nat)
    requires ']' !in alt && ')' !in path && '}' !in inner && nb == |alt| && np == |path|
    requires c == "![" + alt + "](" + path + ")" + ("{" + inner + "}") + tail
    ensures nb + np + |inner| + 7 <= |c|
    ensures c[0] == '!' && c[1] == '[' && RunUntil(c, 2, ']') == nb && c[nb + 3] == '('
    ensures RunUntil(c, nb + 4, ')') == np && AttrsLen(c, nb + np + 5) == |inner| + 2
  {
    WrittenAltRun(c, alt, path, inner, tail);
    WrittenPathRun(c, alt, path, inner, tail);
    WrittenAttrsRun(c, alt, path, inner, tail);
    WrittenPieces(c, alt, path, inner, tail);
  }

  /** Those runs in those places make the pattern match at 0, with these positions. */
  lemma RunsMatchAtStart(c: string, nb: nat, np: nat, n: nat, m: ImageMatch)
    requires nb + np + 4 < |c| && np >= 1
    requires c[0] == '!' && c[1] == '[' && RunUntil(c, 2, ']') == nb && c[nb + 3] == '('
    requires RunUntil(c, nb + 4, ')') == np && AttrsLen(c, nb + np + 5) == n
    requires m.start == 0 && m.altEnd == nb + 2 && m.pathEnd == nb + np + 4 && m.end == nb + np + 5 + n
    ensures ImageAt(c, 0) == Some(m)
  {
  }

  /**
   * Conversely, an image written out as "![alt](path){inner}" is matched wherever it is
   * followed by: the alt text holds no ']', the path is non-empty without ')', and the
   * attributes hold no '}'. WrittenGroups gives the groups of that match.
   */
  lemma WrittenImageMatches(c: string, alt: string, path: string, inner: string, tail: string)
    requires ']' !in alt && |path| >= 1 && ')' !in path && '}' !in inner
    requires c == "![" + alt + "](" + path + ")" + ("{" + inner + "}") + tail
    ensures ImageAt(c, 0) == Some(ImageMatch(0, |alt| + 2, |alt| + |path| + 4, |alt| + |path| + |inner| + 7))
  {
    var nb, np := |alt|, |path|;
    WrittenRuns(c, alt, path, inner, tail, nb, np);
    RunsMatchAtStart(c, nb, np, |inner| + 2, ImageMatch(0, |alt| + 2, |alt| + |path| + 4, |alt| + |path| + |inner| + 7));
  }

  /** The groups of the match WrittenImageMatches finds are the pieces it was written from. */
  lemma WrittenGroups(c: string, alt: string, path: string, inner: string, tail: string)
    requires c == "![" + alt + "](" + path + ")" + ("{" + inner + "}") + tail && |path| >= 1
    ensures var m := ImageMatch(0, |alt| + 2, |alt| + |path| + 4, |alt| + |path| + |inner| + 7);
            Fits(c, m) && Alt(c, m) == alt && Path(c, m) == path && Attrs(c, m) == "{" + inner + "}"
            && c[..m.start] + c[m.end..] == tail
  {
    WrittenPieces(c, alt, path, inner, tail);
    WrittenTail(c, alt, path, inner, tail);
  }

  /** ... and what follows the image is the tail. */
  lemma WrittenTail(c: string, alt: string, path: string, inner: string, tail: string)
    requires c == "![" + alt + "](" + path + ")" + ("{" + inner + "}") + tail
    ensures c[..0] + c[|alt| + |path| + |inner| + 7..] == tail
  {
    var n := |alt| + |path| + |inner| + 7;
    assert c[..n] == "![" + alt + "](" + path + ")" + ("{" + inner + "}");
    assert c[..0] + c[n..] == c[n..];
  }

  /**
   * t reads as an image: "![", nb characters other than ']', "](", np >= 1 characters
   * other than ')', then ")".
   */
  predicate ImageText(t: string, nb: nat, np: nat) {
    nb + np + 5 <= |t| && np >= 1 && t[0] == '!' && t[1] == '[' && RunUntil(t, 2, ']') == nb
    && t[nb + 3] == '(' && RunUntil(t, nb + 4, ')') == np
  }

  /** The text of a match reads as an image on its own. */
  lemma MatchText(c: string, p: nat)
    requires p <= |c| && ImageAt(c, p).Some?
    ensures var m := ImageAt(c, p).value;
            ImageText(c[p..m.end], m.altEnd - (p + 2), m.pathEnd - (m.altEnd + 2))
  {
    MatchRuns(c, p);
    var m := ImageAt(c, p).value;
    RunsText(c, p, m.end, m.altEnd - (p + 2), m.pathEnd - (m.altEnd + 2));
  }

  /** The runs of a match, read inside the text of the match. */
  lemma RunsText(c: string, p: nat, e: nat, nb: nat, np: nat)
    requires p + nb + np + 5 <= e <= |c| && np >= 1
    requires c[p] == '!' && c[p + 1] == '[' && RunUntil(c, p + 2, ']') == nb && c[p + nb + 3] == '('
    requires RunUntil(c, p + nb + 4, ')') == np
    ensures ImageText(c[p..e], nb, np)
  {
    var t := c[p..e];
    assert OccursAt(c, t, p);
    assert t[0] == c[p] && t[1] == c[p + 1];
    RunInCopy(c, t, p, 2, ']');
    assert t[nb + 3] == c[p + nb + 3];
    RunInCopy(c, t, p, nb + 4, ')');
  }

  /** A character of an occurrence of t is the character of t. */
  lemma CopyAt(c: string, t: string, q: nat, k: nat)
    requires OccursAt(c, t, q) && k < |t|
    ensures c[q + k] == t[k]
  {
    assert c[q + k] == c[q..q + |t|][k];
  }

  /** Wherever a text that reads as an image occurs, the pattern matches. */
  lemma TextMatches(c: string, q: nat, t: string, nb: nat, np: nat)
    requires OccursAt(c, t, q) && ImageText(t, nb, np)
    ensures ImageAt(c, q).Some?
  {
    CopyAt(c, t, q, 0);
    CopyAt(c, t, q, 1);
    CopyAt(c, t, q, nb + 3);
    RunInCopy(c, t, q, 2, ']');
    RunInCopy(c, t, q, nb + 4, ')');
    assert c[q + nb + 3] == '(' && RunUntil(c, q + nb + 4, ')') == np;
    RunsMatchAt(c, q, nb, np);
  }

  /** Runs of the right kinds in the right places make the pattern match at p. */
  lemma RunsMatchAt(c: string, p: nat, nb: nat, np: nat)
    requires p + nb + np + 4 < |c| && np >= 1
    requires c[p] == '!' && c[p + 1] == '[' && RunUntil(c, p + 2, ']') == nb && c[p + nb + 3] == '('
    requires RunUntil(c, p + nb + 4, ')') == np
    ensures ImageAt(c, p).Some?
  {
  }

  /**
   * The text of a match decides the match: wherever the same text occurs in c, the pattern
   * matches there too. So nothing before the leftmost match can be a copy of it.
   */
  lemma MatchTextDecides(c: string, p: nat, q: nat)
    requires p <= |c| && ImageAt(c, p).Some?
    ensures OccursAt(c, c[p..ImageAt(c, p).value.end], q) ==> q <= |c| && ImageAt(c, q).Some?
  {
    var m := ImageAt(c, p).value;
    var t := c[p..m.end];
    MatchText(c, p);
    if OccursAt(c, t, q) {
      TextMatches(c, q, t, m.altEnd - (p + 2), m.pathEnd - (m.altEnd + 2));
    }
  }

  /** String.prototype.match with the image pattern: the leftmost position at or after from. */
  function FindImageFrom(c: string, from: nat): (r: Option<ImageMatch>)
    requires from <= |c|
    ensures r.Some? ==> from <= r.value.start <= |c| && ImageAt(c, r.value.start) == r
                        && forall q :: from <= q < r.value.start ==> ImageAt(c, q).None?
    ensures r.None? ==> forall q :: from <= q <= |c| ==> ImageAt(c, q).None?
    decreases |c| - from
  {
    match ImageAt(c, from)
    case Some(m) => Some(m)
    case None => if from == |c| then None else FindImageFrom(c, from + 1)
  }

  function FindImage(c: string): Option<ImageMatch> {
    FindImageFrom(c, 0)
  }

  /** A match at the very start is the one the search finds. */
  lemma MatchAtStart(c: string, m: ImageMatch)
    requires ImageAt(c, 0) == Some(m)
    ensures FindImage(c) == Some(m)
  {
  }

  /** The leftmost position at or after from where marker is followed by a non-space character. */
  function MarkerFrom(path: string, marker: string, from: nat): (r: Option<nat>)
    ensures r.Some? ==> from <= r.value && OccursAt(path, marker, r.value)
                        && r.value + |marker| < |path| && !IsWhitespace(path[r.value + |marker|])
    ensures r.Some? ==> forall i :: from <= i < r.value ==>
                          !(OccursAt(path, marker, i) && i + |marker| < |path| && !IsWhitespace(path[i + |marker|]))
    ensures r.None? ==> forall i :: from <= i ==>
                          !(OccursAt(path, marker, i) && i + |marker| < |path| && !IsWhitespace(path[i + |marker|]))
    decreases |path| - from
  {
    if from + |marker| >= |path| then None
    else if OccursAt(path, marker, from) && !IsWhitespace(path[from + |marker|]) then Some(from)
    else MarkerFrom(path, marker, from + 1)
  }

  /** The group ([^\s]+) of path.match(marker + ([^\s]+)), if that matches. */
  function MarkerCapture(path: string, marker: string): (r: Option<string>)
    ensures r.None? <==> MarkerFrom(path, marker, 0).None?
    ensures r.Some? ==> |r.value| >= 1 && forall k :: 0 <= k < |r.value| ==> !IsWhitespace(r.value[k])
    ensures r.Some? ==> exists i :: OccursAt(path, marker + r.value, i)
    ensures r.Some? ==> var s := MarkerFrom(path, marker, 0).value + |marker|;
              s + |r.value| <= |path| && r.value == path[s..s + |r.value|]
              && (s + |r.value| == |path| || IsWhitespace(path[s + |r.value|]))
  {
    match MarkerFrom(path, marker, 0)
    case None => None
    case Some(i) =>
      var s := i + |marker|;
      var n := RunNonSpace(path, s);
      CaptureOccurs(path, marker, i, n);
      Some(path[s..s + n])
  }

  /** The marker and the run after it form one piece of the path. */
  lemma CaptureOccurs(path: string, marker: string, i: nat, n: nat)
    requires OccursAt(path, marker, i) && i + |marker| + n <= |path|
    ensures OccursAt(path, marker + path[i + |marker|..i + |marker| + n], i)
  {
    var s := i + |marker|;
    assert path[i..s + n] == path[i..s] + path[s..s + n];
  }

  /** [^\/\\\s] */
  predicate IsNameChar(c: char) {
    c != '/' && c != '\\' && !IsWhitespace(c)
  }

  /** t ends in "." + ext (ext in any letter case) with at least one character before the dot. */
  predicate EndsWithExtension(t: string, ext: string) {
    |t| >= |ext| + 2 && t[|t| - |ext| - 1] == '.'
    && forall k :: 0 <= k < |ext| ==> LowerAscii(t[|t| - |ext| + k]) == ext[k]
  }

  /** \.(?:jpg|jpeg|png|gif|webp|svg)$ with the i flag. */
  predicate HasImageExtension(t: string) {
    EndsWithExtension(t, "jpg") || EndsWithExtension(t, "jpeg") || EndsWithExtension(t, "png")
    || EndsWithExtension(t, "gif") || EndsWithExtension(t, "webp") || EndsWithExtension(t, "svg")
  }

  /** /([^\/\\\s]+\.(?:jpg|jpeg|png|gif|webp|svg))$/i matches at i: the rest of path is one such name. */
  predicate SimpleAt(path: string, i: nat) {
    i < |path| && (forall k :: i <= k < |path| ==> IsNameChar(path[k])) && HasImageExtension(path[i..])
  }

  /** The leftmost position at or after from where the image-name pattern matches. */
  function SimpleFrom(path: string, from: nat): (r: Option<nat>)
    ensures r.Some? ==> from <= r.value && SimpleAt(path, r.value)
                        && forall i :: from <= i < r.value ==> !SimpleAt(path, i)
    ensures r.None? ==> forall i :: from <= i ==> !SimpleAt(path, i)
    decreases |path| - from
  {
    if from >= |path| then None
    else if SimpleAt(path, from) then Some(from)
    else SimpleFrom(path, from + 1)
  }

  /**
   * The file name of an image path, by the first rule that applies: what follows
   * "{static}/images/", what follows "/images/", a trailing name with an image extension,
   * or else the whole path. Whichever rule applies, the name is a piece of the path.
   */
  function ResolveFilename(path: string): (r: string)
    ensures exists i :: OccursAt(path, r, i)
    ensures r != path ==> |r| >= 1 && forall k :: 0 <= k < |r| ==> !IsWhitespace(r[k])
  {
    match MarkerCapture(path, "{static}/images/")
    case Some(name) =>
      AfterMarker(path, "{static}/images/", name);
      name
    case None =>
      match MarkerCapture(path, "/images/")
      case Some(name) =>
        AfterMarker(path, "/images/", name);
        name
      case None =>
        match SimpleFrom(path, 0)
        case Some(i) =>
          SuffixOccurs(path, i);
          path[i..]
        case None =>
          SuffixOccurs(path, 0);
          path
  }

  /** What follows an occurrence of a marker is itself a piece of the path. */
  lemma AfterMarker(path: string, marker: string, name: string)
    requires exists i :: OccursAt(path, marker + name, i)
    ensures exists i :: OccursAt(path, name, i)
  {
    var i: nat :| OccursAt(path, marker + name, i);
    assert path[i + |marker|..i + |marker| + |name|] == (marker + name)[|marker|..];
    assert OccursAt(path, name, i + |marker|);
  }

  /** A suffix of the path is a piece of it. */
  lemma SuffixOccurs(path: string, i: nat)
    requires i <= |path|
    ensures OccursAt(path, path[i..], i) && path[0..] == path
  {
  }

  /** The object extractHeroImage returns; alt text and file name are "" when found is false. */
  datatype Extraction = Extraction(content: string, found: bool, altText: string, filename: string)

  /** extractHeroImage: the leftmost image, taken out of the content, which is then trimmed. */
  function ExtractHeroImage(content: string): (r: Extraction)
    ensures r.found <==> FindImage(content).Some?
    ensures !r.found ==> r == Extraction(content, false, "", "")
    ensures r.found ==> var m := FindImage(content).value;
              r.content == Trim(content[..m.start] + content[m.end..])
              && r.altText == Alt(content, m) && r.filename == ResolveFilename(Path(content, m))
  {
    match FindImage(content)
    case None => Extraction(content, false, "", "")
    case Some(m) =>
      FirstCopyIsTheMatch(content, m);
      Extraction(Trim(ReplaceFirst(content, content[m.start..m.end])), true, Alt(content, m),
                 ResolveFilename(Path(content, m)))
  }

  /**
   * An image written out as "![alt](path){inner}" at the start of the content is the one
   * extracted: its alt text and resolved path come back, and the rest is trimmed.
   */
  lemma ExtractWritten(c: string, alt: string, path: string, inner: string, tail: string)
    requires ']' !in alt && |path| >= 1 && ')' !in path && '}' !in inner
    requires c == "![" + alt + "](" + path + ")" + ("{" + inner + "}") + tail
    ensures ExtractHeroImage(c) == Extraction(Trim(tail), true, alt, ResolveFilename(path))
  {
    var m := ImageMatch(0, |alt| + 2, |alt| + |path| + 4, |alt| + |path| + |inner| + 7);
    WrittenImageMatches(c, alt, path, inner, tail);
    MatchAtStart(c, m);
    WrittenGroups(c, alt, path, inner, tail);
  }

  /** content.replace(fullMatch, '') cuts out the match itself: no copy of it occurs earlier. */
  lemma FirstCopyIsTheMatch(c: string, m: ImageMatch)
    requires FindImage(c) == Some(m)
    ensures ReplaceFirst(c, c[m.start..m.end]) == c[..m.start] + c[m.end..]
  {
    var t := c[m.start..m.end];
    forall j | 0 <= j < m.start ensures !OccursAt(c, t, j) {
      MatchTextDecides(c, m.start, j);
    }
    ReplaceFirstAt(c, t, m.start);
  }

  /** A marker at the very start of a path, followed by a name without spaces, captures the name. */
  lemma CaptureAtStart(marker: string, name: string)
    requires |name| >= 1 && forall k :: 0 <= k < |name| ==> !IsWhitespace(name[k])
    ensures MarkerCapture(marker + name, marker) == Some(name)
  {
    var path := marker + name;
    var s := |marker|;
    assert OccursAt(path, marker, 0);
    assert path[s] == name[0];
    assert MarkerFrom(path, marker, 0) == Some(0);
    NameRun(marker, name);
    assert path[s..s + |name|] == name;
  }

  /** The run of non-space characters after the marker is the whole name. */
  lemma NameRun(marker: string, name: string)
    requires forall k :: 0 <= k < |name| ==> !IsWhitespace(name[k])
    ensures RunNonSpace(marker + name, |marker|) == |name|
  {
    var path := marker + name;
    forall k | |marker| <= k < |path| ensures !IsWhitespace(path[k]) {
      assert path[k] == name[k - |marker|];
    }
    RunNonSpaceToEnd(path, |marker|);
  }

  /** The run reaches the end when no space follows. */
  lemma {:induction false} RunNonSpaceToEnd(s: string, i: nat)
    requires i <= |s| && forall k :: i <= k < |s| ==> !IsWhitespace(s[k])
    ensures RunNonSpace(s, i) == |s| - i
    decreases |s| - i
  {
    if i < |s| {
      RunNonSpaceToEnd(s, i + 1);
    }
  }

  /** A marker whose first character is not in the text before it captures the name after it. */
  lemma CaptureAfter(pre: string, marker: string, name: string)
    requires |marker| >= 1 && marker[0] !in pre
    requires |name| >= 1 && forall k :: 0 <= k < |name| ==> !IsWhitespace(name[k])
    ensures MarkerCapture(pre + marker + name, marker) == Some(name)
  {
    var path := pre + marker + name;
    var s := |pre| + |marker|;
    NoMarkerBefore(pre, marker, path);
    assert path[|pre|..s] == marker;
    forall k | s <= k < |path| ensures !IsWhitespace(path[k]) {
      assert path[k] == name[k - s];
    }
    CaptureToEnd(path, marker, |pre|);
    assert path[s..] == name;
  }

  /** The first marker followed only by non-space characters captures the rest of the path. */
  lemma CaptureToEnd(path: string, marker: string, j: nat)
    requires OccursAt(path, marker, j) && forall i :: 0 <= i < j ==> !OccursAt(path, marker, i)
    requires j + |marker| < |path| && forall k :: j + |marker| <= k < |path| ==> !IsWhitespace(path[k])
    ensures MarkerCapture(path, marker) == Some(path[j + |marker|..])
  {
    MarkerFromFirst(path, marker, j);
    RunNonSpaceToEnd(path, j + |marker|);
    CaptureIs(path, marker, j, |path| - (j + |marker|));
    SliceToEnd(path, j + |marker|, |path| - (j + |marker|));
  }

  lemma SliceToEnd(s: string, i: nat, n: nat)
    requires i + n == |s|
    ensures s[i..i + n] == s[i..]
  {
  }

  /** The first position where the marker is followed by a non-space character is found. */
  lemma MarkerFromFirst(path: string, marker: string, j: nat)
    requires OccursAt(path, marker, j) && j + |marker| < |path| && !IsWhitespace(path[j + |marker|])
    requires forall i :: 0 <= i < j ==> !OccursAt(path, marker, i)
    ensures MarkerFrom(path, marker, 0) == Some(j)
  {
  }

  /** The capture, given where the marker is found and how long the run after it is. */
  lemma CaptureIs(path: string, marker: string, j: nat, n: nat)
    requires MarkerFrom(path, marker, 0) == Some(j) && RunNonSpace(path, j + |marker|) == n
    ensures MarkerCapture(path, marker) == Some(path[j + |marker|..j + |marker| + n])
  {
  }

  /** A marker cannot start inside text that lacks its first character. */
  lemma NoMarkerBefore(pre: string, marker: string, path: string)
    requires |marker| >= 1 && marker[0] !in pre
    requires |pre| <= |path| && path[..|pre|] == pre
    ensures forall i :: 0 <= i < |pre| ==> !OccursAt(path, marker, i)
  {
    forall i | 0 <= i < |pre| ensures !OccursAt(path, marker, i) {
      assert path[i] == pre[i];
      if i + |marker| <= |path| {
        assert path[i..i + |marker|][0] == path[i];
      }
    }
  }

  /**
   * The "{static}/images/" rule comes first: after any text without a '{', even one holding
   * "/images/" followed by a name, the marker's name is the file name.
   */
  lemma ResolveStaticAfter(pre: string, name: string)
    requires '{' !in pre
    requires |name| >= 1 && forall k :: 0 <= k < |name| ==> !IsWhitespace(name[k])
    ensures ResolveFilename(pre + "{static}/images/" + name) == name
  {
    CaptureAfter(pre, "{static}/images/", name);
  }

  /** When no rule applies, the whole path is the file name. */
  lemma ResolveFallback(path: string)
    requires !Contains(path, "/images/") && SimpleFrom(path, 0).None?
    ensures ResolveFilename(path) == path
  {
    NoImagesDirectory(path);
  }

  /** A name with neither a '/' nor a '.' matches no rule, and is its own file name ("photo"). */
  lemma ResolvePlainName(path: string)
    requires '/' !in path && '.' !in path
    ensures ResolveFilename(path) == path
  {
    FirstCharAbsent(path, "/images/");
    forall i | 0 <= i ensures !SimpleAt(path, i) {
      if i < |path| && |path[i..]| >= 5 {
        assert path[i..][|path[i..]| - 4] == path[i + |path[i..]| - 4];
        assert path[i..][|path[i..]| - 5] == path[i + |path[i..]| - 5];
      }
    }
    ResolveFallback(path);
  }

  /** A path that is just a word, such as "photo", is its own file name. */
  lemma ResolvePhoto()
    ensures ResolveFilename("photo") == "photo"
  {
    ResolvePlainName("photo");
  }

  /**
   * Both directory rules can apply to "/images/<a> {static}/images/<name>"; the first rule
   * wins, so the file name is name and not a.
   */
  lemma ResolveStaticFirst(a: string, name: string)
    requires |a| >= 1 && forall k :: 0 <= k < |a| ==> !IsWhitespace(a[k]) && a[k] != '{'
    requires |name| >= 1 && forall k :: 0 <= k < |name| ==> !IsWhitespace(name[k])
    ensures var path := "/images/" + a + " " + "{static}/images/" + name;
            MarkerCapture(path, "/images/") == Some(a) && ResolveFilename(path) == name
  {
    var pre := "/images/" + a + " ";
    var tail := "{static}/images/" + name;
    NoBraceBefore(a);
    ResolveStaticAfter(pre, name);
    CaptureAtStartStops("/images/", a, tail);
    Regroup(pre, "{static}/images/", name);
  }

  /** (pre + marker) + name is pre + (marker + name). */
  lemma Regroup(pre: string, marker: string, name: string)
    ensures pre + marker + name == pre + (marker + name)
  {
  }

  /** No '{' in "/images/" + a + " " when there is none in a. */
  lemma NoBraceBefore(a: string)
    requires forall k :: 0 <= k < |a| ==> a[k] != '{'
    ensures '{' !in "/images/" + a + " "
  {
    var pre := "/images/" + a + " ";
    forall i | 0 <= i < |pre| ensures pre[i] != '{' {
      if 8 <= i < 8 + |a| {
        assert pre[i] == a[i - 8];
      }
    }
  }

  /** A marker at the start captures the run of non-space characters after it, up to a space. */
  lemma CaptureAtStartStops(marker: string, a: string, tail: string)
    requires |a| >= 1 && forall k :: 0 <= k < |a| ==> !IsWhitespace(a[k])
    ensures MarkerCapture(marker + a + " " + tail, marker) == Some(a)
  {
    var path := marker + a + " " + tail;
    var s := |marker|;
    assert path[..s] == marker && path[s] == a[0];
    assert OccursAt(path, marker, 0);
    assert MarkerFrom(path, marker, 0) == Some(0);
    forall k | s <= k < s + |a| ensures !IsWhitespace(path[k]) {
      assert path[k] == a[k - s];
    }
    assert path[s + |a|] == ' ';
    RunNonSpaceStops(path, s, |a|);
    assert path[s..s + |a|] == a;
  }

  /** A run of non-space characters ended by a space is the run RunNonSpace measures. */
  lemma {:induction false} RunNonSpaceStops(s: string, i: nat, n: nat)
    requires i + n < |s| && IsWhitespace(s[i + n])
    requires forall k :: i <= k < i + n ==> !IsWhitespace(s[k])
    ensures RunNonSpace(s, i) == n
    decreases n
  {
    if n > 0 {
      RunNonSpaceStops(s, i + 1, n - 1);
    }
  }

  /** A "{static}/images/" path, as the preview writes it, resolves to the name after the prefix. */
  lemma ResolveStaticPath(name: string)
    requires |name| >= 1 && forall k :: 0 <= k < |name| ==> !IsWhitespace(name[k])
    ensures ResolveFilename("{static}/images/" + name) == name
  {
    CaptureAtStart("{static}/images/", name);
  }

  /** Without a '{' in the path, the "{static}/images/" rule does not apply. */
  lemma NoStaticMarker(path: string)
    requires '{' !in path
    ensures MarkerCapture(path, "{static}/images/").None?
  {
    forall i: nat ensures !OccursAt(path, "{static}/images/", i) {
      if i + 16 <= |path| {
        assert path[i..i + 16][0] == path[i];
      }
    }
  }

  /** A "/images/" path resolves to the name after the prefix when no "{static}" marker is present. */
  lemma ResolveImagesPath(name: string)
    requires |name| >= 1 && forall k :: 0 <= k < |name| ==> !IsWhitespace(name[k]) && name[k] != '{'
    ensures ResolveFilename("/images/" + name) == name
  {
    var path := "/images/" + name;
    assert '{' !in path by {
      forall i | 0 <= i < |path| ensures path[i] != '{' {
        if i >= 8 {
          assert path[i] == name[i - 8];
        }
      }
    }
    NoStaticMarker(path);
    CaptureAtStart("/images/", name);
  }

  /** A file name the extension rule accepts: no separator or space, an image extension. */
  predicate IsImageName(f: string) {
    (forall k :: 0 <= k < |f| ==> IsNameChar(f[k])) && HasImageExtension(f)
  }

  /** Without "/images/" in a path, neither directory rule applies. */
  lemma NoImagesDirectory(path: string)
    requires !Contains(path, "/images/")
    ensures MarkerCapture(path, "{static}/images/").None? && MarkerCapture(path, "/images/").None?
  {
    ContainsIff(path, "/images/");
    forall i: nat | OccursAt(path, "{static}/images/", i) ensures OccursAt(path, "/images/", i + 8) {
      assert path[i + 8..i + 16] == path[i..i + 16][8..];
    }
  }

  /** The image-name pattern cannot match across a separator or a space. */
  lemma NoSimpleAcross(path: string, j: nat)
    requires j < |path| && !IsNameChar(path[j])
    ensures forall i :: 0 <= i <= j ==> !SimpleAt(path, i)
  {
  }

  /** The image-name pattern matches where the rest of the path is an image name. */
  lemma SimpleAtName(path: string, i: nat, file: string)
    requires i <= |path| && path[i..] == file && IsImageName(file)
    ensures SimpleAt(path, i)
  {
    forall k | i <= k < |path| ensures IsNameChar(path[k]) {
      assert path[k] == file[k - i];
    }
  }

  /** The leftmost position where the image-name pattern matches is found. */
  lemma SimpleFromLeftmost(path: string, j: nat)
    requires SimpleAt(path, j) && forall i :: 0 <= i < j ==> !SimpleAt(path, i)
    ensures SimpleFrom(path, 0) == Some(j)
  {
  }

  /** The extension rule starts right after the last separator when the rest is an image name. */
  lemma LastSegmentStart(dir: string, file: string)
    requires IsImageName(file)
    ensures SimpleFrom(dir + "/" + file, 0) == Some(|dir| + 1)
  {
    var path := dir + "/" + file;
    assert path[|dir|] == '/';
    NoSimpleAcross(path, |dir|);
    assert path[|dir| + 1..] == file;
    SimpleAtName(path, |dir| + 1, file);
    SimpleFromLeftmost(path, |dir| + 1);
  }

  /**
   * Below a directory, a path without "/images/" resolves to its last segment when that
   * segment has an image extension ("path/to/complex-file-name.jpeg" gives "complex-file-name.jpeg").
   */
  lemma ResolveLastSegment(dir: string, file: string)
    requires IsImageName(file)
    requires !Contains(dir + "/" + file, "/images/")
    ensures ResolveFilename(dir + "/" + file) == file
  {
    NoImagesDirectory(dir + "/" + file);
    LastSegmentStart(dir, file);
    assert (dir + "/" + file)[|dir| + 1..] == file;
  }

  /** A bare file name with an image extension resolves to itself ("image.jpg"). */
  lemma ResolveBareName(file: string)
    requires IsImageName(file)
    ensures ResolveFilename(file) == file
  {
    forall i | 0 <= i < |file| ensures file[i] != '/' {
      assert IsNameChar(file[i]);
    }
    forall i: nat ensures !OccursAt(file, "{static}/images/", i) && !OccursAt(file, "/images/", i) {
      if i + 8 <= |file| {
        assert file[i..i + 8][0] == file[i] != '/';
      }
      if i + 16 <= |file| {
        assert file[i..i + 16][8] == file[i + 8] != '/';
      }
    }
    assert SimpleAt(file, 0);
    assert file[0..] == file;
  }
}
