/**
 * The tag list of the editor form: addTag (script.js:133-141, with the boolean result of
 * tests/data-transformation.test.js:146-156), removeTag through Array.prototype.splice
 * (script.js:143-147) and the bounds-checked removeTag of tests/data-transformation.test.js:158-166.
 * The list and the text of the tag input are the fields these operations update in place.
 */
module Tags {
  import opened Text

  /** No tag occurs twice. */
  predicate NoDuplicates(s: seq<string>) {
    forall i, j :: 0 <= i < j < |s| ==> s[i] != s[j]
  }

  /** The start index splice(start, 1) uses: negative counts from the end, clamped to [0, len]. */
  function SpliceStart(start: int, len: nat): (k: nat)
    ensures k <= len
    ensures 0 <= start <= len ==> k == start
    ensures -(len as int) <= start < 0 ==> k == len as int + start
    ensures start > len ==> k == len
    ensures start < -(len as int) ==> k == 0
  {
    if start < 0 then (if len + start < 0 then 0 else len + start)
    else if start > len then len
    else start
  }

  /** s after s.splice(start, 1): at most one element removed, the others kept in order. */
  function SpliceOne(s: seq<string>, start: int): (r: seq<string>)
    ensures 0 <= start < |s| ==> r == s[..start] + s[start + 1..]
    ensures -|s| <= start < 0 ==> r == s[..|s| + start] + s[|s| + start + 1..]
    ensures start >= |s| || s == [] ==> r == s
    ensures start < -|s| && s != [] ==> r == s[1..]
  {
    var k := SpliceStart(start, |s|);
    if k < |s| then s[..k] + s[k + 1..] else s
  }

  /** Removing the element at k keeps a duplicate-free list duplicate-free. */
  lemma RemoveAtKeepsDistinct(s: seq<string>, k: nat)
    requires NoDuplicates(s) && k < |s|
    ensures NoDuplicates(s[..k] + s[k + 1..])
  {
    var r := s[..k] + s[k + 1..];
    forall i | 0 <= i < |r| ensures r[i] == s[if i < k then i else i + 1] {
      if i < k {
        assert r[i] == s[..k][i];
      } else {
        assert r[i] == s[k + 1..][i - k];
      }
    }
    forall i, j | 0 <= i < j < |r| ensures r[i] != r[j] {
      assert r[i] == s[if i < k then i else i + 1];
      assert r[j] == s[if j < k then j else j + 1];
    }
  }

  /** splice(start, 1) keeps a duplicate-free list duplicate-free. */
  lemma SpliceKeepsDistinct(s: seq<string>, start: int)
    requires NoDuplicates(s)
    ensures NoDuplicates(SpliceOne(s, start))
  {
    var k := SpliceStart(start, |s|);
    if k < |s| {
      RemoveAtKeepsDistinct(s, k);
    }
  }

  /**
   * The tags of the form and the text typed into the tag input. `tags` is the one list
   * script.js:37 declares: updatePreview reads it into the tags of a PostDocument
   * (script.js:214), and parseMarkdownFile, loadFromLocalStorage and clearEditor replace it wholesale
   * (script.js:419, 289, 325). Valid() is what addTag and removeTag keep; a list read from a
   * file ("a, , a" splits into "a", "" and "a") or a draft need not satisfy it, so no
   * operation requires it.
   */
  class TagEditor {
    var tags: seq<string>
    var input: string

    /** Every tag was stored by addTag: non-empty, trimmed, and no two alike. */
    predicate Valid()
      reads this
    {
      NoDuplicates(tags) && forall i :: 0 <= i < |tags| ==> tags[i] != [] && IsTrimmed(tags[i])
    }

    constructor ()
      ensures tags == [] && input == ""
      ensures Valid()
    {
      tags := [];
      input := "";
    }

    /**
     * addTag: the trimmed input is appended, and the input cleared, exactly when it is
     * non-empty and not already a tag; otherwise nothing changes.
     */
    method AddTag() returns (added: bool)
      modifies this
      ensures var t := Trim(old(input));
              added <==> t != [] && t !in old(tags)
      ensures added ==> tags == old(tags) + [Trim(old(input))] && input == ""
      ensures !added ==> tags == old(tags) && input == old(input)
      ensures old(Valid()) ==> Valid()
    {
      var t := Trim(input);
      if t != [] && t !in tags {
        tags := tags + [t];
        input := "";
        added := true;
      } else {
        added := false;
      }
    }

    /** removeTag of the editor: tags.splice(index, 1), whatever the index. */
    method RemoveTag(index: int)
      modifies this
      ensures tags == SpliceOne(old(tags), index) && input == old(input)
      ensures old(Valid()) ==> Valid()
    {
      if Valid() {
        SpliceKeepsDistinct(tags, index);
      }
      tags := SpliceOne(tags, index);
    }

    /** The bounds-checked removeTag: exactly element index goes, and only for 0 <= index < length. */
    method RemoveTagChecked(index: int) returns (removed: bool)
      modifies this
      ensures removed <==> 0 <= index < |old(tags)|
      ensures removed ==> tags == old(tags)[..index] + old(tags)[index + 1..]
      ensures !removed ==> tags == old(tags)
      ensures input == old(input)
      ensures old(Valid()) ==> Valid()
    {
      if 0 <= index < |tags| {
        if Valid() {
          SpliceKeepsDistinct(tags, index);
        }
        tags := SpliceOne(tags, index);
        removed := true;
      } else {
        removed := false;
      }
    }
  }
}
