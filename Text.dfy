/**
 * The string primitives the editor's JavaScript relies on: String.prototype.trim,
 * includes/indexOf, replace with a string pattern (first occurrence only),
 * Array.prototype.join and String.prototype.split on a one-character separator.
 * Strings are sequences of characters.
 */
module Text {
  import opened Options

  /** The characters JavaScript's trim() removes and its regular expressions match with \s. */
  predicate IsWhitespace(c: char) {
    c == ' ' || c == '\t' || c == '\n' || c == '\r' || c == '\U{000B}' || c == '\U{000C}'
    || c == '\U{00A0}' || c == '\U{1680}' || ('\U{2000}' <= c <= '\U{200A}')
    || c == '\U{2028}' || c == '\U{2029}' || c == '\U{202F}' || c == '\U{205F}'
    || c == '\U{3000}' || c == '\U{FEFF}'
  }

  /** The character class [\r\n]. */
  predicate IsLineBreak(c: char) {
    c == '\r' || c == '\n'
  }

  /** The character class \d (ASCII digits only, as in JavaScript without the u flag). */
  predicate IsDigit(c: char) {
    '0' <= c <= '9'
  }

  predicate AllWhitespace(s: string) {
    forall i :: 0 <= i < |s| ==> IsWhitespace(s[i])
  }

  /** A string that trim() leaves alone: it neither starts nor ends with whitespace. */
  predicate IsTrimmed(s: string) {
    s == [] || (!IsWhitespace(s[0]) && !IsWhitespace(s[|s| - 1]))
  }

  /** Number of whitespace characters at the start of s. */
  function LeadingWhitespace(s: string): (n: nat)
    ensures n <= |s|
    ensures AllWhitespace(s[..n])
    ensures n < |s| ==> !IsWhitespace(s[n])
  {
    if s == [] || !IsWhitespace(s[0]) then 0
    else
      var k := LeadingWhitespace(s[1..]);
      assert s[..k + 1] == [s[0]] + s[1..][..k];
      k + 1
  }

  /** Number of whitespace characters at the end of s. */
  function TrailingWhitespace(s: string): (n: nat)
    ensures n <= |s|
    ensures AllWhitespace(s[|s| - n..])
    ensures n < |s| ==> !IsWhitespace(s[|s| - n - 1])
  {
    if s == [] || !IsWhitespace(s[|s| - 1]) then 0
    else
      var t := s[..|s| - 1];
      var k := TrailingWhitespace(t);
      var w := s[|s| - (k + 1)..];
      forall i | 0 <= i < |w| ensures IsWhitespace(w[i]) {
        if i < k {
          assert w[i] == t[|t| - k..][i];
        }
      }
      k + 1
  }

  /** String.prototype.trim: s without its leading and trailing whitespace. */
  function Trim(s: string): (r: string)
    ensures IsTrimmed(r)
    ensures |r| <= |s|
    ensures exists k :: 0 <= k <= |s| - |r| && s[k..k + |r|] == r
                        && AllWhitespace(s[..k]) && AllWhitespace(s[k + |r|..])
  {
    var lead := LeadingWhitespace(s);
    var t := s[lead..];
    var trail := TrailingWhitespace(t);
    var r := t[..|t| - trail];
    assert r == s[lead..lead + |r|];
    assert s[lead + |r|..] == t[|t| - trail..];
    assert r != [] ==> r[0] == s[lead];
    r
  }

  /** trim() changes nothing on a string that has no whitespace at either end. */
  lemma TrimTrimmed(s: string)
    requires IsTrimmed(s)
    ensures Trim(s) == s
  {
    if s != [] {
      assert LeadingWhitespace(s) == 0;
      assert TrailingWhitespace(s) == 0;
    }
  }

  /** Whitespace in front of a trimmed string is all that trim() removes. */
  lemma {:induction false} TrimAfterWhitespace(w: string, s: string)
    requires AllWhitespace(w) && IsTrimmed(s)
    ensures Trim(w + s) == s
  {
    if w == [] {
      assert w + s == s;
      TrimTrimmed(s);
    } else {
      assert (w + s)[1..] == w[1..] + s;
      TrimAfterWhitespace(w[1..], s);
      assert LeadingWhitespace(w + s) == 1 + LeadingWhitespace(w[1..] + s);
      assert (w + s)[LeadingWhitespace(w + s)..] == (w[1..] + s)[LeadingWhitespace(w[1..] + s)..];
    }
  }

  /** The length of the run of characters other than stop that starts at s[i] ([^x]* read greedily). */
  function RunUntil(s: string, i: nat, stop: char): (n: nat)
    requires i <= |s|
    ensures i + n <= |s|
    ensures forall k :: i <= k < i + n ==> s[k] != stop
    ensures i + n < |s| ==> s[i + n] == stop
    decreases |s| - i
  {
    if i == |s| || s[i] == stop then 0 else 1 + RunUntil(s, i + 1, stop)
  }

  /** The run lengths RunUntil computes are the only ones with its two properties. */
  lemma RunUntilUnique(s: string, i: nat, stop: char, n: nat)
    requires i + n <= |s|
    requires forall k :: i <= k < i + n ==> s[k] != stop
    requires i + n == |s| || s[i + n] == stop
    ensures RunUntil(s, i, stop) == n
  {
  }

  /** The run RunUntil measures holds no stop character. */
  lemma RunUntilAbsent(s: string, i: nat, j: nat, stop: char)
    requires i <= j <= |s| && RunUntil(s, i, stop) == j - i
    ensures stop !in s[i..j]
  {
    var r := s[i..j];
    forall k | 0 <= k < |r| ensures r[k] != stop { assert r[k] == s[i + k]; }
  }

  /**
   * Inside a copy x of a piece of s, a run that ends inside the copy has the same length
   * in x as in s, read from either side.
   */
  lemma RunInCopy(s: string, x: string, q: nat, i: nat, stop: char)
    requires OccursAt(s, x, q) && i <= |x|
    ensures i + RunUntil(x, i, stop) < |x| ==> RunUntil(s, q + i, stop) == RunUntil(x, i, stop)
    ensures i + RunUntil(s, q + i, stop) < |x| ==> RunUntil(x, i, stop) == RunUntil(s, q + i, stop)
  {
    forall k | 0 <= k < |x| ensures s[q + k] == x[k] {
      assert s[q + k] == s[q..q + |x|][k];
    }
    var n := RunUntil(x, i, stop);
    if i + n < |x| {
      forall k | q + i <= k < q + i + n ensures s[k] != stop {
        assert s[q + (k - q)] == x[k - q];
      }
      assert s[q + (i + n)] == x[i + n];
      RunUntilUnique(s, q + i, stop, n);
    }
    var m := RunUntil(s, q + i, stop);
    if i + m < |x| {
      forall k | i <= k < i + m ensures x[k] != stop {
        assert s[q + k] == x[k];
      }
      assert s[q + (i + m)] == x[i + m];
      RunUntilUnique(x, i, stop, m);
    }
  }

  /** t occurs in s at position i. */
  predicate OccursAt(s: string, t: string, i: nat) {
    i + |t| <= |s| && s[i..i + |t|] == t
  }

  /** The first position at or after `from` where t occurs in s (String.prototype.indexOf). */
  function IndexOfFrom(s: string, t: string, from: nat): (r: Option<nat>)
    ensures r.Some? ==> from <= r.value && OccursAt(s, t, r.value)
                        && forall j :: from <= j < r.value ==> !OccursAt(s, t, j)
    ensures r.None? ==> forall j :: from <= j ==> !OccursAt(s, t, j)
    decreases |s| - from
  {
    if from + |t| > |s| then None
    else if s[from..from + |t|] == t then Some(from)
    else IndexOfFrom(s, t, from + 1)
  }

  function IndexOf(s: string, t: string): Option<nat> {
    IndexOfFrom(s, t, 0)
  }

  /** String.prototype.includes. */
  predicate Contains(s: string, t: string) {
    IndexOf(s, t).Some?
  }

  lemma ContainsIff(s: string, t: string)
    ensures Contains(s, t) <==> exists i :: OccursAt(s, t, i)
  {
  }

  /** A string whose first character s lacks does not occur in s. */
  lemma FirstCharAbsent(s: string, t: string)
    requires |t| >= 1 && t[0] !in s
    ensures !Contains(s, t)
  {
    ContainsIff(s, t);
    forall i: nat ensures !OccursAt(s, t, i) {
      if i + |t| <= |s| {
        assert s[i..i + |t|][0] == s[i];
      }
    }
  }

  /** s.replace(t, ''): the first occurrence of t removed, s unchanged when t does not occur. */
  function ReplaceFirst(s: string, t: string): string {
    match IndexOf(s, t)
    case None => s
    case Some(i) => s[..i] + s[i + |t|..]
  }

  /** Removing a string that occurs at i and nowhere earlier cuts exactly s[i..i+|t|]. */
  lemma ReplaceFirstAt(s: string, t: string, i: nat)
    requires OccursAt(s, t, i)
    requires forall j :: 0 <= j < i ==> !OccursAt(s, t, j)
    ensures ReplaceFirst(s, t) == s[..i] + s[i + |t|..]
  {
    assert IndexOf(s, t) == Some(i);
  }

  /** Removing a prefix of s with s.replace: the first occurrence is the one at the start. */
  lemma ReplaceFirstPrefix(s: string, t: string)
    requires OccursAt(s, t, 0)
    ensures ReplaceFirst(s, t) == s[|t|..]
  {
    ReplaceFirstAt(s, t, 0);
  }

  /** Array.prototype.join: the parts with sep between consecutive ones. */
  function Join(parts: seq<string>, sep: string): string {
    if parts == [] then ""
    else if |parts| == 1 then parts[0]
    else parts[0] + sep + Join(parts[1..], sep)
  }

  /** String.prototype.split on a one-character separator: the maximal separator-free pieces. */
  function SplitOn(s: string, sep: char): (r: seq<string>)
    ensures |r| >= 1
    ensures Join(r, [sep]) == s
    ensures forall i :: 0 <= i < |r| ==> sep !in r[i]
    decreases |s|
  {
    match IndexOf(s, [sep])
    case None =>
      assert forall j :: 0 <= j < |s| ==> s[j] != sep by {
        forall j | 0 <= j < |s| ensures s[j] != sep {
          assert !OccursAt(s, [sep], j);
          assert s[j..j + 1] == [s[j]];
        }
      }
      [s]
    case Some(i) =>
      var rest := SplitOn(s[i + 1..], sep);
      assert forall j :: 0 <= j < i ==> s[..i][j] != sep by {
        forall j | 0 <= j < i ensures s[..i][j] != sep {
          assert !OccursAt(s, [sep], j);
          assert s[j..j + 1] == [s[j]];
        }
      }
      assert s[i] == sep by { assert s[i..i + 1] == [sep]; }
      assert s == s[..i] + [sep] + s[i + 1..];
      [s[..i]] + rest
  }

  /** Splitting a join of separator-free parts gives the parts back. */
  lemma {:induction false} SplitJoin(parts: seq<string>, sep: char)
    requires |parts| >= 1
    requires forall i :: 0 <= i < |parts| ==> sep !in parts[i]
    ensures SplitOn(Join(parts, [sep]), sep) == parts
  {
    var s := Join(parts, [sep]);
    var p := parts[0];
    assert forall j :: 0 <= j < |p| ==> !OccursAt(s, [sep], j) by {
      forall j | 0 <= j < |p| ensures !OccursAt(s, [sep], j) {
        assert s[j] == p[j] && p[j] in p;
        assert s[j..j + 1] == [p[j]];
      }
    }
    if |parts| == 1 {
      assert s == p;
      assert IndexOf(s, [sep]).None?;
    } else {
      var tail := Join(parts[1..], [sep]);
      assert s == p + [sep] + tail;
      assert OccursAt(s, [sep], |p|) by { assert s[|p|..|p| + 1] == [sep]; }
      assert IndexOf(s, [sep]) == Some(|p|);
      assert s[|p| + 1..] == tail;
      assert s[..|p|] == p;
      SplitJoin(parts[1..], sep);
      assert parts == [p] + parts[1..];
    }
  }

  /** tags.map(tag => tag.trim()). */
  function MapTrim(xs: seq<string>): (r: seq<string>)
    ensures |r| == |xs|
    ensures forall i :: 0 <= i < |xs| ==> r[i] == Trim(xs[i])
  {
    if xs == [] then [] else [Trim(xs[0])] + MapTrim(xs[1..])
  }

  /** ASCII lower case, which is all a case-insensitive match against ASCII letters needs. */
  function LowerAscii(c: char): char {
    if 'A' <= c <= 'Z' then (c as int - 'A' as int + 'a' as int) as char else c
  }
}
