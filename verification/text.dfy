/**
 * The string primitives that `wrap_label` builds on: Python's notion of
 * whitespace, `str.split()` with no separator, `str.strip()` and `sep.join`.
 */
module Text {

  /** The characters for which Python's `str.isspace()` holds; `str.split()`,
      `str.strip()` and the regular-expression class `\s` all use this set. */
  predicate IsSpace(c: char) {
    || c == ' '
    || '\t' <= c <= '\r'
    || '\U{1C}' <= c <= '\U{1F}'
    || c == '\U{85}' || c == '\U{A0}' || c == '\U{1680}'
    || '\U{2000}' <= c <= '\U{200A}'
    || c == '\U{2028}' || c == '\U{2029}' || c == '\U{202F}' || c == '\U{205F}'
    || c == '\U{3000}'
  }

  predicate AllSpace(s: string) {
    forall i :: 0 <= i < |s| ==> IsSpace(s[i])
  }

  /** A word as `str.split()` yields it: non-empty, no whitespace inside. */
  predicate IsWord(w: string) {
    |w| > 0 && forall i :: 0 <= i < |w| ==> !IsSpace(w[i])
  }

  /** Length of the leading run of non-whitespace characters. */
  function WordLen(s: string): (n: nat)
    ensures n <= |s|
    ensures forall i :: 0 <= i < n ==> !IsSpace(s[i])
    ensures n < |s| ==> IsSpace(s[n])
  {
    if |s| == 0 || IsSpace(s[0]) then 0 else 1 + WordLen(s[1..])
  }

  /** Length of the leading run of whitespace characters. */
  function SpaceLen(s: string): (n: nat)
    ensures n <= |s|
    ensures forall i :: 0 <= i < n ==> IsSpace(s[i])
    ensures n < |s| ==> !IsSpace(s[n])
  {
    if |s| == 0 || !IsSpace(s[0]) then 0 else 1 + SpaceLen(s[1..])
  }

  /** Length of the trailing run of whitespace characters. */
  function TrailLen(s: string): (n: nat)
    ensures n <= |s|
    ensures forall i :: |s| - n <= i < |s| ==> IsSpace(s[i])
    ensures n < |s| ==> !IsSpace(s[|s| - 1 - n])
  {
    if |s| == 0 || !IsSpace(s[|s| - 1]) then 0 else 1 + TrailLen(s[..|s| - 1])
  }

  /** Python's `s.strip()`: drop leading and trailing whitespace. */
  function Strip(s: string): (t: string)
    ensures t == "" <==> AllSpace(s)
    ensures |t| > 0 ==> !IsSpace(t[0]) && !IsSpace(t[|t| - 1])
  {
    var rest := s[SpaceLen(s)..];
    rest[..|rest| - TrailLen(rest)]
  }

  /** Python's `s.split()`: the maximal runs of non-whitespace, in order. */
  function Split(s: string): (words: seq<string>)
    ensures forall k :: 0 <= k < |words| ==> IsWord(words[k])
    ensures |words| == 0 <==> AllSpace(s)
    decreases |s|
  {
    if |s| == 0 then []
    else if IsSpace(s[0]) then
      assert AllSpace(s) <==> AllSpace(s[1..]) by {
        if AllSpace(s[1..]) {
          forall i | 0 <= i < |s| ensures IsSpace(s[i]) {
            if i > 0 { assert s[i] == s[1..][i - 1]; }
          }
        }
      }
      Split(s[1..])
    else
      var n := WordLen(s);
      [s[..n]] + Split(s[n..])
  }

  /** Python's `sep.join(parts)`. */
  function Join(parts: seq<string>, sep: string): string
  {
    if |parts| == 0 then ""
    else if |parts| == 1 then parts[0]
    else parts[0] + sep + Join(parts[1..], sep)
  }

  /** The words of every line, line after line. */
  function WordsOf(lines: seq<string>): seq<string>
  {
    if |lines| == 0 then [] else Split(lines[0]) + WordsOf(lines[1..])
  }

  /** The words laid end to end, with no separator. */
  function Concat(words: seq<string>): string
  {
    if |words| == 0 then "" else words[0] + Concat(words[1..])
  }

  /** The characters of `s` that are not whitespace, in order. */
  function NonSpace(s: string): string
  {
    if |s| == 0 then "" else (if IsSpace(s[0]) then "" else [s[0]]) + NonSpace(s[1..])
  }

  lemma {:induction false} NonSpaceAppend(a: string, b: string)
    ensures NonSpace(a + b) == NonSpace(a) + NonSpace(b)
    decreases |a|
  {
    if |a| == 0 {
      assert a + b == b;
    } else {
      assert (a + b)[0] == a[0];
      assert (a + b)[1..] == a[1..] + b;
      NonSpaceAppend(a[1..], b);
    }
  }

  lemma {:induction false} NonSpaceWord(w: string)
    requires forall i :: 0 <= i < |w| ==> !IsSpace(w[i])
    ensures NonSpace(w) == w
    decreases |w|
  {
    if |w| > 0 {
      NonSpaceWord(w[1..]);
      assert w == [w[0]] + w[1..];
    }
  }

  /** `split()` loses only whitespace: its words hold exactly the other characters of the text, in order. */
  lemma {:induction false} SplitKeepsCharacters(s: string)
    ensures Concat(Split(s)) == NonSpace(s)
    decreases |s|
  {
    if |s| == 0 {
    } else if IsSpace(s[0]) {
      SplitKeepsCharacters(s[1..]);
    } else {
      var n := WordLen(s);
      SplitKeepsCharacters(s[n..]);
      assert s == s[..n] + s[n..];
      NonSpaceAppend(s[..n], s[n..]);
      NonSpaceWord(s[..n]);
      assert Split(s)[1..] == Split(s[n..]);
    }
  }

  lemma WordLenUnique(s: string, n: nat)
    requires n <= |s|
    requires forall i :: 0 <= i < n ==> !IsSpace(s[i])
    requires n < |s| ==> IsSpace(s[n])
    ensures WordLen(s) == n
  {
  }

  lemma SpaceLenUnique(s: string, n: nat)
    requires n <= |s|
    requires forall i :: 0 <= i < n ==> IsSpace(s[i])
    requires n < |s| ==> !IsSpace(s[n])
    ensures SpaceLen(s) == n
  {
  }

  /** A single space separates words: splitting `a + " " + b` splits each side. */
  lemma {:induction false} SplitAroundSpace(a: string, b: string)
    ensures Split(a + " " + b) == Split(a) + Split(b)
    decreases |a|
  {
    var s := a + " " + b;
    if |a| == 0 {
      assert s[1..] == b;
    } else if IsSpace(a[0]) {
      assert s[1..] == a[1..] + " " + b;
      SplitAroundSpace(a[1..], b);
    } else {
      var n := WordLen(a);
      WordLenUnique(s, n);
      assert s[..n] == a[..n];
      assert s[n..] == a[n..] + " " + b;
      SplitAroundSpace(a[n..], b);
    }
  }

  /** A word splits to itself. */
  lemma SplitWord(w: string)
    requires IsWord(w)
    ensures Split(w) == [w]
  {
    assert WordLen(w) == |w|;
    assert w[..|w|] == w;
    assert w[|w|..] == "";
  }

  /** Joining lines with single spaces and splitting again yields all their words. */
  lemma {:induction false} SplitJoinSpace(lines: seq<string>)
    ensures Split(Join(lines, " ")) == WordsOf(lines)
  {
    if |lines| == 0 {
    } else if |lines| == 1 {
      assert WordsOf(lines[1..]) == [];
      assert Split(lines[0]) + [] == Split(lines[0]);
    } else {
      SplitAroundSpace(lines[0], Join(lines[1..], " "));
      SplitJoinSpace(lines[1..]);
    }
  }

  /** No word of `s` holds a character that `s` does not hold. */
  lemma {:induction false} SplitAvoids(s: string, c: char)
    requires c !in s
    ensures forall k :: 0 <= k < |Split(s)| ==> c !in Split(s)[k]
    decreases |s|
  {
    if |s| == 0 {
    } else if IsSpace(s[0]) {
      SplitAvoids(s[1..], c);
    } else {
      SplitAvoids(s[WordLen(s)..], c);
    }
  }
}
