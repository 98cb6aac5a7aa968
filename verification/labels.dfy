/**
 * Project-name display labels: the break-tag to space rewrite applied to
 * every project name, and `wrap_label`, the greedy packing of words into
 * lines joined by `<br>`: a line of two or more words is at most
 * `max_chars` long, and a longer word stays whole on a line of its own.
 */
module Labels {
  import opened Wrappers
  import opened Text

  /** The break marker `wrap_label` joins lines with. */
  const BreakTag := "<br>"

  /** The line budget the dashboard passes to `wrap_label`. */
  const DefaultMaxChars := 9

  /** A whole match of the break-tag pattern: `<br`, whitespace, an optional `/`, `>`. */
  predicate IsBreakTag(t: string) {
    && |t| >= 4
    && t[..3] == "<br"
    && t[|t| - 1] == '>'
    && var m := t[3..|t| - 1];
       AllSpace(m) || (|m| > 0 && m[|m| - 1] == '/' && AllSpace(m[..|m| - 1]))
  }

  /** Length of the break-tag match at the start of `s`, if the pattern matches there. */
  function TagLen(s: string): (r: Option<nat>)
    ensures r.Some? ==> 4 <= r.value <= |s| && s[..3] == "<br"
  {
    if |s| < 3 || s[..3] != "<br" then None
    else
      var k := 3 + SpaceLen(s[3..]);
      var k' := if k < |s| && s[k] == '/' then k + 1 else k;
      if k' < |s| && s[k'] == '>' then Some(k' + 1) else None
  }

  /**
   * `TagLen` agrees with the pattern: the length it returns is that of a
   * whole match, and whenever some prefix of `s` is a whole match, `TagLen`
   * returns exactly its length (so a match, when there is one, is unique).
   */
  lemma TagLenMatches(s: string)
    ensures TagLen(s).Some? ==> IsBreakTag(s[..TagLen(s).value])
    ensures forall n :: 0 <= n <= |s| && IsBreakTag(s[..n]) ==> TagLen(s) == Some(n)
  {
    if TagLen(s).Some? {
      TagFound(s);
    }
    forall n | 0 <= n <= |s| && IsBreakTag(s[..n]) ensures TagLen(s) == Some(n) {
      TagIsFound(s, n);
    }
  }

  /** The run of whitespace after `<br` that `TagLen` skips. */
  lemma SpaceRun(s: string, k: nat)
    requires |s| >= 3 && k == 3 + SpaceLen(s[3..])
    ensures k <= |s| && AllSpace(s[3..k])
  {
    forall j | 0 <= j < k - 3 ensures IsSpace(s[3..k][j]) {
      assert s[3..k][j] == s[3..][j];
    }
  }

  lemma TagFound(s: string)
    requires TagLen(s).Some?
    ensures IsBreakTag(s[..TagLen(s).value])
  {
    var k := 3 + SpaceLen(s[3..]);
    var k' := if k < |s| && s[k] == '/' then k + 1 else k;
    var n := k' + 1;
    assert TagLen(s) == Some(n);
    SpaceRun(s, k);
    var t := s[..n];
    assert t[..3] == s[..3];
    assert t[n - 1] == s[k'];
    var m := t[3..n - 1];
    assert m == s[3..k'];
    if k' > k {
      assert m[|m| - 1] == s[k];
      assert m[..|m| - 1] == s[3..k];
    }
  }

  lemma TagIsFound(s: string, n: nat)
    requires n <= |s| && IsBreakTag(s[..n])
    ensures TagLen(s) == Some(n)
  {
    var t := s[..n];
    assert s[..3] == t[..3];
    var m := t[3..n - 1];
    assert m == s[3..n - 1];
    assert s[3..][n - 4] == s[n - 1] == '>';
    if AllSpace(m) {
      forall j | 0 <= j < n - 4 ensures IsSpace(s[3..][j]) {
        assert s[3..][j] == m[j];
      }
      SpaceLenUnique(s[3..], n - 4);
    } else {
      assert s[3..][n - 5] == s[n - 2] == m[|m| - 1] == '/';
      forall j | 0 <= j < n - 5 ensures IsSpace(s[3..][j]) {
        assert s[3..][j] == m[..|m| - 1][j];
      }
      SpaceLenUnique(s[3..], n - 5);
    }
  }

  /**
   * Python's `re.sub` of the break-tag pattern `<br`, whitespace, optional
   * slash, `>` by one space: scanning left to right, every match becomes one
   * space and the scan resumes after the match.
   */
  function NormalizeBreaks(s: string): (r: string)
    ensures |r| <= |s|
    ensures '<' !in s ==> r == s
    decreases |s|
  {
    if |s| == 0 then ""
    else
      match TagLen(s)
      case Some(n) => " " + NormalizeBreaks(s[n..])
      case None => [s[0]] + NormalizeBreaks(s[1..])
  }

  /**
   * The loop of `wrap_label` from a given state: `current` is the line being
   * built and `words` the words not yet seen; the result is the list of
   * completed lines.
   */
  function Pack(words: seq<string>, current: string, maxChars: int): seq<string>
    decreases |words|
  {
    if |words| == 0 then (if current != "" then [current] else [])
    else
      var w := words[0];
      if current == "" then Pack(words[1..], w, maxChars)
      else if |current + " " + w| <= maxChars then Pack(words[1..], current + " " + w, maxChars)
      else [current] + Pack(words[1..], w, maxChars)
  }

  /** The lines `wrap_label` produces for a text that is not blank. */
  function WrapLines(text: string, maxChars: int): seq<string>
  {
    Pack(Split(text), "", maxChars)
  }

  /** `wrap_label(text, max_chars)`. */
  function WrapLabel(text: string, maxChars: int): (r: string)
    ensures AllSpace(text) ==> r == text
  {
    if Strip(text) == "" then text else Join(WrapLines(text, maxChars), BreakTag)
  }

  /** The loop of `wrap_label` as written, line by line. */
  method WrapLabelLoop(text: string, maxChars: int) returns (r: string)
    ensures r == WrapLabel(text, maxChars)
  {
    if Strip(text) == "" {
      assert WrapLabel(text, maxChars) == text;
      return text;
    }
    var words := Split(text);
    var lines: seq<string> := [];
    var current := "";
    var i := 0;
    while i < |words|
      invariant 0 <= i <= |words|
      invariant lines + Pack(words[i..], current, maxChars) == Pack(words, "", maxChars)
    {
      var w := words[i];
      assert words[i..][0] == w && words[i..][1..] == words[i + 1..];
      if current == "" {
        current := w;
      } else if |current + " " + w| <= maxChars {
        current := current + " " + w;
      } else {
        lines := lines + [current];
        current := w;
      }
      i := i + 1;
    }
    assert words[i..] == [];
    assert lines + Pack([], current, maxChars) == WrapLines(text, maxChars);
    if current != "" {
      lines := lines + [current];
    } else {
      assert lines + [] == lines;
    }
    assert lines == WrapLines(text, maxChars);
    r := Join(lines, BreakTag);
  }

  // ---------------------------------------------------------------------
  // Properties of the packing loop
  // ---------------------------------------------------------------------

  predicate AllWords(words: seq<string>) {
    forall k :: 0 <= k < |words| ==> IsWord(words[k])
  }

  /** The state the loop keeps: `current` is empty or holds at least one word. */
  predicate StartOk(current: string) {
    current == "" || !AllSpace(current)
  }

  lemma AppendWordNotBlank(current: string, w: string)
    requires IsWord(w)
    ensures !AllSpace(current + " " + w)
  {
    assert (current + " " + w)[|current| + 1] == w[0];
  }

  /** Packing neither drops, splits nor reorders words. */
  lemma {:induction false} PackKeepsWords(words: seq<string>, current: string, maxChars: int)
    requires AllWords(words) && StartOk(current)
    ensures WordsOf(Pack(words, current, maxChars)) == Split(current) + words
    decreases |words|
  {
    if |words| == 0 {
      if current != "" {
        assert WordsOf([current]) == Split(current) + WordsOf([]);
      }
    } else {
      var w := words[0];
      var rest := words[1..];
      assert words == [w] + rest;
      SplitWord(w);
      if current == "" {
        PackKeepsWords(rest, w, maxChars);
      } else if |current + " " + w| <= maxChars {
        SplitAroundSpace(current, w);
        PackKeepsWords(rest, current + " " + w, maxChars);
      } else {
        var tail := Pack(rest, w, maxChars);
        PackKeepsWords(rest, w, maxChars);
        assert ([current] + tail)[1..] == tail;
      }
    }
  }

  /** Every line holds at least one word. */
  lemma {:induction false} PackLinesNonBlank(words: seq<string>, current: string, maxChars: int)
    requires AllWords(words) && StartOk(current)
    ensures forall i :: 0 <= i < |Pack(words, current, maxChars)| ==> !AllSpace(Pack(words, current, maxChars)[i])
    decreases |words|
  {
    if |words| > 0 {
      var w := words[0];
      var rest := words[1..];
      assert !IsSpace(w[0]);
      if current == "" {
        PackLinesNonBlank(rest, w, maxChars);
      } else if |current + " " + w| <= maxChars {
        AppendWordNotBlank(current, w);
        PackLinesNonBlank(rest, current + " " + w, maxChars);
      } else {
        PackLinesNonBlank(rest, w, maxChars);
      }
    }
  }

  /** A line of two or more words fits the budget. */
  lemma {:induction false} PackLinesFit(words: seq<string>, current: string, maxChars: int)
    requires AllWords(words)
    requires |Split(current)| >= 2 ==> |current| <= maxChars
    ensures forall i :: 0 <= i < |Pack(words, current, maxChars)| ==>
              |Split(Pack(words, current, maxChars)[i])| >= 2 ==> |Pack(words, current, maxChars)[i]| <= maxChars
    decreases |words|
  {
    if |words| > 0 {
      var w := words[0];
      var rest := words[1..];
      SplitWord(w);
      if current == "" {
        PackLinesFit(rest, w, maxChars);
      } else if |current + " " + w| <= maxChars {
        PackLinesFit(rest, current + " " + w, maxChars);
      } else {
        PackLinesFit(rest, w, maxChars);
      }
    }
  }

  /** The first line produced from a non-empty `current` starts with its first word. */
  lemma {:induction false} PackFirstWord(words: seq<string>, current: string, maxChars: int)
    requires AllWords(words) && current != "" && !AllSpace(current)
    ensures |Pack(words, current, maxChars)| > 0
    ensures !AllSpace(Pack(words, current, maxChars)[0])
    ensures Split(Pack(words, current, maxChars)[0])[0] == Split(current)[0]
    decreases |words|
  {
    if |words| > 0 {
      var w := words[0];
      var rest := words[1..];
      SplitWord(w);
      if |current + " " + w| <= maxChars {
        SplitAroundSpace(current, w);
        PackFirstWord(rest, current + " " + w, maxChars);
      }
    }
  }

  /** Every line after the first opens with a word that would not have fitted on the line before. */
  predicate Greedy(lines: seq<string>, maxChars: int) {
    forall i :: 1 <= i < |lines| ==>
      !AllSpace(lines[i]) && |lines[i - 1]| + 1 + |Split(lines[i])[0]| > maxChars
  }

  /** Packing is greedy: a line is closed only when the next word does not fit on it. */
  lemma {:induction false} PackGreedy(words: seq<string>, current: string, maxChars: int)
    requires AllWords(words) && StartOk(current)
    ensures Greedy(Pack(words, current, maxChars), maxChars)
    decreases |words|
  {
    if |words| > 0 {
      var w := words[0];
      var rest := words[1..];
      SplitWord(w);
      if current == "" {
        PackGreedy(rest, w, maxChars);
      } else if |current + " " + w| <= maxChars {
        AppendWordNotBlank(current, w);
        PackGreedy(rest, current + " " + w, maxChars);
      } else {
        var tail := Pack(rest, w, maxChars);
        PackGreedy(rest, w, maxChars);
        PackFirstWord(rest, w, maxChars);
        var lines := [current] + tail;
        assert Pack(words, current, maxChars) == lines;
        forall i | 1 <= i < |lines|
          ensures !AllSpace(lines[i]) && |lines[i - 1]| + 1 + |Split(lines[i])[0]| > maxChars
        {
          assert lines[i] == tail[i - 1];
          if i > 1 {
            assert lines[i - 1] == tail[i - 2];
          }
        }
      }
    }
  }

  /** Lines contain no character that neither the words nor the joining space contain. */
  lemma {:induction false} PackAvoids(words: seq<string>, current: string, maxChars: int, c: char)
    requires c != ' ' && c !in current
    requires forall k :: 0 <= k < |words| ==> c !in words[k]
    ensures forall i :: 0 <= i < |Pack(words, current, maxChars)| ==> c !in Pack(words, current, maxChars)[i]
    decreases |words|
  {
    if |words| > 0 {
      var w := words[0];
      PackAvoids(words[1..], w, maxChars, c);
      PackAvoids(words[1..], current + " " + w, maxChars, c);
    }
  }

  // ---------------------------------------------------------------------
  // Properties of wrap_label
  // ---------------------------------------------------------------------

  /**
   * The properties of `wrap_label` on a text that holds a word: the lines
   * hold exactly the words of the text in order, each line holds a word, a
   * line of two or more words fits `maxChars`, and each line was closed only
   * because the next word did not fit.
   */
  lemma WrapLinesProperties(text: string, maxChars: int)
    ensures var lines := WrapLines(text, maxChars);
            && WordsOf(lines) == Split(text)
            && (forall i :: 0 <= i < |lines| ==> !AllSpace(lines[i]))
            && (forall i :: 0 <= i < |lines| ==> |lines[i]| > maxChars ==> |Split(lines[i])| == 1)
            && Greedy(lines, maxChars)
  {
    var words := Split(text);
    PackKeepsWords(words, "", maxChars);
    PackLinesNonBlank(words, "", maxChars);
    PackLinesFit(words, "", maxChars);
    PackGreedy(words, "", maxChars);
  }

  /** `re.sub` copies text without a `<` unchanged. */
  lemma {:induction false} NormalizePlainPrefix(a: string, b: string)
    requires '<' !in a
    ensures NormalizeBreaks(a + b) == a + NormalizeBreaks(b)
    decreases |a|
  {
    if |a| > 0 {
      var s := a + b;
      assert TagLen(s).None? by {
        if |s| >= 3 {
          assert s[..3][0] == a[0];
        }
      }
      assert NormalizeBreaks(s) == [a[0]] + NormalizeBreaks(s[1..]);
      assert s[1..] == a[1..] + b;
      NormalizePlainPrefix(a[1..], b);
      assert a == [a[0]] + a[1..];
    } else {
      assert a + b == b;
    }
  }

  /** A `<br>` marker becomes one space. */
  lemma NormalizeTag(b: string)
    ensures NormalizeBreaks(BreakTag + b) == " " + NormalizeBreaks(b)
  {
    var s := BreakTag + b;
    assert s[..3] == "<br";
    SpaceLenUnique(s[3..], 0);
    assert s[4..] == b;
  }

  /** Any whole match of the pattern (`<br>`, `<br/>`, `<br />`, ...) at the front becomes one space. */
  lemma NormalizeMatch(t: string, b: string)
    requires IsBreakTag(t)
    ensures NormalizeBreaks(t + b) == " " + NormalizeBreaks(b)
  {
    var s := t + b;
    assert s[..|t|] == t;
    TagIsFound(s, |t|);
    assert s[|t|..] == b;
  }

  /** Rewriting the breaks of lines joined by `<br>` joins them by spaces instead. */
  lemma {:induction false} NormalizeJoin(lines: seq<string>)
    requires forall i :: 0 <= i < |lines| ==> '<' !in lines[i]
    ensures NormalizeBreaks(Join(lines, BreakTag)) == Join(lines, " ")
  {
    if |lines| == 1 {
      assert NormalizeBreaks(lines[0]) == lines[0];
    } else if |lines| > 1 {
      var rest := Join(lines[1..], BreakTag);
      assert Join(lines, BreakTag) == lines[0] + (BreakTag + rest);
      NormalizePlainPrefix(lines[0], BreakTag + rest);
      NormalizeTag(rest);
      NormalizeJoin(lines[1..]);
    }
  }

  /**
   * A wrapped label, read back by turning its `<br>` markers into spaces,
   * holds exactly the words of the name it was made from.
   */
  lemma WrapLabelRoundTrip(text: string, maxChars: int)
    requires '<' !in text
    ensures Split(NormalizeBreaks(WrapLabel(text, maxChars))) == Split(text)
  {
    if !AllSpace(text) {
      var lines := WrapLines(text, maxChars);
      SplitAvoids(text, '<');
      PackAvoids(Split(text), "", maxChars, '<');
      NormalizeJoin(lines);
      SplitJoinSpace(lines);
      WrapLinesProperties(text, maxChars);
    }
  }
}
