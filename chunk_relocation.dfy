/**
 * Recovering `(start, end)` offsets for chunks that arrive as bare strings
 * (chunking/helpers.py): an exact search, then a search that ignores
 * whitespace and case, then a fuzzy sentence match, and the assembly of
 * chunk records from a splitter's output.
 */
module ChunkRelocation {
  import opened Wrappers
  import opened TextUtil

  /** The chunk record of the shared core library. */
  datatype Chunk = Chunk(text: string, startIndex: int, endIndex: int, tokenCount: Option<int>)

  /** A fuzzy scorer such as `fuzz.token_sort_ratio`: query and choice to a score. */
  type Scorer = (string, string) -> int

  /** The least score the fuzzy stage accepts. */
  const Threshold := 98

  // ---- whitespace and words ----

  predicate AllSpace(s: string)
  {
    forall k :: 0 <= k < |s| ==> IsPySpace(s[k])
  }

  predicate NoSpace(s: string)
  {
    forall k :: 0 <= k < |s| ==> !IsPySpace(s[k])
  }

  /** The end of the whitespace run that starts at `i`. */
  function SkipSpaces(s: string, i: nat): (r: nat)
    requires i <= |s|
    ensures i <= r <= |s| && AllSpace(s[i..r]) && (r < |s| ==> !IsPySpace(s[r]))
    decreases |s| - i
  {
    if i < |s| && IsPySpace(s[i]) then
      var r := SkipSpaces(s, i + 1);
      assert s[i..r] == [s[i]] + s[i + 1..r];
      r
    else i
  }

  /** The end of the non-whitespace run that starts at `i`. */
  function WordEnd(s: string, i: nat): (r: nat)
    requires i <= |s|
    ensures i <= r <= |s| && NoSpace(s[i..r]) && (r < |s| ==> IsPySpace(s[r]))
    decreases |s| - i
  {
    if i < |s| && !IsPySpace(s[i]) then
      var r := WordEnd(s, i + 1);
      assert s[i..r] == [s[i]] + s[i + 1..r];
      r
    else i
  }

  /** The words of `s[i..]`, as `str.split()` without arguments finds them. */
  function WordsFrom(s: string, i: nat): (r: seq<string>)
    requires i <= |s|
    ensures forall k :: 0 <= k < |r| ==> r[k] != "" && NoSpace(r[k])
    decreases |s| - i
  {
    var b := SkipSpaces(s, i);
    if b == |s| then []
    else
      var e := WordEnd(s, b);
      [s[b..e]] + WordsFrom(s, e)
  }

  /**
   * The words of the normalised query. Collapsing whitespace runs to one
   * space and stripping the ends, as the source does first, leaves the same words.
   */
  function Words(s: string): (r: seq<string>)
    ensures forall k :: 0 <= k < |r| ==> r[k] != "" && NoSpace(r[k])
  {
    WordsFrom(s, 0)
  }

  /** A query made only of whitespace has no words. */
  lemma BlankQueryHasNoWords(s: string)
    requires AllSpace(s)
    ensures Words(s) == []
  {
    assert s[0..|s|] == s;
    SkipSpacesOverRun(s, 0, |s|);
  }

  /** Skipping from the start of a whitespace run that is followed by a non-space (or the end) stops exactly there. */
  lemma {:induction false} SkipSpacesOverRun(s: string, i: nat, j: nat)
    requires i <= j <= |s| && AllSpace(s[i..j]) && (j < |s| ==> !IsPySpace(s[j]))
    ensures SkipSpaces(s, i) == j
    decreases j - i
  {
    if i < j {
      assert s[i] == s[i..j][0];
      assert s[i + 1..j] == s[i..j][1..];
      SkipSpacesOverRun(s, i + 1, j);
    }
  }

  /** A run of non-space characters followed by whitespace (or the end) is one word, ending there. */
  lemma {:induction false} WordEndOverRun(s: string, i: nat, j: nat)
    requires i <= j <= |s| && NoSpace(s[i..j]) && (j < |s| ==> IsPySpace(s[j]))
    ensures WordEnd(s, i) == j
    decreases j - i
  {
    if i < j {
      assert s[i] == s[i..j][0];
      assert s[i + 1..j] == s[i..j][1..];
      WordEndOverRun(s, i + 1, j);
    }
  }

  /** Splitting after a whitespace run finds the same words as splitting before it. */
  lemma WordsFromSkipsSpaces(s: string, i: nat, j: nat)
    requires i <= j <= |s| && AllSpace(s[i..j])
    ensures WordsFrom(s, i) == WordsFrom(s, j)
  {
    var r := SkipSpaces(s, j);
    forall k | 0 <= k < r - i
      ensures IsPySpace(s[i..r][k])
    {
      if i + k < j {
        assert s[i..r][k] == s[i..j][k];
      } else {
        assert s[i..r][k] == s[j..r][i + k - j];
      }
    }
    SkipSpacesOverRun(s, i, r);
  }

  /** The words after a prefix do not depend on the prefix. */
  lemma {:induction false} WordsFromShift(x: string, y: string, j: nat)
    requires j <= |y|
    ensures WordsFrom(x + y, |x| + j) == WordsFrom(y, j)
    decreases |y| - j
  {
    var s := x + y;
    var b := SkipSpaces(y, j);
    assert s[|x| + j..|x| + b] == y[j..b];
    assert b < |y| ==> s[|x| + b] == y[b];
    SkipSpacesOverRun(s, |x| + j, |x| + b);
    if b < |y| {
      var e := WordEnd(y, b);
      assert s[|x| + b..|x| + e] == y[b..e];
      assert e < |y| ==> s[|x| + e] == y[e];
      WordEndOverRun(s, |x| + b, |x| + e);
      WordsFromShift(x, y, e);
    }
  }

  /** The words of `a`, from `i` on, then those of `b`, when one whitespace character separates them. */
  lemma {:induction false} WordsFromAcrossSpace(a: string, c: char, b: string, i: nat)
    requires IsPySpace(c) && i <= |a|
    ensures WordsFrom(a + [c] + b, i) == WordsFrom(a, i) + WordsFrom(b, 0)
    decreases |a| - i
  {
    var ba := SkipSpaces(a, i);
    if ba < |a| {
      var ea := WordEnd(a, ba);
      WordInPrefix(a, c, b, i);
      WordsFromAcrossSpace(a, c, b, ea);
    } else {
      TrailingSpacesInPrefix(a, c, b, i);
    }
  }

  /** A word of `a` that starts before its end is found unchanged in `a + [c] + b`. */
  lemma WordInPrefix(a: string, c: char, b: string, i: nat)
    requires IsPySpace(c) && i <= |a| && SkipSpaces(a, i) < |a|
    ensures var ba := SkipSpaces(a, i);
      var ea := WordEnd(a, ba);
      SkipSpaces(a + [c] + b, i) == ba && WordEnd(a + [c] + b, ba) == ea
      && (a + [c] + b)[ba..ea] == a[ba..ea]
  {
    var s := a + [c] + b;
    var ba := SkipSpaces(a, i);
    assert s[i..ba] == a[i..ba];
    assert s[ba] == a[ba];
    SkipSpacesOverRun(s, i, ba);
    var ea := WordEnd(a, ba);
    assert s[ba..ea] == a[ba..ea];
    assert IsPySpace(s[ea]) by {
      if ea < |a| { assert s[ea] == a[ea]; } else { assert s[ea] == c; }
    }
    WordEndOverRun(s, ba, ea);
  }

  /** The whitespace left of `a` and the separating character form one run. */
  lemma SpacesThenSpace(a: string, c: char, b: string, i: nat)
    requires IsPySpace(c) && i <= |a| && SkipSpaces(a, i) == |a|
    ensures AllSpace((a + [c] + b)[i..|a| + 1])
  {
    var run := (a + [c] + b)[i..|a| + 1];
    forall k | 0 <= k < |run|
      ensures IsPySpace(run[k])
    {
      if k < |a| - i { assert run[k] == a[i..|a|][k]; }
      else { assert run[k] == c; }
    }
  }

  /** When only whitespace is left of `a`, the words from `i` on are those of `b`. */
  lemma TrailingSpacesInPrefix(a: string, c: char, b: string, i: nat)
    requires IsPySpace(c) && i <= |a| && SkipSpaces(a, i) == |a|
    ensures WordsFrom(a + [c] + b, i) == WordsFrom(b, 0)
    ensures WordsFrom(a, i) == []
  {
    var s := a + [c] + b;
    SpacesThenSpace(a, c, b, i);
    WordsFromSkipsSpaces(s, i, |a| + 1);
    assert s == (a + [c]) + b;
    WordsFromShift(a + [c], b, 0);
  }

  /**
   * `str.split()` cuts at every whitespace character: the words on either
   * side of one are found independently. With `WordsOfWord` and
   * `BlankQueryHasNoWords` this fixes `Words` on every string.
   */
  lemma WordsSplitAtSpace(a: string, c: char, b: string)
    requires IsPySpace(c)
    ensures Words(a + [c] + b) == Words(a) + Words(b)
  {
    WordsFromAcrossSpace(a, c, b, 0);
  }

  /** A string with no whitespace, and not empty, is a single word. */
  lemma WordsOfWord(w: string)
    requires w != "" && NoSpace(w)
    ensures Words(w) == [w]
  {
    SkipSpacesOverRun(w, 0, 0);
    assert w[0..|w|] == w;
    WordEndOverRun(w, 0, |w|);
    assert WordsFrom(w, |w|) == [];
  }

  // ---- the whitespace-insensitive pattern ----

  /** Equal up to case, as `re.IGNORECASE` compares literal characters. */
  predicate FoldEq(a: string, b: string)
  {
    |a| == |b| && forall k :: 0 <= k < |a| ==> AsciiLower(a[k]) == AsciiLower(b[k])
  }

  /**
   * `seg` is matched in full by the pattern `w1\s*w2\s*...wn`: each word up to
   * case, with any whitespace run, possibly empty, between consecutive words.
   */
  ghost predicate Matches(seg: string, words: seq<string>)
    decreases |words|
  {
    if words == [] then seg == []
    else
      var w := words[0];
      |w| <= |seg| && FoldEq(seg[..|w|], w)
      && if |words| == 1 then |seg| == |w|
         else exists k :: SplitsAt(seg, words, k)
  }

  /** After the first word of `seg`, a whitespace run up to `k`, then a match of the other words. */
  ghost predicate SplitsAt(seg: string, words: seq<string>, k: int)
    requires |words| > 1
    decreases |words|, 0
  {
    |words[0]| <= k <= |seg| && AllSpace(seg[|words[0]|..k]) && Matches(seg[k..], words[1..])
  }

  /** Where the pattern, tried at `i`, ends; the greedy `\s*` leaves the regex no choice. */
  function MatchAt(doc: string, words: seq<string>, i: nat): (r: Option<nat>)
    requires i <= |doc|
    ensures r.Some? ==> i <= r.value <= |doc|
    decreases |words|
  {
    if words == [] then Some(i)
    else
      var w := words[0];
      if i + |w| <= |doc| && FoldEq(doc[i..i + |w|], w) then
        if |words| == 1 then Some(i + |w|) else MatchAt(doc, words[1..], SkipSpaces(doc, i + |w|))
      else None
  }

  /** What `MatchAt` finds is a match of the pattern. */
  lemma {:induction false} MatchAtSound(doc: string, words: seq<string>, i: nat)
    requires i <= |doc| && MatchAt(doc, words, i).Some?
    ensures Matches(doc[i..MatchAt(doc, words, i).value], words)
    decreases |words|
  {
    var e := MatchAt(doc, words, i).value;
    if words != [] {
      var w := words[0];
      MatchAtFirst(doc, words, i);
      if |words| == 1 {
        assert doc[i..e][..|w|] == doc[i..e];
      } else {
        var j := SkipSpaces(doc, i + |w|);
        MatchAtSound(doc, words[1..], j);
        MatchesJoin(doc, words, i, j, e);
      }
    }
  }

  /** The first word at `i`, a whitespace run up to `j` and a match of the other words from `j` to `e` make a match. */
  lemma MatchesJoin(doc: string, words: seq<string>, i: nat, j: nat, e: nat)
    requires |words| > 1 && i + |words[0]| <= j <= e <= |doc|
    requires FoldEq(doc[i..i + |words[0]|], words[0]) && AllSpace(doc[i + |words[0]|..j])
    requires Matches(doc[j..e], words[1..])
    ensures Matches(doc[i..e], words)
  {
    var w := words[0];
    var seg := doc[i..e];
    var k := j - i;
    SubSlice(doc, i, e, 0, |w|);
    assert seg[..|w|] == seg[0..|w|];
    SubSlice(doc, i, e, k, e - i);
    assert seg[k..] == seg[k..e - i];
    SubSlice(doc, i, e, |w|, k);
    MatchesStep(seg, words, k);
  }

  /** A successful `MatchAt` read its first word at `i`, then went on where the whitespace run ends. */
  lemma MatchAtFirst(doc: string, words: seq<string>, i: nat)
    requires i <= |doc| && words != [] && MatchAt(doc, words, i).Some?
    ensures i + |words[0]| <= |doc| && FoldEq(doc[i..i + |words[0]|], words[0])
    ensures |words| == 1 ==> MatchAt(doc, words, i) == Some(i + |words[0]|)
    ensures |words| > 1 ==> MatchAt(doc, words, i) == MatchAt(doc, words[1..], SkipSpaces(doc, i + |words[0]|))
  {
  }

  /** One step of `Matches`: the first word, then a whitespace run up to `k`, then the rest. */
  lemma MatchesStep(seg: string, words: seq<string>, k: nat)
    requires |words| > 1 && |words[0]| <= k <= |seg|
    requires FoldEq(seg[..|words[0]|], words[0])
    requires AllSpace(seg[|words[0]|..k]) && Matches(seg[k..], words[1..])
    ensures Matches(seg, words)
  {
    assert SplitsAt(seg, words, k);
  }

  /** A character equal up to case to a non-space is not a space. */
  lemma FoldKeepsNonSpace(c: char, d: char)
    requires AsciiLower(c) == AsciiLower(d) && !IsPySpace(d)
    ensures !IsPySpace(c)
  {
  }

  lemma SubSlice(doc: string, i: nat, e: nat, a: nat, b: nat)
    requires i <= e <= |doc| && a <= b <= e - i
    ensures doc[i..e][a..b] == doc[i + a..i + b]
  {
    assert forall p :: 0 <= p < b - a ==> doc[i..e][a..b][p] == doc[i + a..i + b][p];
  }

  /** Splitting a match after its first word: the next word starts right after the whitespace run. */
  lemma MatchesSplit(seg: string, words: seq<string>) returns (k: nat)
    requires |words| > 1 && Matches(seg, words) && words[1] != "" && NoSpace(words[1])
    ensures |words[0]| <= k < |seg| && AllSpace(seg[|words[0]|..k]) && Matches(seg[k..], words[1..])
    ensures !IsPySpace(seg[k]) && FoldEq(seg[..|words[0]|], words[0])
  {
    var w := words[0];
    k :| SplitsAt(seg, words, k);
    assert Matches(seg[k..], words[1..]);
    var w2 := words[1];
    assert words[1..][0] == w2;
    assert FoldEq(seg[k..][..|w2|], w2);
    assert seg[k..][..|w2|][0] == seg[k];
    FoldKeepsNonSpace(seg[k], w2[0]);
  }

  lemma MatchesHead(seg: string, words: seq<string>)
    requires words != [] && Matches(seg, words)
    ensures |words[0]| <= |seg| && FoldEq(seg[..|words[0]|], words[0])
    ensures |words| == 1 ==> |seg| == |words[0]|
  {
  }

  /** The pattern matches at `i` through its first word, then continues where the whitespace run ends. */
  lemma MatchAtJoin(doc: string, words: seq<string>, i: nat, j: nat, e: nat)
    requires |words| > 1 && i + |words[0]| <= j <= |doc| && FoldEq(doc[i..i + |words[0]|], words[0])
    requires SkipSpaces(doc, i + |words[0]|) == j && MatchAt(doc, words[1..], j) == Some(e)
    ensures MatchAt(doc, words, i) == Some(e)
  {
  }

  /** A match of several words: its first word, then a whitespace run that `SkipSpaces` crosses, then a match of the rest. */
  lemma MatchesTail(doc: string, words: seq<string>, i: nat, e: nat) returns (j: nat)
    requires i <= e <= |doc| && |words| > 1 && Matches(doc[i..e], words)
    requires words[1] != "" && NoSpace(words[1])
    ensures i + |words[0]| <= j <= e && FoldEq(doc[i..i + |words[0]|], words[0])
    ensures SkipSpaces(doc, i + |words[0]|) == j && Matches(doc[j..e], words[1..])
  {
    var k := MatchesSplit(doc[i..e], words);
    SplitInDoc(doc, i, e, words[0], k);
    j := i + k;
    assert doc[j..e] == doc[i..e][k..];
  }

  /** The facts `MatchesSplit` gives about the segment, restated on the document. */
  lemma SplitInDoc(doc: string, i: nat, e: nat, w: string, k: nat)
    requires i <= e <= |doc| && |w| <= k < e - i
    requires FoldEq(doc[i..e][..|w|], w) && AllSpace(doc[i..e][|w|..k]) && !IsPySpace(doc[i..e][k])
    ensures FoldEq(doc[i..i + |w|], w) && SkipSpaces(doc, i + |w|) == i + k && doc[i + k..e] == doc[i..e][k..]
  {
    var seg := doc[i..e];
    SubSlice(doc, i, e, 0, |w|);
    assert seg[..|w|] == seg[0..|w|];
    SubSlice(doc, i, e, |w|, k);
    assert doc[i + k] == seg[k];
    SkipSpacesOverRun(doc, i + |w|, i + k);
    SubSlice(doc, i, e, k, |seg|);
    assert seg[k..] == seg[k..|seg|];
  }

  /** Every match of the pattern starting at `i` is the one `MatchAt` finds. */
  lemma {:induction false} MatchAtComplete(doc: string, words: seq<string>, i: nat, e: nat)
    requires i <= e <= |doc| && Matches(doc[i..e], words)
    requires forall k :: 0 <= k < |words| ==> words[k] != "" && NoSpace(words[k])
    ensures MatchAt(doc, words, i) == Some(e)
    decreases |words|
  {
    if |words| == 1 {
      var seg := doc[i..e];
      MatchesHead(seg, words);
      assert seg[..|words[0]|] == doc[i..e];
    } else if |words| > 1 {
      var j := MatchesTail(doc, words, i, e);
      assert forall k :: 0 <= k < |words[1..]| ==> words[1..][k] == words[k + 1];
      MatchAtComplete(doc, words[1..], j, e);
      MatchAtJoin(doc, words, i, j, e);
    }
  }

  /** `regex.search`: the leftmost start at or after `i` where the pattern matches. */
  function SearchFrom(doc: string, words: seq<string>, i: nat): (r: Option<(nat, nat)>)
    requires i <= |doc|
    ensures r.Some? ==> i <= r.value.0 <= r.value.1 <= |doc|
    decreases |doc| - i
  {
    match MatchAt(doc, words, i)
    case Some(e) => Some((i, e))
    case None => if i == |doc| then None else SearchFrom(doc, words, i + 1)
  }

  /** `find_query_despite_whitespace`. */
  function FindQueryDespiteWhitespace(doc: string, query: string): (r: Option<(nat, nat)>)
    ensures r.Some? ==> r.value.0 <= r.value.1 <= |doc|
  {
    SearchFrom(doc, Words(query), 0)
  }

  /** No part of the document that starts at `s` is matched by the pattern. */
  ghost predicate NoMatchStartingAt(doc: string, words: seq<string>, s: nat)
    requires s <= |doc|
  {
    forall e :: s <= e <= |doc| ==> !Matches(doc[s..e], words)
  }

  /** No part of the document that starts in `[lo, hi)` is matched by the pattern. */
  ghost predicate NoMatchStartingIn(doc: string, words: seq<string>, lo: nat, hi: nat)
    requires lo <= hi <= |doc| + 1
  {
    forall s :: lo <= s < hi ==> NoMatchStartingAt(doc, words, s)
  }

  /** When the deterministic matcher fails at `s`, nothing starting at `s` matches. */
  lemma MatchAtNoneComplete(doc: string, words: seq<string>, s: nat)
    requires s <= |doc| && MatchAt(doc, words, s).None?
    requires forall k :: 0 <= k < |words| ==> words[k] != "" && NoSpace(words[k])
    ensures NoMatchStartingAt(doc, words, s)
  {
    forall e | s <= e <= |doc| && Matches(doc[s..e], words)
      ensures MatchAt(doc, words, s) == Some(e)
    {
      MatchAtComplete(doc, words, s, e);
    }
  }

  lemma {:induction false} SearchFromLeftmost(doc: string, words: seq<string>, i: nat)
    requires i <= |doc|
    requires forall k :: 0 <= k < |words| ==> words[k] != "" && NoSpace(words[k])
    ensures SearchFrom(doc, words, i).Some? ==>
      var (s, e) := SearchFrom(doc, words, i).value;
      Matches(doc[s..e], words) && NoMatchStartingIn(doc, words, i, s)
    ensures SearchFrom(doc, words, i).None? ==> NoMatchStartingIn(doc, words, i, |doc| + 1)
    decreases |doc| - i
  {
    match MatchAt(doc, words, i)
    case Some(e) =>
      MatchAtSound(doc, words, i);
    case None =>
      MatchAtNoneComplete(doc, words, i);
      if i < |doc| {
        SearchFromLeftmost(doc, words, i + 1);
      }
  }

  /**
   * The whitespace-insensitive search returns the leftmost match of the query's
   * words in order, ending with the last word; it returns nothing only when no
   * part of the document matches.
   */
  lemma WhitespaceSearchLeftmost(doc: string, query: string)
    ensures FindQueryDespiteWhitespace(doc, query).Some? ==>
      var (s, e) := FindQueryDespiteWhitespace(doc, query).value;
      Matches(doc[s..e], Words(query)) && NoMatchStartingIn(doc, Words(query), 0, s)
    ensures FindQueryDespiteWhitespace(doc, query).None? ==>
      NoMatchStartingIn(doc, Words(query), 0, |doc| + 1)
  {
    SearchFromLeftmost(doc, Words(query), 0);
  }

  /** A blank query matches the empty string at offset 0. */
  lemma BlankQueryAtZero(doc: string, query: string)
    requires AllSpace(query)
    ensures FindQueryDespiteWhitespace(doc, query) == Some((0, 0))
  {
    BlankQueryHasNoWords(query);
  }

  // ---- sentences and the fuzzy stage ----

  predicate IsSentenceMark(c: char) { c == '.' || c == '!' || c == '?' }

  /** Neither a sentence mark nor a newline occurs in `s[lo..hi]`. */
  predicate NoSeparator(s: string, lo: nat, hi: nat)
    requires lo <= hi <= |s|
  {
    forall p :: lo <= p < hi ==> !IsSentenceMark(s[p]) && s[p] != '\n'
  }

  /**
   * `re.split(r"[.!?]\s*|\n", document)` as index ranges: the current piece
   * began at `start` and the scan is at `i`.
   */
  function SplitFrom(doc: string, start: nat, i: nat): (r: seq<(nat, nat)>)
    requires start <= i <= |doc| && NoSeparator(doc, start, i)
    ensures |r| >= 1
    ensures forall k :: 0 <= k < |r| ==> r[k].0 <= r[k].1 <= |doc| && NoSeparator(doc, r[k].0, r[k].1)
    decreases |doc| - i
  {
    if i == |doc| then [(start, i)]
    else if IsSentenceMark(doc[i]) then
      var j := SkipSpaces(doc, i + 1);
      [(start, i)] + SplitFrom(doc, j, j)
    else if doc[i] == '\n' then [(start, i)] + SplitFrom(doc, i + 1, i + 1)
    else SplitFrom(doc, start, i + 1)
  }

  /** The sentence ranges of the document; there is always at least one. */
  function SentenceSpans(doc: string): (r: seq<(nat, nat)>)
    ensures |r| >= 1
    ensures forall k :: 0 <= k < |r| ==> r[k].0 <= r[k].1 <= |doc| && NoSeparator(doc, r[k].0, r[k].1)
  {
    SplitFrom(doc, 0, 0)
  }

  /**
   * `doc[e..s]` is one match of the separator pattern: a sentence mark with
   * the whole whitespace run after it, or a single newline.
   */
  predicate SeparatorMatch(doc: string, e: nat, s: nat)
  {
    e < s <= |doc|
    && ((IsSentenceMark(doc[e]) && AllSpace(doc[e + 1..s]) && (s < |doc| ==> !IsPySpace(doc[s])))
        || (doc[e] == '\n' && s == e + 1))
  }

  /** Between every two consecutive pieces lies one separator match. */
  predicate Chained(doc: string, r: seq<(nat, nat)>)
  {
    forall k :: 0 <= k < |r| - 1 ==> SeparatorMatch(doc, r[k].1, r[k + 1].0)
  }

  /** The pieces run from `start` to the end of the document, chained by separator matches. */
  predicate Shaped(doc: string, start: nat, r: seq<(nat, nat)>)
  {
    r != [] && r[0].0 == start && r[|r| - 1].1 == |doc| && Chained(doc, r)
  }

  /** A piece ending at a separator match, put before a chain starting where the match ends. */
  lemma ChainedCons(doc: string, start: nat, i: nat, rest: seq<(nat, nat)>)
    requires rest != [] && Shaped(doc, rest[0].0, rest) && SeparatorMatch(doc, i, rest[0].0)
    ensures Shaped(doc, start, [(start, i)] + rest)
  {
    var r := [(start, i)] + rest;
    assert r[|r| - 1] == rest[|rest| - 1];
    forall k | 0 <= k < |r| - 1
      ensures SeparatorMatch(doc, r[k].1, r[k + 1].0)
    {
      if k > 0 {
        assert r[k] == rest[k - 1] && r[k + 1] == rest[k];
      }
    }
  }

  /**
   * The pieces run from `start` to the end of the document, and between two
   * consecutive pieces lies exactly one separator match.
   */
  lemma {:induction false} SplitFromShape(doc: string, start: nat, i: nat)
    requires start <= i <= |doc| && NoSeparator(doc, start, i)
    ensures Shaped(doc, start, SplitFrom(doc, start, i))
    decreases |doc| - i, 1
  {
    if i == |doc| {
    } else if IsSentenceMark(doc[i]) {
      ShapeAtMark(doc, start, i);
    } else if doc[i] == '\n' {
      ShapeAtNewline(doc, start, i);
    } else {
      NoSeparatorExtend(doc, start, i);
      SplitFromShape(doc, start, i + 1);
    }
  }

  lemma {:induction false} ShapeAtMark(doc: string, start: nat, i: nat)
    requires start <= i < |doc| && NoSeparator(doc, start, i) && IsSentenceMark(doc[i])
    ensures Shaped(doc, start, SplitFrom(doc, start, i))
    decreases |doc| - i, 0
  {
    var j := SkipSpaces(doc, i + 1);
    var rest := SplitFrom(doc, j, j);
    assert SplitFrom(doc, start, i) == [(start, i)] + rest;
    SplitFromShape(doc, j, j);
    assert SeparatorMatch(doc, i, j);
    ChainedCons(doc, start, i, rest);
  }

  lemma {:induction false} ShapeAtNewline(doc: string, start: nat, i: nat)
    requires start <= i < |doc| && NoSeparator(doc, start, i) && doc[i] == '\n'
    ensures Shaped(doc, start, SplitFrom(doc, start, i))
    decreases |doc| - i, 0
  {
    var rest := SplitFrom(doc, i + 1, i + 1);
    assert SplitFrom(doc, start, i) == [(start, i)] + rest;
    SplitFromShape(doc, i + 1, i + 1);
    assert SeparatorMatch(doc, i, i + 1);
    ChainedCons(doc, start, i, rest);
  }

  lemma NoSeparatorExtend(doc: string, start: nat, i: nat)
    requires start <= i < |doc| && NoSeparator(doc, start, i)
    requires !IsSentenceMark(doc[i]) && doc[i] != '\n'
    ensures NoSeparator(doc, start, i + 1)
  {
  }

  /**
   * `SentenceSpans` is `re.split`: the sentences cover the document from its
   * first character to its last, each free of separators, and consecutive
   * sentences are divided by exactly one separator match.
   */
  lemma SentenceSpansShape(doc: string)
    ensures var r := SentenceSpans(doc);
      r[0].0 == 0 && r[|r| - 1].1 == |doc|
      && forall k :: 0 <= k < |r| - 1 ==> SeparatorMatch(doc, r[k].1, r[k + 1].0)
  {
    SplitFromShape(doc, 0, 0);
  }

  function SpanText(doc: string, span: (nat, nat)): string
    requires span.0 <= span.1 <= |doc|
  {
    doc[span.0..span.1]
  }

  /** The first sentence with the highest score, as `max` picks among equal scores. */
  function Best(doc: string, spans: seq<(nat, nat)>, target: string, scorer: Scorer): (b: nat)
    requires |spans| >= 1
    requires forall k :: 0 <= k < |spans| ==> spans[k].0 <= spans[k].1 <= |doc|
    ensures b < |spans|
    ensures forall k :: 0 <= k < |spans| ==>
      scorer(target, SpanText(doc, spans[k])) <= scorer(target, SpanText(doc, spans[b]))
    ensures forall k :: 0 <= k < b ==>
      scorer(target, SpanText(doc, spans[k])) < scorer(target, SpanText(doc, spans[b]))
  {
    var n := |spans| - 1;
    if n == 0 then 0
    else
      var b := Best(doc, spans[..n], target, scorer);
      assert forall k :: 0 <= k < n ==> spans[..n][k] == spans[k];
      if scorer(target, SpanText(doc, spans[n])) > scorer(target, SpanText(doc, spans[b])) then n else b
  }

  /** Lines 83-96: the best sentence if it scores at least the threshold, located with `find`. */
  function FuzzySearch(doc: string, target: string, scorer: Scorer): (r: Option<(nat, nat)>)
    ensures r.Some? ==> r.value.0 <= r.value.1 <= |doc|
  {
    var spans := SentenceSpans(doc);
    var b := Best(doc, spans, target, scorer);
    var reference := SpanText(doc, spans[b]);
    if scorer(target, reference) < Threshold then None
    else
      FindSubstring(doc, spans[b].0, spans[b].1);
      var s: nat := Find(doc, reference);
      Some((s, s + |reference|))
  }

  /**
   * The fuzzy stage answers only when the best sentence reaches the threshold,
   * and then returns the first range of the document whose text is exactly
   * that sentence, as `str.find` does.
   */
  lemma FuzzySearchFindsBestSentence(doc: string, target: string, scorer: Scorer)
    ensures var spans := SentenceSpans(doc);
      var best := SpanText(doc, spans[Best(doc, spans, target, scorer)]);
      (FuzzySearch(doc, target, scorer).Some? <==> scorer(target, best) >= Threshold)
      && (FuzzySearch(doc, target, scorer).Some? ==>
            var (s, e) := FuzzySearch(doc, target, scorer).value;
            doc[s..e] == best
            && (forall j :: 0 <= j < s ==> !OccursAt(doc, best, j))
            && forall k :: 0 <= k < |spans| ==> scorer(target, SpanText(doc, spans[k])) <= scorer(target, best))
  {
    var spans := SentenceSpans(doc);
    var b := Best(doc, spans, target, scorer);
    FindSubstring(doc, spans[b].0, spans[b].1);
  }

  // ---- the three stages together ----

  /** At most one trailing full stop is dropped from the target. */
  function StripOneDot(t: string): (r: string)
    ensures EndsWith(t, ".") ==> r + "." == t
    ensures !EndsWith(t, ".") ==> r == t
  {
    if EndsWith(t, ".") then
      var r := t[..|t| - 1];
      assert r + "." == t;
      r
    else t
  }

  /** `rigorous_document_search`. */
  function RigorousSearch(doc: string, target: string, scorer: Scorer): (r: Option<(nat, nat)>)
    ensures r.Some? ==> r.value.0 <= r.value.1 <= |doc|
  {
    var t := StripOneDot(target);
    if Contains(doc, t) then
      var s: nat := Find(doc, t);
      Some((s, s + |t|))
    else
      match FindQueryDespiteWhitespace(doc, t)
      case Some(found) => Some(found)
      case None => FuzzySearch(doc, t, scorer)
  }

  /** When the stripped target occurs, the answer is its first occurrence. */
  lemma ExactStageFirstOccurrence(doc: string, target: string, scorer: Scorer)
    requires Contains(doc, StripOneDot(target))
    ensures var t := StripOneDot(target);
      RigorousSearch(doc, target, scorer).Some?
      && var (s, e) := RigorousSearch(doc, target, scorer).value;
      doc[s..e] == t && forall j :: 0 <= j < s ==> !OccursAt(doc, t, j)
  {
  }

  /** An empty target, or a lone full stop, is found at `(0, 0)`. */
  lemma EmptyTargetAtZero(doc: string, target: string, scorer: Scorer)
    requires target == "" || target == "."
    ensures RigorousSearch(doc, target, scorer) == Some((0, 0))
  {
    assert OccursAt(doc, "", 0);
  }

  /** Without an exact occurrence, a whitespace-insensitive match wins over the fuzzy stage. */
  lemma WhitespaceStageBeforeFuzzy(doc: string, target: string, scorer: Scorer)
    requires !Contains(doc, StripOneDot(target))
    ensures FindQueryDespiteWhitespace(doc, StripOneDot(target)).Some? ==>
      RigorousSearch(doc, target, scorer) == FindQueryDespiteWhitespace(doc, StripOneDot(target))
    ensures FindQueryDespiteWhitespace(doc, StripOneDot(target)).None? ==>
      RigorousSearch(doc, target, scorer) == FuzzySearch(doc, StripOneDot(target), scorer)
  {
  }

  // ---- get_chunks ----

  /** What a chunker returns: bare strings from `split_text`, or finished chunk records. */
  datatype ChunkerOutput = SplitText(pieces: seq<string>) | Records(chunks: seq<Chunk>)

  function PlacedChunk(piece: string, range: (nat, nat)): Chunk
  {
    Chunk(piece, range.0, range.1, None)
  }

  /** Where a piece of text is found in the document, if anywhere. */
  type Locator = string -> Option<(nat, nat)>

  /** The search `get_chunks` applies to each piece. */
  function Rigorous(doc: string, scorer: Scorer): Locator
  {
    piece => RigorousSearch(doc, piece, scorer)
  }

  /** The chunks built from the located pieces, in order; unlocated pieces are skipped. */
  function Located(pieces: seq<string>, locate: Locator): seq<Chunk>
  {
    if pieces == [] then []
    else
      var n := |pieces| - 1;
      Located(pieces[..n], locate)
      + match locate(pieces[n])
        case None => []
        case Some(range) => [PlacedChunk(pieces[n], range)]
  }

  /** `get_chunks`. */
  method GetChunks(doc: string, output: ChunkerOutput, scorer: Scorer) returns (chunks: seq<Chunk>)
    ensures output.Records? ==> chunks == output.chunks
    ensures output.SplitText? ==> chunks == Located(output.pieces, Rigorous(doc, scorer))
  {
    if output.Records? {
      return output.chunks;
    }
    var pieces := output.pieces;
    chunks := [];
    var i := 0;
    while i < |pieces|
      invariant 0 <= i <= |pieces|
      invariant chunks == Located(pieces[..i], Rigorous(doc, scorer))
    {
      var result := RigorousSearch(doc, pieces[i], scorer);
      LocatedStep(pieces, i, Rigorous(doc, scorer));
      assert Rigorous(doc, scorer)(pieces[i]) == result;
      if result.Some? {
        chunks := chunks + [PlacedChunk(pieces[i], result.value)];
      }
      i := i + 1;
    }
    assert pieces[..i] == pieces;
  }

  /** Locating one more piece appends its chunk, if it is found. */
  lemma LocatedStep(pieces: seq<string>, i: nat, locate: Locator)
    requires i < |pieces|
    ensures Located(pieces[..i + 1], locate) == Located(pieces[..i], locate)
      + (if locate(pieces[i]).Some? then [PlacedChunk(pieces[i], locate(pieces[i]).value)] else [])
  {
    assert pieces[..i + 1][..i] == pieces[..i];
    assert pieces[..i + 1][i] == pieces[i];
  }

  /**
   * The located chunks are the located pieces in their original order: each
   * carries the unstripped piece, the range the search found and no token
   * count, and every piece left out is one the search could not place.
   */
  lemma {:induction false} LocatedOrigins(pieces: seq<string>, locate: Locator) returns (idx: seq<nat>)
    ensures |idx| == |Located(pieces, locate)|
    ensures forall a, b :: 0 <= a < b < |idx| ==> idx[a] < idx[b]
    ensures forall k :: 0 <= k < |idx| ==>
      (idx[k] < |pieces| && locate(pieces[idx[k]]).Some?
       && Located(pieces, locate)[k] == PlacedChunk(pieces[idx[k]], locate(pieces[idx[k]]).value))
    ensures forall i :: 0 <= i < |pieces| && i !in idx ==> locate(pieces[i]).None?
  {
    if pieces == [] {
      idx := [];
    } else {
      var n := |pieces| - 1;
      var prev := LocatedOrigins(pieces[..n], locate);
      idx := if locate(pieces[n]).Some? then prev + [n] else prev;
      OriginsStepChunks(pieces, locate, prev, idx);
      OriginsStepOrder(pieces, prev, idx);
      OriginsStepMissing(pieces, locate, prev, idx);
    }
  }

  /** The step of `LocatedOrigins` for the chunks: the last piece, if found, adds the last chunk. */
  lemma OriginsStepChunks(pieces: seq<string>, locate: Locator, prev: seq<nat>, idx: seq<nat>)
    requires pieces != [] && |prev| == |Located(pieces[..|pieces| - 1], locate)|
    requires forall k :: 0 <= k < |prev| ==>
      (prev[k] < |pieces| - 1 && locate(pieces[..|pieces| - 1][prev[k]]).Some?
       && Located(pieces[..|pieces| - 1], locate)[k]
          == PlacedChunk(pieces[..|pieces| - 1][prev[k]], locate(pieces[..|pieces| - 1][prev[k]]).value))
    requires idx == if locate(pieces[|pieces| - 1]).Some? then prev + [|pieces| - 1] else prev
    ensures |idx| == |Located(pieces, locate)|
    ensures forall k :: 0 <= k < |idx| ==>
      (idx[k] < |pieces| && locate(pieces[idx[k]]).Some?
       && Located(pieces, locate)[k] == PlacedChunk(pieces[idx[k]], locate(pieces[idx[k]]).value))
  {
    var n := |pieces| - 1;
    var init := pieces[..n];
    var found := locate(pieces[n]).Some?;
    var tail := if found then [PlacedChunk(pieces[n], locate(pieces[n]).value)] else [];
    var all, before := Located(pieces, locate), Located(init, locate);
    assert all == before + tail;
    forall k | 0 <= k < |idx|
      ensures idx[k] < |pieces| && locate(pieces[idx[k]]).Some?
      ensures all[k] == PlacedChunk(pieces[idx[k]], locate(pieces[idx[k]]).value)
    {
      if k < |prev| {
        assert idx[k] == prev[k] && init[prev[k]] == pieces[prev[k]] && all[k] == before[k];
      } else {
        assert idx[k] == n && all[k] == tail[0];
      }
    }
  }

  /** The step of `LocatedOrigins` for the order: the last index is larger than all earlier ones. */
  lemma OriginsStepOrder(pieces: seq<string>, prev: seq<nat>, idx: seq<nat>)
    requires pieces != []
    requires forall k :: 0 <= k < |prev| ==> prev[k] < |pieces| - 1
    requires forall a, b :: 0 <= a < b < |prev| ==> prev[a] < prev[b]
    requires idx == prev + [|pieces| - 1] || idx == prev
    ensures forall a, b :: 0 <= a < b < |idx| ==> idx[a] < idx[b]
  {
    forall a, b | 0 <= a < b < |idx|
      ensures idx[a] < idx[b]
    {
      assert idx[a] == prev[a];
      if b >= |prev| {
        assert idx[b] == |pieces| - 1;
      } else {
        assert idx[b] == prev[b];
      }
    }
  }

  /** The step of `LocatedOrigins` for the dropped pieces: only unlocatable ones are missing. */
  lemma OriginsStepMissing(pieces: seq<string>, locate: Locator, prev: seq<nat>, idx: seq<nat>)
    requires pieces != []
    requires forall i :: 0 <= i < |pieces| - 1 && i !in prev ==> locate(pieces[..|pieces| - 1][i]).None?
    requires idx == if locate(pieces[|pieces| - 1]).Some? then prev + [|pieces| - 1] else prev
    ensures forall i :: 0 <= i < |pieces| && i !in idx ==> locate(pieces[i]).None?
  {
    var n := |pieces| - 1;
    forall i | 0 <= i < |pieces| && i !in idx
      ensures locate(pieces[i]).None?
    {
      if i < n {
        assert i !in prev && pieces[..n][i] == pieces[i];
      }
    }
  }

  /** Every chunk located by the three-stage search lies inside the document. */
  lemma {:induction false} LocatedInBounds(doc: string, pieces: seq<string>, scorer: Scorer)
    ensures forall k :: 0 <= k < |Located(pieces, Rigorous(doc, scorer))| ==>
      var c := Located(pieces, Rigorous(doc, scorer))[k];
      0 <= c.startIndex <= c.endIndex <= |doc|
  {
    if pieces != [] {
      var n := |pieces| - 1;
      var locate := Rigorous(doc, scorer);
      var prev := Located(pieces[..n], locate);
      LocatedInBounds(doc, pieces[..n], scorer);
      var r := RigorousSearch(doc, pieces[n], scorer);
      assert locate(pieces[n]) == r;
      var all := Located(pieces, locate);
      assert all == prev + (if r.Some? then [PlacedChunk(pieces[n], r.value)] else []);
      forall k | 0 <= k < |all|
        ensures 0 <= all[k].startIndex <= all[k].endIndex <= |doc|
      {
        if k < |prev| {
          assert all[k] == prev[k];
        }
      }
    }
  }
}
