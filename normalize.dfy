/**
 * `normalize_document` of the server (server/utils/normalize_document.py):
 * six successive `str.replace` calls that turn typographic quotes and dashes
 * into their ASCII forms.
 */
module Normalize {

  const LeftSingleQuote: char := '‘'
  const RightSingleQuote: char := '’'
  const LeftDoubleQuote: char := '“'
  const RightDoubleQuote: char := '”'
  const EnDash: char := '–'
  const EmDash: char := '—'

  /** The six characters the normalisation removes. */
  predicate IsSmartChar(c: char)
  {
    c == LeftSingleQuote || c == RightSingleQuote || c == LeftDoubleQuote
    || c == RightDoubleQuote || c == EnDash || c == EmDash
  }

  /** What one character becomes. */
  function NormalizeChar(c: char): (r: char)
    ensures !IsSmartChar(r)
    ensures !IsSmartChar(c) ==> r == c
    ensures c == LeftSingleQuote || c == RightSingleQuote ==> r == '\''
    ensures c == LeftDoubleQuote || c == RightDoubleQuote ==> r == '"'
    ensures c == EnDash || c == EmDash ==> r == '-'
  {
    if c == LeftSingleQuote || c == RightSingleQuote then '\''
    else if c == LeftDoubleQuote || c == RightDoubleQuote then '"'
    else if c == EnDash || c == EmDash then '-'
    else c
  }

  /** `s.replace(old, new)` for one-character arguments. */
  function Replace(s: string, from: char, to: char): (r: string)
    ensures |r| == |s|
    ensures forall i :: 0 <= i < |s| ==> r[i] == (if s[i] == from then to else s[i])
  {
    if s == [] then [] else [if s[0] == from then to else s[0]] + Replace(s[1..], from, to)
  }

  /** The replace chain, in the order of the source. */
  function NormalizeDocument(content: string): (r: string)
    ensures |r| == |content|
  {
    var c := Replace(content, LeftSingleQuote, '\'');
    var c := Replace(c, RightSingleQuote, '\'');
    var c := Replace(c, LeftDoubleQuote, '"');
    var c := Replace(c, RightDoubleQuote, '"');
    var c := Replace(c, EnDash, '-');
    Replace(c, EmDash, '-')
  }

  /**
   * The chain works character by character: every character becomes its
   * normalised form at the same position, so the length is kept, the six
   * characters are gone and everything else is unchanged.
   */
  lemma NormalizePointwise(content: string)
    ensures |NormalizeDocument(content)| == |content|
    ensures forall i :: 0 <= i < |content| ==> NormalizeDocument(content)[i] == NormalizeChar(content[i])
  {
  }

  lemma NoSmartCharsRemain(content: string)
    ensures forall i :: 0 <= i < |NormalizeDocument(content)| ==> !IsSmartChar(NormalizeDocument(content)[i])
  {
    NormalizePointwise(content);
  }

  /** Normalising twice is normalising once. */
  lemma NormalizeIdempotent(content: string)
    ensures NormalizeDocument(NormalizeDocument(content)) == NormalizeDocument(content)
  {
    var once := NormalizeDocument(content);
    NormalizePointwise(content);
    NormalizePointwise(once);
  }

  /** Normalisation distributes over concatenation. */
  lemma NormalizeConcat(a: string, b: string)
    ensures NormalizeDocument(a + b) == NormalizeDocument(a) + NormalizeDocument(b)
  {
    NormalizePointwise(a);
    NormalizePointwise(b);
    NormalizePointwise(a + b);
  }
}

/**
 * The copy of `normalize_document` in processing/services.py: the same six
 * replacements, read here as a table applied in order.
 */
module ProcessingNormalize {
  import N = Normalize

  /** The replacements, in the order the source applies them. */
  const Replacements: seq<(char, char)> := [
    (N.LeftSingleQuote, '\''), (N.RightSingleQuote, '\''),
    (N.LeftDoubleQuote, '"'), (N.RightDoubleQuote, '"'),
    (N.EnDash, '-'), (N.EmDash, '-')
  ]

  /** Apply the replacements `table` to `content`, first one first. */
  function ApplyAll(content: string, table: seq<(char, char)>): (r: string)
    ensures |r| == |content|
    decreases |table|
  {
    if table == [] then content else ApplyAll(N.Replace(content, table[0].0, table[0].1), table[1..])
  }

  /** `normalize_document` of the processing service: the same six replacements, driven by a table. */
  function NormalizeDocument(content: string): (r: string)
    ensures |r| == |content|
  {
    ApplyAll(content, Replacements)
  }

  /** Both copies compute the same function. */
  lemma CopiesAgree(content: string)
    ensures NormalizeDocument(content) == N.NormalizeDocument(content)
  {
    var t := Replacements;
    var c1 := N.Replace(content, N.LeftSingleQuote, '\'');
    var c2 := N.Replace(c1, N.RightSingleQuote, '\'');
    var c3 := N.Replace(c2, N.LeftDoubleQuote, '"');
    var c4 := N.Replace(c3, N.RightDoubleQuote, '"');
    var c5 := N.Replace(c4, N.EnDash, '-');
    assert ApplyAll(content, t) == ApplyAll(c1, t[1..]);
    assert ApplyAll(c1, t[1..]) == ApplyAll(c2, t[2..]);
    assert ApplyAll(c2, t[2..]) == ApplyAll(c3, t[3..]);
    assert ApplyAll(c3, t[3..]) == ApplyAll(c4, t[4..]);
    assert ApplyAll(c4, t[4..]) == ApplyAll(c5, t[5..]);
    assert ApplyAll(c5, t[5..]) == N.Replace(c5, N.EmDash, '-');
  }

  /** So this copy, too, keeps the length, removes the six characters and is idempotent. */
  lemma ProcessingNormalizeProperties(content: string)
    ensures |NormalizeDocument(content)| == |content|
    ensures forall i :: 0 <= i < |content| ==> NormalizeDocument(content)[i] == N.NormalizeChar(content[i])
    ensures NormalizeDocument(NormalizeDocument(content)) == NormalizeDocument(content)
  {
    CopiesAgree(content);
    CopiesAgree(NormalizeDocument(content));
    N.NormalizePointwise(content);
    N.NormalizeIdempotent(content);
  }
}
