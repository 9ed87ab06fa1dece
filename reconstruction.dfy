/**
 * Document reconstruction from chunks (`Visualizer._reconstruct_text_from_chunks`
 * in server/utils/visualization.py), used by the renderer when no full text is given.
 */
module Reconstruction {
  import opened Wrappers

  /**
   * A chunk object as the renderer receives it. `None` in `text`, `startIndex`
   * or `endIndex` marks a missing attribute; `tokenCount` is `None` when the
   * chunker reported no token count.
   */
  datatype ChunkObject = ChunkObject(text: Option<string>, startIndex: Option<int>, endIndex: Option<int>, tokenCount: Option<int>)

  /** The two attributes reconstruction reads from a complete chunk. */
  datatype Piece = Piece(text: string, start: int)

  predicate Complete(c: ChunkObject)
  {
    c.text.Some? && c.startIndex.Some? && c.endIndex.Some?
  }

  predicate AllComplete(chunks: seq<ChunkObject>)
  {
    forall i :: 0 <= i < |chunks| ==> Complete(chunks[i])
  }

  function Pieces(chunks: seq<ChunkObject>): (r: seq<Piece>)
    requires AllComplete(chunks)
    ensures |r| == |chunks|
    ensures forall i :: 0 <= i < |chunks| ==> r[i] == Piece(chunks[i].text.value, chunks[i].startIndex.value)
  {
    if chunks == [] then [] else [Piece(chunks[0].text.value, chunks[0].startIndex.value)] + Pieces(chunks[1..])
  }

  // ---- stable sort by start index (Python's `sorted(chunks, key=start_index)`) ----

  predicate SortedByStart(s: seq<Piece>)
  {
    forall i, j :: 0 <= i < j < |s| ==> s[i].start <= s[j].start
  }

  /** The pieces of `s` whose start is `k`, in their order in `s`. */
  function WithStart(s: seq<Piece>, k: int): seq<Piece>
  {
    if s == [] then [] else (if s[0].start == k then [s[0]] else []) + WithStart(s[1..], k)
  }

  /** Inserts `p` before the first element whose start is not smaller. */
  function InsertByStart(p: Piece, s: seq<Piece>): (r: seq<Piece>)
    requires SortedByStart(s)
    ensures SortedByStart(r)
    ensures forall x :: x in r <==> x == p || x in s
  {
    if s == [] || p.start <= s[0].start then
      var r := [p] + s;
      assert forall i, j :: 0 <= i < j < |r| ==> r[i].start <= r[j].start by {
        forall i, j | 0 <= i < j < |r| ensures r[i].start <= r[j].start {
          assert r[j] == s[j - 1];
          if i > 0 { assert r[i] == s[i - 1]; }
        }
      }
      r
    else
      var t := InsertByStart(p, s[1..]);
      assert s == [s[0]] + s[1..];
      forall j | 0 <= j < |t| ensures s[0].start <= t[j].start {
        if t[j] != p {
          assert t[j] in s[1..];
        }
      }
      var r := [s[0]] + t;
      assert forall i, j :: 0 <= i < j < |r| ==> r[i].start <= r[j].start by {
        forall i, j | 0 <= i < j < |r| ensures r[i].start <= r[j].start {
          assert r[j] == t[j - 1];
          if i > 0 { assert r[i] == t[i - 1]; }
        }
      }
      r
  }
  lemma {:induction false} InsertByStartPermutes(p: Piece, s: seq<Piece>)
    requires SortedByStart(s)
    ensures multiset(InsertByStart(p, s)) == multiset(s) + multiset{p}
  {
    if s == [] || p.start <= s[0].start {
      assert InsertByStart(p, s) == [p] + s;
    } else {
      InsertByStartPermutes(p, s[1..]);
      assert s == [s[0]] + s[1..];
      assert InsertByStart(p, s) == [s[0]] + InsertByStart(p, s[1..]);
    }
  }

  lemma {:induction false} InsertByStartStable(p: Piece, s: seq<Piece>, k: int)
    requires SortedByStart(s)
    ensures WithStart(InsertByStart(p, s), k) == (if p.start == k then [p] else []) + WithStart(s, k)
  {
    if s == [] || p.start <= s[0].start {
      assert InsertByStart(p, s) == [p] + s;
      WithStartCons(p, s, k);
    } else {
      var t := InsertByStart(p, s[1..]);
      assert InsertByStart(p, s) == [s[0]] + t;
      InsertByStartStable(p, s[1..], k);
      WithStartCons(s[0], t, k);
      WithStartCons(s[0], s[1..], k);
      assert [s[0]] + s[1..] == s;
      if p.start == k {
        assert s[0].start != k;
      }
    }
  }

  lemma WithStartCons(x: Piece, s: seq<Piece>, k: int)
    ensures WithStart([x] + s, k) == (if x.start == k then [x] else []) + WithStart(s, k)
  {
    assert ([x] + s)[0] == x && ([x] + s)[1..] == s;
  }

  /** Stable insertion sort on the start index. */
  function SortByStart(s: seq<Piece>): (r: seq<Piece>)
    ensures SortedByStart(r)
    ensures multiset(r) == multiset(s)
    ensures |r| == |s|
  {
    if s == [] then []
    else
      assert s == [s[0]] + s[1..];
      var r := InsertByStart(s[0], SortByStart(s[1..]));
      InsertByStartPermutes(s[0], SortByStart(s[1..]));
      assert |r| == |multiset(r)|;
      r
  }

  /** Sorting keeps chunks with equal start in their original order. */
  lemma {:induction false} SortByStartStable(s: seq<Piece>, k: int)
    ensures WithStart(SortByStart(s), k) == WithStart(s, k)
  {
    if s != [] {
      SortByStartStable(s[1..], k);
      InsertByStartStable(s[0], SortByStart(s[1..]), k);
    }
  }

  // ---- the merge loop ----

  /**
   * One step of the loop: a chunk starting at or after the text built so far
   * is appended whole; an overlapping one contributes only what lies beyond the
   * overlap, or nothing when it is covered entirely.
   */
  function Merge(acc: string, p: Piece): (r: string)
    ensures |acc| <= |r| && r[..|acc|] == acc
    ensures r[|acc|..] == p.text
         || (p.start < |acc| && 0 < |acc| - p.start < |p.text| && r[|acc|..] == p.text[|acc| - p.start..])
         || r == acc
  {
    if p.start >= |acc| then acc + p.text
    else
      var overlap := |acc| - p.start;
      if overlap < |p.text| then acc + p.text[overlap..] else acc
  }

  /** The text built from `ps` in order. */
  function Reconstructed(ps: seq<Piece>): string
  {
    if ps == [] then "" else Merge(Reconstructed(ps[..|ps| - 1]), ps[|ps| - 1])
  }

  lemma ReconstructedStep(ps: seq<Piece>, k: nat)
    requires k < |ps|
    ensures Reconstructed(ps[..k + 1]) == Merge(Reconstructed(ps[..k]), ps[k])
  {
    assert ps[..k + 1][..k] == ps[..k];
    assert ps[..k + 1][k] == ps[k];
  }

  /** The `AttributeError` raised when a chunk lacks `text`, `start_index` or `end_index`. */
  datatype ReconstructError = MissingAttribute

  /** `_reconstruct_text_from_chunks`. */
  method ReconstructText(chunks: seq<ChunkObject>) returns (r: Result<string, ReconstructError>)
    ensures r.Err? <==> !AllComplete(chunks)
    ensures r.Ok? ==> r.value == Reconstructed(SortByStart(Pieces(chunks)))
  {
    var i := 0;
    while i < |chunks|
      invariant 0 <= i <= |chunks|
      invariant forall j :: 0 <= j < i ==> Complete(chunks[j])
    {
      if !Complete(chunks[i]) {
        return Err(MissingAttribute);
      }
      i := i + 1;
    }
    var sorted := SortByStart(Pieces(chunks));
    var text := "";
    var lastEnd := 0;
    var k := 0;
    while k < |sorted|
      invariant 0 <= k <= |sorted|
      invariant lastEnd == |text|
      invariant text == Reconstructed(sorted[..k])
    {
      var chunk := sorted[k];
      var startIdx := chunk.start;
      if startIdx >= lastEnd {
        text := text + chunk.text;
        lastEnd := |text|;
      } else {
        var overlapOffset := lastEnd - startIdx;
        if overlapOffset < |chunk.text| {
          text := text + chunk.text[overlapOffset..];
          lastEnd := |text|;
        }
      }
      ReconstructedStep(sorted, k);
      k := k + 1;
    }
    assert sorted[..k] == sorted;
    return Ok(text);
  }

  // ---- what reconstruction recovers ----

  /** `p` is the slice of `doc` it claims to be. */
  predicate SliceOf(doc: string, p: Piece)
  {
    0 <= p.start && p.start + |p.text| <= |doc| && doc[p.start..p.start + |p.text|] == p.text
  }

  /** The furthest end reached by the pieces. */
  function MaxEnd(ps: seq<Piece>): int
  {
    if ps == [] then 0
    else
      var m := MaxEnd(ps[..|ps| - 1]);
      var e := ps[|ps| - 1].start + |ps[|ps| - 1].text|;
      if e > m then e else m
  }

  /** The first piece starts at 0 and no piece starts beyond what the earlier ones cover. */
  predicate Gapless(ps: seq<Piece>)
  {
    (|ps| > 0 ==> ps[0].start == 0)
    && forall i :: 0 < i < |ps| ==> ps[i].start <= MaxEnd(ps[..i])
  }

  /** Merging a true slice that starts inside the covered prefix extends it to the slice's end. */
  lemma MergeSlice(doc: string, m: int, p: Piece)
    requires 0 <= m <= |doc|
    requires SliceOf(doc, p) && p.start <= m
    ensures Merge(doc[..m], p) == doc[..if p.start + |p.text| > m then p.start + |p.text| else m]
  {
    var acc := doc[..m];
    var e := p.start + |p.text|;
    if p.start >= m {
      assert acc + p.text == doc[..e];
    } else if m - p.start < |p.text| {
      assert p.text[m - p.start..] == doc[m..e];
      assert acc + p.text[m - p.start..] == doc[..e];
    }
  }

  /**
   * When the chunks are true slices of a document that begin at offset 0 and
   * leave no gap, reconstruction yields exactly the document up to the furthest
   * chunk end, however the chunks overlap.
   */
  lemma {:induction false} ReconstructRecoversDocument(doc: string, ps: seq<Piece>)
    requires forall i :: 0 <= i < |ps| ==> SliceOf(doc, ps[i])
    requires Gapless(ps)
    ensures 0 <= MaxEnd(ps) <= |doc|
    ensures Reconstructed(ps) == doc[..MaxEnd(ps)]
  {
    if ps != [] {
      var init := ps[..|ps| - 1];
      var p := ps[|ps| - 1];
      InitKeepsPremises(doc, ps);
      ReconstructRecoversDocument(doc, init);
      assert SliceOf(doc, p);
      if |init| == 0 {
        assert p.start == 0;
      }
      MergeSlice(doc, MaxEnd(init), p);
    }
  }

  /** Dropping the last piece keeps both premises of the recovery lemma. */
  lemma InitKeepsPremises(doc: string, ps: seq<Piece>)
    requires ps != [] && Gapless(ps) && forall i :: 0 <= i < |ps| ==> SliceOf(doc, ps[i])
    ensures var init := ps[..|ps| - 1];
      Gapless(init) && forall i :: 0 <= i < |init| ==> SliceOf(doc, init[i])
  {
    var init := ps[..|ps| - 1];
    forall i | 0 < i < |init| ensures init[i].start <= MaxEnd(init[..i]) {
      assert init[..i] == ps[..i];
    }
    forall i | 0 <= i < |init| ensures SliceOf(doc, init[i]) {
      assert init[i] == ps[i];
    }
  }

  /** The first chunk, if it starts at or after 0, is taken whole. */
  lemma FirstChunkWhole(p: Piece)
    requires p.start >= 0
    ensures Reconstructed([p]) == p.text
  {
    assert [p][..0] == [];
  }
}
