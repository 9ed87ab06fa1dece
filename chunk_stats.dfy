/**
 * `calculate_chunk_stats` (server/utils/calculate_chunk_stats.py): one pass
 * over the chunks that counts them, totals their lengths and keeps the first
 * longest and the first shortest text; any malformed input is a 400.
 */
module ChunkStats {
  import opened Wrappers

  /** The `text` attribute of one chunk, as the two checks of the loop see it. */
  datatype TextField = Missing | NotText | Text(s: string)

  /** The argument: anything that is not a list is rejected. */
  datatype StatsInput = NotAList | Chunks(items: seq<TextField>)

  /** A `*_chunk_chars` / `*_text` pair of the statistics. */
  datatype Extreme = Extreme(chars: nat, text: string)

  /** The statistics; the empty list has neither a largest nor a smallest entry. */
  datatype Stats = Stats(totalChunks: nat, largest: Option<Extreme>, smallest: Option<Extreme>, avgChars: real)

  datatype HttpError = HttpError(status: int, detail: string)

  /** Every `ValueError` of the function becomes this one error. */
  const InvalidInput := HttpError(400, "Invalid input")

  predicate ValidText(f: TextField)
  {
    f.Text? && |f.s| > 0
  }

  predicate AllValid(items: seq<TextField>)
  {
    forall k :: 0 <= k < |items| ==> ValidText(items[k])
  }

  function TotalChars(items: seq<TextField>): (r: nat)
    requires AllValid(items)
    ensures |items| > 0 ==> r >= |items|
  {
    if items == [] then 0
    else
      var n := |items| - 1;
      TotalChars(items[..n]) + |items[n].s|
  }

  /** The index of the text the loop keeps as the longest: later texts replace it only when strictly longer. */
  function LargestAt(items: seq<TextField>): (b: nat)
    requires |items| > 0 && AllValid(items)
    ensures b < |items|
  {
    var n := |items| - 1;
    if n == 0 then 0
    else
      var b := LargestAt(items[..n]);
      assert items[..n][b] == items[b];
      if |items[n].s| > |items[b].s| then n else b
  }

  /** The index of the text the loop keeps as the shortest: later texts replace it only when strictly shorter. */
  function SmallestAt(items: seq<TextField>): (b: nat)
    requires |items| > 0 && AllValid(items)
    ensures b < |items|
  {
    var n := |items| - 1;
    if n == 0 then 0
    else
      var b := SmallestAt(items[..n]);
      assert items[..n][b] == items[b];
      if |items[n].s| < |items[b].s| then n else b
  }

  /** The kept entry is a longest text, and the first one. */
  lemma {:induction false} LargestAtIsFirstLongest(items: seq<TextField>)
    requires |items| > 0 && AllValid(items)
    ensures forall k :: 0 <= k < |items| ==> |items[k].s| <= |items[LargestAt(items)].s|
    ensures forall k :: 0 <= k < LargestAt(items) ==> |items[k].s| < |items[LargestAt(items)].s|
  {
    var n := |items| - 1;
    if n > 0 {
      var init := items[..n];
      assert forall k :: 0 <= k < n ==> init[k] == items[k];
      LargestAtIsFirstLongest(init);
    }
  }

  /** The kept entry is a shortest text, and the first one. */
  lemma {:induction false} SmallestAtIsFirstShortest(items: seq<TextField>)
    requires |items| > 0 && AllValid(items)
    ensures forall k :: 0 <= k < |items| ==> |items[SmallestAt(items)].s| <= |items[k].s|
    ensures forall k :: 0 <= k < SmallestAt(items) ==> |items[SmallestAt(items)].s| < |items[k].s|
  {
    var n := |items| - 1;
    if n > 0 {
      var init := items[..n];
      assert forall k :: 0 <= k < n ==> init[k] == items[k];
      SmallestAtIsFirstShortest(init);
    }
  }

  function ExtremeAt(items: seq<TextField>, b: nat): Extreme
    requires b < |items| && AllValid(items)
  {
    Extreme(|items[b].s|, items[b].s)
  }

  /** The largest entry of the statistics, absent for the empty list. */
  function LargestSoFar(items: seq<TextField>): Option<Extreme>
    requires AllValid(items)
  {
    if items == [] then None else Some(ExtremeAt(items, LargestAt(items)))
  }

  /** The smallest entry of the statistics, absent for the empty list. */
  function SmallestSoFar(items: seq<TextField>): Option<Extreme>
    requires AllValid(items)
  {
    if items == [] then None else Some(ExtremeAt(items, SmallestAt(items)))
  }

  /** What the statistics of a list of valid chunks are. */
  function StatsOf(items: seq<TextField>): Stats
    requires AllValid(items)
  {
    if items == [] then Stats(0, None, None, 0.0)
    else
      Stats(|items|, LargestSoFar(items), SmallestSoFar(items), TotalChars(items) as real / |items| as real)
  }

  /** The outcome the function promises: a 400 for a non-list or any malformed chunk, the statistics otherwise. */
  function Expected(input: StatsInput): (r: Result<Stats, HttpError>)
    ensures r.Err? <==> input.NotAList? || exists k :: 0 <= k < |input.items| && !ValidText(input.items[k])
    ensures r.Err? ==> r.error == InvalidInput
    ensures r.Ok? ==> r.value.totalChunks == |input.items|
  {
    if input.NotAList? || !AllValid(input.items) then Err(InvalidInput) else Ok(StatsOf(input.items))
  }

  /** `calculate_chunk_stats`. */
  method CalculateChunkStats(input: StatsInput) returns (r: Result<Stats, HttpError>)
    ensures r == Expected(input)
  {
    if input.NotAList? {
      return Err(InvalidInput);
    }
    var items := input.items;
    var totalChars := 0;
    var largest: Option<Extreme> := None;
    var smallest: Option<Extreme> := None;
    var i := 0;
    while i < |items|
      invariant 0 <= i <= |items|
      invariant AllValid(items[..i])
      invariant totalChars == TotalChars(items[..i])
      invariant largest == LargestSoFar(items[..i])
      invariant smallest == SmallestSoFar(items[..i])
    {
      var chunk := items[i];
      if !chunk.Text? || |chunk.s| == 0 {
        assert !ValidText(items[i]);
        return Err(InvalidInput);
      }
      StatsStep(items, i);
      var textLen := |chunk.s|;
      totalChars := totalChars + textLen;
      LargestStep(items, i);
      SmallestStep(items, i);
      if largest.None? || largest.value.chars == 0 || textLen > largest.value.chars {
        largest := Some(Extreme(textLen, chunk.s));
      }
      if smallest.None? || smallest.value.chars == 0 || textLen < smallest.value.chars {
        smallest := Some(Extreme(textLen, chunk.s));
      }
      i := i + 1;
    }
    assert items[..i] == items;
    var avgChars := if |items| > 0 then totalChars as real / |items| as real else 0.0;
    r := Ok(Stats(|items|, largest, smallest, avgChars));
  }

  /** Extending the prefix by one valid chunk: how the running total changes. */
  lemma StatsStep(items: seq<TextField>, i: nat)
    requires i < |items| && AllValid(items[..i]) && ValidText(items[i])
    ensures AllValid(items[..i + 1])
    ensures TotalChars(items[..i + 1]) == TotalChars(items[..i]) + |items[i].s|
  {
    var p := items[..i + 1];
    assert p[..i] == items[..i];
    assert p[i] == items[i];
  }

  /** The running largest entry is replaced only by a strictly longer text (never by an empty one). */
  lemma LargestStep(items: seq<TextField>, i: nat)
    requires i < |items| && AllValid(items[..i + 1])
    ensures AllValid(items[..i])
    ensures var prev, t := LargestSoFar(items[..i]), items[i].s;
      LargestSoFar(items[..i + 1])
      == if prev.None? || prev.value.chars == 0 || |t| > prev.value.chars then Some(Extreme(|t|, t)) else prev
  {
    var p := items[..i + 1];
    assert p[..i] == items[..i];
    assert p[i] == items[i];
    if i > 0 {
      var b := LargestAt(items[..i]);
      assert items[..i][b] == items[b] == p[b];
      assert ValidText(p[b]);
    }
  }

  /** The running smallest entry is replaced only by a strictly shorter text. */
  lemma SmallestStep(items: seq<TextField>, i: nat)
    requires i < |items| && AllValid(items[..i + 1])
    ensures AllValid(items[..i])
    ensures var prev, t := SmallestSoFar(items[..i]), items[i].s;
      SmallestSoFar(items[..i + 1])
      == if prev.None? || prev.value.chars == 0 || |t| < prev.value.chars then Some(Extreme(|t|, t)) else prev
  {
    var p := items[..i + 1];
    assert p[..i] == items[..i];
    assert p[i] == items[i];
    if i > 0 {
      var b := SmallestAt(items[..i]);
      assert items[..i][b] == items[b] == p[b];
      assert ValidText(p[b]);
    }
  }

  /** The empty list has zero chunks, a zero average and no extremes. */
  lemma EmptyListStats()
    ensures Expected(Chunks([])) == Ok(Stats(0, None, None, 0.0))
  {
  }

  lemma {:induction false} TotalBetween(items: seq<TextField>, lo: nat, hi: nat)
    requires AllValid(items)
    requires forall k :: 0 <= k < |items| ==> lo <= |items[k].s| <= hi
    ensures |items| * lo <= TotalChars(items) <= |items| * hi
  {
    if items != [] {
      var n := |items| - 1;
      var init := items[..n];
      assert forall k :: 0 <= k < n ==> init[k] == items[k];
      TotalBetween(init, lo, hi);
      MulSucc(n, lo);
      MulSucc(n, hi);
    }
  }

  lemma MulSucc(n: nat, x: nat)
    ensures (n + 1) * x == n * x + x
  {
  }

  lemma MulLeCancel(a: real, b: real, c: real)
    requires c > 0.0 && a * c <= b * c
    ensures a <= b
  {
    assert (b - a) * c == b * c - a * c;
  }

  lemma CastMul(x: nat, y: nat)
    ensures (x * y) as real == x as real * y as real
  {
  }

  lemma RealDivBetween(lo: nat, total: nat, hi: nat, n: nat)
    requires n > 0 && n * lo <= total <= n * hi
    ensures lo as real <= total as real / n as real <= hi as real
  {
    var l, t, h, m := lo as real, total as real, hi as real, n as real;
    var q := t / m;
    assert t == q * m;
    CastMul(n, lo);
    CastMul(n, hi);
    MulLeCancel(l, q, m);
    MulLeCancel(q, h, m);
  }

  /** For a non-empty valid list: 1 <= smallest <= average <= largest. */
  lemma AverageBetweenExtremes(items: seq<TextField>)
    requires |items| > 0 && AllValid(items)
    ensures var s := StatsOf(items);
      && 1 <= s.smallest.value.chars
      && s.smallest.value.chars as real <= s.avgChars <= s.largest.value.chars as real
  {
    LargestAtIsFirstLongest(items);
    SmallestAtIsFirstShortest(items);
    var lo := |items[SmallestAt(items)].s|;
    var hi := |items[LargestAt(items)].s|;
    TotalBetween(items, lo, hi);
    RealDivBetween(lo, TotalChars(items), hi, |items|);
  }
}
