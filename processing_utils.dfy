/**
 * The processing service's helpers (processing/utils.py): the filter that
 * drops blank chunks, the greedy packing of chunks into embedding batches,
 * and the attempt counting of `retry_with_backoff`.
 */
module ProcessingUtils {
  import opened TextUtil

  // ---- the blank-chunk filter of get_chunks ----

  /** `c and c.strip()`: the chunk has a character that is not whitespace. */
  predicate NonBlank(c: string)
  {
    exists k :: 0 <= k < |c| && !IsPySpace(c[k])
  }

  /** `[c for c in chunks if c and c.strip()]`. */
  function KeepNonBlank(chunks: seq<string>): (r: seq<string>)
    ensures |r| <= |chunks|
    ensures forall k :: 0 <= k < |r| ==> NonBlank(r[k]) && r[k] in chunks
  {
    if chunks == [] then []
    else
      var n := |chunks| - 1;
      KeepNonBlank(chunks[..n]) + (if NonBlank(chunks[n]) then [chunks[n]] else [])
  }

  /**
   * The filter keeps a single chunk exactly when it is not blank, and treats
   * the parts of a list independently, so the kept chunks are all non-blank
   * ones, in their original order.
   */
  lemma {:induction false} KeepNonBlankSplits(a: seq<string>, b: seq<string>)
    ensures KeepNonBlank(a + b) == KeepNonBlank(a) + KeepNonBlank(b)
    decreases |b|
  {
    if b != [] {
      var n := |b| - 1;
      assert (a + b)[..|a| + n] == a + b[..n];
      assert (a + b)[|a| + n] == b[n];
      KeepNonBlankSplits(a, b[..n]);
    } else {
      assert a + b == a;
    }
  }

  lemma KeepNonBlankSingle(c: string)
    ensures KeepNonBlank([c]) == if NonBlank(c) then [c] else []
  {
    assert [c][..0] == [];
  }

  // ---- batching for the embeddings API ----

  /** The largest input the embedding model accepts, in tokens. */
  const MaxChunkTokens := 8191
  /** The largest number of inputs in one request. */
  const MaxBatchItems := 2048
  /** The default `max_tokens` of `get_mapped_embeddings`. */
  const DefaultMaxTokens := 280000

  /**
   * A chunk with what the tokenizer says about it: its token count and the
   * text that decoding its first 8191 tokens gives back.
   */
  datatype Encoded = Encoded(text: string, tokens: nat, truncated: string)

  /** A chunk ready for a batch, with the token count the packing charges for it. */
  datatype Item = Item(text: string, tokens: nat)

  /** Lines 88-90: a chunk over 8191 tokens is replaced by its truncation and charged 8191. */
  function ItemOf(c: Encoded): (r: Item)
    ensures r.tokens == if c.tokens > MaxChunkTokens then MaxChunkTokens else c.tokens
    ensures r.text == if c.tokens > MaxChunkTokens then c.truncated else c.text
  {
    if c.tokens > MaxChunkTokens then Item(c.truncated, MaxChunkTokens) else Item(c.text, c.tokens)
  }

  /** Lines 84-91: chunks with no tokens are skipped, longer ones cut to 8191 tokens. */
  function Prepared(chunks: seq<Encoded>): (r: seq<Item>)
    ensures forall k :: 0 <= k < |r| ==> 0 < r[k].tokens <= MaxChunkTokens
    ensures |r| <= |chunks|
  {
    if chunks == [] then []
    else
      var n := |chunks| - 1;
      Prepared(chunks[..n]) + if chunks[n].tokens == 0 then [] else [ItemOf(chunks[n])]
  }

  /**
   * Preparation treats the parts of a list independently, so with
   * `PreparedSingle` it keeps every chunk that has tokens, in order, each
   * with its own truncation and charge.
   */
  lemma {:induction false} PreparedSplits(a: seq<Encoded>, b: seq<Encoded>)
    ensures Prepared(a + b) == Prepared(a) + Prepared(b)
    decreases |b|
  {
    if b != [] {
      var n := |b| - 1;
      assert (a + b)[..|a| + n] == a + b[..n];
      assert (a + b)[|a| + n] == b[n];
      PreparedSplits(a, b[..n]);
    } else {
      assert a + b == a;
    }
  }

  /** A single chunk is dropped when it has no tokens and otherwise becomes its item. */
  lemma PreparedSingle(c: Encoded)
    ensures Prepared([c]) == if c.tokens == 0 then [] else [ItemOf(c)]
  {
    assert [c][..0] == [];
  }

  function TokenSum(batch: seq<Item>): nat
  {
    if batch == [] then 0 else TokenSum(batch[..|batch| - 1]) + batch[|batch| - 1].tokens
  }

  /** The loop's state: the batches so far, the open batch and its token total. */
  datatype Packing = Packing(done: seq<seq<Item>>, current: seq<Item>, currentTokens: int)

  /** One iteration of lines 93-98. */
  function Step(p: Packing, it: Item, maxTokens: int): Packing
  {
    if p.currentTokens + it.tokens > maxTokens || |p.current| >= MaxBatchItems then
      Packing(p.done + [p.current], [it], it.tokens)
    else
      Packing(p.done, p.current + [it], p.currentTokens + it.tokens)
  }

  /** The state after packing `items` in order, from an empty start. */
  function PackFrom(items: seq<Item>, maxTokens: int): Packing
  {
    if items == [] then Packing([], [], 0)
    else Step(PackFrom(items[..|items| - 1], maxTokens), items[|items| - 1], maxTokens)
  }

  /** Lines 100-101: the open batch is kept only when it is not empty. */
  function Batches(items: seq<Item>, maxTokens: int): seq<seq<Item>>
  {
    var p := PackFrom(items, maxTokens);
    if p.current != [] then p.done + [p.current] else p.done
  }

  function Texts(batch: seq<Item>): (r: seq<string>)
    ensures |r| == |batch|
    ensures forall k :: 0 <= k < |batch| ==> r[k] == batch[k].text
  {
    if batch == [] then [] else Texts(batch[..|batch| - 1]) + [batch[|batch| - 1].text]
  }

  function BatchTexts(batches: seq<seq<Item>>): (r: seq<seq<string>>)
    ensures |r| == |batches|
    ensures forall k :: 0 <= k < |batches| ==> r[k] == Texts(batches[k])
  {
    if batches == [] then [] else BatchTexts(batches[..|batches| - 1]) + [Texts(batches[|batches| - 1])]
  }

  function Flatten<T>(batches: seq<seq<T>>): seq<T>
  {
    if batches == [] then [] else Flatten(batches[..|batches| - 1]) + batches[|batches| - 1]
  }

  /** The batching loop of `get_mapped_embeddings` (lines 78-101). */
  method BatchChunks(chunks: seq<Encoded>, maxTokens: int) returns (batches: seq<seq<string>>)
    ensures batches == BatchTexts(Batches(Prepared(chunks), maxTokens))
  {
    var p := PackChunks(chunks, maxTokens);
    var all := p.done;
    if p.current != [] {
      all := all + [p.current];
    }
    batches := BatchTexts(all);
  }

  /** Lines 82-98: the loop proper, returning `batches`, `current` and `current_tokens`. */
  method PackChunks(chunks: seq<Encoded>, maxTokens: int) returns (p: Packing)
    ensures p == PackFrom(Prepared(chunks), maxTokens)
  {
    var done: seq<seq<Item>> := [];
    var current: seq<Item> := [];
    var currentTokens := 0;
    var i := 0;
    while i < |chunks|
      invariant 0 <= i <= |chunks|
      invariant Packing(done, current, currentTokens) == PackEach(chunks[..i], maxTokens)
    {
      var chunk := chunks[i];
      assert chunks[..i + 1][..i] == chunks[..i];
      if chunk.tokens != 0 {
        var item := ItemOf(chunk);
        if currentTokens + item.tokens > maxTokens || |current| >= MaxBatchItems {
          done := done + [current];
          current := [];
          currentTokens := 0;
        }
        current := current + [item];
        currentTokens := currentTokens + item.tokens;
      }
      i := i + 1;
    }
    assert chunks[..i] == chunks;
    PackEachIsPackFrom(chunks, maxTokens);
    p := Packing(done, current, currentTokens);
  }

  /** The loop's state after `chunks`, chunk by chunk: skip, or prepare and pack. */
  function PackEach(chunks: seq<Encoded>, maxTokens: int): Packing
  {
    if chunks == [] then Packing([], [], 0)
    else
      var n := |chunks| - 1;
      var p := PackEach(chunks[..n], maxTokens);
      if chunks[n].tokens == 0 then p else Step(p, ItemOf(chunks[n]), maxTokens)
  }

  /** Skipping and truncating as it goes is the same as preparing all chunks first and packing after. */
  lemma {:induction false} PackEachIsPackFrom(chunks: seq<Encoded>, maxTokens: int)
    ensures PackEach(chunks, maxTokens) == PackFrom(Prepared(chunks), maxTokens)
  {
    if chunks != [] {
      var n := |chunks| - 1;
      PackEachIsPackFrom(chunks[..n], maxTokens);
      var items := Prepared(chunks);
      if chunks[n].tokens != 0 {
        assert items == Prepared(chunks[..n]) + [ItemOf(chunks[n])];
        assert items[..|items| - 1] == Prepared(chunks[..n]);
      } else {
        assert items == Prepared(chunks[..n]);
      }
    }
  }

  /** What the packing keeps true from one chunk to the next. */
  ghost predicate PackingInvariant(p: Packing, items: seq<Item>, maxTokens: int)
  {
    && Flatten(p.done) + p.current == items
    && p.currentTokens == TokenSum(p.current)
    && |p.current| <= MaxBatchItems
    && (forall j :: 0 <= j < |p.done| ==> |p.done[j]| <= MaxBatchItems)
    && (items != [] ==> p.current != [])
    && (items == [] ==> p.done == [])
    && (forall j :: 0 < j < |p.done| ==> p.done[j] != [])
  }

  lemma FlattenAppend<T>(batches: seq<seq<T>>, b: seq<T>)
    ensures Flatten(batches + [b]) == Flatten(batches) + b
  {
    assert (batches + [b])[..|batches|] == batches;
  }

  lemma TokenSumAppend(batch: seq<Item>, it: Item)
    ensures TokenSum(batch + [it]) == TokenSum(batch) + it.tokens
  {
    assert (batch + [it])[..|batch|] == batch;
  }

  lemma {:induction false} PackingInvariantHolds(items: seq<Item>, maxTokens: int)
    ensures PackingInvariant(PackFrom(items, maxTokens), items, maxTokens)
  {
    if items != [] {
      var n := |items| - 1;
      PackingInvariantHolds(items[..n], maxTokens);
      assert items == items[..n] + [items[n]];
      StepKeepsInvariant(PackFrom(items[..n], maxTokens), items[..n], items[n], maxTokens);
    }
  }

  /** One step of the packing loop keeps the invariant. */
  lemma StepKeepsInvariant(p: Packing, items: seq<Item>, it: Item, maxTokens: int)
    requires PackingInvariant(p, items, maxTokens)
    ensures PackingInvariant(Step(p, it, maxTokens), items + [it], maxTokens)
  {
    if p.currentTokens + it.tokens > maxTokens || |p.current| >= MaxBatchItems {
      CloseKeepsInvariant(p, items, it, maxTokens);
    } else {
      ExtendKeepsInvariant(p, items, it, maxTokens);
    }
  }

  lemma CloseKeepsInvariant(p: Packing, items: seq<Item>, it: Item, maxTokens: int)
    requires PackingInvariant(p, items, maxTokens)
    ensures PackingInvariant(Packing(p.done + [p.current], [it], it.tokens), items + [it], maxTokens)
  {
    FlattenAppend(p.done, p.current);
    TokenSumAppend([], it);
    assert [] + [it] == [it];
  }

  lemma ExtendKeepsInvariant(p: Packing, items: seq<Item>, it: Item, maxTokens: int)
    requires PackingInvariant(p, items, maxTokens) && |p.current| < MaxBatchItems
    ensures PackingInvariant(Packing(p.done, p.current + [it], p.currentTokens + it.tokens), items + [it], maxTokens)
  {
    TokenSumAppend(p.current, it);
    assert Flatten(p.done) + (p.current + [it]) == (Flatten(p.done) + p.current) + [it];
  }

  /**
   * The batches hold exactly the prepared chunks, in order and each once, and
   * no batch has more than 2048 entries.
   */
  lemma BatchesPartition(items: seq<Item>, maxTokens: int)
    ensures Flatten(Batches(items, maxTokens)) == items
    ensures forall j :: 0 <= j < |Batches(items, maxTokens)| ==> |Batches(items, maxTokens)[j]| <= MaxBatchItems
  {
    var p := PackFrom(items, maxTokens);
    PackingInvariantHolds(items, maxTokens);
    if p.current != [] {
      FlattenAppend(p.done, p.current);
    } else {
      assert Flatten(p.done) + [] == Flatten(p.done);
    }
  }

  lemma {:induction false} FlattenTexts(batches: seq<seq<Item>>)
    ensures Flatten(BatchTexts(batches)) == Texts(Flatten(batches))
  {
    if batches != [] {
      var n := |batches| - 1;
      FlattenTexts(batches[..n]);
      assert BatchTexts(batches)[..n] == BatchTexts(batches[..n]);
      TextsAppend(Flatten(batches[..n]), batches[n]);
    }
  }

  lemma TextsAppend(a: seq<Item>, b: seq<Item>)
    ensures Texts(a + b) == Texts(a) + Texts(b)
  {
    assert forall k :: 0 <= k < |a + b| ==> Texts(a + b)[k] == (Texts(a) + Texts(b))[k];
  }

  /** The strings sent to the API, batch after batch, are the prepared chunk texts in order. */
  lemma BatchedTextsInOrder(chunks: seq<Encoded>, maxTokens: int)
    ensures Flatten(BatchTexts(Batches(Prepared(chunks), maxTokens))) == Texts(Prepared(chunks))
  {
    BatchesPartition(Prepared(chunks), maxTokens);
    FlattenTexts(Batches(Prepared(chunks), maxTokens));
  }

  /** The bounded invariant: with a token budget of at least one full chunk, no batch exceeds it or is empty. */
  ghost predicate BoundedBatches(p: Packing, maxTokens: int)
  {
    && p.currentTokens <= maxTokens
    && forall j :: 0 <= j < |p.done| ==> p.done[j] != [] && TokenSum(p.done[j]) <= maxTokens
  }

  lemma {:induction false} BoundedHolds(items: seq<Item>, maxTokens: int)
    requires maxTokens >= MaxChunkTokens
    requires forall k :: 0 <= k < |items| ==> items[k].tokens <= MaxChunkTokens
    ensures BoundedBatches(PackFrom(items, maxTokens), maxTokens)
  {
    if items != [] {
      var n := |items| - 1;
      BoundedHolds(items[..n], maxTokens);
      PackingInvariantHolds(items[..n], maxTokens);
      var p := PackFrom(items[..n], maxTokens);
      if n == 0 {
        assert p == Packing([], [], 0);
      }
    }
  }

  /**
   * With `max_tokens` at least 8191 (the default is 280000) every batch is
   * non-empty and its token total is at most `max_tokens`.
   */
  lemma BatchesWithinBudget(chunks: seq<Encoded>, maxTokens: int)
    requires maxTokens >= MaxChunkTokens
    ensures var bs := Batches(Prepared(chunks), maxTokens);
      forall j :: 0 <= j < |bs| ==> bs[j] != [] && TokenSum(bs[j]) <= maxTokens
  {
    var items := Prepared(chunks);
    BoundedHolds(items, maxTokens);
    PackingInvariantHolds(items, maxTokens);
  }

  /** Every closed batch was closed by the chunk that opens the next one. */
  ghost predicate Greedy(p: Packing, maxTokens: int)
  {
    forall j :: 0 <= j < |p.done| ==> ClosedBy(p.done[j], NextBatch(p, j), maxTokens)
  }

  /** The batch that follows the closed batch `j`. */
  function NextBatch(p: Packing, j: nat): seq<Item>
    requires j < |p.done|
  {
    if j + 1 < |p.done| then p.done[j + 1] else p.current
  }

  /** `batch` was closed because the first chunk of `next` did not fit. */
  predicate ClosedBy(batch: seq<Item>, next: seq<Item>, maxTokens: int)
  {
    next != [] && (TokenSum(batch) + next[0].tokens > maxTokens || |batch| >= MaxBatchItems)
  }

  lemma {:induction false} GreedyHolds(items: seq<Item>, maxTokens: int)
    ensures Greedy(PackFrom(items, maxTokens), maxTokens)
  {
    if items != [] {
      var n := |items| - 1;
      GreedyHolds(items[..n], maxTokens);
      InvariantBasics(items[..n], maxTokens);
      var p := PackFrom(items[..n], maxTokens);
      var it := items[n];
      if p.currentTokens + it.tokens > maxTokens || |p.current| >= MaxBatchItems {
        GreedyAfterClose(p, it, maxTokens);
      } else {
        GreedyAfterExtend(p, it, maxTokens);
      }
    }
  }

  /** The two facts of the packing invariant the greedy argument needs. */
  lemma InvariantBasics(items: seq<Item>, maxTokens: int)
    ensures var p := PackFrom(items, maxTokens);
      p.currentTokens == TokenSum(p.current) && (p.done != [] ==> p.current != [])
  {
    PackingInvariantHolds(items, maxTokens);
  }

  lemma GreedyAfterClose(p: Packing, it: Item, maxTokens: int)
    requires Greedy(p, maxTokens) && p.currentTokens == TokenSum(p.current)
    requires p.currentTokens + it.tokens > maxTokens || |p.current| >= MaxBatchItems
    ensures Greedy(Step(p, it, maxTokens), maxTokens)
  {
    var q := Step(p, it, maxTokens);
    assert q.done == p.done + [p.current] && q.current == [it];
    forall j | 0 <= j < |q.done|
      ensures ClosedBy(q.done[j], NextBatch(q, j), maxTokens)
    {
      if j < |p.done| {
        assert q.done[j] == p.done[j] && NextBatch(q, j) == NextBatch(p, j);
      }
    }
  }

  lemma GreedyAfterExtend(p: Packing, it: Item, maxTokens: int)
    requires Greedy(p, maxTokens) && (p.done != [] ==> p.current != [])
    requires !(p.currentTokens + it.tokens > maxTokens || |p.current| >= MaxBatchItems)
    ensures Greedy(Step(p, it, maxTokens), maxTokens)
  {
    var q := Step(p, it, maxTokens);
    assert q.done == p.done && q.current == p.current + [it];
    forall j | 0 <= j < |q.done|
      ensures ClosedBy(q.done[j], NextBatch(q, j), maxTokens)
    {
      assert ClosedBy(p.done[j], NextBatch(p, j), maxTokens);
      if j + 1 == |q.done| {
        assert q.current[0] == p.current[0];
      }
    }
  }

  /**
   * Packing is greedy: a batch is closed only when the next chunk would push it
   * over the token budget or it already holds 2048 chunks; that chunk opens
   * the next batch.
   */
  lemma BatchesAreGreedy(chunks: seq<Encoded>, maxTokens: int)
    ensures var bs := Batches(Prepared(chunks), maxTokens);
      forall j :: 0 < j < |bs| ==> ClosedBy(bs[j - 1], bs[j], maxTokens)
  {
    var items := Prepared(chunks);
    var p := PackFrom(items, maxTokens);
    var bs := Batches(items, maxTokens);
    GreedyHolds(items, maxTokens);
    PackingInvariantHolds(items, maxTokens);
    forall j | 0 < j < |bs|
      ensures ClosedBy(bs[j - 1], bs[j], maxTokens)
    {
      assert bs[j - 1] == p.done[j - 1] && bs[j] == NextBatch(p, j - 1);
    }
  }

  // ---- retry_with_backoff ----

  /** What one call of the wrapped function does. */
  datatype Attempt<T> = Returns(value: T) | RateLimited | Fails(error: string)

  /** What the wrapper does: return a value, raise, or fall off the loop and return None. */
  datatype RetryOutcome<T> = Value(value: T) | RaisedRateLimit | Raised(error: string) | NoneReturned

  /**
   * The attempt-count logic of lines 40-56; `attempts(i)` is what the call in
   * iteration `i` does. The sleeping in between is left out.
   */
  method RetryWithBackoff<T>(attempts: nat -> Attempt<T>, retries: int) returns (r: RetryOutcome<T>, calls: nat)
    ensures retries <= 0 ==> r == NoneReturned && calls == 0
    ensures retries > 0 ==> 1 <= calls <= retries && r != NoneReturned
    ensures forall i :: 0 <= i < calls - 1 ==> attempts(i) == RateLimited
    ensures r.Value? ==> calls >= 1 && attempts(calls - 1) == Returns(r.value)
    ensures r.Raised? ==> calls >= 1 && attempts(calls - 1) == Fails(r.error)
    ensures r.RaisedRateLimit? <==> calls >= 1 && calls == retries && attempts(calls - 1) == RateLimited
  {
    calls := 0;
    var i := 0;
    while i < retries
      invariant 0 <= i && (retries > 0 ==> i < retries) && (retries <= 0 ==> i == 0) && calls == i
      invariant forall j :: 0 <= j < i ==> attempts(j) == RateLimited
      decreases retries - i
    {
      calls := calls + 1;
      match attempts(i) {
        case Returns(v) =>
          return Value(v), calls;
        case RateLimited =>
          if i == retries - 1 {
            return RaisedRateLimit, calls;
          }
        case Fails(e) =>
          return Raised(e), calls;
      }
      i := i + 1;
    }
    r := NoneReturned;
  }
}
