/**
 * The event sweep behind `Visualizer.get_html` (server/utils/visualization.py):
 * chunk ranges are clipped to the document, turned into start/end events,
 * sorted, and swept left to right while a set of active chunk ids is kept.
 */
module SpanSweep {
  import opened Wrappers
  import Reconstruction

  /** A validated chunk range: `id` is the chunk's position in the input list. */
  datatype Span = Span(id: nat, start: nat, end: nat, tokens: Option<int>)

  function Max0(x: int): nat { if x > 0 then x else 0 }

  /**
   * The span kept for chunk `i`, or none. Both indices are clamped below at 0;
   * the chunk is kept when it is non-empty and starts inside the text, and its
   * end is clipped to the text length. A missing index skips the chunk.
   */
  function SpanOf(i: nat, c: Reconstruction.ChunkObject, textLength: nat): (r: seq<Span>)
    ensures |r| <= 1
    ensures r != [] ==> r[0].id == i && r[0].start < r[0].end <= textLength && r[0].tokens == c.tokenCount
  {
    if c.startIndex.None? || c.endIndex.None? then []
    else
      var start := Max0(c.startIndex.value);
      var end := Max0(c.endIndex.value);
      if start < end && start < textLength then
        [Span(i, start, if end < textLength then end else textLength, c.tokenCount)]
      else []
  }

  /**
   * A position lies in the kept span exactly when it lies in the chunk's own
   * range and inside the text; a chunk is dropped exactly when that
   * intersection is empty.
   */
  lemma SpanIsClippedRange(i: nat, c: Reconstruction.ChunkObject, textLength: nat, p: int)
    ensures (SpanOf(i, c, textLength) != [] && SpanOf(i, c, textLength)[0].start <= p < SpanOf(i, c, textLength)[0].end)
        <==> (c.startIndex.Some? && c.endIndex.Some? && c.startIndex.value <= p < c.endIndex.value && 0 <= p < textLength)
  {
  }

  /** Kept spans lie inside the text and carry strictly increasing ids. */
  predicate ValidSpans(spans: seq<Span>, textLength: nat)
  {
    (forall k :: 0 <= k < |spans| ==> spans[k].start < spans[k].end <= textLength)
    && (forall j, k :: 0 <= j < k < |spans| ==> spans[j].id < spans[k].id)
  }

  /** The validation loop of `get_html` over `enumerate(chunks)`. */
  function Validated(chunks: seq<Reconstruction.ChunkObject>, textLength: nat): (r: seq<Span>)
    ensures ValidSpans(r, textLength)
    ensures forall k :: 0 <= k < |r| ==> r[k].id < |chunks|
  {
    if chunks == [] then []
    else
      var n := |chunks| - 1;
      var prev := Validated(chunks[..n], textLength);
      var last := SpanOf(n, chunks[n], textLength);
      var r := prev + last;
      assert forall k :: 0 <= k < |prev| ==> r[k] == prev[k];
      assert last != [] ==> r[|prev|] == last[0];
      r
  }

  /**
   * Every kept span is exactly the clipped form of the chunk whose index it
   * carries, and every chunk with a non-empty clipped range is kept.
   */
  lemma {:induction false} ValidatedMatchesChunks(chunks: seq<Reconstruction.ChunkObject>, textLength: nat)
    ensures forall k :: 0 <= k < |Validated(chunks, textLength)| ==>
              SpanOf(Validated(chunks, textLength)[k].id, chunks[Validated(chunks, textLength)[k].id], textLength)
                == [Validated(chunks, textLength)[k]]
    ensures forall i :: 0 <= i < |chunks| && SpanOf(i, chunks[i], textLength) != [] ==>
              exists k :: 0 <= k < |Validated(chunks, textLength)| && Validated(chunks, textLength)[k].id == i
  {
    if chunks != [] {
      var n := |chunks| - 1;
      var init := chunks[..n];
      ValidatedMatchesChunks(init, textLength);
      var prev := Validated(init, textLength);
      var last := SpanOf(n, chunks[n], textLength);
      var r := Validated(chunks, textLength);
      assert r == prev + last;
      forall k | 0 <= k < |r|
        ensures SpanOf(r[k].id, chunks[r[k].id], textLength) == [r[k]]
      {
        if k < |prev| {
          assert r[k] == prev[k];
          assert chunks[prev[k].id] == init[prev[k].id];
        }
      }
      forall i | 0 <= i < |chunks| && SpanOf(i, chunks[i], textLength) != []
        ensures exists k :: 0 <= k < |r| && r[k].id == i
      {
        if i < n {
          assert chunks[i] == init[i];
          var k :| 0 <= k < |prev| && prev[k].id == i;
          assert r[k] == prev[k];
        } else {
          assert r[|prev|] == last[0];
        }
      }
    }
  }

  // ---- events ----

  /** `(position, +1 or -1, chunk id)`, compared as a Python tuple. */
  datatype Event = Event(pos: nat, delta: int, id: nat)

  function StartEvent(s: Span): Event { Event(s.start, 1, s.id) }
  function EndEvent(s: Span): Event { Event(s.end, -1, s.id) }

  /** A start and an end event per span, in span order. */
  function EventsOf(spans: seq<Span>): (r: seq<Event>)
    ensures |r| == 2 * |spans|
    ensures forall k :: 0 <= k < |spans| ==> r[2 * k] == StartEvent(spans[k]) && r[2 * k + 1] == EndEvent(spans[k])
  {
    if spans == [] then []
    else
      var n := |spans| - 1;
      var prev := EventsOf(spans[..n]);
      var r := prev + [StartEvent(spans[n]), EndEvent(spans[n])];
      assert forall k :: 0 <= k < n ==> spans[..n][k] == spans[k];
      r
  }

  /** Every event comes from one of the spans; a witness helper returning the index of that span. */
  lemma EventOrigin(spans: seq<Span>, e: Event) returns (k: nat)
    requires e in EventsOf(spans)
    ensures k < |spans| && (e == StartEvent(spans[k]) || e == EndEvent(spans[k]))
  {
    var evs := EventsOf(spans);
    var m :| 0 <= m < |evs| && evs[m] == e;
    k := m / 2;
    if m % 2 == 0 {
      assert m == 2 * k;
    } else {
      assert m == 2 * k + 1;
    }
  }

  /** Lexicographic order on `(pos, delta, id)`, as Python sorts tuples. */
  predicate EventLe(a: Event, b: Event)
  {
    a.pos < b.pos || (a.pos == b.pos && (a.delta < b.delta || (a.delta == b.delta && a.id <= b.id)))
  }

  predicate EventsSorted(s: seq<Event>)
  {
    forall i, j :: 0 <= i < j < |s| ==> EventLe(s[i], s[j])
  }

  function InsertEvent(e: Event, s: seq<Event>): (r: seq<Event>)
    requires EventsSorted(s)
    ensures EventsSorted(r)
    ensures forall x :: x in r <==> x == e || x in s
  {
    if s == [] || EventLe(e, s[0]) then
      var r := [e] + s;
      assert forall i, j :: 0 <= i < j < |r| ==> EventLe(r[i], r[j]) by {
        forall i, j | 0 <= i < j < |r| ensures EventLe(r[i], r[j]) {
          assert r[j] == s[j - 1];
          if i > 0 { assert r[i] == s[i - 1]; }
        }
      }
      r
    else
      var t := InsertEvent(e, s[1..]);
      assert s == [s[0]] + s[1..];
      forall j | 0 <= j < |t| ensures EventLe(s[0], t[j]) {
        if t[j] != e {
          assert t[j] in s[1..];
        }
      }
      var r := [s[0]] + t;
      assert forall i, j :: 0 <= i < j < |r| ==> EventLe(r[i], r[j]) by {
        forall i, j | 0 <= i < j < |r| ensures EventLe(r[i], r[j]) {
          assert r[j] == t[j - 1];
          if i > 0 { assert r[i] == t[i - 1]; }
        }
      }
      r
  }

  lemma {:induction false} InsertEventPermutes(e: Event, s: seq<Event>)
    requires EventsSorted(s)
    ensures multiset(InsertEvent(e, s)) == multiset(s) + multiset{e}
  {
    if s == [] || EventLe(e, s[0]) {
      assert InsertEvent(e, s) == [e] + s;
    } else {
      InsertEventPermutes(e, s[1..]);
      assert s == [s[0]] + s[1..];
      assert InsertEvent(e, s) == [s[0]] + InsertEvent(e, s[1..]);
    }
  }

  /** `events.sort()`. */
  function SortEvents(s: seq<Event>): (r: seq<Event>)
    ensures EventsSorted(r)
    ensures multiset(r) == multiset(s)
    ensures |r| == |s|
    ensures forall x :: x in r <==> x in s
  {
    if s == [] then []
    else
      assert s == [s[0]] + s[1..];
      var r := InsertEvent(s[0], SortEvents(s[1..]));
      InsertEventPermutes(s[0], SortEvents(s[1..]));
      assert |r| == |multiset(r)|;
      r
  }

  // ---- the sweep ----

  /** The active chunk ids after `evs`: `add` on a start event, `discard` on an end event. */
  function ActiveAfter(evs: seq<Event>): set<nat>
  {
    if evs == [] then {}
    else
      var a := ActiveAfter(evs[..|evs| - 1]);
      var e := evs[|evs| - 1];
      if e.delta == 1 then a + {e.id} else if e.delta == -1 then a - {e.id} else a
  }

  /** `last_processed_idx` after `evs`. */
  function Cursor(evs: seq<Event>): nat
  {
    if evs == [] then 0 else evs[|evs| - 1].pos
  }

  /** Python's `text[a:b]` for non-negative bounds. */
  function Slice(text: string, a: nat, b: nat): (r: string)
    ensures a <= b <= |text| ==> r == text[a..b]
    ensures b <= a ==> r == ""
  {
    var hi := if b < |text| then b else |text|;
    if a < hi then text[a..hi] else ""
  }

  /**
   * The text between two consecutive sweep positions together with the ids
   * active over it; `final` marks the segment after the last event.
   */
  datatype Segment = Segment(text: string, active: set<nat>, final: bool)

  /** The segment produced before each event: from the cursor to the event's position. */
  function Segments(text: string, evs: seq<Event>): (r: seq<Segment>)
    ensures |r| == |evs|
  {
    if evs == [] then []
    else
      var init := evs[..|evs| - 1];
      Segments(text, init) + [Segment(Slice(text, Cursor(init), evs[|evs| - 1].pos), ActiveAfter(init), false)]
  }

  /** The segments of the whole sweep, including the text after the last event. */
  function AllSegments(text: string, evs: seq<Event>): seq<Segment>
  {
    Segments(text, evs)
    + (if Cursor(evs) < |text| then [Segment(text[Cursor(evs)..], ActiveAfter(evs), true)] else [])
  }

  function Texts(segs: seq<Segment>): string
  {
    if segs == [] then "" else Texts(segs[..|segs| - 1]) + segs[|segs| - 1].text
  }

  /** The segments built while sweeping a prefix are the first segments of the whole sweep. */
  lemma {:induction false} SegmentsPrefix(text: string, evs: seq<Event>, k: nat)
    requires k <= |evs|
    ensures Segments(text, evs)[..k] == Segments(text, evs[..k])
  {
    if k < |evs| {
      var init := evs[..|evs| - 1];
      SegmentsPrefix(text, init, k);
      assert init[..k] == evs[..k];
    } else {
      assert evs[..k] == evs;
    }
  }

  /** The segment before event `i` spans from the previous event's position to event `i`'s. */
  lemma SegmentAt(text: string, evs: seq<Event>, i: nat)
    requires i < |evs|
    ensures Segments(text, evs)[i] == Segment(Slice(text, Cursor(evs[..i]), evs[i].pos), ActiveAfter(evs[..i]), false)
  {
    SegmentsPrefix(text, evs, i + 1);
    assert evs[..i + 1][..i] == evs[..i];
    assert Segments(text, evs)[i] == Segments(text, evs)[..i + 1][i];
  }

  predicate PositionsSorted(evs: seq<Event>)
  {
    forall i, j :: 0 <= i < j < |evs| ==> evs[i].pos <= evs[j].pos
  }

  lemma {:induction false} SegmentsCoverPrefix(text: string, evs: seq<Event>)
    requires PositionsSorted(evs)
    requires forall i :: 0 <= i < |evs| ==> evs[i].pos <= |text|
    ensures Texts(Segments(text, evs)) == text[..Cursor(evs)]
  {
    if evs != [] {
      var init := evs[..|evs| - 1];
      SegmentsCoverPrefix(text, init);
      var segs := Segments(text, evs);
      assert segs[..|segs| - 1] == Segments(text, init);
      var c := Cursor(init);
      var p := evs[|evs| - 1].pos;
      assert c <= p by {
        if init != [] {
          assert init[|init| - 1] == evs[|evs| - 2];
        }
      }
      assert text[..c] + text[c..p] == text[..p];
    }
  }

  /**
   * With events in position order inside the text, the segments of the sweep
   * concatenate back to the whole text: every character is rendered once.
   */
  lemma SweepCoversText(text: string, evs: seq<Event>)
    requires PositionsSorted(evs)
    requires forall i :: 0 <= i < |evs| ==> evs[i].pos <= |text|
    ensures Texts(AllSegments(text, evs)) == text
  {
    SegmentsCoverPrefix(text, evs);
    var segs := Segments(text, evs);
    var c := Cursor(evs);
    if c < |text| {
      var all := AllSegments(text, evs);
      assert all[..|all| - 1] == segs;
      assert text[..c] + text[c..] == text;
    } else {
      assert AllSegments(text, evs) == segs;
      assert c == |text| by {
        if evs != [] {
          assert evs[|evs| - 1].pos <= |text|;
        }
      }
    }
  }

  // ---- which ids are active ----

  ghost function Started(evs: seq<Event>): set<nat>
  {
    set i | 0 <= i < |evs| && evs[i].delta == 1 :: evs[i].id
  }

  ghost function Ended(evs: seq<Event>): set<nat>
  {
    set i | 0 <= i < |evs| && evs[i].delta == -1 :: evs[i].id
  }

  /** No chunk's end event comes before one of its start events. */
  predicate NoEndBeforeStart(evs: seq<Event>)
  {
    forall i, j :: 0 <= i < j < |evs| && evs[i].delta == -1 && evs[j].delta == 1 ==> evs[i].id != evs[j].id
  }

  /** When no chunk ends before it starts, the active ids are those started and not yet ended. */
  lemma {:induction false} ActiveIsStartedMinusEnded(evs: seq<Event>)
    requires NoEndBeforeStart(evs)
    ensures ActiveAfter(evs) == Started(evs) - Ended(evs)
  {
    if evs != [] {
      var n := |evs| - 1;
      var init := evs[..n];
      var e := evs[n];
      assert NoEndBeforeStart(init);
      ActiveIsStartedMinusEnded(init);
      assert forall i :: 0 <= i < n ==> init[i] == evs[i];
      assert Started(evs) == Started(init) + (if e.delta == 1 then {e.id} else {}) by {
        forall x ensures x in Started(evs) <==> x in Started(init) || (e.delta == 1 && x == e.id) {
          if x in Started(evs) {
            var i :| 0 <= i < |evs| && evs[i].delta == 1 && evs[i].id == x;
            if i < n {
              assert init[i] == evs[i];
            }
          }
          if x in Started(init) {
            var i :| 0 <= i < |init| && init[i].delta == 1 && init[i].id == x;
            assert evs[i] == init[i];
          }
        }
      }
      assert Ended(evs) == Ended(init) + (if e.delta == -1 then {e.id} else {}) by {
        forall x ensures x in Ended(evs) <==> x in Ended(init) || (e.delta == -1 && x == e.id) {
          if x in Ended(evs) {
            var i :| 0 <= i < |evs| && evs[i].delta == -1 && evs[i].id == x;
            if i < n {
              assert init[i] == evs[i];
            }
          }
          if x in Ended(init) {
            var i :| 0 <= i < |init| && init[i].delta == -1 && init[i].id == x;
            assert evs[i] == init[i];
          }
        }
      }
      if e.delta == 1 {
        forall i | 0 <= i < |init| && init[i].delta == -1 ensures init[i].id != e.id {
          assert evs[i] == init[i];
        }
        assert e.id !in Ended(init);
      }
    }
  }

  /** The sweep's events: both events of every validated span, in tuple order. */
  function SweepEvents(spans: seq<Span>): (r: seq<Event>)
    ensures EventsSorted(r)
    ensures forall x :: x in r <==> x in EventsOf(spans)
  {
    SortEvents(EventsOf(spans))
  }

  lemma IdsDistinct(spans: seq<Span>, textLength: nat, j: nat, k: nat)
    requires ValidSpans(spans, textLength)
    requires j < |spans| && k < |spans| && j != k
    ensures spans[j].id != spans[k].id
  {
    if j < k {
      assert spans[j].id < spans[k].id;
    } else {
      assert spans[k].id < spans[j].id;
    }
  }

  /** A start event is its chunk's own start event; a witness helper returning the chunk's index. */
  lemma StartOrigin(spans: seq<Span>, e: Event) returns (k: nat)
    requires e in EventsOf(spans) && e.delta == 1
    ensures k < |spans| && e == StartEvent(spans[k])
  {
    k := EventOrigin(spans, e);
  }

  /** An end event is its chunk's own end event; a witness helper returning the chunk's index. */
  lemma EndOrigin(spans: seq<Span>, e: Event) returns (k: nat)
    requires e in EventsOf(spans) && e.delta == -1
    ensures k < |spans| && e == EndEvent(spans[k])
  {
    k := EventOrigin(spans, e);
  }

  /** In the sorted events a chunk's end never precedes its start, since every span is non-empty. */
  lemma SweepEventsOrdered(spans: seq<Span>, textLength: nat)
    requires ValidSpans(spans, textLength)
    ensures NoEndBeforeStart(SweepEvents(spans))
  {
    var evs := SweepEvents(spans);
    forall i, j | 0 <= i < j < |evs| && evs[i].delta == -1 && evs[j].delta == 1
      ensures evs[i].id != evs[j].id
    {
      assert evs[i] in evs && evs[j] in evs;
      var a := EndOrigin(spans, evs[i]);
      var b := StartOrigin(spans, evs[j]);
      assert EventLe(evs[i], evs[j]);
      assert spans[a].start < spans[a].end <= spans[b].start;
      IdsDistinct(spans, textLength, a, b);
    }
  }

  /** Every prefix of a sweep keeps the ordering property. */
  lemma PrefixOrdered(evs: seq<Event>, k: nat)
    requires NoEndBeforeStart(evs) && k <= |evs|
    ensures NoEndBeforeStart(evs[..k])
  {
    assert forall i :: 0 <= i < k ==> evs[..k][i] == evs[i];
  }

  /** Every id active during the sweep belongs to a validated span. */
  lemma ActiveAreSpanIds(spans: seq<Span>, textLength: nat, k: nat, x: nat) returns (j: nat)
    requires ValidSpans(spans, textLength)
    requires k <= |SweepEvents(spans)| && x in ActiveAfter(SweepEvents(spans)[..k])
    ensures j < |spans| && spans[j].id == x
  {
    var evs := SweepEvents(spans);
    SweepEventsOrdered(spans, textLength);
    PrefixOrdered(evs, k);
    ActiveIsStartedMinusEnded(evs[..k]);
    var i :| 0 <= i < k && evs[..k][i].delta == 1 && evs[..k][i].id == x;
    assert evs[i] in evs;
    j := StartOrigin(spans, evs[i]);
  }

  /** Once every event has been processed no chunk is active, so the text after the last event is unstyled. */
  lemma NoneActiveAtEnd(spans: seq<Span>, textLength: nat)
    requires ValidSpans(spans, textLength)
    ensures ActiveAfter(SweepEvents(spans)) == {}
  {
    var evs := SweepEvents(spans);
    SweepEventsOrdered(spans, textLength);
    ActiveIsStartedMinusEnded(evs);
    forall x | x in Started(evs) ensures x in Ended(evs) {
      var i :| 0 <= i < |evs| && evs[i].delta == 1 && evs[i].id == x;
      assert evs[i] in evs;
      var k := StartOrigin(spans, evs[i]);
      var e := EndEvent(spans[k]);
      assert e == EventsOf(spans)[2 * k + 1];
      assert e in evs;
      var m :| 0 <= m < |evs| && evs[m] == e;
    }
  }

  /** No two validated spans share a position. */
  predicate Disjoint(spans: seq<Span>)
  {
    forall j, k :: 0 <= j < k < |spans| ==> spans[j].end <= spans[k].start || spans[k].end <= spans[j].start
  }

  /**
   * If `x` is active after `k` events, its span started before position `k` in
   * the sweep and ends at or after it; so every span active there overlaps every other.
   */
  lemma ActiveSpansOverlap(spans: seq<Span>, textLength: nat, k: nat, a: nat, b: nat)
    requires ValidSpans(spans, textLength)
    requires k <= |SweepEvents(spans)| && a < |spans| && b < |spans|
    requires spans[a].id in ActiveAfter(SweepEvents(spans)[..k])
    requires spans[b].id in ActiveAfter(SweepEvents(spans)[..k])
    ensures spans[b].start < spans[a].end
  {
    var evs := SweepEvents(spans);
    SweepEventsOrdered(spans, textLength);
    PrefixOrdered(evs, k);
    ActiveIsStartedMinusEnded(evs[..k]);
    var i :| 0 <= i < k && evs[..k][i].delta == 1 && evs[..k][i].id == spans[b].id;
    assert evs[i] in evs;
    var b' := StartOrigin(spans, evs[i]);
    if b != b' {
      IdsDistinct(spans, textLength, b, b');
    }
    assert b == b';
    var e := EndEvent(spans[a]);
    assert e == EventsOf(spans)[2 * a + 1];
    assert e in evs;
    forall m' | 0 <= m' < k ensures evs[m'] != e {
      assert evs[..k][m'] == evs[m'];
    }
    var m :| 0 <= m < |evs| && evs[m] == e;
    assert i < m;
    assert EventLe(evs[i], evs[m]);
  }

  /**
   * When no two validated spans overlap, at most one chunk is active over any
   * segment, so no segment is drawn in the darkened overlap colour. Ranges that
   * merely touch (one ends where the next starts) count as not overlapping.
   */
  lemma DisjointSpansNeverOverlap(spans: seq<Span>, textLength: nat, k: nat)
    requires ValidSpans(spans, textLength) && Disjoint(spans)
    requires k <= |SweepEvents(spans)|
    ensures |ActiveAfter(SweepEvents(spans)[..k])| <= 1
  {
    var active := ActiveAfter(SweepEvents(spans)[..k]);
    if active != {} {
      var x :| x in active;
      var a := ActiveAreSpanIds(spans, textLength, k, x);
      forall y | y in active ensures y == x {
        var b := ActiveAreSpanIds(spans, textLength, k, y);
        ActiveSpansOverlap(spans, textLength, k, a, b);
        ActiveSpansOverlap(spans, textLength, k, b, a);
        OverlappingSpansCoincide(spans, a, b);
      }
      assert active == {x};
    }
  }

  /** Two spans of a disjoint list that overlap are the same span. */
  lemma OverlappingSpansCoincide(spans: seq<Span>, a: nat, b: nat)
    requires Disjoint(spans) && a < |spans| && b < |spans|
    requires spans[b].start < spans[a].end && spans[a].start < spans[b].end
    ensures a == b
  {
  }

  // ---- the primary chunk of a segment ----

  /** `min(active_chunk_ids)`. */
  ghost function MinId(active: set<nat>): (m: nat)
    requires active != {}
    ensures m in active && forall x :: x in active ==> m <= x
    decreases |active|
  {
    var x :| x in active;
    if forall y :: y in active ==> x <= y then x
    else
      var y :| y in active && y < x;
      assert y in active - {x};
      var m := MinId(active - {x});
      assert forall z :: z in active ==> z == x || z in active - {x};
      assert m <= y;
      m
  }

  /** `next((s for s in validated_spans if s["id"] == id), None)`. */
  function FindSpan(spans: seq<Span>, id: nat): (r: Option<Span>)
    ensures r.Some? ==> r.value in spans && r.value.id == id
    ensures r.None? ==> forall k :: 0 <= k < |spans| ==> spans[k].id != id
  {
    if spans == [] then None
    else if spans[0].id == id then Some(spans[0])
    else FindSpan(spans[1..], id)
  }
}
