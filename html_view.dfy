/**
 * HTML rendering of a chunk sweep (`Visualizer.get_html` in
 * server/utils/visualization.py): segment styles, hover titles, escaping, and
 * the imperative renderer proved against a specification of its output.
 */
module HtmlView {
  import opened Wrappers
  import TextUtil
  import HexColor
  import Themes
  import Reconstruction
  import opened SpanSweep

  /** The exceptions `get_html` raises: no chunks, missing attributes, an empty palette. */
  datatype VizError = NoChunks | MissingAttributes | EmptyPalette

  const Transparent := "transparent"
  const NotProvided := "Token count not provided by chunker"

  /** A background colour and a hover title; `Transparent` means no highlight. */
  datatype Style = Style(background: string, title: string)
  const NoStyle := Style(Transparent, "")

  /** The token part of a hover title: inside the sweep a falsy count is replaced by a notice, after it the raw value is shown. */
  function TokensText(tokens: Option<int>, final: bool): (r: string)
    ensures !final && (tokens.None? || tokens == Some(0)) ==> r == NotProvided
    ensures final && tokens.None? ==> r == "None"
    ensures tokens.Some? && (final || tokens.value != 0) ==> r == TextUtil.IntToString(tokens.value)
  {
    match tokens
    case None => if final then "None" else NotProvided
    case Some(n) => if final || n != 0 then TextUtil.IntToString(n) else NotProvided
  }

  /** The hover title of a segment whose primary chunk is `p`. */
  function Title(p: Span, numActive: nat, final: bool): (r: string)
    ensures TextUtil.EndsWith(r, " (Overlap)") <==> numActive > 1
  {
    var head := "Chunk " + TextUtil.NatToString(p.id) + " | Start: " + TextUtil.NatToString(p.start)
      + " | End: " + TextUtil.NatToString(p.end) + " | Tokens: " + TokensText(p.tokens, final);
    var r := head + (if numActive > 1 then " (Overlap)" else "");
    assert numActive <= 1 ==> !TextUtil.EndsWith(r, " (Overlap)") by {
      if numActive <= 1 {
        TitleTail(p, final);
      }
    }
    r
  }

  /** Without the overlap suffix a title ends in the token text, which never ends in " (Overlap)". */
  lemma TitleTail(p: Span, final: bool)
    ensures !TextUtil.EndsWith("Chunk " + TextUtil.NatToString(p.id) + " | Start: " + TextUtil.NatToString(p.start)
      + " | End: " + TextUtil.NatToString(p.end) + " | Tokens: " + TokensText(p.tokens, final), " (Overlap)")
  {
    var t := TokensText(p.tokens, final);
    var head := "Chunk " + TextUtil.NatToString(p.id) + " | Start: " + TextUtil.NatToString(p.start)
      + " | End: " + TextUtil.NatToString(p.end) + " | Tokens: ";
    var s := head + t;
    LastCharOfTokens(p.tokens, final);
    assert s[|s| - 1] == t[|t| - 1];
  }

  /** The token text ends in a digit, a letter of "None" or of "chunker", never in ')'. */
  lemma LastCharOfTokens(tokens: Option<int>, final: bool)
    ensures |TokensText(tokens, final)| > 0
    ensures TokensText(tokens, final)[|TokensText(tokens, final)| - 1] != ')'
  {
    match tokens
    case None =>
    case Some(n) =>
      if final || n != 0 {
        IntStringEndsInDigit(n);
      }
  }

  lemma IntStringEndsInDigit(n: int)
    ensures |TextUtil.IntToString(n)| > 0
    ensures TextUtil.IsAsciiDigit(TextUtil.IntToString(n)[|TextUtil.IntToString(n)| - 1])
  {
    var s := TextUtil.IntToString(n);
    var d := TextUtil.NatToString(if n < 0 then -n else n);
    assert s == d || s == "-" + d;
    assert (s[|s| - 1] == d[|d| - 1]);
  }

  /**
   * The style of a segment whose primary chunk id is `primary` while
   * `numActive` chunks are active; `None` is the division by zero an empty
   * custom palette raises.
   */
  function PrimaryStyle(v: Themes.Visualizer, spans: seq<Span>, primary: nat, numActive: nat, final: bool): (r: Option<Style>)
    ensures r.None? <==> FindSpan(spans, primary).Some? && |v.theme| == 0
  {
    match FindSpan(spans, primary)
    case None => Some(NoStyle)
    case Some(p) =>
      match Themes.GetColor(v, p.id)
      case None => None
      case Some(base) =>
        Some(Style(if numActive == 1 then base else HexColor.DarkenColor(base, HexColor.OverlapAmount), Title(p, numActive, final)))
  }

  /** The style of a segment over which the ids `active` are active. */
  ghost function StyleOf(v: Themes.Visualizer, spans: seq<Span>, active: set<nat>, final: bool): Option<Style>
  {
    if active == {} then Some(NoStyle) else PrimaryStyle(v, spans, MinId(active), |active|, final)
  }

  // ---- escaping ----

  /** `html.escape` on one character (quotes included). */
  function EscapeChar(c: char): string
  {
    if c == '&' then "&amp;"
    else if c == '<' then "&lt;"
    else if c == '>' then "&gt;"
    else if c == '"' then "&quot;"
    else if c == '\'' then "&#x27;"
    else [c]
  }

  predicate IsMarkupChar(c: char)
  {
    c == '<' || c == '>' || c == '"' || c == '\''
  }

  /** `html.escape(s)`: the result holds no character that could open a tag or close an attribute. */
  function Escape(s: string): (r: string)
    ensures forall i :: 0 <= i < |r| ==> !IsMarkupChar(r[i])
  {
    if s == [] then ""
    else
      var head := EscapeChar(s[0]);
      var tail := Escape(s[1..]);
      assert forall i :: 0 <= i < |head| ==> !IsMarkupChar(head[i]);
      head + tail
  }

  /** Decodes the five entities `Escape` produces. */
  function Unescape(s: string): string
  {
    if s == [] then ""
    else if TextUtil.StartsWith(s, "&amp;") then "&" + Unescape(s[5..])
    else if TextUtil.StartsWith(s, "&lt;") then "<" + Unescape(s[4..])
    else if TextUtil.StartsWith(s, "&gt;") then ">" + Unescape(s[4..])
    else if TextUtil.StartsWith(s, "&quot;") then "\"" + Unescape(s[6..])
    else if TextUtil.StartsWith(s, "&#x27;") then "'" + Unescape(s[6..])
    else [s[0]] + Unescape(s[1..])
  }

  /** Decoding an entity, or a character that starts none, consumes exactly it. */
  lemma UnescapeChar(c: char, t: string)
    ensures Unescape(EscapeChar(c) + t) == [c] + Unescape(t)
  {
    if c == '&' || c == '<' || c == '>' || c == '"' || c == '\'' {
      UnescapeEntity(c, t);
    } else {
      UnescapePlain(c, t);
    }
  }

  lemma UnescapePlain(c: char, t: string)
    requires c != '&'
    ensures Unescape([c] + t) == [c] + Unescape(t)
  {
    var s := [c] + t;
    assert s[0] == c && s[1..] == t;
    DiffersAt(s, "&amp;", 0);
    DiffersAt(s, "&lt;", 0);
    DiffersAt(s, "&gt;", 0);
    DiffersAt(s, "&quot;", 0);
    DiffersAt(s, "&#x27;", 0);
  }

  lemma UnescapeEntity(c: char, t: string)
    requires c == '&' || c == '<' || c == '>' || c == '"' || c == '\''
    ensures Unescape(EscapeChar(c) + t) == [c] + Unescape(t)
  {
    var e := EscapeChar(c);
    var s := e + t;
    PrefixStarts(e, t);
    assert s[1] == e[1];
    if c == '<' {
      DiffersAt(s, "&amp;", 1);
    } else if c == '>' {
      DiffersAt(s, "&amp;", 1);
      DiffersAt(s, "&lt;", 1);
    } else if c == '"' {
      DiffersAt(s, "&amp;", 1);
      DiffersAt(s, "&lt;", 1);
      DiffersAt(s, "&gt;", 1);
    } else if c == '\'' {
      DiffersAt(s, "&amp;", 1);
      DiffersAt(s, "&lt;", 1);
      DiffersAt(s, "&gt;", 1);
      DiffersAt(s, "&quot;", 1);
    }
  }

  lemma PrefixStarts(e: string, t: string)
    ensures TextUtil.StartsWith(e + t, e) && (e + t)[|e|..] == t
  {
    assert (e + t)[..|e|] == e;
  }

  lemma DiffersAt(s: string, p: string, k: nat)
    requires k < |s| && k < |p| && s[k] != p[k]
    ensures !TextUtil.StartsWith(s, p)
  {
    if |p| <= |s| {
      assert s[..|p|][k] == s[k];
    }
  }

  /** Escaping loses nothing: decoding the entities gives the original text back. */
  lemma {:induction false} EscapeRoundTrip(s: string)
    ensures Unescape(Escape(s)) == s
  {
    if s != [] {
      EscapeRoundTrip(s[1..]);
      UnescapeChar(s[0], Escape(s[1..]));
      assert s == [s[0]] + s[1..];
    }
  }

  /** `.replace("\n", "<br>")`. */
  function BreakLines(s: string): (r: string)
    ensures forall i :: 0 <= i < |r| ==> r[i] != '\n'
    ensures |r| >= |s|
  {
    if s == [] then ""
    else
      var head := if s[0] == '\n' then "<br>" else [s[0]];
      head + BreakLines(s[1..])
  }

  // ---- rendering ----

  function OpenTag(style: Style): string
  {
    "<span style=\"background-color: " + style.background + ";\""
    + (if style.title != "" then " title=\"" + Escape(style.title) + "\"" else "") + ">"
  }

  /** The html parts for one non-empty segment of text. */
  function RenderPiece(text: string, style: Style): (r: seq<string>)
    ensures style.background == Transparent ==> r == [BreakLines(Escape(text))]
    ensures style.background != Transparent ==> |r| == 3 && r[1] == BreakLines(Escape(text)) && r[2] == "</span>"
  {
    var escaped := BreakLines(Escape(text));
    if style.background != Transparent then [OpenTag(style), escaped, "</span>"] else [escaped]
  }

  /** The parts one segment contributes, or `None` if styling it divides by zero. */
  ghost function RenderSegment(v: Themes.Visualizer, spans: seq<Span>, seg: Segment): Option<seq<string>>
  {
    match StyleOf(v, spans, seg.active, seg.final)
    case None => None
    case Some(style) => Some(if seg.text == "" then [] else RenderPiece(seg.text, style))
  }

  ghost function RenderAll(v: Themes.Visualizer, spans: seq<Span>, segs: seq<Segment>): Option<seq<string>>
  {
    if segs == [] then Some([])
    else
      match RenderAll(v, spans, segs[..|segs| - 1])
      case None => None
      case Some(parts) =>
        match RenderSegment(v, spans, segs[|segs| - 1])
        case None => None
        case Some(more) => Some(parts + more)
  }

  function Join(parts: seq<string>): string
  {
    if parts == [] then "" else Join(parts[..|parts| - 1]) + parts[|parts| - 1]
  }

  /** `MAIN_TEMPLATE` filled with the joined parts. */
  function Page(parts: seq<string>): string
  {
    "\n<div class=\"content-box\">\n    <div class=\"text-display\">" + Join(parts) + "</div>\n</div>\n"
  }

  /** The text the sweep runs over: the given full text, or the reconstruction. */
  ghost function DocumentText(chunks: seq<Reconstruction.ChunkObject>, fullText: Option<string>): string
    requires fullText.Some? || Reconstruction.AllComplete(chunks)
  {
    if fullText.Some? then fullText.value
    else Reconstruction.Reconstructed(Reconstruction.SortByStart(Reconstruction.Pieces(chunks)))
  }

  /** What `get_html` returns or raises. */
  ghost function Html(v: Themes.Visualizer, chunks: seq<Reconstruction.ChunkObject>, fullText: Option<string>): Result<string, VizError>
  {
    if chunks == [] then Err(NoChunks)
    else if fullText.None? && !Reconstruction.AllComplete(chunks) then Err(MissingAttributes)
    else Rendered(v, chunks, DocumentText(chunks, fullText))
  }

  /** The page for the chunks over `text`, or the empty-palette error. */
  ghost function Rendered(v: Themes.Visualizer, chunks: seq<Reconstruction.ChunkObject>, text: string): Result<string, VizError>
  {
    var spans := Validated(chunks, |text|);
    match RenderAll(v, spans, AllSegments(text, SweepEvents(spans)))
    case None => Err(EmptyPalette)
    case Some(parts) => Ok(Page(parts))
  }

  /** `min(active_chunk_ids)`. */
  method SmallestId(active: set<nat>) returns (m: nat)
    requires active != {}
    ensures m == MinId(active)
  {
    m :| m in active;
    var rest := active - {m};
    while rest != {}
      invariant rest <= active && m in active
      invariant forall x :: x in active && x !in rest ==> m <= x
      decreases |rest|
    {
      var y :| y in rest;
      if y < m {
        m := y;
      }
      rest := rest - {y};
    }
  }

  lemma {:induction false} RenderAllNonePropagates(v: Themes.Visualizer, spans: seq<Span>, segs: seq<Segment>, k: nat)
    requires k <= |segs| && RenderAll(v, spans, segs[..k]) == None
    ensures RenderAll(v, spans, segs) == None
  {
    if k < |segs| {
      var init := segs[..|segs| - 1];
      assert init[..k] == segs[..k];
      RenderAllNonePropagates(v, spans, init, k);
    } else {
      assert segs[..k] == segs;
    }
  }

  lemma ValidatedStep(chunks: seq<Reconstruction.ChunkObject>, i: nat, textLength: nat)
    requires i < |chunks|
    ensures Validated(chunks[..i + 1], textLength) == Validated(chunks[..i], textLength) + SpanOf(i, chunks[i], textLength)
  {
    var p := chunks[..i + 1];
    assert p[..i] == chunks[..i];
    assert p[i] == chunks[i];
  }

  /** Stage 1 of `get_html`: the validation loop. */
  method ValidateSpans(chunks: seq<Reconstruction.ChunkObject>, textLength: nat) returns (spans: seq<Span>)
    ensures spans == Validated(chunks, textLength)
  {
    spans := [];
    var i := 0;
    while i < |chunks|
      invariant 0 <= i <= |chunks|
      invariant spans == Validated(chunks[..i], textLength)
    {
      ValidatedStep(chunks, i, textLength);
      spans := spans + SpanOf(i, chunks[i], textLength);
      i := i + 1;
    }
    assert chunks[..i] == chunks;
  }

  /** Stage 2 of `get_html`: one start and one end event per span, then `events.sort()`. */
  method CollectEvents(spans: seq<Span>) returns (events: seq<Event>)
    ensures events == SweepEvents(spans)
  {
    events := [];
    var k := 0;
    while k < |spans|
      invariant 0 <= k <= |spans|
      invariant events == EventsOf(spans[..k])
    {
      events := events + [StartEvent(spans[k]), EndEvent(spans[k])];
      assert spans[..k + 1][..k] == spans[..k];
      k := k + 1;
    }
    assert spans[..k] == spans;
    events := SortEvents(events);
  }

  /** The style the renderer computes from the active set it keeps. */
  method ComputeStyle(v: Themes.Visualizer, spans: seq<Span>, active: set<nat>, final: bool) returns (style: Option<Style>)
    ensures style == StyleOf(v, spans, active, final)
  {
    style := Some(NoStyle);
    if |active| > 0 {
      var m := SmallestId(active);
      style := PrimaryStyle(v, spans, m, |active|, final);
    }
  }

  /** One iteration of the sweep loop, stated on the specification. */
  lemma SweepStep(v: Themes.Visualizer, spans: seq<Span>, text: string, evs: seq<Event>, j: nat, parts: seq<string>)
    requires j < |evs| && RenderAll(v, spans, Segments(text, evs[..j])) == Some(parts)
    ensures Cursor(evs[..j + 1]) == evs[j].pos
    ensures ActiveAfter(evs[..j + 1])
         == (if evs[j].delta == 1 then ActiveAfter(evs[..j]) + {evs[j].id}
             else if evs[j].delta == -1 then ActiveAfter(evs[..j]) - {evs[j].id}
             else ActiveAfter(evs[..j]))
    ensures RenderAll(v, spans, Segments(text, evs[..j + 1]))
         == match StyleOf(v, spans, ActiveAfter(evs[..j]), false)
            case None => None
            case Some(style) =>
              var seg := Slice(text, Cursor(evs[..j]), evs[j].pos);
              Some(parts + if seg == "" then [] else RenderPiece(seg, style))
  {
    assert evs[..j + 1][..j] == evs[..j];
    var segs := Segments(text, evs[..j + 1]);
    assert segs[..|segs| - 1] == Segments(text, evs[..j]);
  }

  /** A failing iteration makes the whole rendering fail. */
  lemma SweepFails(v: Themes.Visualizer, spans: seq<Span>, text: string, evs: seq<Event>, j: nat)
    requires j < |evs| && RenderAll(v, spans, Segments(text, evs[..j + 1])) == None
    ensures RenderAll(v, spans, AllSegments(text, evs)) == None
  {
    SegmentsPrefix(text, evs, j + 1);
    assert AllSegments(text, evs)[..j + 1] == Segments(text, evs[..j + 1]);
    RenderAllNonePropagates(v, spans, AllSegments(text, evs), j + 1);
  }

  /** The final segment, stated on the specification. */
  lemma FinalStep(v: Themes.Visualizer, spans: seq<Span>, text: string, evs: seq<Event>, parts: seq<string>)
    requires RenderAll(v, spans, Segments(text, evs)) == Some(parts)
    ensures Cursor(evs) >= |text| ==> RenderAll(v, spans, AllSegments(text, evs)) == Some(parts)
    ensures Cursor(evs) < |text| ==>
      RenderAll(v, spans, AllSegments(text, evs))
        == match StyleOf(v, spans, ActiveAfter(evs), true)
           case None => None
           case Some(style) => Some(parts + RenderPiece(text[Cursor(evs)..], style))
  {
    var all := AllSegments(text, evs);
    if Cursor(evs) < |text| {
      assert all[..|all| - 1] == Segments(text, evs);
    } else {
      assert all == Segments(text, evs);
    }
  }

  /** Stage 3 of `get_html`: the sweep over the sorted events and the final segment. */
  method Sweep(v: Themes.Visualizer, spans: seq<Span>, text: string, events: seq<Event>) returns (r: Option<seq<string>>)
    ensures r == RenderAll(v, spans, AllSegments(text, events))
  {
    var parts: seq<string> := [];
    var last: nat := 0;
    var active: set<nat> := {};
    var j := 0;
    while j < |events|
      invariant 0 <= j <= |events|
      invariant last == Cursor(events[..j]) && active == ActiveAfter(events[..j])
      invariant RenderAll(v, spans, Segments(text, events[..j])) == Some(parts)
    {
      var e := events[j];
      var style := ComputeStyle(v, spans, active, false);
      SweepStep(v, spans, text, events, j, parts);
      if style.None? {
        SweepFails(v, spans, text, events, j);
        return None;
      }
      var segment := Slice(text, last, e.pos);
      if segment != "" {
        parts := parts + RenderPiece(segment, style.value);
      } else {
        assert parts + [] == parts;
      }
      assert RenderAll(v, spans, Segments(text, events[..j + 1])) == Some(parts);
      last := e.pos;
      if e.delta == 1 {
        active := active + {e.id};
      } else if e.delta == -1 {
        active := active - {e.id};
      }
      j := j + 1;
    }
    assert events[..j] == events;
    FinalStep(v, spans, text, events, parts);
    if last < |text| {
      var style := ComputeStyle(v, spans, active, true);
      if style.None? {
        return None;
      }
      parts := parts + RenderPiece(text[last..], style.value);
    }
    return Some(parts);
  }

  /** `get_html`. */
  method GetHtml(v: Themes.Visualizer, chunks: seq<Reconstruction.ChunkObject>, fullText: Option<string>) returns (r: Result<string, VizError>)
    ensures r == Html(v, chunks, fullText)
  {
    if chunks == [] {
      return Err(NoChunks);
    }
    var text: string;
    if fullText.None? {
      var rebuilt := Reconstruction.ReconstructText(chunks);
      if rebuilt.Err? {
        return Err(MissingAttributes);
      }
      text := rebuilt.value;
    } else {
      text := fullText.value;
    }
    var spans := ValidateSpans(chunks, |text|);
    var events := CollectEvents(spans);
    var parts := Sweep(v, spans, text, events);
    if parts.None? {
      return Err(EmptyPalette);
    }
    return Ok(Page(parts.value));
  }

  // ---- properties of the rendering ----

  /** Sorted events of validated spans are in position order and lie inside the text. */
  lemma SweepEventsInText(spans: seq<Span>, textLength: nat)
    requires ValidSpans(spans, textLength)
    ensures PositionsSorted(SweepEvents(spans))
    ensures forall i :: 0 <= i < |SweepEvents(spans)| ==> SweepEvents(spans)[i].pos <= textLength
  {
    var evs := SweepEvents(spans);
    forall i | 0 <= i < |evs| ensures evs[i].pos <= textLength {
      assert evs[i] in evs;
      var k := EventOrigin(spans, evs[i]);
    }
    forall i, j | 0 <= i < j < |evs| ensures evs[i].pos <= evs[j].pos {
      assert EventLe(evs[i], evs[j]);
    }
  }

  /** Every character of the document lands in exactly one rendered segment, in order. */
  lemma RenderingCoversText(chunks: seq<Reconstruction.ChunkObject>, text: string)
    ensures Texts(AllSegments(text, SweepEvents(Validated(chunks, |text|)))) == text
  {
    var spans := Validated(chunks, |text|);
    SweepEventsInText(spans, |text|);
    SweepCoversText(text, SweepEvents(spans));
  }

  lemma {:induction false} RenderAllWithPalette(v: Themes.Visualizer, spans: seq<Span>, segs: seq<Segment>)
    requires |v.theme| > 0
    ensures RenderAll(v, spans, segs).Some?
  {
    if segs != [] {
      RenderAllWithPalette(v, spans, segs[..|segs| - 1]);
    }
  }

  /**
   * `get_html` fails exactly as stated: no chunks, missing attributes when the
   * text must be rebuilt, or an empty palette; with a non-empty palette it
   * always produces a page.
   */
  lemma HtmlOutcome(v: Themes.Visualizer, chunks: seq<Reconstruction.ChunkObject>, fullText: Option<string>)
    ensures Html(v, chunks, fullText) == Err(NoChunks) <==> chunks == []
    ensures Html(v, chunks, fullText) == Err(MissingAttributes)
        <==> chunks != [] && fullText.None? && !Reconstruction.AllComplete(chunks)
    ensures Html(v, chunks, fullText) == Err(EmptyPalette) ==> |v.theme| == 0
    ensures chunks != [] && (fullText.Some? || Reconstruction.AllComplete(chunks)) && |v.theme| > 0
        ==> Html(v, chunks, fullText).Ok?
  {
    if chunks != [] && (fullText.Some? || Reconstruction.AllComplete(chunks)) {
      var text := DocumentText(chunks, fullText);
      var spans := Validated(chunks, |text|);
      if |v.theme| > 0 {
        RenderAllWithPalette(v, spans, AllSegments(text, SweepEvents(spans)));
      }
    }
  }

  /** The first sorted event opens a chunk: no span ends before some span starts. */
  lemma FirstEventStarts(spans: seq<Span>, textLength: nat) returns (k: nat)
    requires ValidSpans(spans, textLength) && spans != []
    ensures k < |spans| && |SweepEvents(spans)| >= 2 && SweepEvents(spans)[0] == StartEvent(spans[k])
  {
    var evs := SweepEvents(spans);
    assert evs[0] in evs;
    k := EventOrigin(spans, evs[0]);
    var s := StartEvent(spans[k]);
    assert s == EventsOf(spans)[2 * k];
    assert s in evs;
    var m :| 0 <= m < |evs| && evs[m] == s;
    assert m == 0 || EventLe(evs[0], evs[m]);
    assert evs[0].pos <= spans[k].start < spans[k].end;
  }

  /** With an empty palette the sweep fails at the first segment that has an active chunk. */
  lemma SweepFailsWithoutPalette(v: Themes.Visualizer, spans: seq<Span>, textLength: nat, text: string)
    requires ValidSpans(spans, textLength) && spans != [] && |v.theme| == 0
    ensures RenderAll(v, spans, AllSegments(text, SweepEvents(spans))) == None
  {
    var evs := SweepEvents(spans);
    var k := FirstEventStarts(spans, textLength);
    var id := spans[k].id;
    assert evs[..1][..0] == [];
    assert ActiveAfter(evs[..1]) == {id};
    SegmentAt(text, evs, 1);
    SegmentsPrefix(text, evs, 2);
    var segs := Segments(text, evs[..2]);
    assert segs[1] == Segments(text, evs)[1];
    assert MinId({id}) == id;
    assert FindSpan(spans, id).Some?;
    assert RenderSegment(v, spans, segs[1]) == None;
    assert segs[..1] == segs[..|segs| - 1];
    assert RenderAll(v, spans, segs) == None;
    SweepFails(v, spans, text, evs, 1);
  }

  /** An empty custom palette makes `get_html` raise as soon as one span is kept. */
  lemma EmptyPaletteFails(v: Themes.Visualizer, chunks: seq<Reconstruction.ChunkObject>, fullText: Option<string>)
    requires chunks != [] && (fullText.Some? || Reconstruction.AllComplete(chunks))
    requires |v.theme| == 0 && Validated(chunks, |DocumentText(chunks, fullText)|) != []
    ensures Html(v, chunks, fullText) == Err(EmptyPalette)
  {
    var text := DocumentText(chunks, fullText);
    SweepFailsWithoutPalette(v, Validated(chunks, |text|), |text|, text);
    assert Rendered(v, chunks, text) == Err(EmptyPalette);
  }

  /**
   * Inside the sweep, a segment with active chunks is coloured by the active
   * chunk with the smallest id: its palette colour while it is alone, that
   * colour darkened by the overlap factor when several chunks are active, and
   * its title carries the "(Overlap)" mark exactly then.
   */
  lemma SegmentStyle(v: Themes.Visualizer, spans: seq<Span>, textLength: nat, text: string, i: nat)
    requires ValidSpans(spans, textLength) && |v.theme| > 0
    requires i < |SweepEvents(spans)|
    requires Segments(text, SweepEvents(spans))[i].active != {}
    ensures var active := Segments(text, SweepEvents(spans))[i].active;
      var base := v.theme[MinId(active) % |v.theme|];
      exists p :: p in spans && p.id == MinId(active)
        && StyleOf(v, spans, active, false)
           == Some(Style(if |active| == 1 then base else HexColor.DarkenColor(base, HexColor.OverlapAmount),
                         Title(p, |active|, false)))
  {
    var evs := SweepEvents(spans);
    SegmentAt(text, evs, i);
    var active := ActiveAfter(evs[..i]);
    var j := ActiveAreSpanIds(spans, textLength, i, MinId(active));
    assert spans[j] in spans;
    var p := FindSpan(spans, MinId(active)).value;
    assert p in spans && p.id == MinId(active);
  }

  /**
   * When the kept chunks do not overlap (touching ends included), no segment
   * has more than one active chunk, and every highlighted segment uses its
   * chunk's palette colour undarkened.
   */
  lemma NoOverlapNoDarkening(v: Themes.Visualizer, spans: seq<Span>, textLength: nat, text: string, i: nat)
    requires ValidSpans(spans, textLength) && Disjoint(spans) && |v.theme| > 0
    requires i < |SweepEvents(spans)|
    ensures |Segments(text, SweepEvents(spans))[i].active| <= 1
    ensures Segments(text, SweepEvents(spans))[i].active != {} ==>
      StyleOf(v, spans, Segments(text, SweepEvents(spans))[i].active, false).value.background
        == v.theme[MinId(Segments(text, SweepEvents(spans))[i].active) % |v.theme|]
  {
    var evs := SweepEvents(spans);
    SegmentAt(text, evs, i);
    DisjointSpansNeverOverlap(spans, textLength, i);
    if Segments(text, evs)[i].active != {} {
      SegmentStyle(v, spans, textLength, text, i);
    }
  }

  /** The text after the last event is never highlighted: every chunk has ended by then. */
  lemma FinalSegmentPlain(v: Themes.Visualizer, spans: seq<Span>, textLength: nat, text: string)
    requires ValidSpans(spans, textLength)
    requires Cursor(SweepEvents(spans)) < |text|
    ensures var c := Cursor(SweepEvents(spans));
      RenderSegment(v, spans, Segment(text[c..], ActiveAfter(SweepEvents(spans)), true))
        == Some([BreakLines(Escape(text[c..]))])
  {
    NoneActiveAtEnd(spans, textLength);
  }

  /**
   * Two chunks that meet, [a, b) and [b, c), never count as overlapping: the
   * end event of the first sorts before the start event of the second.
   */
  lemma AdjacentChunksNotOverlapping(text: string, a: nat, b: nat, c: nat, t0: Option<int>, t1: Option<int>, i: nat)
    requires a < b < c <= |text|
    requires i < |SweepEvents(Validated([Reconstruction.ChunkObject(Some(text[a..b]), Some(a), Some(b), t0),
                                         Reconstruction.ChunkObject(Some(text[b..c]), Some(b), Some(c), t1)], |text|))|
    ensures |Segments(text, SweepEvents(Validated([Reconstruction.ChunkObject(Some(text[a..b]), Some(a), Some(b), t0),
                                                   Reconstruction.ChunkObject(Some(text[b..c]), Some(b), Some(c), t1)], |text|)))[i].active| <= 1
  {
    var c0 := Reconstruction.ChunkObject(Some(text[a..b]), Some(a), Some(b), t0);
    var c1 := Reconstruction.ChunkObject(Some(text[b..c]), Some(b), Some(c), t1);
    var spans := Validated([c0, c1], |text|);
    MeetingChunksDisjoint(c0, c1, |text|);
    SegmentAt(text, SweepEvents(spans), i);
    DisjointSpansNeverOverlap(spans, |text|, i);
  }

  lemma MeetingChunksDisjoint(c0: Reconstruction.ChunkObject, c1: Reconstruction.ChunkObject, textLength: nat)
    requires c0.startIndex.Some? && c0.endIndex.Some? && c1.startIndex.Some? && c1.endIndex.Some?
    requires 0 <= c0.startIndex.value < c0.endIndex.value == c1.startIndex.value < c1.endIndex.value <= textLength
    ensures Disjoint(Validated([c0, c1], textLength))
  {
    ValidatedPair(c0, c1, textLength);
    var s0 := Span(0, c0.startIndex.value, c0.endIndex.value, c0.tokenCount);
    var s1 := Span(1, c1.startIndex.value, c1.endIndex.value, c1.tokenCount);
    assert SpanOf(0, c0, textLength) == [s0];
    assert SpanOf(1, c1, textLength) == [s1];
    assert Validated([c0, c1], textLength) == [s0, s1];
  }

  lemma ValidatedPair(c0: Reconstruction.ChunkObject, c1: Reconstruction.ChunkObject, textLength: nat)
    ensures Validated([c0, c1], textLength) == SpanOf(0, c0, textLength) + SpanOf(1, c1, textLength)
  {
    var chunks := [c0, c1];
    assert chunks[..1][..0] == [] && chunks[..1] == [c0];
    assert Validated([c0], textLength) == [] + SpanOf(0, c0, textLength);
    assert [] + SpanOf(0, c0, textLength) == SpanOf(0, c0, textLength);
  }
}
