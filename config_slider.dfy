/**
 * The bounds of one configuration slider (client/src/components/ConfigSlider.tsx):
 * the overlap and the minimum characters per chunk are kept below the chunk
 * size, the value shown is clamped into the slider's range, and a moved
 * slider emits a value that respects the same bounds.
 */
module ConfigSlider {
  import opened Wrappers

  /** A numeric option of a chunker: its range and its default. */
  datatype ConfigOption = ConfigOption(min: real, max: real, default: real)

  function Min(a: real, b: real): real { if a <= b then a else b }

  function Max(a: real, b: real): real { if a >= b then a else b }

  /** Only these two options depend on the chunk size. */
  predicate NeedsChunkSizeBound(optionKey: string)
  {
    optionKey == "chunk_overlap" || optionKey == "min_characters_per_chunk"
  }

  /**
   * `currentChunkSize`: the workflow's own chunk size when it has one,
   * otherwise the default of the chunker's `chunk_size` option when that
   * option exists.
   */
  function CurrentChunkSize(workflowChunkSize: Option<real>, chunkSizeOption: Option<ConfigOption>): (r: Option<real>)
    ensures workflowChunkSize.Some? ==> r == workflowChunkSize
    ensures workflowChunkSize.None? && chunkSizeOption.Some? ==> r == Some(chunkSizeOption.value.default)
    ensures r.None? <==> workflowChunkSize.None? && chunkSizeOption.None?
  {
    if workflowChunkSize.Some? then workflowChunkSize
    else if chunkSizeOption.Some? then Some(chunkSizeOption.value.default)
    else None
  }

  /** The largest value a bounded option may take for chunk size `s`. */
  function Limit(s: real): real
  {
    Max(0.0, s - 1.0)
  }

  datatype Bounds = Bounds(effectiveMin: real, effectiveMax: real)

  /** `effectiveMin` and `effectiveMax`. */
  function EffectiveBounds(optionKey: string, option: ConfigOption, chunkSize: Option<real>): (b: Bounds)
    ensures !(NeedsChunkSizeBound(optionKey) && chunkSize.Some?) ==> b == Bounds(option.min, option.max)
    ensures NeedsChunkSizeBound(optionKey) && chunkSize.Some? ==>
      && b.effectiveMax <= option.max && b.effectiveMax <= Limit(chunkSize.value)
      && (b.effectiveMax == option.max || b.effectiveMax == Limit(chunkSize.value))
      && b.effectiveMin <= b.effectiveMax && b.effectiveMin <= option.min
      && (b.effectiveMin == option.min || b.effectiveMin == b.effectiveMax)
  {
    if NeedsChunkSizeBound(optionKey) && chunkSize.Some? then
      var effectiveMax := Min(option.max, Limit(chunkSize.value));
      Bounds(Min(option.min, effectiveMax), effectiveMax)
    else Bounds(option.min, option.max)
  }

  /** `clampedValue`: the workflow's value, else the default, pushed into the range. */
  function ClampedValue(workflowValue: Option<real>, option: ConfigOption, b: Bounds): (v: real)
    ensures b.effectiveMin <= b.effectiveMax ==> b.effectiveMin <= v <= b.effectiveMax
    ensures var raw := if workflowValue.Some? then workflowValue.value else option.default;
      b.effectiveMin <= raw <= b.effectiveMax ==> v == raw
  {
    var rawValue := if workflowValue.Some? then workflowValue.value else option.default;
    Min(Max(rawValue, b.effectiveMin), b.effectiveMax)
  }

  /** `handleChange`: the value passed to `onConfigChange` for a slider moved to `raw`. */
  function HandleChange(raw: real, optionKey: string, option: ConfigOption, chunkSize: Option<real>): (v: real)
    ensures v >= EffectiveBounds(optionKey, option, chunkSize).effectiveMin
    ensures NeedsChunkSizeBound(optionKey) && chunkSize.Some? ==> v <= Limit(chunkSize.value)
  {
    var b := EffectiveBounds(optionKey, option, chunkSize);
    var nextValue := if NeedsChunkSizeBound(optionKey) && chunkSize.Some? then Min(raw, Limit(chunkSize.value)) else raw;
    Max(nextValue, b.effectiveMin)
  }

  /** A bounded option stays strictly below a chunk size of at least one, wherever the slider is moved. */
  lemma BoundedBelowChunkSize(optionKey: string, option: ConfigOption, s: real, raw: real)
    requires NeedsChunkSizeBound(optionKey) && s >= 1.0
    ensures EffectiveBounds(optionKey, option, Some(s)).effectiveMax < s
    ensures HandleChange(raw, optionKey, option, Some(s)) < s
  {
  }

  /** Options other than the two bounded ones keep their own range whatever the chunk size. */
  lemma UnboundedOptionsIgnoreChunkSize(optionKey: string, option: ConfigOption, a: Option<real>, c: Option<real>)
    requires !NeedsChunkSizeBound(optionKey)
    ensures EffectiveBounds(optionKey, option, a) == EffectiveBounds(optionKey, option, c)
  {
  }

  /** Inside the range a moved slider emits exactly its position. */
  lemma HandleChangeInRange(raw: real, optionKey: string, option: ConfigOption, chunkSize: Option<real>)
    requires var b := EffectiveBounds(optionKey, option, chunkSize); b.effectiveMin <= raw <= b.effectiveMax
    ensures HandleChange(raw, optionKey, option, chunkSize) == raw
  {
  }
}
