/**
 * The two helpers of the deployment API (server/utils/deploy_helpers.py):
 * the name of a database's credentials secret, and the framing of one
 * server-sent event as defined in section 9.2 (Server-sent events) of the
 * WHATWG HTML Living Standard.
 */
module DeployHelpers {
  import opened Wrappers

  const SecretPrefix: string := "/rds/"
  const SecretSuffix: string := "/master-credentials"

  /** The instance id a secret name was built from, if it has the secret-name shape. */
  function InstanceOfSecret(name: string): Option<string>
  {
    if |name| >= |SecretPrefix| + |SecretSuffix|
       && name[..|SecretPrefix|] == SecretPrefix
       && name[|name| - |SecretSuffix|..] == SecretSuffix
    then Some(name[|SecretPrefix|..|name| - |SecretSuffix|])
    else None
  }

  /** `secret_name_for_instance`: the id can be read back from the name. */
  function SecretNameForInstance(dbIdentifier: string): (r: string)
    ensures InstanceOfSecret(r) == Some(dbIdentifier)
  {
    var r := SecretPrefix + dbIdentifier + SecretSuffix;
    assert r[..|SecretPrefix|] == SecretPrefix;
    assert r[|r| - |SecretSuffix|..] == SecretSuffix;
    assert r[|SecretPrefix|..|r| - |SecretSuffix|] == dbIdentifier;
    r
  }

  /** Distinct instances never share a secret. */
  lemma SecretNamesDistinct(a: string, b: string)
    requires a != b
    ensures SecretNameForInstance(a) != SecretNameForInstance(b)
  {
  }

  /** A Python truthiness test on an optional string: `None` and `""` are false. */
  predicate Truthy(event: Option<string>)
  {
    event.Some? && event.value != ""
  }

  /**
   * `sse_event`: `payload` is the JSON text of the data. An `event:` line is
   * written only for a truthy event name; the frame always ends with the
   * blank line that dispatches it.
   */
  function SseEvent(payload: string, event: Option<string>): (r: string)
    ensures |r| >= 2 && r[|r| - 2..] == "\n\n"
  {
    if Truthy(event) then "event: " + event.value + "\n" + DataFrame(payload) else DataFrame(payload)
  }

  /** The `data:` line and the blank line after it. */
  function DataFrame(payload: string): string
  {
    "data: " + payload + "\n\n"
  }

  // ---------------------------------------------------------------------------
  // The receiving side: the subset of the event-stream interpretation of
  // section 9.2.6 of the HTML Living Standard that applies to streams whose
  // lines end in LF.
  // ---------------------------------------------------------------------------

  predicate NoLineBreak(s: string)
  {
    forall k :: 0 <= k < |s| ==> s[k] != '\n' && s[k] != '\r'
  }

  /** The first index of `c` in `s`, or `|s|` when there is none. */
  function IndexOf(s: string, c: char): (r: nat)
    ensures r <= |s|
    ensures r < |s| ==> s[r] == c
    ensures forall k :: 0 <= k < r ==> s[k] != c
  {
    if s == [] then 0
    else if s[0] == c then 0
    else 1 + IndexOf(s[1..], c)
  }

  /** The lines of a stream, split at each LF; the part after the last LF is the final element. */
  function SplitLines(s: string): (r: seq<string>)
    ensures |r| >= 1
    decreases |s|
  {
    var i := IndexOf(s, '\n');
    if i == |s| then [s] else [s[..i]] + SplitLines(s[i + 1..])
  }

  /** A field line: the name before the first colon, the value after it without one leading space. */
  function SplitField(line: string): (string, string)
  {
    var i := IndexOf(line, ':');
    if i == |line| then (line, "")
    else
      var v := line[i + 1..];
      (line[..i], if |v| > 0 && v[0] == ' ' then v[1..] else v)
  }

  datatype Dispatched = Dispatched(eventType: string, data: string)

  /**
   * The buffers after one non-blank line: `event` sets the type, `data`
   * appends its value and an LF to the data buffer, and a comment (a line
   * starting with a colon) or any other field changes nothing.
   */
  function ProcessLine(line: string, eventType: string, data: string): (string, string)
  {
    if |line| > 0 && line[0] == ':' then (eventType, data)
    else
      var field := SplitField(line);
      if field.0 == "event" then (field.1, data)
      else if field.0 == "data" then (eventType, data + field.1 + "\n")
      else (eventType, data)
  }

  /**
   * Reads lines until the first event is dispatched. A blank line dispatches
   * (with the type "message" when none was given, and without the buffer's
   * last LF) unless the data buffer is empty, in which case both buffers are
   * reset.
   */
  function FirstEvent(lines: seq<string>, eventType: string, data: string): Option<Dispatched>
    decreases |lines|
  {
    if lines == [] then None
    else if lines[0] == "" then
      if data == "" then FirstEvent(lines[1..], "", "")
      else Some(Dispatched(if eventType == "" then "message" else eventType, data[..|data| - 1]))
    else
      var next := ProcessLine(lines[0], eventType, data);
      FirstEvent(lines[1..], next.0, next.1)
  }

  lemma SplitLinesCons(a: string, b: string)
    requires NoLineBreak(a)
    ensures SplitLines(a + "\n" + b) == [a] + SplitLines(b)
  {
    var s := a + "\n" + b;
    var i := IndexOf(s, '\n');
    assert s[|a|] == '\n';
    assert i == |a|;
    assert s[..i] == a;
    assert s[i + 1..] == b;
  }

  /** A field line `name: value` with a colon-free name splits back into its two parts. */
  lemma SplitFieldOf(name: string, value: string)
    requires forall k :: 0 <= k < |name| ==> name[k] != ':'
    ensures SplitField(name + ": " + value) == (name, value)
  {
    var line := name + ": " + value;
    assert line[|name|] == ':';
    assert IndexOf(line, ':') == |name|;
    assert line[..|name|] == name;
    assert line[|name| + 1..] == " " + value;
  }

  /** The lines of a data-only frame. */
  lemma DataFrameLines(payload: string)
    requires NoLineBreak(payload)
    ensures SplitLines(DataFrame(payload)) == ["data: " + payload, "", ""]
  {
    var dataLine := "data: " + payload;
    assert NoLineBreak(dataLine);
    SplitLinesCons("", "");
    SplitLinesCons(dataLine, "\n");
    assert dataLine + "\n" + "\n" == "data: " + payload + "\n\n";
  }

  /** A `data` line appends its value and an LF to the buffer. */
  lemma DataLineStep(value: string, rest: seq<string>, eventType: string, data: string)
    ensures FirstEvent(["data: " + value] + rest, eventType, data) == FirstEvent(rest, eventType, data + value + "\n")
  {
    var line := "data: " + value;
    assert line == "data" + ": " + value;
    SplitFieldOf("data", value);
    assert line[0] == 'd';
    assert ProcessLine(line, eventType, data) == (eventType, data + value + "\n");
    assert (["data: " + value] + rest)[0] == line;
    assert (["data: " + value] + rest)[1..] == rest;
  }

  /** An `event` line sets the type. */
  lemma EventLineStep(value: string, rest: seq<string>, eventType: string, data: string)
    ensures FirstEvent(["event: " + value] + rest, eventType, data) == FirstEvent(rest, value, data)
  {
    var line := "event: " + value;
    assert line == "event" + ": " + value;
    SplitFieldOf("event", value);
    assert line[0] == 'e';
    assert ProcessLine(line, eventType, data) == (value, data);
    assert (["event: " + value] + rest)[0] == line;
    assert (["event: " + value] + rest)[1..] == rest;
  }

  /** Reading a data-only frame with the event type `eventType` already set. */
  lemma DataFrameParse(payload: string, eventType: string)
    requires NoLineBreak(payload)
    ensures FirstEvent(SplitLines(DataFrame(payload)), eventType, "")
         == Some(Dispatched(if eventType == "" then "message" else eventType, payload))
  {
    DataFrameLines(payload);
    assert ["data: " + payload, "", ""] == ["data: " + payload] + ["", ""];
    DataLineStep(payload, ["", ""], eventType, "");
    var buffer := "" + payload + "\n";
    assert buffer[..|buffer| - 1] == payload;
  }

  /**
   * The frame round-trips: a receiver reads back the event name (or the
   * default "message" when none was written) and exactly the payload, as
   * long as neither contains a line break.
   */
  lemma SseRoundTrip(payload: string, event: Option<string>)
    requires NoLineBreak(payload)
    requires event.Some? ==> NoLineBreak(event.value)
    ensures FirstEvent(SplitLines(SseEvent(payload, event)), "", "")
         == Some(Dispatched(if Truthy(event) then event.value else "message", payload))
  {
    var dataFrame := DataFrame(payload);
    if Truthy(event) {
      var eventLine := "event: " + event.value;
      assert NoLineBreak(eventLine);
      SplitLinesCons(eventLine, dataFrame);
      EventLineStep(event.value, SplitLines(dataFrame), "", "");
      DataFrameParse(payload, event.value);
    } else {
      DataFrameParse(payload, "");
    }
  }

  /**
   * For a payload and an event name without line breaks the frame is one
   * optional `event:` line, exactly one `data:` line and the blank line.
   */
  lemma SseFrameLines(payload: string, event: Option<string>)
    requires NoLineBreak(payload)
    requires event.Some? ==> NoLineBreak(event.value)
    ensures SplitLines(SseEvent(payload, event))
         == (if Truthy(event) then ["event: " + event.value] else []) + ["data: " + payload, "", ""]
  {
    DataFrameLines(payload);
    if Truthy(event) {
      var eventLine := "event: " + event.value;
      assert NoLineBreak(eventLine);
      SplitLinesCons(eventLine, DataFrame(payload));
    }
  }

  /** The frame written for `None` and for the empty event name is the same. */
  lemma EmptyEventNameOmitted(payload: string)
    ensures SseEvent(payload, Some("")) == SseEvent(payload, None)
  {
  }
}
