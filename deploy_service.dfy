/**
 * The local mock of `connectToS3` (client/src/services/deploy.ts): it makes
 * up a database endpoint from the workflow id, the bucket name and the
 * chunking strategy, with a host name that only holds lower-case letters,
 * digits, dots and dashes.
 */
module DeployService {
  import opened Wrappers
  import opened TextUtil

  datatype S3Credentials = S3Credentials(accessKey: string, secretKey: string, bucketName: string)

  /** The two properties of the chunking strategy the mock reads; `None` is an absent property. */
  datatype ChunkingStrategy = ChunkingStrategy(provider: Option<string>, chunkerType: Option<string>)

  datatype DeployResponse = DeployResponse(bucketName: string, rdsEndpoint: string)

  /** `value || fallback` for an optional string: `undefined` and `""` fall back. */
  function OrDefault(value: Option<string>, fallback: string): (r: string)
    ensures value.Some? && value.value != "" ==> r == value.value
    ensures value.None? || value.value == "" ==> r == fallback
  {
    if value.Some? && value.value != "" then value.value else fallback
  }

  /** The characters the host keeps: `[a-z0-9.-]`. */
  predicate IsHostChar(c: char)
  {
    'a' <= c <= 'z' || '0' <= c <= '9' || c == '.' || c == '-'
  }

  predicate IsHostString(s: string)
  {
    forall k :: 0 <= k < |s| ==> IsHostChar(s[k])
  }

  /** `s.replace(/\s+/g, "-")`: every maximal run of whitespace becomes one dash. */
  function DashWhitespace(s: string): (r: string)
    ensures forall k :: 0 <= k < |r| ==> !IsJsSpace(r[k])
    ensures |r| <= |s|
    decreases |s|
  {
    if s == [] then []
    else if IsJsSpace(s[0]) then
      var n := SpaceRun(s);
      "-" + DashWhitespace(s[n..])
    else [s[0]] + DashWhitespace(s[1..])
  }

  /**
   * `.toLowerCase().replace(/[^a-z0-9.-]/g, "-")`, one character at a time:
   * a character the class does not hold becomes a dash per UTF-16 code unit,
   * so one outside the Basic Multilingual Plane becomes two.
   */
  function SanitizeHost(s: string): (r: string)
    ensures IsHostString(r)
  {
    if s == [] then []
    else
      var c := AsciiLower(s[0]);
      var part := if IsHostChar(c) then [c] else if s[0] as int > 0xFFFF then "--" else "-";
      part + SanitizeHost(s[1..])
  }

  function EndpointHost(bucketName: string, strategy: ChunkingStrategy): (host: string)
    ensures IsHostString(host)
  {
    var provider := OrDefault(strategy.provider, "chunkwise");
    var chunker := OrDefault(strategy.chunkerType, "strategy");
    SanitizeHost(DashWhitespace(bucketName) + "." + chunker + "." + provider)
  }

  function ConnectToS3(workflowId: string, credentials: S3Credentials, strategy: ChunkingStrategy): (r: DeployResponse)
    ensures r.bucketName == credentials.bucketName
    ensures StartsWith(r.rdsEndpoint, "postgres://" + workflowId + ".")
    ensures EndsWith(r.rdsEndpoint, ".rds.local")
    ensures |r.rdsEndpoint| >= |"postgres://" + workflowId + "."| + |".rds.local"|
    ensures var host := r.rdsEndpoint[|"postgres://" + workflowId + "."|..|r.rdsEndpoint| - |".rds.local"|];
      IsHostString(host) && host == EndpointHost(credentials.bucketName, strategy)
  {
    var prefix := "postgres://" + workflowId + ".";
    var host := EndpointHost(credentials.bucketName, strategy);
    var endpoint := prefix + host + ".rds.local";
    assert endpoint[..|prefix|] == prefix;
    assert endpoint[|endpoint| - |".rds.local"|..] == ".rds.local";
    assert endpoint[|prefix|..|endpoint| - |".rds.local"|] == host;
    DeployResponse(credentials.bucketName, endpoint)
  }

  /** A string already made of host characters passes through the sanitiser unchanged. */
  lemma {:induction false} SanitizeHostFixedPoint(s: string)
    requires IsHostString(s)
    ensures SanitizeHost(s) == s
  {
    if s != [] {
      assert IsHostChar(s[0]);
      assert AsciiLower(s[0]) == s[0];
      assert IsHostString(s[1..]) by {
        assert forall k :: 0 <= k < |s| - 1 ==> s[1..][k] == s[k + 1];
      }
      SanitizeHostFixedPoint(s[1..]);
      assert s == [s[0]] + s[1..];
    }
  }

  /** Sanitising twice is sanitising once. */
  lemma SanitizeHostIdempotent(s: string)
    ensures SanitizeHost(SanitizeHost(s)) == SanitizeHost(s)
  {
    SanitizeHostFixedPoint(SanitizeHost(s));
  }

  /** A string without whitespace keeps its form under the dash replacement. */
  lemma {:induction false} DashWhitespaceFixedPoint(s: string)
    requires forall k :: 0 <= k < |s| ==> !IsJsSpace(s[k])
    ensures DashWhitespace(s) == s
  {
    if s != [] {
      DashWhitespaceFixedPoint(s[1..]);
      assert s == [s[0]] + s[1..];
    }
  }

  /** Missing or empty strategy properties fall back to "strategy" and "chunkwise". */
  lemma DefaultsApply(bucketName: string)
    ensures EndpointHost(bucketName, ChunkingStrategy(None, None))
         == EndpointHost(bucketName, ChunkingStrategy(Some("chunkwise"), Some("strategy")))
    ensures EndpointHost(bucketName, ChunkingStrategy(Some(""), Some("")))
         == EndpointHost(bucketName, ChunkingStrategy(None, None))
  {
  }

  /**
   * When the three parts are already host strings without whitespace, the
   * host is just the bucket, the chunker type and the provider joined by dots.
   */
  lemma PlainPartsJoined(bucketName: string, chunker: string, provider: string)
    requires IsHostString(bucketName) && IsHostString(chunker) && IsHostString(provider)
    requires chunker != "" && provider != ""
    ensures EndpointHost(bucketName, ChunkingStrategy(Some(provider), Some(chunker)))
         == bucketName + "." + chunker + "." + provider
  {
    assert forall k :: 0 <= k < |bucketName| ==> !IsJsSpace(bucketName[k]) by {
      forall k | 0 <= k < |bucketName|
        ensures !IsJsSpace(bucketName[k])
      {
        assert IsHostChar(bucketName[k]);
      }
    }
    DashWhitespaceFixedPoint(bucketName);
    var joined := bucketName + "." + chunker + "." + provider;
    assert IsHostString(joined) by {
      forall k | 0 <= k < |joined|
        ensures IsHostChar(joined[k])
      {
        if k < |bucketName| {
          assert joined[k] == bucketName[k];
        } else if k == |bucketName| {
          assert joined[k] == '.';
        } else if k < |bucketName| + 1 + |chunker| {
          assert joined[k] == chunker[k - |bucketName| - 1];
        } else if k == |bucketName| + 1 + |chunker| {
          assert joined[k] == '.';
        } else {
          assert joined[k] == provider[k - |bucketName| - 2 - |chunker|];
        }
      }
    }
    SanitizeHostFixedPoint(joined);
  }

  /** The leading run of `w + t` is exactly `w` when `w` is all whitespace and `t` does not start with any. */
  lemma {:induction false} SpaceRunOf(w: string, t: string)
    requires forall k :: 0 <= k < |w| ==> IsJsSpace(w[k])
    requires t == [] || !IsJsSpace(t[0])
    ensures SpaceRun(w + t) == |w|
  {
    if w == [] {
      assert w + t == t;
    } else {
      assert (w + t)[0] == w[0];
      assert (w + t)[1..] == w[1..] + t;
      SpaceRunOf(w[1..], t);
    }
  }

  /** A maximal run of whitespace in the bucket name becomes one dash. */
  lemma SpacesBecomeOneDash(w: string, t: string)
    requires w != [] && forall k :: 0 <= k < |w| ==> IsJsSpace(w[k])
    requires t == [] || !IsJsSpace(t[0])
    ensures DashWhitespace(w + t) == "-" + DashWhitespace(t)
  {
    SpaceRunOf(w, t);
    assert (w + t)[0] == w[0];
    assert (w + t)[|w|..] == t;
  }
}
