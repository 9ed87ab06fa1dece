/**
 * `createRequestBody` and `isValidRequestBody` of the client
 * (client/src/utils/createRequestBody.ts): the chunker picked in the form
 * decides the provider and the chunker type of the request; everything else
 * is copied from the form.
 */
module RequestBody {
  import opened Wrappers

  /** The chunkers offered in the form (client/src/types/types.ts). */
  datatype ChunkerSelection =
    | ChonkieToken
    | ChonkieRecursive
    | ChonkieSentence
    | ChonkieSemantic
    | ChonkieSlumber
    | LangChainToken
    | LangChainRecursive
    | LangChainCharacter

  /** A property value of the body object: `undefined`, a string or a number. */
  datatype JsValue = Undefined | Str(s: string) | Num(n: real)

  /** The body object; a key that is present may still hold `undefined`. */
  type Body = map<string, JsValue>

  const UnhandledChunkerMessage: string := "Unhandled chunker selected"
  const InvalidBodyMessage: string := "Invalid request body created"

  /** The provider and chunker type of each selection the switch handles. */
  function ProviderAndType(chunker: ChunkerSelection): Option<(string, string)>
  {
    match chunker
    case ChonkieToken => Some(("chonkie", "token"))
    case ChonkieRecursive => Some(("chonkie", "recursive"))
    case LangChainToken => Some(("langchain", "token"))
    case LangChainRecursive => Some(("langchain", "recursive"))
    case _ => None
  }

  /** `key in body && typeof body[key] === "string"`. */
  predicate HasString(body: Body, key: string)
  {
    key in body && body[key].Str?
  }

  /** `key in body && typeof body[key] === "number"`. */
  predicate HasNumber(body: Body, key: string)
  {
    key in body && body[key].Num?
  }

  /** `isValidRequestBody`: the five required properties are present with their types. */
  predicate IsValidRequestBody(body: Body)
  {
    HasString(body, "chunker_type") && HasString(body, "provider")
    && HasNumber(body, "chunk_size") && HasNumber(body, "chunk_overlap")
    && HasString(body, "text")
  }

  function OptionalNumber(v: Option<real>): JsValue
  {
    if v.Some? then Num(v.value) else Undefined
  }

  function OptionalString(v: Option<string>): JsValue
  {
    if v.Some? then Str(v.value) else Undefined
  }

  /** `createRequestBody`: the body is built, then completed in place by the switch, then checked. */
  method CreateRequestBody(chunker: ChunkerSelection, size: real, overlap: real, text: string,
                           minCharactersPerChunk: Option<real>, tokenizer: Option<string>)
    returns (r: Result<Body, string>)
    ensures r.Ok? <==> ProviderAndType(chunker).Some?
    ensures r.Err? ==> r.error == UnhandledChunkerMessage
    ensures r.Ok? ==>
      && IsValidRequestBody(r.value)
      && r.value.Keys == {"chunk_size", "chunk_overlap", "text", "min_characters_per_chunk", "tokenizer",
                          "provider", "chunker_type"}
      && r.value["provider"] == Str(ProviderAndType(chunker).value.0)
      && r.value["chunker_type"] == Str(ProviderAndType(chunker).value.1)
      && r.value["chunk_size"] == Num(size)
      && r.value["chunk_overlap"] == Num(overlap)
      && r.value["text"] == Str(text)
      && r.value["min_characters_per_chunk"] == OptionalNumber(minCharactersPerChunk)
      && r.value["tokenizer"] == OptionalString(tokenizer)
  {
    var body: Body := map[
      "chunk_size" := Num(size),
      "chunk_overlap" := Num(overlap),
      "text" := Str(text),
      "min_characters_per_chunk" := OptionalNumber(minCharactersPerChunk),
      "tokenizer" := OptionalString(tokenizer)
    ];
    match chunker {
      case ChonkieToken =>
        body := body["provider" := Str("chonkie")];
        body := body["chunker_type" := Str("token")];
      case ChonkieRecursive =>
        body := body["provider" := Str("chonkie")];
        body := body["chunker_type" := Str("recursive")];
      case LangChainToken =>
        body := body["provider" := Str("langchain")];
        body := body["chunker_type" := Str("token")];
      case LangChainRecursive =>
        body := body["provider" := Str("langchain")];
        body := body["chunker_type" := Str("recursive")];
      case _ =>
        return Err(UnhandledChunkerMessage);
    }
    if IsValidRequestBody(body) {
      r := Ok(body);
    } else {
      r := Err(InvalidBodyMessage);
    }
  }

  /** Exactly four of the eight selections are handled, and they give four different requests. */
  lemma HandledSelections(a: ChunkerSelection, b: ChunkerSelection)
    ensures ProviderAndType(a).Some? <==> a in {ChonkieToken, ChonkieRecursive, LangChainToken, LangChainRecursive}
    ensures ProviderAndType(a).Some? && ProviderAndType(b).Some? && a != b ==>
      ProviderAndType(a).value != ProviderAndType(b).value
  {
  }

  /** The check looks only at the five required properties: any other property, present or not, is irrelevant. */
  lemma ValidityIgnoresOptionalFields(body: Body, key: string, v: JsValue)
    requires key !in {"chunker_type", "provider", "chunk_size", "chunk_overlap", "text"}
    ensures IsValidRequestBody(body[key := v]) <==> IsValidRequestBody(body)
  {
  }

  /** A body missing any required property, or holding it with the wrong type, is rejected. */
  lemma MissingFieldInvalid(body: Body, key: string)
    requires key in {"chunker_type", "provider", "chunk_size", "chunk_overlap", "text"}
    ensures !IsValidRequestBody(body - {key})
    ensures !IsValidRequestBody(body[key := Undefined])
  {
  }
}
