/** The response envelope of the inference call, as `json.loads` returns it,
    and the path `output.message.content[0].text` at which the answer is read
    (api/services/llm_service.py, line 75).  Indexing follows Python: a
    missing key raises KeyError, a short list IndexError, and indexing
    something that cannot be indexed that way TypeError. */
module Envelope {
  import opened Wrappers

  /** A decoded JSON value: None, bool, int, str, list or dict. */
  datatype Json =
    | JNull
    | JBool(b: bool)
    | JNumber(n: int)
    | JString(s: string)
    | JArray(items: seq<Json>)
    | JObject(fields: map<string, Json>)

  /** What a subscript was: a dict key or a list position. */
  datatype Subscript = Key(name: string) | Position(index: nat)

  /** The exceptions the path and the later `.strip()` can raise. */
  datatype PyError =
    | KeyError(missing: Subscript)
    | IndexError
    | TypeError
    | AttributeError

  /** Python `j[key]` with a string key. */
  function GetKey(j: Json, key: string): (r: Result<Json, PyError>)
    ensures r.Ok? <==> j.JObject? && key in j.fields
    ensures r.Ok? ==> r.value == j.fields[key]
    ensures j.JObject? && key !in j.fields ==> r == Err(KeyError(Key(key)))
    ensures !j.JObject? ==> r == Err(TypeError)
  {
    match j
    case JObject(m) => if key in m then Ok(m[key]) else Err(KeyError(Key(key)))
    case _ => Err(TypeError)
  }

  /** Python `j[i]` with an integer index: a list or str gives its element
      (a str gives a one-character str), a dict has no integer keys. */
  function GetIndex(j: Json, i: nat): (r: Result<Json, PyError>)
    ensures j.JArray? ==> r == if i < |j.items| then Ok(j.items[i]) else Err(IndexError)
    ensures j.JString? ==> r == if i < |j.s| then Ok(JString([j.s[i]])) else Err(IndexError)
    ensures j.JObject? ==> r == Err(KeyError(Position(i)))
    ensures !(j.JArray? || j.JString? || j.JObject?) ==> r == Err(TypeError)
    ensures r.Ok? ==> j.JArray? || j.JString?
  {
    match j
    case JArray(items) => if i < |items| then Ok(items[i]) else Err(IndexError)
    case JString(s) => if i < |s| then Ok(JString([s[i]])) else Err(IndexError)
    case JObject(_) => Err(KeyError(Position(i)))
    case _ => Err(TypeError)
  }

  /** The envelope has an object at `output.message`, and its `content` is
      a non-empty list whose first element is an object with a `text` key. */
  ghost predicate HasAnswer(env: Json) {
    env.JObject? && "output" in env.fields &&
    var output := env.fields["output"];
    output.JObject? && "message" in output.fields &&
    var message := output.fields["message"];
    message.JObject? && "content" in message.fields &&
    var content := message.fields["content"];
    content.JArray? && |content.items| > 0 &&
    var first := content.items[0];
    first.JObject? && "text" in first.fields
  }

  /** The `text` value of the first element of `output.message.content`. */
  ghost function Answer(env: Json): Json
    requires HasAnswer(env)
  {
    env.fields["output"].fields["message"].fields["content"].items[0].fields["text"]
  }

  /** `model_output["output"]["message"]["content"][0]["text"]`. */
  function AnswerAt(env: Json): (r: Result<Json, PyError>)
    ensures r.Ok? <==> HasAnswer(env)
    ensures r.Ok? ==> r.value == Answer(env)
    // a missing top-level key is a KeyError naming it
    ensures env.JObject? && "output" !in env.fields ==> r == Err(KeyError(Key("output")))
    // an empty content list is an IndexError, never a default
    ensures && env.JObject? && "output" in env.fields
            && env.fields["output"].JObject? && "message" in env.fields["output"].fields
            && env.fields["output"].fields["message"].JObject?
            && "content" in env.fields["output"].fields["message"].fields
            && env.fields["output"].fields["message"].fields["content"] == JArray([])
            ==> r == Err(IndexError)
  {
    var output :- GetKey(env, "output");
    var message :- GetKey(output, "message");
    var content :- GetKey(message, "content");
    var first :- GetIndex(content, 0);
    GetKey(first, "text")
  }

  /** The smallest envelope carrying `answer` at the path. */
  function EnvelopeOf(answer: Json): Json {
    JObject(map["output" := JObject(map["message" := JObject(map["content" :=
      JArray([JObject(map["text" := answer])])])])])
  }

  /** Reading the path back from an envelope built around a value gives
      that value. */
  lemma AnswerAtEnvelopeOf(answer: Json)
    ensures AnswerAt(EnvelopeOf(answer)) == Ok(answer)
  {
  }

  /** Only the first element of `content` matters: appending more does
      not change the answer. */
  lemma LaterContentIgnored(env: Json, extra: seq<Json>)
    requires HasAnswer(env)
    ensures var output := env.fields["output"];
            var message := output.fields["message"];
            var content := message.fields["content"];
            var env' := JObject(env.fields["output" := JObject(output.fields["message" :=
                          JObject(message.fields["content" := JArray(content.items + extra)])])]);
            AnswerAt(env') == AnswerAt(env)
  {
    var output := env.fields["output"];
    var message := output.fields["message"];
    var content := message.fields["content"];
    assert (content.items + extra)[0] == content.items[0];
  }
}
