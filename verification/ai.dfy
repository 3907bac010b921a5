/** The pure parts of the AI-suggestion client (src/ai.rs): pulling the first JSON
    object out of a model's reply, the "string or array of strings" field rule,
    provider dispatch, and the ordered fallback over configured providers. The
    HTTP call itself is the uninterpreted `Transport` parameter. */
module Ai {
  import opened Wrappers
  import opened Text
  import opened Json

  // ---------------------------------------------------------------------------
  // extract_json_object

  /** The scanner's loop state: brace depth, inside a string literal, and
      whether the previous character was a backslash inside a string. */
  datatype ScanState = ScanState(depth: int, inString: bool, escapeNext: bool)

  const Start: ScanState := ScanState(0, false, false)

  /** One pass of the character loop, without the early return. */
  function Step(st: ScanState, ch: char): (r: ScanState)
    ensures -1 <= r.depth - st.depth <= 1
    // braces count only outside string literals and never right after an escape
    ensures r.depth == st.depth + 1 <==> !st.escapeNext && !st.inString && ch == '{'
    ensures r.depth == st.depth - 1 <==> !st.escapeNext && !st.inString && ch == '}'
    // an escaped character never changes the string state
    ensures st.escapeNext ==> r == st.(escapeNext := false)
    ensures r.escapeNext <==> !st.escapeNext && st.inString && ch == '\\'
    // an unescaped quote, and nothing else, opens or closes a string literal
    ensures !st.escapeNext ==> (r.inString <==> (if ch == '"' then !st.inString else st.inString))
  {
    if st.escapeNext then st.(escapeNext := false)
    else if ch == '\\' && st.inString then st.(escapeNext := true)
    else if ch == '"' then st.(inString := !st.inString)
    else if ch == '{' && !st.inString then st.(depth := st.depth + 1)
    else if ch == '}' && !st.inString then st.(depth := st.depth - 1)
    else st
  }

  /** The state after the loop has consumed all of `s` (a reference fold). */
  function Run(s: string): ScanState
    decreases |s|
  {
    if s == [] then Start else Step(Run(s[..|s| - 1]), s[|s| - 1])
  }

  /** Inside a string, a backslash makes the next character, whatever it is, inert. */
  lemma EscapeShieldsNextChar(st: ScanState, c: char)
    requires st.inString && !st.escapeNext
    ensures Step(Step(st, '\\'), c) == st
  {
  }

  /** The early return of the loop: a `}` outside a string that brings the depth to 0. */
  predicate Closes(st: ScanState, ch: char) {
    !st.escapeNext && !st.inString && ch == '}' && st.depth - 1 == 0
  }

  /** The character loop from index `i` in state `st`: the length of the prefix of `s`
      that ends with the closing brace, or `None` when the text runs out first. */
  function ScanFrom(s: string, i: nat, st: ScanState): (r: Option<nat>)
    requires i <= |s|
    ensures r.Some? ==> i < r.value <= |s| && s[r.value - 1] == '}'
    decreases |s| - i
  {
    if i == |s| then None
    else if Closes(st, s[i]) then Some(i + 1)
    else ScanFrom(s, i + 1, Step(st, s[i]))
  }

  /** The reply with the markdown code-fence markers removed and the ends trimmed. */
  function Cleaned(text: string): string {
    Trim(ReplaceAll(ReplaceAll(text, "```json", ""), "```", ""))
  }

  /** `str::find` for one character: the first index holding `c`. */
  function FindChar(s: string, c: char): (r: Option<nat>)
    ensures r.None? <==> c !in s
    ensures r.Some? ==> r.value < |s| && s[r.value] == c && c !in s[..r.value]
  {
    if s == [] then None
    else if s[0] == c then Some(0)
    else match FindChar(s[1..], c)
      case None => None
      case Some(k) =>
        assert s[..k + 1] == [s[0]] + s[1..][..k];
        Some(k + 1)
  }

  /** `obj` is a slice of `c` that starts at the first `{` of `c` and ends with `}`. */
  predicate ObjectSlice(c: string, obj: string) {
    '{' in c &&
    var start := FindChar(c, '{').value;
    && 1 <= |obj| && start + |obj| <= |c|
    && obj == c[start..start + |obj|]
    && obj[0] == '{'
    && obj[|obj| - 1] == '}'
  }

  /** The scan of an already cleaned text. */
  function ExtractFrom(c: string): (r: Option<string>)
    ensures '{' !in c ==> r.None?
    ensures r.Some? ==> ObjectSlice(c, r.value)
  {
    match FindChar(c, '{')
    case None => None
    case Some(start) =>
      match ScanFrom(c[start..], 0, Start)
      case None => None
      case Some(n) => Some(c[start..start + n])
  }

  /** `extract_json_object`: from the first `{` of the cleaned text up to the `}` that
      brings the brace depth back to zero. */
  function ExtractJsonObject(text: string): (r: Option<string>)
    ensures '{' !in Cleaned(text) ==> r.None?
    ensures r.Some? ==> ObjectSlice(Cleaned(text), r.value)
  {
    ExtractFrom(Cleaned(text))
  }

  /** The fold after one more character. */
  lemma RunSnoc(s: string, n: nat)
    requires n < |s|
    ensures Run(s[..n + 1]) == Step(Run(s[..n]), s[n])
  {
    assert s[..n + 1][..n] == s[..n];
  }

  /** From a prefix of depth at least one, the scan returns exactly at the first prefix
      whose depth is zero, and returns nothing when the depth stays positive. */
  lemma {:induction false} ScanFindsFirstZero(s: string, i: nat)
    requires 1 <= i <= |s|
    requires forall m :: 1 <= m <= i ==> Run(s[..m]).depth >= 1
    ensures ScanFrom(s, i, Run(s[..i])).Some? ==>
      var n := ScanFrom(s, i, Run(s[..i])).value;
      Run(s[..n]).depth == 0 && forall m :: 1 <= m < n ==> Run(s[..m]).depth >= 1
    ensures ScanFrom(s, i, Run(s[..i])).None? ==>
      forall m :: 1 <= m <= |s| ==> Run(s[..m]).depth >= 1
    decreases |s| - i
  {
    if i < |s| {
      var st := Run(s[..i]);
      RunSnoc(s, i);
      if !Closes(st, s[i]) {
        assert Run(s[..i + 1]).depth >= 1;
        ScanFindsFirstZero(s, i + 1);
      }
    }
  }

  /** What the scan returns for a text `c` holding a `{`, stated with the reference fold:
      an object is the shortest prefix of `c` from its first `{` whose brace depth, counted
      outside strings, is back to zero, every shorter prefix having depth at least one;
      `None` means the depth never returns to zero. */
  predicate FirstBalancedPrefix(c: string, r: Option<string>)
    requires '{' in c
  {
    var s := c[FindChar(c, '{').value..];
    && (r.Some? ==>
          var n := |r.value|;
          n <= |s| && r.value == s[..n]
          && Run(s[..n]).depth == 0
          && forall m :: 1 <= m < n ==> Run(s[..m]).depth >= 1)
    && (r.None? ==>
          forall m :: 1 <= m <= |s| ==> Run(s[..m]).depth >= 1)
  }

  /** `extract_json_object` returns the first balanced prefix from the first `{` of the cleaned reply. */
  lemma ExtractJsonObjectIsFirstBalancedPrefix(text: string)
    requires '{' in Cleaned(text)
    ensures FirstBalancedPrefix(Cleaned(text), ExtractJsonObject(text))
  {
    ExtractFromIsFirstBalancedPrefix(Cleaned(text));
  }

  lemma ExtractFromIsFirstBalancedPrefix(c: string)
    requires '{' in c
    ensures FirstBalancedPrefix(c, ExtractFrom(c))
  {
    var start := FindChar(c, '{').value;
    var s := c[start..];
    ScanFromBraceFindsFirstZero(s);
    var r := ExtractFrom(c);
    if r.Some? {
      var n := ScanFrom(s, 0, Start).value;
      assert r.value == c[start..start + n];
      assert c[start..start + n] == s[..n];
    }
  }

  /** The scan started on a `{` stops at the first prefix whose depth is back to zero. */
  lemma ScanFromBraceFindsFirstZero(s: string)
    requires s != [] && s[0] == '{'
    ensures ScanFrom(s, 0, Start).Some? ==>
      var n := ScanFrom(s, 0, Start).value;
      Run(s[..n]).depth == 0 && forall m :: 1 <= m < n ==> Run(s[..m]).depth >= 1
    ensures ScanFrom(s, 0, Start).None? ==>
      forall m :: 1 <= m <= |s| ==> Run(s[..m]).depth >= 1
  {
    RunSnoc(s, 0);
    assert s[..0] == [];
    assert Run(s[..1]) == ScanState(1, false, false);
    assert ScanFrom(s, 0, Start) == ScanFrom(s, 1, Run(s[..1]));
    ScanFindsFirstZero(s, 1);
  }

  // ---------------------------------------------------------------------------
  // deserialize_string_or_array

  /** Why a field could not be read: not a string (or an array starting with one), an
      empty array, or an array with elements left after the first, which `serde_json`
      rejects once the visitor returns. */
  datatype DecodeError = InvalidType | EmptyArray | TrailingElements

  /** A rule proposed by the model; every field is read through `StringOrArray`. */
  datatype SuggestedRule = SuggestedRule(from: string, to: string, reason: string)

  /** The `StringOrArray` visitor under `serde_json`'s `deserialize_any`: a string is taken
      as is; of an array the visitor takes the first element, which must be a string, and
      the array must end right after it. */
  function StringOrArray(v: JsonValue): (r: Result<string, DecodeError>)
    ensures v.JStr? ==> r == Ok(v.s)
    ensures v.JArr? && v.items == [] ==> r == Err(EmptyArray)
    ensures v.JArr? && v.items != [] && !v.items[0].JStr? ==> r == Err(InvalidType)
    ensures v.JArr? && |v.items| >= 2 && v.items[0].JStr? ==> r == Err(TrailingElements)
    ensures r.Ok? <==> v.JStr? || (v.JArr? && |v.items| == 1 && v.items[0].JStr?)
    ensures r.Ok? && v.JArr? ==> r.value == v.items[0].s
  {
    match v
    case JStr(s) => Ok(s)
    case JArr(items) =>
      if items == [] then Err(EmptyArray)
      else if !items[0].JStr? then Err(InvalidType)
      else if |items| > 1 then Err(TrailingElements)
      else Ok(items[0].s)
    case _ => Err(InvalidType)
  }

  /** A string and the one-element array holding it decode to the same field value. */
  lemma StringOrArraySingleton(s: string)
    ensures StringOrArray(JArr([JStr(s)])) == StringOrArray(JStr(s)) == Ok(s)
  {
  }

  /** An array with anything after its first string is rejected, whatever follows. */
  lemma StringOrArrayRejectsMore(s: string, rest: seq<JsonValue>)
    requires rest != []
    ensures StringOrArray(JArr([JStr(s)] + rest)) == Err(TrailingElements)
  {
  }

  // ---------------------------------------------------------------------------
  // consultar_ia and consultar_ia_con_fallback

  datatype AIProvider = Claude | Gemini | OpenAI | Groq | Ollama | Kimi | DeepSeek

  /** The three HTTP back ends of the client. */
  datatype Backend = ClaudeMessages | GeminiGenerateContent | OpenAICompatibleChat

  datatype AIConfig = AIConfig(name: string, apiUrl: string, apiKey: string, model: string, provider: AIProvider)

  /** The network call: a back end, a prompt and a configuration to a reply or an error message. */
  type Transport = (Backend, string, AIConfig) -> Result<string, string>

  /** Dispatch of `consultar_ia`. */
  function BackendFor(p: AIProvider): (b: Backend)
    ensures b == ClaudeMessages <==> p == Claude
    ensures b == GeminiGenerateContent <==> p == Gemini
    ensures b == OpenAICompatibleChat <==> p in {OpenAI, Groq, Ollama, Kimi, DeepSeek}
  {
    match p
    case Claude => ClaudeMessages
    case Gemini => GeminiGenerateContent
    case OpenAI | Groq | Ollama | Kimi => OpenAICompatibleChat
    case DeepSeek => OpenAICompatibleChat
  }

  /** `consultar_ia`: one call to the back end of the configuration's provider. */
  function Query(prompt: string, config: AIConfig, call: Transport): Result<string, string> {
    call(BackendFor(config.provider), prompt, config)
  }

  datatype FallbackError = NoConfigs | AllFailed(lastError: string)

  /** The initial `last_error`, reported only if the loop never runs. */
  const UnknownError: string := "Error desconocido"

  /** The loop of `consultar_ia_con_fallback` from configuration `i` on. */
  function FallbackFrom(prompt: string, configs: seq<AIConfig>, i: nat, lastError: string, call: Transport)
    : (r: Result<string, FallbackError>)
    requires i <= |configs|
    ensures r.Err? ==> r.error.AllFailed?
    decreases |configs| - i
  {
    if i == |configs| then Err(AllFailed(lastError))
    else match Query(prompt, configs[i], call)
      case Ok(reply) => Ok(reply)
      case Err(e) => FallbackFrom(prompt, configs, i + 1, e, call)
  }

  /** `consultar_ia_con_fallback`. */
  function QueryWithFallback(prompt: string, configs: seq<AIConfig>, call: Transport): (r: Result<string, FallbackError>)
    ensures configs == [] <==> r == Err(NoConfigs)
  {
    if configs == [] then Err(NoConfigs) else FallbackFrom(prompt, configs, 0, UnknownError, call)
  }

  lemma {:induction false} FallbackFromFirstSuccess(prompt: string, configs: seq<AIConfig>, i: nat, lastError: string,
                                                    call: Transport, k: nat)
    requires i <= k < |configs|
    requires Query(prompt, configs[k], call).Ok?
    requires forall j :: i <= j < k ==> Query(prompt, configs[j], call).Err?
    ensures FallbackFrom(prompt, configs, i, lastError, call) == Ok(Query(prompt, configs[k], call).value)
    decreases k - i
  {
    if i < k {
      FallbackFromFirstSuccess(prompt, configs, i + 1, Query(prompt, configs[i], call).error, call, k);
    }
  }

  lemma {:induction false} FallbackFromAllFail(prompt: string, configs: seq<AIConfig>, i: nat, lastError: string,
                                               call: Transport)
    requires i < |configs|
    requires forall j :: i <= j < |configs| ==> Query(prompt, configs[j], call).Err?
    ensures FallbackFrom(prompt, configs, i, lastError, call)
         == Err(AllFailed(Query(prompt, configs[|configs| - 1], call).error))
    decreases |configs| - i
  {
    if i + 1 < |configs| {
      FallbackFromAllFail(prompt, configs, i + 1, Query(prompt, configs[i], call).error, call);
    }
  }

  /** The fallback answers with the reply of the first configuration, in list order,
      whose call succeeds, and the configurations after it are never consulted. */
  lemma FallbackReturnsFirstSuccess(prompt: string, configs: seq<AIConfig>, call: Transport, k: nat,
                                     later: seq<AIConfig>)
    requires k < |configs|
    requires Query(prompt, configs[k], call).Ok?
    requires forall j :: 0 <= j < k ==> Query(prompt, configs[j], call).Err?
    ensures QueryWithFallback(prompt, configs, call) == Ok(Query(prompt, configs[k], call).value)
    ensures QueryWithFallback(prompt, configs[..k + 1] + later, call) == QueryWithFallback(prompt, configs, call)
  {
    FallbackFromFirstSuccess(prompt, configs, 0, UnknownError, call, k);
    var cs := configs[..k + 1] + later;
    assert forall j :: 0 <= j <= k ==> cs[j] == configs[j];
    FallbackFromFirstSuccess(prompt, cs, 0, UnknownError, call, k);
  }

  /** When every configuration fails, the fallback fails with the last configuration's error. */
  lemma FallbackFailsAfterAll(prompt: string, configs: seq<AIConfig>, call: Transport)
    requires configs != []
    requires forall j :: 0 <= j < |configs| ==> Query(prompt, configs[j], call).Err?
    ensures QueryWithFallback(prompt, configs, call)
         == Err(AllFailed(Query(prompt, configs[|configs| - 1], call).error))
  {
    FallbackFromAllFail(prompt, configs, 0, UnknownError, call);
  }

  /** The fallback succeeds exactly when some configuration's call succeeds. */
  lemma {:induction false} FallbackSucceedsIffSomeSucceeds(prompt: string, configs: seq<AIConfig>, call: Transport)
    ensures QueryWithFallback(prompt, configs, call).Ok?
        <==> exists j :: 0 <= j < |configs| && Query(prompt, configs[j], call).Ok?
  {
    if exists j :: 0 <= j < |configs| && Query(prompt, configs[j], call).Ok? {
      var k := FirstOk(prompt, configs, call);
      FallbackReturnsFirstSuccess(prompt, configs, call, k, []);
    } else if configs != [] {
      FallbackFailsAfterAll(prompt, configs, call);
    }
  }

  /** The index of the first configuration whose call succeeds. */
  function FirstOk(prompt: string, configs: seq<AIConfig>, call: Transport): (k: nat)
    requires exists j :: 0 <= j < |configs| && Query(prompt, configs[j], call).Ok?
    ensures k < |configs| && Query(prompt, configs[k], call).Ok?
    ensures forall j :: 0 <= j < k ==> Query(prompt, configs[j], call).Err?
  {
    if Query(prompt, configs[0], call).Ok? then 0
    else
      assert exists j :: 0 <= j < |configs[1..]| && Query(prompt, configs[1..][j], call).Ok? by {
        var j :| 0 <= j < |configs| && Query(prompt, configs[j], call).Ok?;
        assert configs[1..][j - 1] == configs[j];
      }
      1 + FirstOk(prompt, configs[1..], call)
  }
}
