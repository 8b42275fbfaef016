/** The `recognize_image` tool (server.py): which model is used, which
    backend serves it, and what that backend is asked, up to the SDK call
    itself. */
module Routing {
  import opened Wrappers
  import opened Text
  import opened ImageInput

  /** `DEFAULT_MODEL` when the environment does not set it. */
  const FallbackModel := "gemini-1.5-flash"

  /** `OPENAI_BASE_URL` when the environment does not set it. */
  const FallbackBaseUrl := "https://api.openai.com/v1"

  /** The tool's default prompt. */
  const DefaultPrompt := "Describe this image"

  /** The four environment variables the server reads at start-up, `None`
      when unset. */
  datatype Env = Env(
    geminiKey: Option<string>,
    openAiKey: Option<string>,
    baseUrl: Option<string>,
    defaultModel: Option<string>)

  /** The module-level configuration derived from the environment. */
  datatype Config = Config(
    geminiKey: Option<string>,
    openAiKey: Option<string>,
    baseUrl: string,
    defaultModel: string)

  /** `os.getenv(name, fallback)` for the two variables that have one: a
      set variable wins even when it is empty. */
  function ConfigOf(env: Env): (c: Config)
    ensures c.geminiKey == env.geminiKey && c.openAiKey == env.openAiKey
    ensures env.baseUrl.Some? ==> c.baseUrl == env.baseUrl.value
    ensures env.baseUrl.None? ==> c.baseUrl == FallbackBaseUrl
    ensures env.defaultModel.Some? ==> c.defaultModel == env.defaultModel.value
    ensures env.defaultModel.None? ==> c.defaultModel == FallbackModel
  {
    Config(env.geminiKey, env.openAiKey, env.baseUrl.GetOr(FallbackBaseUrl), env.defaultModel.GetOr(FallbackModel))
  }

  /** Python truthiness of an optional string: present and non-empty. */
  predicate Truthy(s: Option<string>) {
    s.Some? && s.value != []
  }

  /** `model or DEFAULT_MODEL`: an omitted or empty model name falls back
      to the default. */
  function TargetModel(model: Option<string>, defaultModel: string): (t: string)
    ensures Truthy(model) ==> t == model.value
    ensures !Truthy(model) ==> t == defaultModel
    ensures t == [] ==> defaultModel == []
  {
    if Truthy(model) then model.value else defaultModel
  }

  /** The two backends the tool can call. */
  datatype Backend = Gemini | OpenAiCompatible

  /** The model name spells `gemini` from index `i`, in any mix of upper
      and lower case. */
  predicate GeminiAt(model: string, i: int) {
    && 0 <= i <= |model| - 6
    && forall j :: 0 <= j < 6 ==> LowerChar(model[i + j]) == "gemini"[j]
  }

  /** A window of the lower-cased name reads `gemini` exactly where the
      name itself spells it in some case. */
  lemma LowerWindow(model: string, i: int)
    ensures OccursAt(Lower(model), "gemini", i) <==> GeminiAt(model, i)
  {
    var l := Lower(model);
    if 0 <= i <= |model| - 6 {
      var w := l[i..i + 6];
      assert forall j :: 0 <= j < 6 ==> w[j] == LowerChar(model[i + j]);
      if GeminiAt(model, i) {
        assert w == "gemini";
      }
    }
  }

  /** The lower-cased name contains `gemini` exactly when the name spells
      it somewhere in some case. */
  lemma {:induction false} LowerContainsGemini(model: string)
    ensures Contains(Lower(model), "gemini") <==> exists i :: GeminiAt(model, i)
  {
    ContainsAt(Lower(model), "gemini");
    if Contains(Lower(model), "gemini") {
      var i :| OccursAt(Lower(model), "gemini", i);
      LowerWindow(model, i);
    }
    if i :| GeminiAt(model, i) {
      LowerWindow(model, i);
    }
  }

  /** `"gemini" in target_model.lower()`: Gemini exactly when the name
      spells `gemini` somewhere, in any mix of case; every other name goes
      to the OpenAI-compatible backend. */
  function Route(model: string): (b: Backend)
    ensures b == Gemini <==> exists i :: GeminiAt(model, i)
  {
    LowerContainsGemini(model);
    if Contains(Lower(model), "gemini") then Gemini else OpenAiCompatible
  }

  /** Lower-casing is idempotent. */
  lemma LowerIdempotent(s: string)
    ensures Lower(Lower(s)) == Lower(s)
  {
  }

  /** Routing does not depend on case. */
  lemma RouteIgnoresCase(model: string)
    ensures Route(Lower(model)) == Route(model)
  {
    LowerIdempotent(model);
  }

  /** A name with no `g` in either case never routes to Gemini. */
  lemma NoGRoutesToOpenAi(model: string)
    requires 'g' !in model && 'G' !in model
    ensures Route(model) == OpenAiCompatible
  {
    assert "gemini"[0] == 'g';
    assert forall k :: 0 <= k < |model| ==> LowerChar(model[k]) != 'g';
  }

  /** A name that starts with `gemini`, in any case, routes to Gemini. */
  lemma GeminiPrefixRoutesToGemini(model: string)
    requires |model| >= 6
    requires forall j :: 0 <= j < 6 ==> LowerChar(model[j]) == "gemini"[j]
    ensures Route(model) == Gemini
  {
    assert GeminiAt(model, 0);
  }

  /** With `DEFAULT_MODEL` unset, a call without a model name uses
      `gemini-1.5-flash` and so goes to Gemini. */
  lemma DefaultConfigRoutesToGemini(env: Env, model: Option<string>)
    requires env.defaultModel.None? && !Truthy(model)
    ensures TargetModel(model, ConfigOf(env).defaultModel) == FallbackModel
    ensures Route(TargetModel(model, ConfigOf(env).defaultModel)) == Gemini
  {
    GeminiPrefixRoutesToGemini(FallbackModel);
  }

  /** With `DEFAULT_MODEL` set but empty, a call without a model name has
      an empty target model and so goes to the OpenAI-compatible backend. */
  lemma EmptyDefaultModelRoutesToOpenAi(env: Env, model: Option<string>)
    requires env.defaultModel == Some([]) && !Truthy(model)
    ensures Route(TargetModel(model, ConfigOf(env).defaultModel)) == OpenAiCompatible
  {
    NoGRoutesToOpenAi([]);
  }

  /** Model names from the tool's own description route to Gemini,
      whatever their case. */
  lemma GeminiNameExamples()
    ensures Route("gemini-1.5-pro") == Gemini
    ensures Route("Gemini-Pro") == Gemini
  {
    GeminiPrefixRoutesToGemini("gemini-1.5-pro");
    GeminiPrefixRoutesToGemini("Gemini-Pro");
  }

  /** Names of the usual OpenAI-compatible vision models route there. */
  lemma OtherNameExamples()
    ensures Route("qwen-vl-max") == OpenAiCompatible
    ensures Route("yi-vision") == OpenAiCompatible
  {
    NoGRoutesToOpenAi("qwen-vl-max");
    NoGRoutesToOpenAi("yi-vision");
  }

  /** What the tool hands to a backend SDK. */
  datatype BackendCall =
    | GeminiCall(model: string, prompt: string, mimeType: string, data: string)
    | OpenAiCall(model: string, prompt: string, baseUrl: string, imageUrl: string)

  /** The exceptions `recognize_image` lets escape. */
  datatype ToolError =
    | ImageError(cause: InputError)   // raised by `get_image_data`
    | MissingKey(message: string)     // `ValueError("<variable> is not set")`

  /** The message of a missing-key error: the variable's name, then the
      fixed suffix. */
  function MissingKeyMessage(variable: string): (m: string)
    ensures |m| == |variable| + 11 && m[..|variable|] == variable && m[|variable|..] == " is not set"
  {
    variable + " is not set"
  }

  /** `recognize_image` up to the SDK call: the target model picks the
      backend. The Gemini path reads the image first and checks its key
      afterwards; the OpenAI-compatible path checks its key first and then
      builds the final image URL, which cannot fail. */
  function RecognizeImage(
    image: string, prompt: Option<string>, model: Option<string>, cfg: Config,
    fetch: string -> Result<ImageData, string>): (r: Result<BackendCall, ToolError>)
    ensures r.Success? && r.value.GeminiCall? ==>
      Route(r.value.model) == Gemini && GetImageData(image, fetch) == Success(ImageData(r.value.mimeType, r.value.data))
    ensures r.Success? && r.value.OpenAiCall? ==>
      Route(r.value.model) == OpenAiCompatible && r.value.imageUrl == FinalImageUrl(image) && r.value.baseUrl == cfg.baseUrl
    ensures r.Success? ==>
      r.value.model == TargetModel(model, cfg.defaultModel) && r.value.prompt == prompt.GetOr(DefaultPrompt)
    ensures Route(TargetModel(model, cfg.defaultModel)) == Gemini ==>
      (r.Success? <==> GetImageData(image, fetch).Success? && Truthy(cfg.geminiKey))
    ensures Route(TargetModel(model, cfg.defaultModel)) == Gemini && GetImageData(image, fetch).Failure? ==>
      r == Failure(ImageError(GetImageData(image, fetch).error))
    ensures Route(TargetModel(model, cfg.defaultModel)) == OpenAiCompatible ==>
      (r.Success? <==> Truthy(cfg.openAiKey))
    ensures Route(TargetModel(model, cfg.defaultModel)) == Gemini && GetImageData(image, fetch).Success?
      ==> (!Truthy(cfg.geminiKey) ==> r == Failure(MissingKey(MissingKeyMessage("GEMINI_API_KEY"))))
    ensures Route(TargetModel(model, cfg.defaultModel)) == OpenAiCompatible && !Truthy(cfg.openAiKey) ==>
      r == Failure(MissingKey(MissingKeyMessage("OPENAI_API_KEY")))
  {
    var target := TargetModel(model, cfg.defaultModel);
    var text := prompt.GetOr(DefaultPrompt);
    match Route(target)
    case Gemini =>
      var d :- GetImageData(image, fetch).MapFailure(e => ImageError(e));
      if !Truthy(cfg.geminiKey) then Failure(MissingKey(MissingKeyMessage("GEMINI_API_KEY")))
      else Success(GeminiCall(target, text, d.mimeType, d.data))
    case OpenAiCompatible =>
      if !Truthy(cfg.openAiKey) then Failure(MissingKey(MissingKeyMessage("OPENAI_API_KEY")))
      else Success(OpenAiCall(target, text, cfg.baseUrl, FinalImageUrl(image)))
  }
}
