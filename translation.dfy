/** `translate_text`: build the instruction prompt, send it as the single
    user message of a chat-completion request, and trim the reply. The
    remote call itself is a parameter that may raise. */
module Translation {
  import opened Outcomes
  import opened PyStr
  import LanguageMap

  const ModelId: string := "llama3-70b-8192"
  const MaxTokens: nat := 1000

  const PromptLead: string := "Translate the following text to "
  const PromptBreak: string := ":\n\n"
  const TranslationErrorLead: string := "Error during translation: "

  datatype Message = Message(role: string, content: string)

  /** The request sent to the chat-completion endpoint (the sampling
      settings, floating-point numbers, are not part of the model). */
  datatype ChatRequest = ChatRequest(model: string, messages: seq<Message>, maxTokens: nat, stream: bool)

  /** `f"Translate the following text to {target_language}:\n\n{text}"`. */
  function Prompt(target: string, text: string): (p: string)
    ensures |p| == |PromptLead| + |target| + |PromptBreak| + |text|
  {
    PromptLead + target + PromptBreak + text
  }

  /** The request `translate_text` sends: one user message holding the
      prompt, the fixed model, 1000 tokens at most, no streaming. */
  function Request(text: string, target: string): (req: ChatRequest)
    ensures req.model == "llama3-70b-8192" && req.maxTokens == 1000 && !req.stream
    ensures |req.messages| == 1 && req.messages[0].role == "user"
    ensures req.messages[0].content == Prompt(target, text)
    ensures |req.messages[0].content| == |PromptLead| + |target| + |PromptBreak| + |text|
    ensures req.messages[0].content[..|PromptLead|] == "Translate the following text to "
    ensures req.messages[0].content[|req.messages[0].content| - |text|..] == text
  {
    ChatRequest(ModelId, [Message("user", Prompt(target, text))], MaxTokens, false)
  }

  /** `translate_text(text, target_language)` with the completion call
      `complete`: the reply's content stripped of surrounding whitespace, or
      a `RuntimeError` whose text wraps the call's exception. */
  function Translate(text: string, target: string, complete: ChatRequest -> Outcome<string>): (r: Outcome<string>)
    ensures r.Ok? <==> complete(Request(text, target)).Ok?
    ensures r.Ok? ==> r.value == [] || (!IsSpace(r.value[0]) && !IsSpace(r.value[|r.value| - 1]))
    ensures r.Ok? ==> |r.value| <= |complete(Request(text, target)).value|
    ensures r.Ok? ==> (r.value == [] <==> AllSpace(complete(Request(text, target)).value))
    ensures r.Raised? ==> r.detail == TranslationErrorLead + complete(Request(text, target)).detail
  {
    match complete(Request(text, target))
    case Ok(content) => Ok(Strip(content))
    case Raised(e) => Raised(TranslationErrorLead + e)
  }

  // ---------- reading a prompt back ----------

  /** The index of the first `c` in `s`, if any (`s.find(c)`). */
  function IndexOf(s: string, c: char): (r: Option<nat>)
    ensures r.Some? ==> r.value < |s| && s[r.value] == c && forall k :: 0 <= k < r.value ==> s[k] != c
    ensures r.None? ==> c !in s
  {
    if s == [] then None
    else if s[0] == c then Some(0)
    else
      match IndexOf(s[1..], c)
      case None => None
      case Some(k) => Some(k + 1)
  }

  /** Reads a prompt back into its target language (the text up to the first
      `:`) and its text (everything after the blank line). */
  function ParsePrompt(p: string): (r: Option<(string, string)>)
  {
    if |p| < |PromptLead| || p[..|PromptLead|] != PromptLead then None
    else
      var rest := p[|PromptLead|..];
      match IndexOf(rest, ':')
      case None => None
      case Some(k) =>
        if k + |PromptBreak| <= |rest| && rest[k..k + |PromptBreak|] == PromptBreak
        then Some((rest[..k], rest[k + |PromptBreak|..]))
        else None
  }

  /** The prompt keeps the target and the text apart: both can be read back
      from it whenever the target holds no `:`. */
  lemma PromptRoundTrip(target: string, text: string)
    requires ':' !in target
    ensures ParsePrompt(Prompt(target, text)) == Some((target, text))
  {
    var p := Prompt(target, text);
    assert p[..|PromptLead|] == PromptLead;
    var rest := p[|PromptLead|..];
    assert rest == target + PromptBreak + text;
    assert forall k :: 0 <= k < |target| ==> rest[k] == target[k];
    assert rest[|target|] == ':';
    var k := IndexOf(rest, ':').value;
    assert k == |target|;
    assert rest[k..k + |PromptBreak|] == PromptBreak;
    assert rest[..k] == target;
    assert rest[k + |PromptBreak|..] == text;
  }

  /** Every language the drop-down offers can be read back from the prompt,
      together with the text. */
  lemma OfferedPromptsRoundTrip(target: string, text: string)
    requires target in LanguageMap.Languages
    ensures ParsePrompt(Request(text, target).messages[0].content) == Some((target, text))
  {
    PromptRoundTrip(target, text);
  }

  /** Whatever the reply, the translation is exactly the part of it that
      the declarative description of stripping picks out. */
  lemma TranslateIsStripOfReply(text: string, target: string, complete: ChatRequest -> Outcome<string>, i: int, j: int)
    requires complete(Request(text, target)).Ok?
    requires IsStripOf(complete(Request(text, target)).value, i, j)
    ensures Translate(text, target, complete) == Ok(complete(Request(text, target)).value[i..j])
  {
    StripUnique(complete(Request(text, target)).value, i, j);
  }

  /** A reply padded with whitespace around its content comes back as that
      content alone. */
  lemma TranslateTrimsReply(text: string, target: string, complete: ChatRequest -> Outcome<string>,
                            pre: string, core: string, post: string)
    requires complete(Request(text, target)) == Ok(pre + core + post)
    requires AllSpace(pre) && AllSpace(post)
    requires core != [] && !IsSpace(core[0]) && !IsSpace(core[|core| - 1])
    ensures Translate(text, target, complete) == Ok(core)
  {
    StripPadded(pre, core, post);
  }
}
