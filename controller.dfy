/** The handler of the "Translate and Convert to Speech" button: gate on the
    input, translate, synthesise speech, offer the audio for download, and
    report the first exception once. What the user sees and each call to a
    remote stage are recorded as events of a trace. */
module Controller {
  import opened Outcomes
  import opened PyStr
  import opened Extraction
  import opened Translation
  import opened LanguageMap

  /** The input the form holds when the button is clicked: typed text under
      "Enter text", or the uploaded file (possibly none) under "Upload file". */
  datatype Form = Typed(text: string) | Uploaded(file: Option<Upload>)

  /** The calls the handler makes outside this code, each of which may raise. */
  datatype Services = Services(
    readers: Readers,
    complete: ChatRequest -> Outcome<string>,      // client.chat.completions.create(...)
    synthesize: (string, string) -> Outcome<string>, // text_to_speech(text, lang_code): the audio path
    openAudio: string -> Outcome<Bytes>             // open(audio_path, "rb")
  )

  datatype Event =
    | Warning(message: string)                     // st.warning
    | TranslateCall(text: string, target: string)  // translate_text(final_text, target_language)
    | Notice(message: string)                      // st.success
    | Show(text: string)                           // st.write
    | SpeechCall(text: string, code: string)       // text_to_speech(translated_text, lang_code)
    | Download(caption: string, audio: Bytes, fileName: string, mime: string) // st.download_button
    | ErrorReport(message: string)                 // st.error

  const EnterTextWarning: string := "Please enter some text."
  const UploadWarning: string := "Please upload a file."
  const DoneNotice: string := "Translation Complete:"
  const FailureLead: string := "Something went wrong: "
  const DownloadLabel: string := "Download Audio"
  const AudioName: string := "speech.mp3"
  const AudioMime: string := "audio/mpeg"

  /** The value `final_text` holds once the input has been read: the
      stripped typed text, or the text extracted from the upload; `None`
      when the input was refused with a warning. */
  function SourceText(form: Form, readers: Readers): (r: Option<string>)
    ensures r.None? <==> (form.Typed? && AllSpace(form.text)) || (form.Uploaded? && form.file.None?)
    ensures form.Typed? && r.Some? ==> r.value != [] && !IsSpace(r.value[0]) && !IsSpace(r.value[|r.value| - 1])
    ensures form.Uploaded? && form.file.Some? ==> r == Some(ExtractText(form.file.value, readers))
  {
    match form
    case Typed(text) => if Strip(text) == [] then None else Some(Strip(text))
    case Uploaded(file) => if file.None? then None else Some(ExtractText(file.value, readers))
  }

  /** The warning for a refused input. */
  function WarningFor(form: Form): string
  {
    if form.Typed? then EnterTextWarning else UploadWarning
  }

  /** The last event of a run that reached synthesis: the download of the
      audio file, or the report of the exception that synthesis or opening
      the file raised. */
  function AfterSynthesis(audioPath: Outcome<string>, openAudio: string -> Outcome<Bytes>): (e: Event)
    ensures e.Download? || e.ErrorReport?
    ensures e.Download? <==> audioPath.Ok? && openAudio(audioPath.value).Ok?
    ensures e.Download? ==> e == Download("Download Audio", openAudio(audioPath.value).value, "speech.mp3", "audio/mpeg")
    ensures audioPath.Raised? ==> e == ErrorReport("Something went wrong: " + audioPath.detail)
    ensures audioPath.Ok? && openAudio(audioPath.value).Raised? ==>
      e == ErrorReport("Something went wrong: " + openAudio(audioPath.value).detail)
  {
    match audioPath
    case Raised(d) => ErrorReport(FailureLead + d)
    case Ok(path) =>
      match openAudio(path)
      case Raised(d) => ErrorReport(FailureLead + d)
      case Ok(audio) => Download(DownloadLabel, audio, AudioName, AudioMime)
  }

  /** The events of the `try` block once `final_text` is non-empty:
      translate, show the result, synthesise, offer the download; the first
      exception ends the block and is reported. */
  function PipelineEvents(text: string, target: string, sv: Services): seq<Event>
  {
    StagesAfter(text, target, Translate(text, target, sv.complete), sv)
  }

  /** The events of the `try` block given what `translate_text` returned or
      raised. */
  function StagesAfter(text: string, target: string, translated: Outcome<string>, sv: Services): (r: seq<Event>)
    ensures |r| == if translated.Ok? then 5 else 2
    ensures r[0] == TranslateCall(text, target)
    ensures r[|r| - 1].ErrorReport? || r[|r| - 1].Download?
    ensures translated.Raised? ==> r[1] == ErrorReport("Something went wrong: " + translated.detail)
  {
    match translated
    case Raised(d) => [TranslateCall(text, target), ErrorReport(FailureLead + d)]
    case Ok(t) =>
      var code := LangCode(target);
      [TranslateCall(text, target), Notice(DoneNotice), Show(t),
       SpeechCall(t, code), AfterSynthesis(sv.synthesize(t, code), sv.openAudio)]
  }

  /** The events of one click, as a function of the form, the selected
      target language and the outside calls. */
  function Run(form: Form, target: string, sv: Services): (r: seq<Event>)
    ensures |r| <= 5
    ensures r == [] <==> SourceText(form, sv.readers) == Some([])
    ensures r != [] ==> (r[0].Warning? <==> SourceText(form, sv.readers).None?)
    ensures r != [] && !r[0].Warning? ==> r[0] == TranslateCall(SourceText(form, sv.readers).value, target)
  {
    match SourceText(form, sv.readers)
    case None => [Warning(WarningFor(form))]
    case Some(text) => if text == [] then [] else PipelineEvents(text, target, sv)
  }

  /** The button handler: `final_text` starts as `None`, the input stage may
      set it, and the stages run in sequence inside one `try`. */
  method OnClick(form: Form, target: string, sv: Services) returns (trace: seq<Event>)
    ensures trace == Run(form, target, sv)
  {
    var finalText: Option<string> := None;
    trace := [];

    match form {
      case Typed(text) =>
        if Strip(text) == [] {
          trace := trace + [Warning(EnterTextWarning)];
        } else {
          finalText := Some(Strip(text));
        }
      case Uploaded(file) =>
        if file.None? {
          trace := trace + [Warning(UploadWarning)];
        } else {
          finalText := Some(ExtractText(file.value, sv.readers));
        }
    }
    assert finalText == SourceText(form, sv.readers);

    if finalText.Some? && finalText.value != [] {
      var stages := RunStages(finalText.value, target, sv);
      trace := trace + stages;
    }
  }

  /** The body of the handler's `try` once `final_text` is non-empty. */
  method RunStages(text: string, target: string, sv: Services) returns (trace: seq<Event>)
    ensures trace == PipelineEvents(text, target, sv)
  {
    trace := [TranslateCall(text, target)];
    var translated := Translate(text, target, sv.complete);
    if translated.Raised? {
      trace := trace + [ErrorReport(FailureLead + translated.detail)];
      return;
    }
    trace := trace + [Notice(DoneNotice), Show(translated.value)];

    var code := LangCode(target);
    trace := trace + [SpeechCall(translated.value, code)];
    var audioPath := sv.synthesize(translated.value, code);
    var last: Event;
    if audioPath.Raised? {
      last := ErrorReport(FailureLead + audioPath.detail);
    } else {
      var audio := sv.openAudio(audioPath.value);
      if audio.Raised? {
        last := ErrorReport(FailureLead + audio.detail);
      } else {
        last := Download(DownloadLabel, audio.value, AudioName, AudioMime);
      }
    }
    assert last == AfterSynthesis(audioPath, sv.openAudio);
    trace := trace + [last];
  }

  // ---------- properties of a click ----------

  /** The `try` block: translation is called first and only then, no
      warning is given, an error is reported only as the last event, and
      speech is synthesised, as the fourth event, exactly when translation
      succeeded, on the text shown. */
  lemma StagesShape(text: string, target: string, tr: Outcome<string>, sv: Services)
    ensures var p := StagesAfter(text, target, tr, sv);
            && |p| >= 2 && p[0] == TranslateCall(text, target)
            && (forall i :: 1 <= i < |p| ==> !p[i].TranslateCall?)
            && (forall i :: 0 <= i < |p| ==> !p[i].Warning? && (p[i].ErrorReport? ==> i == |p| - 1))
            && (tr.Raised? ==> p == [TranslateCall(text, target), ErrorReport(FailureLead + tr.detail)])
            && (tr.Ok? ==> |p| == 5 && p[1] == Notice(DoneNotice) && p[2] == Show(tr.value) &&
                           p[3] == SpeechCall(tr.value, LangCode(target)) &&
                           p[4] == AfterSynthesis(sv.synthesize(tr.value, LangCode(target)), sv.openAudio))
            && (forall i :: 0 <= i < |p| && p[i].SpeechCall? ==> tr.Ok? && i == 3)
            && (forall i :: 0 <= i < |p| && p[i].Download? ==> tr.Ok? && i == 4)
  {
  }

  /** The three shapes a click's events can take: a lone warning for a
      refused input, nothing for an empty source text, the `try` block's
      events otherwise. */
  lemma RunShape(form: Form, target: string, sv: Services)
    ensures var src := SourceText(form, sv.readers);
            var trace := Run(form, target, sv);
            && (src.None? ==> trace == [Warning(WarningFor(form))])
            && (src == Some([]) ==> trace == [])
            && (src.Some? && src.value != [] ==>
                  trace == StagesAfter(src.value, target, Translate(src.value, target, sv.complete), sv))
  {
  }

  /** Blank typed text, or no upload, gives the warning and nothing else:
      no translation and no synthesis. */
  lemma RefusedInputOnlyWarns(form: Form, target: string, sv: Services)
    requires (form.Typed? && AllSpace(form.text)) || (form.Uploaded? && form.file.None?)
    ensures Run(form, target, sv) == [Warning(if form.Typed? then "Please enter some text." else "Please upload a file.")]
    ensures forall e :: e in Run(form, target, sv) ==> !e.TranslateCall? && !e.SpeechCall?
  {
  }

  /** A warning is only ever given alone, for a refused input. */
  lemma WarningOnlyWhenRefused(form: Form, target: string, sv: Services, i: int)
    requires 0 <= i < |Run(form, target, sv)| && Run(form, target, sv)[i].Warning?
    ensures SourceText(form, sv.readers).None? && |Run(form, target, sv)| == 1
  {
    RunShape(form, target, sv);
    var src := SourceText(form, sv.readers);
    if src.Some? && src.value != [] {
      StagesShape(src.value, target, Translate(src.value, target, sv.complete), sv);
    }
  }

  /** Translation runs exactly when the source text is non-empty; it runs
      once, first, on that text and the selected target. */
  lemma TranslationRunsOnceOnSource(form: Form, target: string, sv: Services)
    ensures (exists i :: 0 <= i < |Run(form, target, sv)| && Run(form, target, sv)[i].TranslateCall?) <==>
            SourceText(form, sv.readers).Some? && SourceText(form, sv.readers).value != []
    ensures forall i :: 0 <= i < |Run(form, target, sv)| && Run(form, target, sv)[i].TranslateCall? ==>
            i == 0 && Run(form, target, sv)[i] == TranslateCall(SourceText(form, sv.readers).value, target)
  {
    RunShape(form, target, sv);
    var src := SourceText(form, sv.readers);
    var trace := Run(form, target, sv);
    if src.Some? && src.value != [] {
      StagesShape(src.value, target, Translate(src.value, target, sv.complete), sv);
      assert trace[0].TranslateCall?;
    } else {
      assert forall i :: 0 <= i < |trace| ==> !trace[i].TranslateCall?;
    }
  }

  /** An empty extracted text skips translation and everything after it. */
  lemma EmptySourceDoesNothing(form: Form, target: string, sv: Services)
    requires SourceText(form, sv.readers) == Some([])
    ensures Run(form, target, sv) == []
  {
  }

  /** A failed translation is reported once, as the last event, and no
      speech is synthesised. */
  lemma FailedTranslationStops(form: Form, target: string, sv: Services)
    requires SourceText(form, sv.readers).Some? && SourceText(form, sv.readers).value != []
    requires Translate(SourceText(form, sv.readers).value, target, sv.complete).Raised?
    ensures Run(form, target, sv) ==
      [TranslateCall(SourceText(form, sv.readers).value, target),
       ErrorReport("Something went wrong: " + Translate(SourceText(form, sv.readers).value, target, sv.complete).detail)]
    ensures forall e :: e in Run(form, target, sv) ==> !e.SpeechCall? && !e.Download?
  {
  }

  /** Speech is synthesised exactly when translation succeeded; once, after
      the result is shown, on the translated text and the mapped code. */
  lemma SpeechFollowsTranslation(form: Form, target: string, sv: Services)
    ensures (exists i :: 0 <= i < |Run(form, target, sv)| && Run(form, target, sv)[i].SpeechCall?) <==>
            |Run(form, target, sv)| > 0 && Run(form, target, sv)[0].TranslateCall? &&
            Translate(Run(form, target, sv)[0].text, target, sv.complete).Ok?
    ensures forall i :: 0 <= i < |Run(form, target, sv)| && Run(form, target, sv)[i].SpeechCall? ==>
            var trace := Run(form, target, sv);
            i == 3 && trace[0].TranslateCall? &&
            Translate(trace[0].text, target, sv.complete) == Ok(trace[i].text) &&
            trace[1] == Notice(DoneNotice) && trace[2] == Show(trace[i].text) &&
            trace[i].code == LangCode(target)
  {
    RunShape(form, target, sv);
    var src := SourceText(form, sv.readers);
    if src.Some? && src.value != [] {
      var tr := Translate(src.value, target, sv.complete);
      StagesShape(src.value, target, tr, sv);
      if tr.Ok? {
        assert Run(form, target, sv)[3].SpeechCall?;
      }
    }
  }

  /** An error is reported at most once, as the last event, and only after
      a stage was called. */
  lemma ErrorReportedOnceAtEnd(form: Form, target: string, sv: Services)
    ensures forall i :: 0 <= i < |Run(form, target, sv)| && Run(form, target, sv)[i].ErrorReport? ==>
            i == |Run(form, target, sv)| - 1 && i > 0 && Run(form, target, sv)[0].TranslateCall?
  {
    RunShape(form, target, sv);
    var src := SourceText(form, sv.readers);
    if src.Some? && src.value != [] {
      StagesShape(src.value, target, Translate(src.value, target, sv.complete), sv);
    }
  }

  /** The audio is offered only when translation, synthesis and opening the
      file all succeeded, as the fifth and last event, named "speech.mp3". */
  lemma DownloadOnlyOnSuccess(form: Form, target: string, sv: Services, i: int)
    requires 0 <= i < |Run(form, target, sv)| && Run(form, target, sv)[i].Download?
    ensures var trace := Run(form, target, sv);
            i == 4 && |trace| == 5 && trace[0].TranslateCall? &&
            Translate(trace[0].text, target, sv.complete).Ok? && trace[3].SpeechCall? &&
            var audioPath := sv.synthesize(trace[3].text, trace[3].code);
            audioPath.Ok? && sv.openAudio(audioPath.value) == Ok(trace[i].audio) &&
            trace[i].caption == "Download Audio" && trace[i].fileName == "speech.mp3" && trace[i].mime == "audio/mpeg"
  {
    RunShape(form, target, sv);
    var src := SourceText(form, sv.readers);
    if src.Some? && src.value != [] {
      StagesShape(src.value, target, Translate(src.value, target, sv.complete), sv);
    }
  }

  /** Typed text padded with whitespace whose translation comes back padded
      too: one translation call with the stripped text, the trimmed reply
      shown, one synthesis call on it with the mapped code, and the audio
      offered. With "  Hello ", "French" and the reply " Bonjour ",
      translation is asked for "Hello" and synthesis for "Bonjour" in "fr". */
  lemma TypedTextEndToEnd(typedPre: string, text: string, typedPost: string, target: string, sv: Services,
                          pre: string, reply: string, post: string, path: string, audio: Bytes)
    requires AllSpace(typedPre) && AllSpace(typedPost)
    requires text != [] && !IsSpace(text[0]) && !IsSpace(text[|text| - 1])
    requires sv.complete(Request(text, target)) == Ok(pre + reply + post)
    requires AllSpace(pre) && AllSpace(post)
    requires reply != [] && !IsSpace(reply[0]) && !IsSpace(reply[|reply| - 1])
    requires sv.synthesize(reply, LangCode(target)) == Ok(path)
    requires sv.openAudio(path) == Ok(audio)
    ensures Run(Typed(typedPre + text + typedPost), target, sv) ==
      [TranslateCall(text, target), Notice("Translation Complete:"), Show(reply),
       SpeechCall(reply, LangCode(target)), Download("Download Audio", audio, "speech.mp3", "audio/mpeg")]
  {
    TypedTextIsStripped(typedPre, text, typedPost, sv.readers);
    TranslateTrimsReply(text, target, sv.complete, pre, reply, post);
    RunShape(Typed(typedPre + text + typedPost), target, sv);
  }

  /** An uploaded file whose extracted text is non-empty goes to the `try`
      block unchanged: translation is called first, on exactly that text. */
  lemma UploadEndToEnd(u: Upload, target: string, sv: Services)
    requires ExtractText(u, sv.readers) != []
    ensures Run(Uploaded(Some(u)), target, sv) == PipelineEvents(ExtractText(u, sv.readers), target, sv)
    ensures Run(Uploaded(Some(u)), target, sv)[0] == TranslateCall(ExtractText(u, sv.readers), target)
  {
    RunShape(Uploaded(Some(u)), target, sv);
  }

  /** Typed text with no surrounding whitespace is sent as it is. */
  lemma StrippedTextIsKept(text: string, readers: Readers)
    requires text != [] && !IsSpace(text[0]) && !IsSpace(text[|text| - 1])
    ensures SourceText(Typed(text), readers) == Some(text)
  {
    var none: string := [];
    assert none + text + none == text;
    TypedTextIsStripped(none, text, none, readers);
  }

  // ---------- properties of the input stage ----------

  /** Typed text reaches translation stripped: surrounding whitespace never
      changes what is sent. */
  lemma TypedTextIsStripped(pre: string, core: string, post: string, readers: Readers)
    requires AllSpace(pre) && AllSpace(post)
    requires core != [] && !IsSpace(core[0]) && !IsSpace(core[|core| - 1])
    ensures SourceText(Typed(pre + core + post), readers) == Some(core)
  {
    StripPadded(pre, core, post);
  }

  /** An upload whose reader raises is not refused: its error text is
      non-empty, so it goes on to be translated like content. */
  lemma ErrorTextIsTranslated(u: Upload, readers: Readers)
    requires FormatOf(Extension(u.name)).Some?
    requires Read(FormatOf(Extension(u.name)).value, u.content, readers).Raised?
    ensures SourceText(Uploaded(Some(u)), readers).Some?
    ensures SourceText(Uploaded(Some(u)), readers).value != []
    ensures SourceText(Uploaded(Some(u)), readers).value[..|ReadErrorLead|] == ReadErrorLead
  {
    ReaderFailureIsReported(u, readers);
  }

  /** So is the text of an unsupported upload. */
  lemma UnsupportedTextIsTranslated(u: Upload, readers: Readers)
    requires FormatOf(Extension(u.name)).None?
    ensures SourceText(Uploaded(Some(u)), readers) == Some(Unsupported)
  {
  }
}
