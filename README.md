# Translator and speech generator: a verified model of its decision logic

The application is a single Streamlit page (`app.py`). The user either types text
or uploads a file (TXT, PDF, CSV or Excel) and picks a target language. One button
then does the following:

1. It reads the input.
2. It asks a hosted language model (through the Groq chat-completion API) to
   translate the input.
3. It shows the translation.
4. It synthesises speech from the translation with gTTS.
5. It offers the resulting MP3 for download.

This project models, in Dafny, the decisions the page makes around those outside
calls. It proves what those decisions guarantee.

- `outcome.dfy` (`Outcomes`): `Outcome<T>`, which is either a value or a raised
  exception with its message, and `Option<T>`.
- `pystr.dfy` (`PyStr`): the Python string built-ins the page relies on, with
  their meaning proved.
  - `str.strip()` uses the exact set of characters that `str.isspace()` accepts.
    It is proved equal to a declarative description of stripping, and proved
    idempotent.
  - `str.split(sep)` and `sep.join(...)` are proved inverse to each other.
  - The last piece of a split is proved to be the text after the last separator.
  - `str.lower()` covers ASCII letters only.
  - `"".join(...)` is modelled as `Concat`.
- `language_map.dfy` (`LanguageMap`):
  - the table `lang_code_map`;
  - the drop-down's list of languages;
  - the lookup `lang_code_map.get(target, "en")`.
- `extraction.dfy` (`Extraction`): `extract_text_from_file`. It derives the
  extension from the file name and chooses among the four readers, then turns
  any reader failure into text.
  - The library calls behind each format are function-valued parameters
    (`Readers`), each of which may raise. These are UTF-8 decoding, opening a
    PDF, reading one page's text, `read_csv`, `read_excel` and `to_string`.
- `translation.dfy` (`Translation`): `translate_text`. It builds the exact
  prompt and the request. It trims the reply, or wraps the failure in
  `"Error during translation: "`.
  - The chat-completion call is a parameter that may raise.
- `controller.dfy` (`Controller`): the button handler. The method `OnClick`
  follows its control flow:
  - `final_text` starts as `None`;
  - the input branch may set it;
  - the stages then run in sequence inside one `try`.

  It returns the trace of what the user sees and of each call to an outside
  stage. Its contract ties the trace to the specification function `Run`. The
  gating and sequencing properties are proved as lemmas about `Run`.

## Model

| member | source | states |
|---|---|---|
| `PyStr.Strip` | app.py:49 | The result is no longer than the input. It is empty exactly when the input is all whitespace, and otherwise starts and ends with a non-whitespace character. |
| `PyStr.StripUnique` | app.py:49 | For any slice `s[i..j]` with only whitespace around it and non-whitespace at both of its ends (or a blank `s`), `strip()` returns exactly that slice. |
| `PyStr.SpaceCharacters` | app.py:49 | The whitespace set of `str.isspace()`. Among ASCII characters it is exactly space, tab, line feed, vertical tab, form feed, carriage return and `\x1c`-`\x1f`, and no character above U+3000 is whitespace. |
| `PyStr.StripIdempotent` | app.py:49 | A property of the strip model: stripping an already stripped text changes nothing. |
| `PyStr.StripPadded` | app.py:49 | Whitespace around a core that starts and ends with non-whitespace is exactly what `strip()` removes. |
| `PyStr.Split` | app.py:62 | `split(sep)` yields one more piece than there are separators, and no piece holds the separator. |
| `PyStr.JoinSplit` | app.py:62 | Joining the pieces of `split(sep)` with `sep` gives back the original string. |
| `PyStr.SplitJoin` | app.py:62 | Splitting a join of a non-empty list of separator-free pieces gives back the pieces. |
| `PyStr.AfterLast` | app.py:62 | Reference for `[-1]`: a suffix of the string that holds no separator and is preceded by a separator unless it is the whole string. |
| `PyStr.LastPieceIsAfterLast` | app.py:62 | `s.split(sep)[-1]` is the text after the last separator, or all of `s` when there is none. |
| `PyStr.Lower` | app.py:62 | `lower()` keeps the length and lower-cases each character in place. |
| `PyStr.Concat` | app.py:70 | `"".join(pieces)` is as long as the pieces together. |
| `PyStr.ConcatAppend` | app.py:70 | Joining two runs of pieces with `""` is concatenating the joins of each. |
| `LanguageMap.LangCode` | app.py:131 | A name in the table gets its own code; any other name gets `"en"`. |
| `LanguageMap.LanguageWithCode` | app.py:27-34 | A reverse lookup the application never performs, used only to state an observation about the table: it returns a listed language that has the code, or `None` only when no listed language has it. |
| `LanguageMap.LanguagesAreKeys` | app.py:106 | The drop-down offers exactly the six keys of the table. |
| `LanguageMap.LangCodeTable` | app.py:27-34 | French, Spanish, Hindi, German, Chinese and Nepali map to `fr`, `es`, `hi`, `de`, `zh-CN` and `ne`; any other name maps to `en`. |
| `LanguageMap.CodeIdentifiesLanguage` | app.py:27-34 | An observation about the table, not behaviour the application relies on: the codes of the offered languages are pairwise distinct, so a code leads back to its language. |
| `LanguageMap.DefaultIsNotOffered` | app.py:131 | No offered language has the fallback code `"en"`. |
| `Extraction.Extension` | app.py:62 | The extension never contains a `.`. |
| `Extraction.ExtensionIsAfterLastDot` | app.py:62 | The extension is the lower-cased text after the last `.` of the name, or the whole lower-cased name when the name has no `.`. |
| `Extraction.FormatOf` | app.py:65-76 | `txt` selects the text reader, `pdf` the PDF reader, `csv` the CSV reader and `xlsx` the Excel reader, each only for that extension. Any other extension selects no reader. |
| `Extraction.Read` | app.py:65-78 | What each format's reader yields. `txt` is the UTF-8 decoding of the content. `pdf` is the page join of the opened document, `csv` and `xlsx` are the rendering of the parsed table. The exception of the opening or parsing step is passed on as it is. |
| `Extraction.JoinPageTexts` | app.py:70 | The generator join. It succeeds only if every page's text can be read, and a first page that raises makes the join raise that page's exception. |
| `Extraction.ExtractText` | app.py:61-82 | Always returns a text, never raises. An unknown extension gives `"Unsupported file format."`. A known one gives the reader's text, or `"Error reading file: "` followed by the failure. |
| `Extraction.UnsupportedReadsNothing` | app.py:62-82 | For an unrecognised extension the result is exactly `"Unsupported file format."` whatever the readers would do: no reader is consulted. |
| `Extraction.OnlyItsReader` | app.py:64-78 | For a recognised extension, readers that agree on that format's calls give the same text: only that format's reader is used. |
| `Extraction.TxtUploadIsDecoded` | app.py:65-66 | A `.txt` upload is its content decoded as UTF-8, or `"Error reading file: "` followed by the decoding error. |
| `Extraction.PdfUploadIsPageTexts` | app.py:68-70 | A `.pdf` upload whose document opens and whose pages can all be read is the page texts concatenated in page order with no separator. |
| `Extraction.PdfUploadFailure` | app.py:68-80 | A `.pdf` upload that does not open gives `"Error reading file: "` and the opening error. Otherwise it gives the page join, or the error text of its first unreadable page. |
| `Extraction.CsvUploadIsRendered` | app.py:72-80 | A `.csv` upload is the rendered table parsed from its content, or the error text of the parse or the rendering that raised. |
| `Extraction.XlsxUploadIsRendered` | app.py:76-80 | An `.xlsx` upload is the rendered table parsed from its content, or the error text of the parse or the rendering that raised. |
| `Extraction.ReaderFailureIsReported` | app.py:64-80 | When the chosen reader raises, the text is `"Error reading file: "` followed by the exception's message. |
| `Extraction.AllPagesReadable` | app.py:69-70 | A PDF's text can be read exactly when every page's text can. |
| `Extraction.FirstUnreadablePage` | app.py:70 | A PDF whose text cannot be read raises the exception of its first unreadable page. |
| `Extraction.JoinPageTextsAppend` | app.py:70 | Reading two runs of pages gives the first run's exception, else the second's, else the first text followed by the second. |
| `Extraction.PageTexts` | app.py:70 | One text per page, in page order. |
| `Extraction.PdfTextIsConcatenation` | app.py:69-70 | When every page can be read, the PDF text is the page texts concatenated in page order with no separator. |
| `Translation.Prompt` | app.py:38 | The prompt is exactly as long as the lead, the target, `":\n\n"` and the text together. |
| `Translation.PromptRoundTrip` | app.py:38 | The target and the text can both be read back from the prompt, whenever the target holds no `:`. |
| `Translation.OfferedPromptsRoundTrip` | app.py:38-42 | For every offered language, the single user message of the request holds a prompt from which the target and the text can be read back. |
| `Translation.Request` | app.py:40-48 | The request names model `llama3-70b-8192`, allows 1000 tokens and does not stream. It holds exactly one message, from `user`, whose content is the prompt: it starts with `"Translate the following text to "` and ends with the text. |
| `Translation.Translate` | app.py:37-51 | Succeeds exactly when the completion call succeeds. The reply is then returned stripped: no whitespace at either end, never longer than the raw reply, and empty exactly when the reply is blank. Otherwise it raises `"Error during translation: "` followed by the call's message. |
| `Translation.TranslateIsStripOfReply` | app.py:49 | For every reply, the translation is exactly the slice of the reply that the declarative description of stripping picks out. |
| `Translation.TranslateTrimsReply` | app.py:49 | A reply padded with whitespace around its content comes back as exactly that content. |
| `Controller.SourceText` | app.py:109-122 | `final_text` stays unset exactly for blank typed text or a missing upload. Typed text that is kept is non-empty and starts and ends with non-whitespace. For an upload, `final_text` is exactly `extract_text_from_file`'s result. |
| `Controller.Run` | app.py:108-138 | A click gives at most five events, and none exactly when the source text is empty. The first event is a warning exactly when the input was refused, and otherwise the translation call on the source text. |
| `Controller.StagesAfter` | app.py:124-138 | The `try` block gives five events after a successful translation and two after a failed one. They start with the translation call and end with an error report or the download. A failed translation is reported as `"Something went wrong: "` and its message. |
| `Controller.AfterSynthesis` | app.py:130-138 | The last event is either the download or an error report. It is the download exactly when synthesis and opening the audio file both succeed, and the download offers the file's bytes under the button label `Download Audio`, as `speech.mp3` with type `audio/mpeg`. A failure of synthesis, or of opening the audio file, is reported as `"Something went wrong: "` followed by that failure's message. |
| `Controller.OnClick` | app.py:108-138 | The handler's trace is `Run(form, target, services)`. |
| `Controller.RunStages` | app.py:124-138 | The `try` block's trace is the pipeline's events for the text. |
| `Controller.StagesShape` | app.py:124-138 | Inside the `try`: translation is called first and only once. No warning is given. An error is reported only as the last event. Speech is synthesised, as the fourth event, only after a successful translation, and the download can only be the fifth event. |
| `Controller.RunShape` | app.py:108-138 | A click gives a lone warning for a refused input, nothing for an empty source text, and otherwise the `try` block's events on that text. |
| `Controller.RefusedInputOnlyWarns` | app.py:112-120 | Blank typed text or a missing upload gives exactly the matching warning, with no translation and no synthesis. |
| `Controller.WarningOnlyWhenRefused` | app.py:112-124 | A warning appears only for a refused input, and then alone. |
| `Controller.TranslationRunsOnceOnSource` | app.py:124-126 | Translation is called exactly when the source text is non-empty. It is called once, as the first event, on that text and the selected target. |
| `Controller.EmptySourceDoesNothing` | app.py:124 | An empty extracted text produces no event at all. |
| `Controller.FailedTranslationStops` | app.py:124-138 | A failed translation is followed only by `"Something went wrong: "` and its message. Nothing is synthesised or offered. |
| `Controller.SpeechFollowsTranslation` | app.py:126-132 | Speech is synthesised exactly when translation succeeded. This happens once, after the result is shown, on the translated text and with `lang_code_map.get(target, "en")`. |
| `Controller.ErrorReportedOnceAtEnd` | app.py:111-138 | An error is reported at most once. It is the last event, and the first event of that run is the translation call. |
| `Controller.DownloadOnlyOnSuccess` | app.py:130-135 | The audio is offered only when translation, synthesis and opening the file all succeeded. It is the fifth and last event, under the label `Download Audio`, as `speech.mp3` with type `audio/mpeg`. |
| `Controller.TypedTextEndToEnd` | app.py:112-135 | Typed text padded with whitespace around a non-blank core, whose reply is a non-blank core padded with whitespace and whose later stages succeed, gives five events. These are the translation call on the core, the notice, the reply's core, synthesis on it with the mapped code, and the download. |
| `Controller.UploadEndToEnd` | app.py:118-126 | The non-empty text extracted from an upload reaches the `try` block unchanged, and translation is called first on exactly that text. |
| `Controller.StrippedTextIsKept` | app.py:113-116 | Typed text with no surrounding whitespace is sent as it is. |
| `Controller.TypedTextIsStripped` | app.py:113-116 | Surrounding whitespace on typed text never changes what is sent for translation. |
| `Controller.ErrorTextIsTranslated` | app.py:79-80 | An upload whose reader raises is not refused. Its error text is non-empty and starts with `"Error reading file: "`, so it goes on to translation. |
| `Controller.UnsupportedTextIsTranslated` | app.py:82 | An upload with an unknown extension becomes the source text `"Unsupported file format."` and is translated too. |

## Left out

- The Groq HTTP client (`groq/chat.py`) is network I/O. The chat-completion call is a parameter, `complete`, that may raise.
- Reading `response.choices[0].message.content` is folded into `complete`, which returns the content text directly.
- The sampling settings (`temperature=0.7`, `top_p=1`, `stop=None`) are floating-point or empty request fields with no behaviour to state. `ChatRequest` keeps the model, the messages, `max_tokens` and `stream`.
- Loading the API key from secrets or `.env`, and the halt when it is missing (app.py:13-24), are environment I/O.
- The page's rendering is not modelled: the page configuration, title, help text, input-method radio, text area, file uploader, language drop-down and spinners. The input is a `Form` value (typed text or an optional upload) and a target name. `st.warning`, `st.success`, `st.write`, `st.error` and `st.download_button` become events of the trace.
- `text_to_speech` (app.py:54-58), that is gTTS and the temporary MP3 file, is a parameter `synthesize` that returns the audio path or raises. Reading that file back (app.py:134) is a parameter `openAudio`. The temporary file is never deleted, and the model does not track files.
- The internals of UTF-8 decoding, PyMuPDF page extraction and pandas `read_csv`, `read_excel` and `to_string` (app.py:66-78) are uninterpreted readers that may raise.
- PyStr.Lower: only ASCII letters are lower-cased, not all of Unicode. This does not change which extensions are recognised. The only non-ASCII characters that Python lower-cases to ASCII letters are the Kelvin sign (to `k`) and the dotted capital I (to `i` and a combining dot). Neither letter occurs in `txt`, `pdf`, `csv` or `xlsx`.
- Exceptions raised by the page's own display calls are not modelled.
- Streamlit re-running the whole script on each interaction is not modelled. The model covers one click with the form as it stands.
