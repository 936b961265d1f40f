# Fanfiction translator: chunking, prompts, requests and page state, in Dafny

This project models the core of a browser-based fanfiction translator and its
local tokenizer service, and proves properties of that model:

- **The chunk viewer** (`chunker/chunker.js`). `getWordCount` is a CJK-aware word
  counter. `createTextChunks` picks a token budget per model type. It uses the
  tokenizer server's chunks when the server answers. Otherwise it runs a
  character-budget fallback: lines become paragraphs, paragraphs are packed
  greedily into chunks of at most `4 * maxTokens` characters, and oversized
  paragraphs are cut into slices.
- **The tokenizer server** (`deepseek_v3_tokenizer/tokenizer_server.py`). `/chunk`
  packs non-blank lines greedily by token count and splits oversized lines into
  token windows. `/tokenize` returns a count and a preview of the token ids.
- **The translation page** (`script.js`):
  - the prompt: six placeholders substituted in a fixed order, and a built-in
    prompt when the substitution would lose the source text;
  - the provider table and the checks made before a request;
  - the error classification;
  - the server-sent-event reader;
  - the summary rewrite of a text field;
  - the single-flight translation state.

Modules:

| module | what it holds |
|---|---|
| `Wrappers`, `Seqs`, `Text` | `Option`/`Result`; joins, slices, `includes`, `lastIndexOf`, `replace(/…/g)`; JavaScript `trim()`/`\s` and Python `strip()`/`isspace()`, splitting |
| `WordCount` | `getWordCount` and the editor's word counter |
| `ChunkerSpec`, `Chunker` | the fallback as functions, and the imperative fallback (class `FallbackChunker`) proved equal to them; `createTextChunks` |
| `TokenChunkerSpec`, `TokenChunker` | `/chunk` and `/tokenize` as functions, and the handler's loops proved equal to them |
| `Template` | the six placeholder replacements, and templates as literal text and slots, under which the replacements fill every slot |
| `Prompt` | `constructFallbackPrompt`, the choice between it and the substituted template, and the trimming and defaults of `handleTranslation` |
| `Stream` | `processStream` as a method with its loops, against a function of the whole stream |
| `Api` | `getApiConfig`, the checks and the classification of `getTranslation` |
| `Summary` | `appendSummaryToTextarea` |
| `Session` | `translationInProgress`, `abortController`, `stopTranslation`, `updateTranslationState` and the frame of `handleTranslation` |

Some things the page gets from outside become parameters of the model:

- The tokenizer is given by `encode` and `decode` functions. Nothing is assumed
  about them.
- `JSON.parse` of a stream line is given by a `parse` function.
- What the network answers is given as a `Reply` value.
- The temperature is an opaque type parameter `Num`, passed through untouched.

## Model

| member | source | states |
|---|---|---|
| WordCount.GetWordCount | chunker/chunker.js:68-88 | empty text counts 0; with a CJK character and no white space inside the trimmed text, the count is the trimmed length (the non-space characters); with CJK and white space, the full length; otherwise the number of words; never more than the length |
| WordCount.SplitCountsWords | chunker/chunker.js:87 | splitting any string on white-space runs gives one piece per word, plus an empty first piece when it is empty or starts with white space, plus an empty last piece when it is non-empty and ends with white space |
| WordCount.BlankTextCountsOne | chunker/chunker.js:69-87 | a non-empty, all-white-space, non-CJK text counts as 1 word in the chunk viewer but 0 in the editor |
| WordCount.EditorWordCount | script.js:251 | the editor's count is exactly the number of words |
| WordCount.WordsTrim | script.js:251 | trimming never changes the number of words |
| ChunkerSpec.LinesDense | chunker/chunker.js:242 | cutting at `\r?\n` loses no non-white-space character, and keeps their order |
| ChunkerSpec.ParagraphsNotBlank | chunker/chunker.js:262-304 | every paragraph handed to the packer has a non-white-space character |
| ChunkerSpec.ParagraphsDense | chunker/chunker.js:262-304 | forming paragraphs drops only blank lines and line breaks |
| ChunkerSpec.ParagraphsOfRun | chunker/chunker.js:298-304 | consecutive non-blank lines form one paragraph, joined by `\n` |
| ChunkerSpec.ParagraphsBreak | chunker/chunker.js:263-267 | a blank line closes the buffered paragraph; what follows is paragraphed afresh |
| ChunkerSpec.BlankRunIsOneBreak | chunker/chunker.js:263-264 | two blank lines in a row break paragraphs exactly as one does |
| ChunkerSpec.GroupsProperties | chunker/chunker.js:269-296 | the groups hold all paragraphs, in order, none lost or cut; packed groups fit the budget with their `\n\n` separators; split paragraphs exceed it; a chunk is closed only when the next paragraph would not fit (greedy) |
| ChunkerSpec.StepOk | chunker/chunker.js:269-296 | one paragraph step keeps the packer's invariant (well-formed, within budget, greedy) |
| ChunkerSpec.RenderBound | chunker/chunker.js:247-280 | every chunk produced from well-formed groups is within the character budget |
| ChunkerSpec.RenderDense | chunker/chunker.js:247-278 | turning groups into chunks keeps every non-white-space character, in order |
| ChunkerSpec.FilterNonBlank | chunker/chunker.js:339 | the filter keeps exactly the chunks that are not blank |
| ChunkerSpec.FilterNonBlankDense | chunker/chunker.js:339 | the filter loses no non-white-space character |
| ChunkerSpec.FilterKeepsAll | chunker/chunker.js:339 | a list with no blank chunk passes the filter unchanged |
| ChunkerSpec.ChunksOfProperties | chunker/chunker.js:235-333 | all of the fallback's chunks are within `maxChars`, and together they hold the text's non-white-space characters in order |
| ChunkerSpec.FilteredChunksProperties | chunker/chunker.js:235-339 | after the blank-chunk filter the fallback's chunks are within `maxChars`, keep the text's non-white-space characters in order, and are none exactly when the text is blank |
| Chunker.FallbackChunker.constructor | chunker/chunker.js:236-239 | an empty chunk, nothing accumulated, no chunks |
| Chunker.FallbackChunker.FinalizeCurrentChunk | chunker/chunker.js:245-251 | a non-empty chunk is pushed trimmed, and the chunk and counter are reset; the packer state is flushed |
| Chunker.FallbackChunker.AddParagraphToChunk | chunker/chunker.js:253-260 | the paragraph is appended after `\n\n` when the chunk has content; the counter stays equal to the chunk's length |
| Chunker.FallbackChunker.HardSplit | chunker/chunker.js:273-280 | an oversized paragraph is pushed as its consecutive `substring(0, maxChars)` slices, each trimmed |
| Chunker.FallbackChunker.PushSlices | chunker/chunker.js:276-280 | the `while` loop pushes exactly the paragraph's consecutive `substring(0, maxChars)` slices, each trimmed, after the chunks already pushed |
| Chunker.FallbackChunker.CloseParagraph | chunker/chunker.js:263-266 | a blank line turns the buffered lines, joined by `\n`, into one packer step; with nothing buffered nothing changes |
| Chunker.FallbackChunker.PackLines | chunker/chunker.js:262-301 | the loop over the lines leaves the chunker where packing the paragraphs of all lines would, once the lines still buffered are emitted; the buffered lines are all non-blank |
| Chunker.FallbackChunker.ProcessParagraph | chunker/chunker.js:268-296 | the source's per-paragraph block computes exactly one packer step; its final `else` (lines 283-295) is unreachable |
| Chunker.Fallback | chunker/chunker.js:235-333 | the imperative fallback returns exactly `ChunksOf(text, maxChars)` |
| Chunker.MaxTokens | chunker/chunker.js:162-171 | a budget exists exactly for `grok` and `deepseek`; it is positive; it is `customLimit` unless that is 0 or absent, else 22000 or 6000 |
| Chunker.CreateTextChunks | chunker/chunker.js:156-347 | the method returns `TextChunks`; no chunk is blank; a text that is not blank gives at least one chunk |
| Chunker.TextChunksProperties | chunker/chunker.js:338-346 | the result has no blank chunk, and is never empty for a non-blank text, whatever the server answered |
| Chunker.FallbackProperties | chunker/chunker.js:229-346 | with the server down: chunks fit `4 * maxTokens`, keep every non-white-space character in order, and a blank text gives none |
| Chunker.TwoLines | chunker/chunker.js:242-304 | `a\n\nb` is the two paragraphs `a` and `b` |
| Chunker.TwoGroups | chunker/chunker.js:269-287 | two paragraphs within budget share a chunk exactly when they fit with `\n\n` between them |
| Chunker.TwoParagraphs | chunker/chunker.js:262-333 | for one-line `a`, `b` with no white space at their ends, each within the budget: `a\n\nb` is one chunk when it fits the budget, and the chunks `a`, `b` otherwise |
| Chunker.TwoParagraphsExample | chunker/chunker.js:262-333 | "Para one.\n\nPara two." is one chunk under budget 20 and two chunks under budget 12 |
| Chunker.OversizedLine | chunker/chunker.js:273-280 | a one-line paragraph over the budget becomes its trimmed slices of the budget's width |
| Chunker.OversizedExample | chunker/chunker.js:276-280 | 10000 characters under budget 4000 give slices of 4000, 4000 and 2000 |
| TokenChunkerSpec.SplitLinesNoBreak | deepseek_v3_tokenizer/tokenizer_server.py:70 | no line from `splitlines()` contains a line-break character |
| TokenChunkerSpec.SplitLinesDense | deepseek_v3_tokenizer/tokenizer_server.py:70 | `splitlines()` drops only line breaks |
| TokenChunkerSpec.NonBlankLines | deepseek_v3_tokenizer/tokenizer_server.py:70 | exactly the lines with `p.strip()` truthy are kept |
| TokenChunkerSpec.InputParagraphsProperties | deepseek_v3_tokenizer/tokenizer_server.py:70 | the paragraphs are non-blank and free of line breaks, and they keep every non-white-space character of the text, in order |
| TokenChunkerSpec.TStepOk | deepseek_v3_tokenizer/tokenizer_server.py:76-108 | one paragraph of the loop (cases 1-3) keeps the packer's invariant |
| TokenChunkerSpec.TGroupsProperties | deepseek_v3_tokenizer/tokenizer_server.py:76-112 | the paragraphs come out in order with none lost; packed parts stay within `max_tokens` (counted per paragraph); windowed paragraphs exceed it; parts close only when the next paragraph would not fit |
| TokenChunkerSpec.WindowsProperties | deepseek_v3_tokenizer/tokenizer_server.py:88-97 | the windows `tokens[idx:idx+max]` reassemble the tokens; all have `max` tokens except the last; there are ceil(n/max) of them |
| TokenChunkerSpec.WindowChunksNonEmpty | deepseek_v3_tokenizer/tokenizer_server.py:94-96 | a window that decodes to white space only is dropped |
| TokenChunkerSpec.NonEmpty | deepseek_v3_tokenizer/tokenizer_server.py:115 | the filter leaves no empty chunk |
| TokenChunkerSpec.NonEmptyKeepsAll | deepseek_v3_tokenizer/tokenizer_server.py:115 | the filter keeps a list without empty chunks unchanged |
| TokenChunkerSpec.TRenderNonEmpty | deepseek_v3_tokenizer/tokenizer_server.py:83-112 | every chunk the packer emits is non-empty |
| TokenChunkerSpec.TokenChunksFilterNoOp | deepseek_v3_tokenizer/tokenizer_server.py:115 | the final filter removes nothing |
| TokenChunkerSpec.TokenChunksDense | deepseek_v3_tokenizer/tokenizer_server.py:70-115 | when no line exceeds the budget, the chunks hold every non-white-space character of the text, in order |
| TokenChunkerSpec.ChunkResponseProperties | deepseek_v3_tokenizer/tokenizer_server.py:57-133 | status 400 exactly when a parameter is missing or `max_tokens <= 0`; status 200 exactly when both are usable and the budget is positive; a 200 answer carries non-empty chunks, their count, the budget and the re-encoded token total |
| TokenChunkerSpec.TokenizeProperties | deepseek_v3_tokenizer/tokenizer_server.py:23-45 | missing text gives status 400 with "Missing text parameter"; a text the tokenizer cannot take gives status 500; otherwise status 200, the count is the number of ids, and the preview is all of them (≤ 10 ids), the first 10 and `'...'` (≤ 20), or the first 10, `'...'` and the last 10 |
| TokenChunker.EmitWindows | deepseek_v3_tokenizer/tokenizer_server.py:88-97 | the `while` loop emits exactly the stripped, non-empty decoded windows, in order |
| TokenChunker.PackParagraphs | deepseek_v3_tokenizer/tokenizer_server.py:72-112 | the `for` loop and the final flush produce exactly the rendered groups |
| TokenChunker.ChunkText | deepseek_v3_tokenizer/tokenizer_server.py:47-133 | the handler returns exactly `ChunkResponseOf(req)` |
| Prompt.OrElse | script.js:483-491 | `s \|\| fallback`: `s` when it is non-empty, the fallback otherwise |
| Prompt.EmptyFieldsDefaulted | script.js:483-491 | empty fields take the page's defaults: Japanese, English, and `None provided.` for fandom context, notes and summary |
| Template.SubstituteNoPlaceholder | script.js:499-505 | a template without any of the six placeholders is sent unchanged |
| Template.StageStep | script.js:499-505 | each replacement of the chain turns exactly the slots of its own field into that field's value and leaves the rest of the text as it is |
| Template.SubstituteFills | script.js:499-505 | for a template made of literal text and slots, where neither the literal text nor a value can start a placeholder, the six replacements give the template with every slot filled by its field's value |
| Template.SubstituteSourceText | script.js:504 | `a{source_text}b`, for such `a` and `b`, becomes `a`, the source text, `b` |
| Template.UnknownInert | script.js:499-505 | a brace-delimited word that is not one of the six names, such as `{foo}`, cannot start a placeholder |
| Template.SubstituteUnknownPlaceholder | script.js:499-505 | such a word is kept where it stands inside any template, while the slots around it are filled |
| Template.SlotContained | script.js:508 | every slot's placeholder occurs in the template, and its value in the filled text |
| Template.SourceSlotFilled | script.js:504-508 | a template with a `{source_text}` slot mentions the placeholder, and its substitution is the filled template, which contains the text |
| Prompt.SectionsOrder | script.js:444-472 | sections come in the order task, fandom, summary, notes, source, guidelines; task, source and guidelines are always there |
| Prompt.SectionsPresence | script.js:450-460 | the fandom, summary and notes sections are present exactly when their field is non-empty and not `None provided.`, and then they carry that field |
| Prompt.FallbackContainsSource | script.js:444-472 | the built-in prompt contains the source-text heading followed by the text, and every provided optional field under its heading |
| Prompt.BuildPrompt | script.js:499-511 | the prompt sent always contains the source text; it is the substituted template exactly when the template mentions `{source_text}` and the substitution still contains the text, and the built-in prompt otherwise |
| Prompt.TemplateSent | script.js:499-511 | a template with a `{source_text}` slot, whose literal text and values cannot start a placeholder, is sent filled, and the built-in prompt is not used |
| Prompt.PreparePrompt | script.js:481-511 | refused, with "Please enter text to translate.", exactly when the trimmed text is empty; otherwise the prompt contains the trimmed text |
| Stream.ChoiceText | script.js:700-710 | the first truthy of `delta.content`, `text`, `message.content`, or nothing; it is non-empty exactly when one of them is truthy |
| Stream.LineParsed | script.js:692-715 | a line contributes text only when, trimmed, it starts with `data:`, its trimmed payload is neither empty nor `[DONE]`, and it parses to an object with a first choice; the text is then that choice's |
| Stream.LineSkipped | script.js:692-716 | a line that does not start with `data:`, or whose payload cannot be parsed, contributes nothing |
| Stream.LineDelivers | script.js:695-715 | a `data:` line whose payload is neither empty nor `[DONE]` and parses to an object with a first choice contributes that choice's text |
| Stream.Emissions | script.js:691-720 | the callback is never called with an empty string |
| Stream.EmissionsAppend | script.js:691-720 | the callback arguments for two runs of lines are those of the first run followed by those of the second |
| Stream.DoneIsSkipped | script.js:693 | a `data: [DONE]` line is skipped, not a terminator: the lines after it are still delivered |
| Stream.UnterminatedLineIgnored | script.js:687-689 | text without a `\n` adds no complete line and only extends the carried buffer |
| Stream.LinesAfterRead | script.js:687-689 | the complete lines of `a` followed by `x` are those of `a` and then those of what `a` left unterminated followed by `x`; the new buffer is what that leaves unterminated |
| Stream.ReadStep | script.js:680-690 | one read extends the callback arguments by those of the carried text plus the new piece |
| Stream.ProcessStream | script.js:665-732 | the reader returns or throws `StreamResult`; the callback arguments are `StreamEmissions`, in call order; the returned translation is their concatenation |
| Stream.DeliverLines | script.js:691-720 | the inner `for` loop calls the callback with exactly `Emissions(lines)` and accumulates their concatenation |
| Api.GetApiConfig | script.js:634-662 | `grok-…` goes to x.ai with the Groq key and `max_tokens` 131072; `deepseek-chat` goes to DeepSeek with its key and no `max_tokens`; anything else fails with "Unsupported model selected: …"; the body is one user message with the prompt, the model, temperature and stream flag |
| Api.SameFamilySameProvider | script.js:639-648 | two `grok-` models get the same endpoint, key and body, except for the model name |
| Api.GetTranslation | script.js:734-793 | a translation is returned only when the prompt, model, provider and key checks all pass |
| Api.RefusedBeforeRequest | script.js:736-747 | when a check fails, the result does not depend on the network, and the error is the missing-parameters, unsupported-model or API-key message |
| Api.AttemptClassified | script.js:774-791 | an `AbortError` comes out unchanged; any other error becomes "Translation attempt failed for model M. Reason: …"; a success passes through |
| Api.NonStreamingContent | script.js:776-783 | a non-streaming reply succeeds exactly when `choices[0].message.content` is defined, even when it is empty; otherwise the invalid-format error, wrapped with the model name |
| Api.StreamingContent | script.js:774-775 | a streaming reply with a callback returns the stream's concatenated callback arguments; a missing body is reported under the model's name |
| Summary.HeaderFramed | script.js:341 | the page's header is 32 characters with no white space at either end |
| Summary.Clean | script.js:344-347 | the summary is trimmed, and when it then starts with the header, the header is cut off and the rest trimmed again; the result has no white space at either end |
| Summary.CleanHeaded | script.js:344-347 | a summary that already starts with the header and a line break loses the header, so the block never holds it twice |
| Summary.Appended | script.js:335-364 | the field is rewritten exactly when the summary is present and not blank, and then to the block placed by `Place` |
| Summary.AppendedSummary | script.js:335-364 | rewritten exactly when the summary is usable, with the page's own header |
| Summary.EmptyField | script.js:361-364 | an empty or blank field receives `header\nsummary`, without the leading blank line |
| Summary.NoHeaderAppends | script.js:358-359 | a field without the header gets its trimmed text, `\n\n`, the header and the summary |
| Summary.LastHeaderOfBlock | script.js:354 | in a trimmed field ending with a block, `lastIndexOf` finds that block's header |
| Summary.ReplaceSummary | script.js:352-357 | when the earlier summary does not itself contain the header, a block added earlier is replaced by the new one, and the text in front of it is kept |
| Summary.AppendIdempotent | script.js:335-366 | when the summary does not itself contain the header, adding the same summary again to a field that had text leaves the field as it is |
| Summary.EmptyFieldTwice | script.js:352-364 | when the summary does not itself contain the header, a field that was empty: the second append of the same summary gives a block with a leading `\n\n`, unlike the first |
| Summary.AppendSummaryToTextarea | script.js:329-373 | no field: `false`; otherwise `true` exactly when the summary is usable; the new value is `AppendedSummary(old value)`, and on `false` the field is left untouched |
| Session.Report | script.js:582-588 | an `AbortError` is reported as a stop, any other error with its message, and a success with the translation |
| Session.BlankTextRejected | script.js:493-496 | a blank text is refused with the page's warning, whatever the network would answer |
| Session.TextReachesRequest | script.js:481-553 | a non-blank text always reaches a request whose prompt contains it; a stop is reported exactly for an abort; a completed translation implies the checks passed |
| Session.TranslationSession.constructor | script.js:410-411 | idle: not in progress, no controller |
| Session.TranslationSession.UpdateTranslationState | script.js:424-425 | only the in-progress flag changes |
| Session.TranslationSession.StopTranslation | script.js:414-421 | a running request's controller is aborted and dropped; the page is idle |
| Session.TranslationSession.Begin | script.js:475-526 | given what the form check made of the form: while a translation runs, or for a refused form, nothing changes; otherwise the prompt is returned, the flag is set and a fresh, unaborted controller is installed |
| Session.TranslationSession.Finish | script.js:589-593 | the page is idle again, whatever the request did |
| Session.TranslationSession.HandleTranslation | script.js:475-594 | a press while in progress does nothing; otherwise the outcome is `Handled(…)` and the page ends idle; the class invariant (a controller exists exactly while a translation runs) is kept |
| Template.Substitute | script.js:499-505 | no contract; computes the six global replacements in the page's order, as written; described by Template.SubstituteNoPlaceholder, Template.StageStep, Template.SubstituteFills, Template.SubstituteSourceText and Template.SubstituteUnknownPlaceholder |
| Prompt.ConstructFallbackPrompt | script.js:444-472 | no contract; computes the built-in prompt, as written; described by Prompt.SectionsOrder, Prompt.SectionsPresence and Prompt.FallbackContainsSource |
| TokenChunkerSpec.Tokenize | deepseek_v3_tokenizer/tokenizer_server.py:23-45 | no contract; computes the `/tokenize` answer, as written; described by TokenChunkerSpec.TokenizeProperties |
| TokenChunkerSpec.ChunkResponseOf | deepseek_v3_tokenizer/tokenizer_server.py:47-133 | no contract; computes the `/chunk` answer, with its validation order, as written; described by TokenChunkerSpec.ChunkResponseProperties and TokenChunker.ChunkText |
| TokenChunkerSpec.TokenChunks | deepseek_v3_tokenizer/tokenizer_server.py:70-115 | no contract; computes the chunks of `/chunk`, as written; described by TokenChunkerSpec.TokenChunksFilterNoOp, TokenChunkerSpec.TokenChunksDense and TokenChunker.PackParagraphs |
| Stream.LineText | script.js:692-719 | no contract; computes what one stream line contributes, as written; described by Stream.LineParsed, Stream.LineSkipped and Stream.LineDelivers |
| Stream.StreamEmissions | script.js:665-732 | no contract; computes the callback arguments of a whole stream, as written; described by Stream.ReadStep and Stream.ProcessStream |
| Stream.StreamResult | script.js:665-732 | no contract; computes what the reader returns or throws, as written; described by Stream.ProcessStream and Api.StreamingContent |
| Chunker.TextChunks | chunker/chunker.js:156-347 | no contract; computes the chunks, from the server's answer or the fallback, as written; described by Chunker.TextChunksProperties, Chunker.FallbackProperties and Chunker.CreateTextChunks |
| ChunkerSpec.Lines | chunker/chunker.js:242 | as many lines as `\n`-separated pieces; computes `split(/\r?\n/)`, as written; described by ChunkerSpec.LinesDense |
| ChunkerSpec.Paragraphs | chunker/chunker.js:262-304 | no contract; computes the paragraphs the lines form, as written; described by ChunkerSpec.ParagraphsNotBlank, ChunkerSpec.ParagraphsDense, ChunkerSpec.ParagraphsOfRun, ChunkerSpec.ParagraphsBreak and ChunkerSpec.BlankRunIsOneBreak |
| ChunkerSpec.ChunksOf | chunker/chunker.js:235-333 | no contract; computes the fallback's chunks, as written; described by ChunkerSpec.ChunksOfProperties and Chunker.Fallback |
| Api.KeyRejected | script.js:742-744 | no contract; computes the API-key check, as written; described by Api.GetTranslation and Api.RefusedBeforeRequest |
| Api.Attempt | script.js:758-783 | no contract; computes the result of the request, as written; described by Api.NonStreamingContent and Api.StreamingContent |
| Api.Classify | script.js:784-791 | no contract; computes the error wrapping, as written; described by Api.AttemptClassified |
| Summary.Place | script.js:352-364 | no contract; computes where the block goes, as written; described by Summary.EmptyField, Summary.NoHeaderAppends, Summary.LastHeaderOfBlock and Summary.ReplaceSummary |
| Session.Handled | script.js:481-588 | no contract; computes the outcome of one press, as written; described by Session.Report, Session.BlankTextRejected, Session.TextReachesRequest and Session.TranslationSession.HandleTranslation |

## Left out

- DOM and UI are not modelled: buttons and their labels, status messages and their timers, word-count styling, chunk display and statistics, dark mode, modals, export and clipboard.
- `localStorage` and the cached tunnel URL are not modelled. Saving the field after a summary append (script.js:368-370) is one of these.
- Network I/O is not modelled: `fetch`, the health probes and the tokenizer-server branch of `createTextChunks` (chunker/chunker.js:174-227), including its token-count averaging.
  - The server's chunks, or their absence, are an input to `Chunker.TextChunks` and `Chunker.CreateTextChunks`.
  - The API's reply is the `Api.Reply` input.
- `handleApiError` (script.js:796-816) reads the error body, which is I/O. The message of the `Error` it throws is the `Api.NotOk` input.
- `TextDecoder` byte decoding is not modelled. Stream reads are decoded strings, and the final `decoder.decode()` flush is part of the input.
- `JSON.parse` and `response.json()` are not modelled; they are inputs:
  - `parse` for stream lines;
  - `JsonReply` for a non-streaming body.
- A `message.content` that is defined but is not a string is not represented.
- Stream.ChoiceText: a truthy `delta.content` or `text` that is not a string, which script.js:702-712 would concatenate, is not represented; choice fields are strings.
- Stream.DeliverLines: a callback that throws is not modelled. The `try` at script.js:695-717 would swallow its exception, after the text was already added to the translation; the callback here is not code, only its arguments are recorded.
- The tokenizer's internals are not modelled: `encode` and `decode` are parameters.
- The Flask plumbing is not modelled: routing, CORS, logging, and the `/health` endpoint. `start_tokenizer_server.py` is not part of this model.
- A failing `int(max_tokens)` or a non-string `text` is an `Unusable` field. It gives the 500 answer, without Flask's error text.
- TokenChunkerSpec.TokenizeProperties: the 500 answer of `/tokenize` does not carry `str(e)`, the tokenizer's own exception text, which is not modelled.
- `formatMarkdown` (script.js:1049-1117) is not modelled. It only formats output for display.
- The output box updates in the stream callback are not modelled; the callback's arguments are modelled instead.
- `handleSummaryGeneration` is not modelled, and neither is `summaryBox.value.trim()` of its result.
- `String.replace` with a regular expression interprets `$` patterns in the replacement string. `Seqs.ReplaceAll` inserts the replacement literally, so the model holds for values without `$`.
- Template.SubstituteFills, Template.StageStep, Template.SubstituteSourceText, Template.SubstituteUnknownPlaceholder, Template.SourceSlotFilled and Prompt.TemplateSent hold only for literal text and field values in which no placeholder can start. The page's chain of replacements also rewrites a placeholder that an earlier value inserted, or one that a value completes with the text around it; the model computes that behaviour in `Template.Substitute`, but no lemma describes it.
- Strings are sequences of code points. JavaScript `length` and `substring` count UTF-16 code units, so budget lengths agree only for text without characters outside the Basic Multilingual Plane. The same holds for WordCount.GetWordCount: `text.length` and `.replace(/\s+/g, '').length` (chunker/chunker.js:77, 84) count UTF-16 code units, while the model counts code points.
- The temperature is the opaque type `Num`; `parseFloat` is not modelled.
- TwoParagraphs is stated only for one-line `a` and `b` with no white space at their ends, each within the budget; a longer `a` or `b` is cut into slices, which Chunker.OversizedLine describes for one paragraph.
- Chunker.MaxTokens, Chunker.TextChunks and Chunker.CreateTextChunks require `customLimit` to be absent or non-negative.
  - A negative limit makes `maxCharsFallback` negative. For a text with a non-blank line, the hard-split loop (chunker/chunker.js:276-280) then never ends.
  - A blank text with a negative limit never reaches that loop: the source returns `[]` (chunker/chunker.js:342-346). The `requires` excludes this case too, so the model does not capture it.
  - A `NaN` from `parseInt` acts like an absent limit.
- The assignment at chunker/chunker.js:158 is not modelled: its result is never used.
- `processStream` throws when `updateCallback` is not a function (script.js:669-671). This cannot happen here: `getTranslation` reads a stream only when a callback was given, and `handleTranslation` gives a function exactly when streaming is on.
- Session.TranslationSession.HandleTranslation models one press from start to finish. The `await` interleaving with a stop press is not modelled; the effect of a stop is given through the `reply`, as an `AbortError`. `StopTranslation` and `Begin`/`Finish` are the pieces to combine by hand.
- Session.TranslationSession.UpdateTranslationState models the flag only; the controls it enables and disables are not modelled.
- Not implemented by these files, so not modelled: a batch translation loop over chunks, inter-chunk summaries, continue/abort prompts, coalesced stream flushing, glossaries, and other providers.
