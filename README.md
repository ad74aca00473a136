# Podcast transcript to audio: a verified model of `generate_audio`

This project models the audio half of a small web app that turns a text into
a two-voice podcast. `generate_audio` in `app.py` receives the dialogue that
a language model wrote. It does the following:

- strips the dialogue and splits it into lines;
- strips each line and skips it when it is blank or opens with `**(` (a bold
  stage direction);
- reads a speaker and a text from each remaining line, first with the
  bold-speaker pattern `**Speaker**: Text`, then with the plain pattern
  `Speaker: Text`, and drops a line neither pattern matches;
- maps the speaker to a voice through a fixed four-entry table, with the
  default voice `Bex`;
- asks the text-to-speech service for each utterance, in order, with the
  model `eleven_monolingual_v1`, and joins the streamed chunks into one
  segment;
- raises on the first failing service call, and raises when no segment was
  produced;
- otherwise joins the segments into the bytes written to the output file.

The modules are:

- `Results`: `Option` and `Result`.
- `PyStr`: the Python string operations `generate_audio` calls, which are
  `strip`, `startswith` and `split` on one character, and the scans its
  regular expressions perform: the leading `\s*` (written `LStrip`), the
  first character of a class, and the first occurrence of a literal after a
  lazy group. `JoinWith`, a join on one character, is not called by the code;
  it states what `split` inverts.
- `PyBytes`: bytes and `b''.join`.
- `TranscriptParser`: the per-line parser.
- `VoiceResolver`: the speaker-to-voice table.
- `AudioPipeline`: the lines, the requests sent, the synthesis loop, and
  `generate_audio` itself.

The service is a parameter: a function from a request to the chunks of its
audio stream, or `None` when the call raises. The run's result is either the
error it raises or the combined bytes it writes.

Two behaviours of the code a reader might not expect:

- An all-silent run still succeeds. The emptiness check looks at the list of
  segments, not at their bytes, so a run in which every stream is empty
  produces an empty file rather than an error (`SilentSegmentsStillSucceed`).
- Utterances carry no sequence number. The code keeps none: order is the
  order of the lines.

## Model

| member | source | states |
|---|---|---|
| PyStr.Strip | app.py:135 | `str.strip()`: the result has no whitespace at either end, is empty exactly when the input is all whitespace, and holds only characters of the input |
| PyStr.StripSplits | app.py:150 | every string is its stripped core between a whitespace prefix and a whitespace suffix |
| PyStr.StripUnique | app.py:150 | whatever whitespace surrounds a stripped core, `strip` returns exactly that core |
| PyStr.StripIdempotent | app.py:150 | stripping twice is stripping once |
| PyStr.StripLStrip | app.py:156-161 | stripping what the leading `\s*` leaves equals stripping the original text, so `\s*(.*)` followed by `.strip()` is plain `strip` |
| PyStr.LStrip | app.py:156-158 | `\s*` removes exactly the leading whitespace: the result is a suffix of the input, every dropped character is whitespace, and the result does not start with whitespace |
| PyStr.FirstIn | app.py:158 | the scan for a character class finds the first position holding a class character, and finds none exactly when no character is in the class |
| PyStr.FindFrom | app.py:156 | the lazy `(.*?)` before `\*\*:` ends at the first later occurrence of `**:`, and finds none exactly when there is none |
| PyStr.Split | app.py:135 | `split('\n')` yields at least one piece, and no piece holds the separator |
| PyStr.SplitJoin | app.py:135 | joining the pieces of `split(sep)` with `sep` gives back the string |
| PyStr.JoinSplit | app.py:135 | splitting a join of separator-free pieces gives back the pieces |
| PyBytes.Join | app.py:179 | `b''.join` has the summed length of its parts |
| PyBytes.JoinConcat | app.py:179 | joining two runs of parts is joining each and concatenating |
| PyBytes.JoinSplitsAt | app.py:189 | in a join, part `i` sits after the join of the parts before it, at offset equal to their total length |
| PyBytes.JoinAllEmpty | app.py:189 | joining only empty parts gives empty bytes |
| TranscriptParser.MatchBold | app.py:156 | the bold pattern matches exactly when the line opens with `**` and `**:` occurs later; a match implies the line holds a colon |
| TranscriptParser.MatchPlain | app.py:158 | the plain pattern matches exactly when some character of the line is in the delimiter class |
| TranscriptParser.MatchLine | app.py:156-158 | bold pattern first, plain pattern second: no match exactly when the line holds no delimiter |
| TranscriptParser.ParseStripped | app.py:151-165 | a stripped line is skipped exactly when it is blank or opens with `**(`; it is unmatched exactly when it is not skipped and holds no delimiter; otherwise speaker and text come out stripped |
| TranscriptParser.ParseLineWith | app.py:150-165 | the loop body up to the voice lookup, for any delimiter class containing `:`: skipped, unmatched and matched as above, with the line stripped first |
| TranscriptParser.ParseLine | app.py:150-165 | the loop body with the intended delimiter class `{':', U+FF1A}` |
| TranscriptParser.ParseLineAsWritten | app.py:150-165 | the loop body with the delimiter class as the file spells it; a line is unmatched exactly when it is not skipped and holds none of `:`, U+00EF, U+00BC, U+0161 |
| TranscriptParser.BoldMatchAt | app.py:156 | on a line opening with `**`, group 1 runs up to the first later `**:`, and group 2 is the rest after `\s*` |
| TranscriptParser.PlainMatchAt | app.py:158 | group 1 runs up to the first delimiter, and group 2 is the rest after `\s*` |
| TranscriptParser.BoldLineParse | app.py:156-161 | a bold line gives the stripped text between `**` and the first `**:` as speaker and the stripped rest as text, without consulting the plain pattern |
| TranscriptParser.PlainLineParse | app.py:158-161 | a line the bold pattern does not match gives the stripped text before the first delimiter as speaker and the stripped rest as text |
| TranscriptParser.BoldLineRoundTrip | app.py:156-161 | every clean utterance whose speaker has no `*` and does not open with `(` reads back unchanged from `**S**: T`, even when the speaker holds a colon |
| TranscriptParser.PlainLineRoundTrip | app.py:84 | every clean utterance whose speaker holds no delimiter and does not open with `**` reads back unchanged from the prompt's `Speaker: Text` form |
| TranscriptParser.FormattedLinesParse | app.py:150-161 | both round trips for the parser with the intended delimiters |
| TranscriptParser.AsWrittenCutsSpeakerAtDiaeresis | app.py:158 | as written, a speaker label containing `ï` (U+00EF) is cut at that character; the intended parser reads the whole label |
| TranscriptParser.AsWrittenDropsFullWidthColon | app.py:158 | `Speaker：Text` with a full-width colon parses as intended, but as written the line is unmatched and dropped |
| VoiceResolver.Resolve | app.py:138-144 | `voice_mappings.get(speaker, 'Bex')`. The first voice is given exactly to `Host` and `Person A`, the second exactly to `Person B` and `[Person B's name]`, and `Bex` exactly to unlisted labels. The match is exact and case-sensitive |
| AudioPipeline.TranscriptLines | app.py:135 | `conversation_text.strip().split('\n')` gives at least one line; the lines are newline-free and join back to the stripped transcript |
| AudioPipeline.Sent | app.py:149-176 | the requests sent for the lines, in order: at most one per line |
| AudioPipeline.SentConcat | app.py:149 | the requests for two runs of lines are those of the first run followed by those of the second |
| AudioPipeline.SentEmpty | app.py:149-165 | nothing is sent exactly when no line yields a request |
| AudioPipeline.SentWithout | app.py:153 | a line that yields no request can be removed without changing what is sent |
| AudioPipeline.LineRequest | app.py:150-177 | a line yields a request exactly when it parses; the request carries the parsed text, the voice `voice_mappings.get` gives the parsed speaker, and the model `eleven_monolingual_v1`. The parser uses the intended delimiter class |
| AudioPipeline.LineRequestAsWritten | app.py:150-177 | the same step with the delimiter class as the file spells it: a request exactly when the as-written parse matches, with the same fields |
| AudioPipeline.TranscriptRequests | app.py:135-177 | the requests sent for a whole transcript, in line order, at most one per line of `strip().split('\n')` |
| AudioPipeline.TranscriptOfLines | app.py:135 | newline-free lines with no whitespace at the outer ends, joined by newlines, trailed by whitespace on the last line and wrapped in any whitespace, split back into exactly those lines |
| AudioPipeline.BoldTranscriptLines | app.py:135 | a transcript of `**Speaker**: Text` lines of clean utterances, wrapped in any whitespace, splits into those lines, the last one stripped. Here a clean utterance has a newline-free speaker and text with no whitespace at either end, and the speaker holds no `*` and does not open with `(` |
| AudioPipeline.SentMap | app.py:149-177 | when each line yields its own request, the lines send exactly those requests, in order |
| AudioPipeline.BoldLinesSent | app.py:149-177 | the `**Speaker**: Text` lines of clean utterances send one request per utterance, in order: its text, the voice the table gives its speaker, the model `eleven_monolingual_v1` |
| AudioPipeline.BoldCoreRequest | app.py:150-177 | the stripped form of a `**Speaker**: Text` line is a newline-free, stripped, non-blank line that yields that utterance's request |
| AudioPipeline.BoldTranscriptRequests | app.py:135-177 | a whole transcript of `**Speaker**: Text` lines of clean utterances, wrapped in any whitespace, sends one request per utterance, in transcript order, each with the utterance's text and its speaker's voice; with no utterance, nothing is sent |
| AudioPipeline.BlankTranscriptSendsNothing | app.py:135-153 | a transcript of whitespace only splits into one blank line, which is skipped, so nothing is sent |
| AudioPipeline.JoinedLinesRequests | app.py:135-177 | newline-free lines with no whitespace at the outer ends, joined by newlines and wrapped in any whitespace, send the requests of the lines in order, the last line counted without its trailing whitespace |
| AudioPipeline.PlainCoreRequest | app.py:150-177 | the stripped form of a `Speaker: Text` line is a newline-free, non-blank line with no whitespace at either end, sent as the utterance's text in its speaker's voice |
| AudioPipeline.PlainLinesSent | app.py:149-177 | the `Speaker: Text` lines of clean utterances whose speakers hold no delimiter and do not open with `**` send one request per utterance, in order, each line yielding its own |
| AudioPipeline.PlainTranscriptRequests | app.py:135-177 | a whole transcript in the `Speaker: Text` form the generation prompt asks for, wrapped in any whitespace, sends one request per utterance, in transcript order, with its text and its speaker's voice; with no utterance, nothing is sent |
| AudioPipeline.DroppedLineSendsNothing | app.py:150-153 | a skipped or unmatched line never reaches the service: removing it changes no request |
| AudioPipeline.BoldLineRequest | app.py:156-177 | a `**Speaker**: Text` line is sent as the text `Text`, in the voice the table gives `Speaker`, with model `eleven_monolingual_v1`, even when the speaker holds a colon |
| AudioPipeline.PlainLineRequest | app.py:156-176 | a `Speaker: Text` line is sent as the text `Text`, in the voice the table gives `Speaker`, with model `eleven_monolingual_v1` |
| AudioPipeline.Synthesize | app.py:171-183 | the synthesis succeeds exactly when the service answers every request; on success there is one segment per request; on failure the error names a request |
| AudioPipeline.SynthesizeSegmentAt | app.py:179-180 | on success, segment `i` is the joined stream of request `i` |
| AudioPipeline.SynthesizeFailsAtFirst | app.py:181-183 | the run fails with the first request the service raises on, and the segments gathered before it are discarded |
| AudioPipeline.SynthesizeFailurePersists | app.py:181-183 | once a prefix of the requests fails, nothing after it changes the error |
| AudioPipeline.SynthesizeAsksOnlyForRequests | app.py:172-177 | the outcome depends on the service only through its answers to the requests actually sent |
| AudioPipeline.SynthesizeAppend | app.py:171-183 | one more request either adds its joined stream as the last segment or fails on that request |
| AudioPipeline.CombinedAudioWith | app.py:147-189 | for any line-to-request step, the run raises "no audio segments" exactly when nothing is sent, and succeeds exactly when something is sent and the service answers all of it |
| AudioPipeline.SingleLineTranscript | app.py:135 | a stripped, newline-free transcript is split into exactly one line, itself |
| AudioPipeline.FullWidthLineRequests | app.py:156-177 | a `Speaker：Text` line with a full-width colon yields its request when the class is read as intended, and no request as written |
| AudioPipeline.AsWrittenFullWidthTranscriptHasNoSegments | app.py:156-186 | on a one-line transcript `Speaker：Text`, the intended run sends one request and does not raise "no audio segments"; the run as written sends nothing and raises it |
| AudioPipeline.CombinedAudio | app.py:128-197 | the run raises "no audio segments" exactly when no request is sent; it succeeds exactly when some request is sent and the service answers all of them |
| AudioPipeline.NoSegmentsIffNothingParses | app.py:185-186 | the run raises "no audio segments" exactly when no line of the transcript parses, whatever the service would answer |
| AudioPipeline.CombinedAudioLayout | app.py:179-189 | the written bytes have the summed length of the segments; the stream for request `i` sits right after the segments before it |
| AudioPipeline.SilentSegmentsStillSucceed | app.py:185-189 | if some line parses and the service answers every request with a stream whose chunks join to no bytes (an empty stream, or only empty chunks), the run succeeds and writes empty bytes |
| AudioPipeline.SentFailurePersists | app.py:181-183 | once the requests of the first `k` lines fail, the run over all lines fails with the same error |
| AudioPipeline.LoopSkips | app.py:151-153 | an iteration on a line without a request keeps the segments gathered so far |
| AudioPipeline.LoopAppends | app.py:179-180 | an iteration whose request the service answers appends its joined stream |
| AudioPipeline.LoopFails | app.py:181-183 | an iteration whose request the service raises on ends the run with that request's error |
| AudioPipeline.CollectSegments | app.py:147-183 | the loop returns exactly the synthesis of the requests of the lines: the segments in order, or the first failure |
| AudioPipeline.GenerateAudio | app.py:128-197 | returns exactly `CombinedAudio`: the first service failure, or "no audio segments" when nothing was produced, or the segments joined |

## Left out

- The Flask routes, `generate_conversation` and the language-model call are not part of this model.
- The text-to-speech client, its API key and the HTTP streaming are a function parameter. It gives, per request, the chunks of the stream, or `None` when the call raises. An exception raised partway through a stream counts as a raising call.
- Writing the file is modelled as returning the combined bytes. The path constant `static/audio/conversation.mp3`, `os.makedirs`, write failures, and two concurrent runs overwriting one file are left out.
- Logging and `.env` loading are left out: they change no result.
- The exception message strings are left out. The error says which request failed (`SynthesisFailed`) or that no segment was produced (`NoSegments`).
- `CombinedAudio` collects all the requests first and then voices them, while the source calls the service as it parses each line. `CollectSegments` keeps the source order, parsing and voicing one line per loop turn, and is proved to give the same result. Because the service is a pure function here, the two orders cannot be told apart.
- Unicode whitespace is a fixed set: the 29 characters for which Python's `str.isspace` holds. Unicode categories are not computed.
- AudioPipeline.LineRequest: parses with the intended delimiter class `{':', U+FF1A}`, not the class the file spells at app.py:158 (`:`, U+00EF, U+00BC, U+0161); so `CombinedAudio` and `GenerateAudio` describe the corrected run. The two differ exactly on a line that is not skipped, that the bold pattern does not match, and whose first character among `:`, U+FF1A, U+00EF, U+00BC and U+0161 is not `:`. As written, such a line is cut at its first `:`, U+00EF, U+00BC or U+0161, or dropped when it holds none of them. As intended, it is cut at its first `:` or U+FF1A, or dropped when it holds neither. The run as written is `CombinedAudioWith(LineRequestAsWritten, …)`; `AsWrittenFullWidthTranscriptHasNoSegments` shows one transcript where the two outcomes differ.
- AudioPipeline.LineRequest: returns `None` for a line holding a newline. Lines from `split('\n')` never hold one, so this guard only makes the function total. The regular expressions' `.` and the parser's `requires IsLine` rely on it.

## Findings

| source | as written | input that shows it | evidently intended | confidence | as-written member | corrected member |
|---|---|---|---|---|---|---|
| app.py:158 | The delimiter class `[:ï¼š]` holds `:`, U+00EF, U+00BC and U+0161. These are the UTF-8 bytes of the full-width colon read as Windows-1252 text. | `Person B：Hi` (full-width colon) is unmatched and dropped. `Naïve: hi` is read as speaker `Na` with text `ve: hi` | `[:：]`: the ASCII colon or the full-width colon U+FF1A | not executed | TranscriptParser.ParseLineAsWritten (shown by TranscriptParser.AsWrittenDropsFullWidthColon, TranscriptParser.AsWrittenCutsSpeakerAtDiaeresis and AudioPipeline.AsWrittenFullWidthTranscriptHasNoSegments) | TranscriptParser.ParseLine (proved by TranscriptParser.FormattedLinesParse, AudioPipeline.PlainLineRequest and AudioPipeline.BoldLineRequest) |
