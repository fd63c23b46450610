# Omi Python SDK core, modelled in Dafny

This project models the pure core of the Omi Python SDK, the client that
receives audio from the Omi wearable, transcribes it with a streaming speech
service and turns spoken hot phrases into stored memories. It covers four
pieces:

- **Packet decoder** (`decoder.dfy`, module `Decoder`). `OmiOpusDecoder`
  fixes its `functional` mode at construction. `decode_packet` drops the
  3-byte device header and decodes the Opus payload to 16-bit little-endian
  PCM. It either calls the native codec, which is opaque here, or runs the
  fallback. The fallback synthesises a 320-sample waveform from the payload
  bytes and a periodic envelope, or emits quiet noise for payloads shorter
  than four bytes.
- **Memories** (`memory.dfy`, module `Memory`).
  - The `HOT_PHRASES` table and `detect_hot_phrase`, a first-match,
    case-insensitive substring search in table order.
  - The write path: `process_transcript_for_memory`, the module-level
    `create_memory` and `MemoryStorage.create_memory`.
  - The write path is remote first (`_create_via_mcp`, with its conditional
    geolocation) with a local fallback: `_store_locally` appends a delimited
    entry to a file.
- **`.env` loading** (`env_config.dfy`, module `EnvConfig`).
  - `load_env_file`'s line parser: trim, skip blanks and comments, split at
    the first `=`, strip one layer of quotes.
  - Its rule that existing non-empty variables are never overwritten.
  - `check_required_env_vars` and `setup_environment`.
- **Streaming transcription** (`transcribe.dfy`, module `Transcribe`).
  - The per-message logic of `receive_transcripts`: error messages, the path
    `channel.alternatives[0].transcript`, blank text, and malformed or
    wrongly-typed JSON.
  - The ordered callback delivery and the ordered sending in `send_audio`.
  - The `while True` reconnect loop, as an explicit state machine.

Three support modules state the Python semantics the SDK relies on:

- `pytext.dfy` (`PyText`): `str.isspace`, `str.strip`, ASCII `str.lower`,
  substring `in`, `split`/`join` on one character, `find`.
- `json.dfy` (`Json`): the values `json.loads` returns, Python truthiness,
  and `key in value` with its `TypeError` on non-containers.
- `wrappers.dfy` (`Wrappers`): `Option`.

The effects are parameters. These are the remote reply, the clock, whether
the file append succeeds, the native decode call, the noise draws, the
outcome of each websocket send, and whether each callback raises. The local
memory file is the sequence of entries appended to it. The process
environment is a `map<string, string>`.

Points about the code's behaviour that the model makes explicit:

- **Reconnect wait.** A send failure or a mid-stream disconnect does not
  lead to the 5-second wait. The sender and receiver catch their own
  errors, and so does the `try` around `asyncio.gather`
  (`sdks/python/omi/transcribe.py:20-69`). Only an exception that escapes
  the connection block itself, or a failed connect, leads to the
  "retrying" status and the sleep.
- **Session end.** `asyncio.gather` returns only when both the sender and
  the receiver have finished. When the receiver ends on a closed
  connection, the sender is still waiting in `audio_queue.get()`. It wakes
  only when the next chunk arrives, fails to send it and stops, so that
  chunk is lost. Only then does the block exit and the loop reconnect at
  once. If no further audio arrives, the loop never reconnects.
- **Noise branch.** Noise is emitted for payloads of one to three bytes.
  The payload is never empty once the length check has passed.
- **Native frame size.** The native decoder is asked for a 960-sample frame.
  The fallback emits 320 samples.
- **Frame queue.** `transcribe` is handed an unbounded `asyncio.Queue`
  (`sdks/python/main.py:45`), so every chunk put on it is eventually
  offered to `send_audio` in order.

## Model

| member | source | states |
|---|---|---|
| Decoder.Create | sdks/python/omi/decoder.py:67-82 | The decoder is functional exactly when the native library was usable at import and the first `Decoder(16000, 1)` succeeds. A failed first construction falls back to non-functional. The constructor raises only when the retry fails too. |
| Decoder.DecodePacket | sdks/python/omi/decoder.py:84-143 | A packet of at most 3 bytes gives empty output in both modes. In functional mode, the native codec receives exactly the bytes after the header and a 960-sample frame size, and a raising codec gives empty output. In fallback mode, any longer packet gives exactly 640 bytes. The decoder value, and with it its mode, is not changed. |
| Decoder.HeaderIgnored | sdks/python/omi/decoder.py:88-89 | Two packets with the same bytes after the 3-byte header decode identically, whatever their headers. |
| Decoder.Envelope | sdks/python/omi/decoder.py:120 | The envelope `abs(((i*17) % 100) - 50)` (scaled by 50) never exceeds 50. |
| Decoder.SynthSampleFormula | sdks/python/omi/decoder.py:108-121 | Synthetic sample i uses bytes `i mod n` and `(i+1) mod n` of the payload: the source's `(i % n + 1) % n` is the same index. |
| Decoder.SynthSampleBounds | sdks/python/omi/decoder.py:117-124 | Every synthetic sample lies in [-12800, 12700], so the clamp to [-32768, 32767] leaves it unchanged. |
| Decoder.ProductBounds | sdks/python/omi/decoder.py:117-121 | A centred byte sum in [-256, 254] times an envelope in [0, 50] lies in [-12800, 12700]. |
| Decoder.SynthSample | sdks/python/omi/decoder.py:108-121 | Every synthetic sample, before the clamp, lies in [-12800, 12700]. |
| Decoder.Clamp | sdks/python/omi/decoder.py:124 | The clamp's result is always a signed 16-bit value and equals its input when the input already is one. |
| Decoder.EncodeS16LE | sdks/python/omi/decoder.py:126-128 | The encoding has two bytes per sample, and every sample in the signed 16-bit range reads back from its two bytes as a little-endian signed value. |
| Decoder.FallbackDecode | sdks/python/omi/decoder.py:97-140 | The fallback always returns 640 bytes. A payload of at least 4 bytes reads back as the 320-sample synthetic frame; a shorter one reads back as the noise draws. |
| Decoder.S16RoundTrip | sdks/python/omi/decoder.py:127-128 | For a signed 16-bit value, the bytes `v & 0xFF` and `(v >> 8) & 0xFF` read back as a little-endian signed value give v. |
| Decoder.BytesRoundTrip | sdks/python/omi/decoder.py:127-128 | Any two bytes, read as a signed 16-bit little-endian value and written back with the same masks and shift, are the same two bytes. |
| Decoder.DecodeEncode | sdks/python/omi/decoder.py:126-128 | Encoding a sequence of 16-bit samples as little-endian byte pairs and reading them back gives the samples. |
| Decoder.EncodeDecode | sdks/python/omi/decoder.py:126-128 | Reading an even-length byte string as samples and encoding them again gives back the bytes. |
| Decoder.SynthFrameExact | sdks/python/omi/decoder.py:108-124 | Every clamped sample of the synthetic frame equals its unclamped value and is in the 16-bit range. |
| Decoder.FallbackFrame | sdks/python/omi/decoder.py:103-130 | In fallback mode, a payload of at least 4 bytes gives 640 bytes that read back as the 320-sample synthetic frame. |
| Decoder.FallbackSamples | sdks/python/omi/decoder.py:103-130 | In fallback mode, with payload p of length n >= 4, sample i of the output reads back as `(p[i mod n] + p[(i+1) mod n] - 256) * abs(((17 i) mod 100) - 50)` and lies in [-12800, 12700]. |
| Decoder.FallbackDeterministic | sdks/python/omi/decoder.py:97-130 | In fallback mode, a payload of at least 4 bytes decodes the same whatever the native codec and the random source would do. |
| Decoder.FallbackNoise | sdks/python/omi/decoder.py:132-140 | In fallback mode, a payload of 1 to 3 bytes gives 640 bytes that read back as the noise draws, each sample within [-25, 25]. |
| PyText.Strip | sdks/python/env_config.py:28 | The result of `strip()` is empty iff the input is all whitespace, and otherwise starts and ends with non-whitespace. It is the input itself iff the input has no whitespace at either end. It uses only characters of the input. |
| PyText.StripSlice | sdks/python/env_config.py:28 | `strip()` returns one contiguous slice `s[i:j]` of its input, and everything cut off before `i` and after `j` is whitespace. With `Strip`'s own contract, this pins the result to exactly the input with its leading and trailing whitespace removed. |
| PyText.StripIdempotent | sdks/python/omi/transcribe.py:47-48 | Stripping an already stripped text changes nothing. |
| PyText.StripPadded | sdks/python/env_config.py:37-38 | Any whitespace around a core that starts and ends with non-whitespace is removed, and nothing else is. |
| PyText.Lower | sdks/python/memory.py:211 | Lower-casing keeps the length and maps each character on its own (ASCII letters only). |
| PyText.Contains | sdks/python/memory.py:214 | `phrase in text` holds iff the phrase occurs at some index of the text. |
| PyText.Find | sdks/python/env_config.py:35-36 | The first `=` of the line: the index holds `=`, no earlier index does, and the length is returned iff there is none. |
| PyText.JoinSnoc | sdks/python/memory.py:117-124 | Adding a line to a newline-joined block adds a newline and the line at the end. |
| PyText.SplitJoin | sdks/python/memory.py:117-124 | Lines without newlines, joined by newlines and split again, are the same lines. |
| Json.In | sdks/python/omi/transcribe.py:40-45 | `key in value` is a key test on a dict, an element test on a list and a substring test on a string. It raises `TypeError` exactly on None, booleans and numbers. |
| Json.Get | sdks/python/omi/transcribe.py:45-46 | Indexing by a string key yields a value exactly when the value is a dict holding the key, and that value is the dict's entry. |
| Memory.FirstMatchFrom | sdks/python/memory.py:213-215 | The index found is the first table entry at or after the start whose phrase occurs in the text, or the table length when none does. |
| Memory.DetectHotPhrase | sdks/python/memory.py:201-217 | The result is None iff no table phrase occurs in the lower-cased transcript. Otherwise it is the category of the first phrase in table order that occurs. |
| Memory.DetectNoteBeforeImportant | sdks/python/memory.py:189-198 | "Hey, note this important information" contains both "note this" and "important"; the earlier table entry wins and the category is "note". |
| Memory.DetectedCategoryTruthy | sdks/python/memory.py:231-235 | A detected category is never the empty string, so `if category:` always passes once a phrase is found. |
| Memory.BuildPayload | sdks/python/memory.py:79-95 | The payload copies text, user id and `text_source` from the record (which `NewMemoryData` sets to "audio_transcript"), has `text_source_spec` "omi_sdk_" + category, and `started_at = finished_at = created_at`. Geolocation is added iff `metadata.location` is a dict holding both latitude and longitude, and carries those two values. Building fails (raises) only for a `location` that is not a dict. |
| Memory.NewMemoryData | sdks/python/memory.py:50-60 | The record carries the transcript, the category, the configured user id, `text_source` "audio_transcript" and the given timestamp. Missing metadata becomes the empty dict, and given metadata is kept. |
| Memory.CreateViaMcp | sdks/python/memory.py:75-112 | The payload that is built is the one posted. The remote write succeeds iff the payload was built, the reply arrived with status 200, and its body parses to a JSON object; every other case returns False. |
| Memory.FormatIsJoin | sdks/python/memory.py:117-124 | The appended entry is the eight lines blank, header, Timestamp, Category, Text, Metadata, footer, blank, joined by newlines. |
| Memory.EntryRoundTrip | sdks/python/memory.py:117-124 | An entry whose fields contain no newline reads back as exactly its timestamp, category, text and metadata. |
| Memory.StoreLocally | sdks/python/memory.py:114-134 | A successful append adds exactly one formatted entry at the end of the file and returns True. A failed append returns False, and the model takes it to leave the file unchanged (see Left out). |
| Memory.FormatEntry | sdks/python/memory.py:117-124 | The entry opens with a newline, the header line and a newline, ends with the footer line and a newline, and is 81 characters longer than its four fields together. |
| Memory.StorageCreateMemory | sdks/python/memory.py:37-73 | Remote success returns True and writes nothing locally. Remote failure with local storage on returns the append result, and the file gains that entry. Remote failure with local storage off returns False. The file only ever grows by an appended entry. |
| Memory.CreatedIffSomePathSucceeds | sdks/python/memory.py:64-73 | A memory is reported created iff the remote write succeeds, or local storage is on and the append succeeds. The file gains an entry iff the remote write failed and the local append was made. |
| Memory.CreateMemory | sdks/python/memory.py:161-178 | Before storage is initialised the result is False, nothing is posted and the file is unchanged; afterwards it is the storage's result. |
| Memory.ProcessTranscriptForMemory | sdks/python/memory.py:220-237 | Without a hot phrase the result is False with nothing posted or written. With one, it is the module-level write under the detected category. |
| EnvConfig.Unquote | sdks/python/env_config.py:40-44 | One layer of matching double or single quotes is removed: a value of at least two characters that starts and ends with the same quote becomes `v[1:-1]`, and a lone quote becomes empty. A value not starting and ending with the same quote character is kept as is. The result uses only characters of the value. |
| EnvConfig.UnquoteQuoted | sdks/python/env_config.py:40-44 | A value wrapped in double quotes, or in single quotes, unquotes to the value. |
| EnvConfig.ParseLine | sdks/python/env_config.py:28-44 | After stripping, empty lines, comment lines and lines without `=` are ignored. An assignment's key contains no `=` and is stripped. Key and value consist of characters of the line. |
| EnvConfig.SplitsAtFirstEquals | sdks/python/env_config.py:34-44 | A line is split at its first `=`: the key is the stripped text before it, and the value is the stripped, unquoted rest, which may itself contain `=`. |
| EnvConfig.ParseAssignmentLine | sdks/python/env_config.py:28-44 | A line `KEY="value"` with a well-formed key reads back as that key and value. |
| EnvConfig.ApplyLine | sdks/python/env_config.py:46-48 | A line never removes a variable or changes one that already has a non-empty value, and never creates a variable with an empty name. |
| EnvConfig.LoadLines | sdks/python/env_config.py:25-51 | Loading keeps every existing variable, never overwrites a non-empty value, never creates an empty name, and returns True for a file with no NUL character. |
| EnvConfig.FirstNonEmptyAssignmentWins | sdks/python/env_config.py:46-48 | For a variable without a non-empty value beforehand, the first non-empty assignment in the file wins, an earlier empty assignment is overwritten, and a variable the file never assigns keeps its state. |
| EnvConfig.LoadEnvFile | sdks/python/env_config.py:9-55 | A missing file returns False and leaves the environment unchanged. Existing non-empty values survive any load. |
| EnvConfig.Missing | sdks/python/env_config.py:68-77 | The missing list holds exactly the listed names without a non-empty value. |
| EnvConfig.CheckRequiredEnvVars | sdks/python/env_config.py:58-91 | The check passes iff `DEEPGRAM_API_KEY` is set and non-empty. |
| EnvConfig.OptionalVarsIrrelevant | sdks/python/env_config.py:75-91 | Two environments that agree on whether `DEEPGRAM_API_KEY` is set get the same verdict, whatever their optional variables. |
| EnvConfig.SetupEnvironment | sdks/python/env_config.py:94-105 | The result is the required-variable check on the environment after loading, whatever the load returned. A key already set before loading always passes. |
| Transcribe.FromAlternatives | sdks/python/omi/transcribe.py:45-48 | The alternatives give text iff they are a non-empty list whose first entry is a dict with a string `transcript` that is not blank; the text is that transcript stripped, and stable under stripping. They raise iff they are not a non-empty list, the first entry is not a dict, or its `transcript` is truthy but not a string. |
| Transcribe.HandleMessage | sdks/python/omi/transcribe.py:38-60 | A message yields text iff it parsed, has the shape `{"channel": {"alternatives": [{"transcript": <string>}, ...]}}`, carries no "error" key, and its transcript is not blank. The text is then the stripped transcript, non-empty and stable under stripping. An object with "error" is a service error; unparsable input is a decode error. |
| Transcribe.ErrorWinsOverTranscript | sdks/python/omi/transcribe.py:40-42 | An object carrying "error" is skipped as a service error, even when it also carries a transcript. |
| Transcribe.MalformedNeverDelivered | sdks/python/omi/transcribe.py:45-60 | Unparsable input, a non-object, and an empty alternatives list never reach the callback. |
| Transcribe.DeliverTranscripts | sdks/python/omi/transcribe.py:47-55 | Each callback carries the text of a distinct message, in arrival order. Every message with text gets exactly one callback when a callback exists, none otherwise. A raising callback is recorded and the loop goes on. |
| Transcribe.ReceiveTranscripts | sdks/python/omi/transcribe.py:35-64 | Over the messages of a connection, the callbacks are exactly the non-blank transcripts, each once, in arrival order; malformed messages do not stop the loop. |
| Transcribe.SendAudio | sdks/python/omi/transcribe.py:20-33 | Chunks are sent in queue order. The first failing send stops the sender, and the chunk it was sending is lost while later chunks stay queued. With no failure, every chunk is sent. |
| Transcribe.Step | sdks/python/omi/transcribe.py:11-76 | A transition sleeps 5 seconds iff a connect or the connection block raised. Statuses emitted when leaving Connecting start with "Connecting". Returning to Connecting emits nothing. |
| Transcribe.NoFinalPhase | sdks/python/omi/transcribe.py:11 | Every phase of the loop has a next step, so the loop never ends on its own. |
| Transcribe.RunSleepsIffRaised | sdks/python/omi/transcribe.py:11-76 | A run of the loop sleeps the retry delay at some point iff one of its events is a failed connect or an exception escaping the connection block. |
| Transcribe.RunAppend | sdks/python/omi/transcribe.py:11 | Running two event sequences in turn is running their concatenation: loop iterations compose. |
| Transcribe.AttemptRun | sdks/python/omi/transcribe.py:11-76 | Each kind of attempt (failed connect, normal exit, exception in the block) leads from Connecting back to Connecting. |
| Transcribe.AttemptCycle | sdks/python/omi/transcribe.py:12-18 | An attempt announces "Connecting" first and exactly once. It sleeps once iff it ended in an exception, and a normal exit emits no retry status. |
| Transcribe.LoopNeverGivesUp | sdks/python/omi/transcribe.py:11-76 | After any number of attempts the loop is back at Connecting. It has announced "Connecting" once per attempt and slept exactly once per attempt that ended in an exception. |

## Left out

- Native Opus decoding (opuslib and the DLL probe at import) is a foreign library. The decode call is an opaque function parameter, and the import-time probe is the boolean `opuslibAvailable`.
- Decoder.SynthSample: states the exact integer value of `int(((b1 + b2) / 2 - 128) * 100 * (abs(...) / 50.0))`. Python computes it in IEEE-754 doubles, and an inexact product can truncate one step toward zero (for example the payload `[0, 127, 127, 0]` at sample 13 gives -57 where the exact value is -58). Floating point is not modelled.
- The random draws of the noise branch are a parameter constrained to [-25, 25] per sample; no distribution is modelled.
- The websocket, httpx, the file system and the `asyncio.gather` concurrency are not modelled. Sender and receiver run one after the other over given event sequences. Cancellation and the logging prints are omitted.
- Transcribe.SendAudio: the wait on an empty queue is the end of the given chunks. A failing `audio_queue.get()` is not modelled.
- Transcribe.Step: the loop leaves a session only when both the sender and the receiver have finished. After the receiver ends on a closed connection, the sender stays blocked in `audio_queue.get()` until a chunk arrives, fails to send it and loses it. With no further audio the block never exits and the loop never reconnects. The model takes the end of a session as an event and does not model this wait.
- Transcribe.Step: a status callback that raises inside the retry handler ends `transcribe` with that exception; the model assumes status callbacks return.
- Memory.StoreLocally: an append is all or nothing in the model. In Python, a `write` or the flush on closing can fail after part of the entry reached the file, and a text-mode file on Windows writes each newline as "\r\n"; neither is modelled.
- `datetime.now().isoformat()` is a string parameter. Python's `repr` of the metadata dict, written into the local entry, is a function parameter.
- PyText.Lower: covers ASCII letters only; Python's full Unicode case mapping is not modelled.
- `json.loads` text parsing is not modelled. Messages arrive as decoded values, or `None` for a decode error. JSON numbers are decimals, and NaN or Infinity literals are not represented.
- EnvConfig.LoadLines: reading and decoding the file, and platform rules on environment names other than the NUL character (including Windows case-insensitivity), are not modelled.
- `init_memory_storage`, `cleanup_memory_storage` and `close` only construct or release the HTTP client; configuration is a parameter instead.
- The bounded frame queue, command-intent matching and per-command cooldown have no source and are not modelled.
