# Chat Hat: a verified model of the audio segmenter, wake-phrase gate, prompt builder and camera-frame parser

Chat Hat is a voice assistant worn as a hat. A microphone stream is cut into
50 ms analysis frames. A voice-activity segmenter groups those frames into
utterances, and each utterance goes to speech-to-text. A transcript that
contains a chat wake phrase ("chat", " hat ", ...) is routed in one of two
ways. If it also mentions the glasses, it toggles the glasses servo.
Otherwise it goes to a language model. The prompt sent to the model carries
two clauses: what the hat camera sees, and the user's upcoming calendar
events. The camera sends JPEG frames over a serial link, each wrapped as
follows:

- the marker `FF AA`;
- a 4-byte little-endian length;
- the payload;
- two trailer bytes.

An object detector's boxes are filtered by confidence and ranked, and at
most three labels are kept.

The project has six files, one module each:

- `wrappers.dfy` (`Wrappers`): the `Option` type and `Min`.
- `audio.dfy` (`Audio`):
  - the re-chunker and the segmenter as pure specifications (`Chunks`, `Remainder`, `Observe`, `Run`);
  - the class `AudioProcessor`, whose fields are the worker's accumulators and whose methods are proved against those specifications.
- `gate.dfy` (`Gate`): Python's `str.strip()`, `lower()` and substring `in`, and the dispatch decision `Dispatch`.
- `prompt.dfy` (`Prompt`): the clauses as string folds, and the method `BuildPrompt` with the source's `+=` loops.
- `framing.dfy` (`Framing`): the serial parser as methods over a byte sequence and a cursor. They are proved against the pure parser `ParseFrame`.
- `detection.dfy` (`Detection`):
  - the filtering loop;
  - a stable descending sort;
  - the top-three slice;
  - `run_detection`.

Three facts about the audio worker's constants and its minimum-length test:

- **Truncated constants.** `int()` truncates, and `1.2 / 0.05` is 23.999999999999996 in floating point, so 23 silent frames end an utterance (`SourceConfig`). At 16000 samples per second a 50 ms frame is 800 samples, and the minimum is 10 frames.
- **Minimum length.** The minimum is compared against the whole buffer, trailing silence included. With the worker's constants, every utterance that times out is therefore kept (`SourceKeepsEveryUtterance`).
- **Worked scenario.** 12 speech frames (0.6 s) followed by 26 silent ones (1.3 s) yield one segment of 12 + 23 = 35 frames (`SourceScenario`).

## Model

| member | source | states |
|---|---|---|
| Audio.ConcatLength | main.py:118 | Concatenating whole frames gives frame_size samples per frame. |
| Audio.RechunkConserves | main.py:100-102 | Cut frames followed by the carried remainder give back the buffer exactly (nothing lost or reordered); every cut frame is frame_size long; less than one frame is carried forward. |
| Audio.RechunkSplit | main.py:97-102 | Cutting samples delivered in two parts gives the same frames, and the same remainder, as cutting them delivered at once. |
| Audio.ObserveKeepsInvariant | main.py:86-123 | Every transition keeps the state invariant: idle means an empty buffer and a zero counter; speaking means a non-empty buffer with a silence count below the limit; every buffered frame is whole. |
| Audio.IdleIgnoresSilence | main.py:111-112 | A silent frame while idle changes nothing and emits nothing. |
| Audio.SpeechFrameAppends | main.py:105-110 | A speech frame sets speaking, appends the frame, resets the silence count and emits nothing. |
| Audio.SilenceWhileSpeaking | main.py:112-116 | A silent frame while speaking is appended and the count grows by one; the segmenter returns to idle exactly when the count reaches the limit. |
| Audio.FinalizeEmits | main.py:116-123 | A segment is emitted iff a speaking segmenter times out with at least min_speech_frames frames (trailing silence included); it is every frame of the utterance in order, frame_size × frames samples long, hence at least frame_size × min_speech_frames. |
| Audio.FinalizedAlwaysEmitted | main.py:114-119 | When the silence limit is at least the minimum, every finished utterance is emitted. |
| Audio.RunAppend | main.py:100-123 | Processing two frame streams one after the other equals processing their concatenation (final state and emitted segments). |
| Audio.RunKeepsInvariant | main.py:100-123 | Over any stream of whole frames the invariant holds at the end and every emitted segment has at least min_speech_frames frames' worth of samples. |
| Audio.SilenceFromIdle | main.py:111-112 | An all-silence stream from idle emits nothing and stays idle. |
| Audio.SpeechRun | main.py:105-110 | A run of speech frames only accumulates: buffer extended by the run, count zero, nothing emitted. |
| Audio.SilenceCountdown | main.py:112-123 | From k trailing silent frames, exactly limit − k more silent frames end the utterance, emitting buffer plus silence iff long enough. |
| Audio.SilencePause | main.py:111-116 | A pause that keeps the silence run below the limit is appended and counted, and the utterance goes on with nothing emitted. |
| Audio.PausedUtteranceScenario | main.py:105-123 | From idle, speech, a pause shorter than the limit, more speech and exactly limit silent frames yield one segment holding every frame since the utterance began, pause included, iff long enough, else none; ends idle. |
| Audio.UtteranceScenario | main.py:105-123 | From idle, speech then at least limit silent frames yields exactly one segment (speech plus silence up to the timeout) iff speech + limit ≥ minimum, else none; ends idle. |
| Audio.SourceScenario | main.py:91-123 | With the worker's constants (800, 23, 10), 12 speech frames then 26 silent ones emit one segment of the 12 + 23 frames, 35 × 800 samples. |
| Audio.SourceKeepsEveryUtterance | main.py:91-92 | With the worker's constants any non-empty speech run followed by a timeout emits exactly one segment. |
| Audio.AudioProcessor.constructor | main.py:87-94 | The worker starts idle with an empty carried buffer. |
| Audio.AudioProcessor.ObserveFrame | main.py:105-123 | The in-place update of speaking, speech_buffer and silence_frames for one frame is exactly the transition function, and keeps the invariant. |
| Audio.AudioProcessor.Drain | main.py:97-98 | Every delivered block is appended to leftover in delivery order. |
| Audio.AudioProcessor.CutFrames | main.py:100-123 | The cutting loop leaves the remainder of leftover, and its state and emitted segments are those of running the segmenter over the cut frames. |
| Audio.AudioProcessor.Feed | main.py:96-123 | One pass of the worker: leftover becomes the remainder of old leftover plus arrivals; the new state and emitted segments are the run over the frames cut from them; less than a frame is carried. |
| Gate.TrimLeft | main.py:131 | Drops a whitespace-only prefix, leaving a suffix that does not start with whitespace. |
| Gate.TrimRight | main.py:131 | Drops a whitespace-only suffix, leaving a prefix that does not end with whitespace. |
| Gate.Strip | main.py:131 | The stripped text neither starts nor ends with whitespace, and is empty iff the transcript is all whitespace. |
| Gate.TrimLeftPadding | main.py:131 | Leading whitespace in front of a text that starts with a non-space is exactly what is dropped. |
| Gate.TrimRightPadding | main.py:131 | Trailing whitespace after a text that ends with a non-space is exactly what is dropped. |
| Gate.StripPadded | main.py:131 | Stripping removes whitespace padding from both ends and nothing else. |
| Gate.LowerCharKeepsSpace | main.py:131-136 | Lower-casing a character neither creates nor removes whitespace. |
| Gate.TrimLeftLower | main.py:131-136 | Lower-casing commutes with dropping leading whitespace. |
| Gate.TrimRightLower | main.py:131-136 | Lower-casing commutes with dropping trailing whitespace. |
| Gate.StripLower | main.py:131-136 | Stripping then lower-casing equals lower-casing then stripping. |
| Gate.SameRouteUpToCase | main.py:131-141 | Transcripts equal up to ASCII case take the same route (ignore, toggle or query), and their queries carry texts equal up to case. |
| Gate.ContainsIff | main.py:136 | The substring scan succeeds iff the pattern occurs at some position. |
| Gate.AnyTriggerIff | main.py:136-137 | "Some trigger in text" holds iff some trigger occurs at some position. |
| Gate.GateRoutes | main.py:131-141 | Both directions: dispatch happens iff the stripped text is non-empty and its lower-case form contains a chat trigger; toggle iff additionally a glasses trigger occurs; query iff not; the query carries the stripped original-case text. |
| Gate.GlassesAloneIgnored | main.py:136-138 | Without a chat trigger nothing is dispatched, whatever glasses triggers occur. |
| Gate.ChatTriggersNeedH | main.py:52 | No chat trigger occurs in a text without an 'h' or 'H'. |
| Gate.GlassesPhraseAloneExample | main.py:131-141 | With the real trigger lists, "Glasses up, please." is ignored. |
| Gate.LowerExample | main.py:136 | Lower-casing makes "CHAT" match "chat". |
| Gate.CaseInsensitiveExample | main.py:131-141 | An upper-case wake phrase with padding dispatches a query of the stripped, original-case text. |
| Prompt.ObjectListAppend | main.py:175-176 | The object mentions of two lists concatenate. |
| Prompt.EventListAppend | main.py:186-187 | The event entries of two lists concatenate. |
| Prompt.ObjectsInOrder | main.py:175-176 | Each object appears as "a obj " between the mentions of the objects before it and after it. |
| Prompt.EventsInOrder | main.py:186-187 | Each event appears as "event, " between the events before it and after it. |
| Prompt.SightCases | main.py:172-177 | The sight clause is the "cannot see" sentence iff there are no objects; otherwise it starts with the "you see" prefix and ends with ". ". |
| Prompt.CalendarCases | main.py:183-187 | The calendar clause is the "no access" sentence iff there are no events; otherwise it starts with the "the user has" prefix. |
| Prompt.BuildPrompt | main.py:172-189 | The += loops build exactly instruction + sight clause + calendar clause + lead-in + text. |
| Framing.Read | detection_utils.py:17 | One read returns the next min(k, remaining) bytes. |
| Framing.ReadExact | detection_utils.py:14-21 | Exactly the next n bytes (empty for n = 0) with the cursor after them, or None with the stream exhausted when fewer remain. |
| Framing.MarkerEnd | detection_utils.py:31-36 | A found marker position is preceded by FF AA. |
| Framing.ScanForMarker | detection_utils.py:31-36 | The marker loop stops just after the first FF AA the scan recognises, or reports none with the stream exhausted. |
| Framing.LittleEndian32 | detection_utils.py:42 | The length field is an unsigned 32-bit value. |
| Framing.EncodeLittleEndian32 | detection_utils.py:42 | Every 32-bit length has a 4-byte encoding that decodes back to it. |
| Framing.GrabFrame | detection_utils.py:25-53 | The cursor-based grabber returns exactly what the pure parser specifies: payload or None, and the cursor position. |
| Framing.ScanSkipsNoise | detection_utils.py:31-34 | Bytes other than FF are skipped one at a time. |
| Framing.RoundTrip | detection_utils.py:31-50 | Noise without FF, then marker, LE32 length, non-empty payload and any two trailer bytes parse back to the payload, consuming everything. |
| Framing.SwallowedMarker | detection_utils.py:35 | In FF FF AA the second FF is consumed with the first, so no marker is found there. |
| Framing.ZeroLengthRejected | detection_utils.py:44-46 | A declared length of zero yields no frame. |
| Framing.ParseSound | detection_utils.py:31-48 | A returned payload is non-empty and framed by a marker and a length field announcing its size; a stream without FF yields nothing. |
| Detection.KeptExactly | detection_utils.py:76-92 | Both directions: a detection is kept exactly for each box at or above the threshold, named by its class; none is kept iff every box is below it. |
| Detection.KeptAppend | detection_utils.py:78-85 | Filtering distributes over concatenation of box lists. |
| Detection.SortDescCorrect | detection_utils.py:95 | The sort is a non-increasing permutation of its input, and it keeps input order among equal confidences. |
| Detection.TopAreHighest | detection_utils.py:95-96 | The top slice has min(3, kept) detections in non-increasing order, drawn from the kept ones, and none left out outranks any of them. |
| Detection.TopLabelsFromBoxes | detection_utils.py:69-114 | At most three labels; none iff no box reaches the threshold; each is the class name of a box at or above the threshold. |
| Detection.Detect | detection_utils.py:63-120 | The filtering loop, early returns, sort, slice and comprehension return the specified top labels, min(3, kept) of them. |
| Detection.RunDetection | main.py:215-226 | No frame from the camera gives no labels; otherwise the labels detect returns for the detector's boxes. |

## Left out

- Threads, queues and polling are not modelled: the queues, the daemon threads, the fire-and-forget thread spawns and the `time.sleep` loops. One call of `AudioProcessor.Feed` is one pass of the audio worker's outer loop. The blocks that arrived since the last pass are its argument. Each segment it returns stands for one put on the transcription queue.
- Loudness classification (the RMS in `is_speech`) is floating-point work. The classifier is the abstract function `isSpeech`.
- Channel averaging is not modelled. The stream is mono, so a row of a captured block is one sample, modelled as a `real`.
- The derived constants are parameters of `Config`. The worker's truncated values appear only in `SourceConfig`.
- Speech-to-text, the language-model request, text-to-speech, the object detector's inference, `cv2.imdecode`, box drawing and display windows are foreign libraries or UI. Transcripts, detector boxes and the class-name table are inputs. Decoding the payload into an image is not modelled, so a payload that fails to decode is treated as a frame.
- Audio device discovery and stream setup are device I/O and are not modelled.
- The serial drain at the start of `grab_frame` is I/O. The parser starts from the fresh byte sequence, and the end of that sequence stands for the read timeout.
- `toggle_glasses` is servo actuation and is not modelled. The gate's `ToggleGlasses` action stands for starting it.
- The `HAT_ATTATCHED` and `G_CAL` switches, and calendar retrieval, are left out. The detected objects and the event summaries are parameters of `BuildPrompt`.
- The other files are hardware scripts, calendar API glue or display loops: `esp_32_utils.py`, `g_cal.py`, `camera_test.py`, `gps_test.py`, `servo_test.py`, `glasses_down.py`.
- Gate.Lower: lower-cases ASCII letters only, because Unicode case mapping is not modelled.
- Detection.Detect: confidences are exact reals, so 0.4 is exact and there is no NaN. Boxes are a sequence, so a missing box list (`None`) is the empty sequence.
- Detection.Detect: requires every box at or above the threshold to have its class index in the name table. The detector's table covers all its classes, and a missing index would raise an exception in the source rather than return.
- Detection.RunDetection: its labels do not depend on the payload bytes, because the detector is abstract.
