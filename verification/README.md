# Wyoming GigaAM-CTC session handler, modelled in Dafny

This project models the per-connection event handler of the Wyoming speech-to-text
server for the GigaAM CTC model (`GigaAMCTCEventHandler`). A client streams Wyoming
events. The handler buffers the audio of one utterance in a WAV file. On `audio-stop`
it runs the speech recogniser once and writes back one `transcript` event. Then it ends
the connection's handling.

The handler is a two-state machine over its WAV buffer:

- no buffer is open (`NoBuffer`), or
- a buffer is open (`Recording(format, audio)`). Its format `(rate, width, channels)`
  is set when the buffer is opened. `audio` holds the bytes written so far.

Files:

- `events.dfy` (module `Events`): bytes, the audio `Format`, inbound `Event`s, outbound
  `Reply`s, the opaque `Info` descriptor, and the `Request` the recogniser receives
  (the finalised format and bytes).
- `handler.dfy` (module `Handler`): the handler state, construction (`New`) and the
  dispatch step `HandleEvent`. The step returns the next state, the replies written,
  the recogniser calls made and the keep-going flag, or the `StopWithoutAudio` error.
- `session.dfy` (module `Session`): `Run` feeds a stream of events to the handler the
  way the connection's read loop does. It stops after the first step that returns false
  and at the first error. The module also holds reference definitions of what a stream
  carries (`ChunkAudio`, `FirstChunkFormat`, `DescribeCount`, `Buffered`) and the trace
  lemmas that connect `Run` to them.

The recogniser (`model.transcribe`) is an uninterpreted parameter
`recognize: Request -> string`. The descriptor that the bootstrap builds in
`wyoming_giga_am_ctc/__main__.py` enters only as an opaque `Info` value handed to `New`.

The model follows what the code does. In several places this differs from what a
session protocol of this kind might be expected to do:

- `audio-start` is not handled. It falls through to the final `return True`. The buffer
  is opened lazily by the first `audio-chunk`, with that chunk's format. A later
  chunk's format fields are ignored.
- `audio-stop` with no open buffer fails the `assert`. It is modelled as the error
  result `Err(StopWithoutAudio)`, and `Run` ends with `Failed`. No failure transcript is
  written, and the session does not go on.
- After a transcript the handler returns false. The session ends; it does not go back
  to idle for another utterance.
- There is no model-selection state. `transcribe` events are parsed and ignored.
- Recogniser errors are not caught.

## Model

| member | source | states |
|---|---|---|
| Handler.New | wyoming_giga_am_ctc/handler.py:34-40 | A new handler has no WAV buffer open, and its cached info event is the one built from the descriptor it was given. |
| Handler.HandleEvent | wyoming_giga_am_ctc/handler.py:42-82 | One event. The step fails exactly on a stop with no open buffer. A chunk opens the buffer with its own format if none is open and keeps an open buffer's format. It appends its bytes and writes nothing. A stop on an open buffer closes it and calls the recogniser once on exactly the buffered format and bytes. It writes one transcript of that result and returns false. Describe writes the cached info event and changes nothing. AudioStart, Transcribe and every other event change nothing, write nothing and return true. The info event is never replaced. |
| Handler.DescribeIsStateIndependent | wyoming_giga_am_ctc/handler.py:77-80 | Describe gets the same reply from any two handlers built with the same info event, whatever their buffers hold and whatever the recogniser. It leaves the state unchanged. |
| Session.RunEndsAtFirstStop | wyoming_giga_am_ctc/handler.py:55-71 | A session keeps reading exactly as long as no stop has arrived. Once it ends, it has read up to and including the first stop and nothing after it. |
| Session.RunKeepsInfo | wyoming_giga_am_ctc/handler.py:35-80 | Over any event stream, the info event built at construction is never replaced. Every info reply the session writes is that event. |
| Session.RunOneTranscript | wyoming_giga_am_ctc/handler.py:55-71 | Over any event stream, the recogniser is called exactly once if the session finished and never otherwise. A finished session's last reply is the only transcript, and it carries the result of that one call. A session that has not finished has written no transcript. |
| Session.Accumulate | wyoming_giga_am_ctc/handler.py:43-53 | Before any stop, the handler writes only the info replies for the Describe events and calls no recogniser. Its buffer is unchanged if no chunk arrived. Otherwise the buffer is open with its earlier format, or else the first chunk's format. It holds the earlier bytes followed by every chunk's payload in arrival order. |
| Session.Utterance | wyoming_giga_am_ctc/handler.py:43-71 | For any start state, a stop-free prefix, a stop and any suffix: if the prefix left a buffer open, the session finishes after the stop. Its replies are the prefix's info replies followed by one transcript of the recogniser's result on exactly the buffered recording, which was the only call. Otherwise the session fails at the stop with no call and no transcript. The suffix is never read. |
| Session.FreshUtterance | wyoming_giga_am_ctc/handler.py:40-71 | From a new handler, the recogniser receives the first chunk's format and the concatenation of all chunk payloads before the stop, in arrival order. The client gets one info reply per Describe and then exactly one transcript, and the handler is back to no buffer. A stop before any chunk fails with no recogniser call. |
| Session.TestExchange | tests/test_giga_am_ctc.py:42-87 | The integration test's exchange is Describe, Transcribe naming a model, AudioStart, the chunks of a recording, then AudioStop. For it the session finishes with exactly two replies: the info event, then the transcript of the recogniser run once on the chunks' format and concatenated payloads. |

## Left out

- The `asyncio.Lock` around the recogniser call (wyoming_giga_am_ctc/handler.py:62) and concurrent sessions are concurrency, so they are not modelled. The model records only that the one call happens during the stop step.
- WAV container encoding, the temporary directory and file path, and reopening the file for writing are not modelled. The buffer is a format plus a byte sequence, which is what the recogniser reads back.
- Any checks the `wave` library makes on the rate, width and channel values are not modelled, because that library is not part of this model. Every format is accepted.
- The recognition model is an uninterpreted function. Exceptions it might raise are not modelled.
- `write_event` and the transport are not modelled. Replies are a list of abstract events, in the order written.
- Logging is not modelled, because it has no effect on the protocol.
- Parsing a malformed `transcribe` event is not modelled. A `transcribe` event is always ignored.
- The read loop that calls `handle_event` comes from the Wyoming library, which is not part of this model. `Run` assumes that loop stops after a false return or an exception, and only that.
- Session.Run: its own contract only bounds the number of events consumed. Its behaviour is stated by the `Run…`, `Accumulate` and `Utterance` lemmas.
- wyoming_giga_am_ctc/__main__.py is not part of this model. That covers argument parsing, model download and loading, the NeMo/torchaudio preprocessor subclasses, and server start-up. The descriptor it builds enters only as the opaque `Info`.
