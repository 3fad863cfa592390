/**
 The per-connection event handler: a two-state machine over the WAV buffer
 (no buffer open, or recording with a fixed format and the bytes written so
 far) that answers one inbound event at a time.
 */
module Handler {
  import opened Events

  /** The handler's WAV buffer. `Recording` is an open buffer whose format was
      set when it was opened and whose frames are the bytes appended since. */
  datatype Buffer = NoBuffer | Recording(format: Format, audio: seq<byte>)

  /** The handler's state: the info event cached at construction and the
      buffer. */
  datatype Handler = Handler(infoEvent: Info, wav: Buffer)

  /** The failed assertion raised by a stop that finds no open buffer. */
  datatype HandlerError = StopWithoutAudio

  datatype Result<T> = Ok(value: T) | Err(error: HandlerError)

  /** What one handled event produces: the next state, the replies written,
      the recogniser calls made (in order) and whether handling continues. */
  datatype Step = Step(handler: Handler, replies: seq<Reply>, calls: seq<Request>, keepGoing: bool)

  /** The bytes held by a buffer; none when no buffer is open. */
  function Contents(b: Buffer): seq<byte>
  {
    if b.Recording? then b.audio else []
  }

  /** A freshly constructed handler: no buffer is open yet and the info event
      is the one handed over by the bootstrap. */
  function New(info: Info): (h: Handler)
    ensures h.wav.NoBuffer?
    ensures h.infoEvent == info
  {
    Handler(info, NoBuffer)
  }

  /** Handles one event. `recognize` is the speech recogniser, applied to the
      finalised recording. */
  function HandleEvent(h: Handler, e: Event, recognize: Request -> string): (r: Result<Step>)
    // The only failure is a stop that finds no open buffer.
    ensures r.Err? <==> e.AudioStop? && h.wav.NoBuffer?
    // The info event is never replaced.
    ensures r.Ok? ==> r.value.handler.infoEvent == h.infoEvent
    // Handling goes on after every event except a stop.
    ensures r.Ok? ==> (r.value.keepGoing <==> !e.AudioStop?)
    // A chunk opens the buffer if needed, keeps its format and appends its bytes, silently.
    ensures e.AudioChunk? ==>
              && r.Ok?
              && r.value.handler.wav.Recording?
              && r.value.handler.wav.format == (if h.wav.Recording? then h.wav.format else e.format)
              && r.value.handler.wav.audio == Contents(h.wav) + e.audio
              && r.value.replies == []
              && r.value.calls == []
    // A stop on an open buffer closes it, calls the recogniser once on exactly
    // the buffered format and bytes, and writes one transcript of that call.
    ensures e.AudioStop? && h.wav.Recording? ==>
              && r.Ok?
              && r.value.handler.wav.NoBuffer?
              && r.value.calls == [Request(h.wav.format, h.wav.audio)]
              && r.value.replies == [Transcript(recognize(r.value.calls[0]))]
    // Describe replies with the cached info event whatever the buffer holds.
    ensures e.Describe? ==> r == Ok(Step(h, [InfoReply(h.infoEvent)], [], true))
    // Every other event, AudioStart included, changes nothing and writes nothing.
    ensures e.AudioStart? || e.Transcribe? || e.Other? ==> r == Ok(Step(h, [], [], true))
  {
    match e
    case AudioChunk(format, audio) =>
      var open := if h.wav.NoBuffer? then Recording(format, []) else h.wav;
      Ok(Step(h.(wav := open.(audio := open.audio + audio)), [], [], true))
    case AudioStop =>
      if h.wav.NoBuffer? then
        Err(StopWithoutAudio)
      else
        var request := Request(h.wav.format, h.wav.audio);
        var text := recognize(request);
        Ok(Step(h.(wav := NoBuffer), [Transcript(text)], [request], false))
    case Transcribe(_, _) =>
      Ok(Step(h, [], [], true))
    case Describe =>
      Ok(Step(h, [InfoReply(h.infoEvent)], [], true))
    case _ =>
      Ok(Step(h, [], [], true))
  }

  /** Describe answers identically in every state of every handler built from
      the same info event, and leaves the state as it was. */
  lemma DescribeIsStateIndependent(h1: Handler, h2: Handler, recognize1: Request -> string, recognize2: Request -> string)
    requires h1.infoEvent == h2.infoEvent
    ensures HandleEvent(h1, Describe, recognize1).Ok?
    ensures HandleEvent(h1, Describe, recognize1).value.handler == h1
    ensures HandleEvent(h1, Describe, recognize1).value.replies
         == HandleEvent(h2, Describe, recognize2).value.replies
  {
  }
}
