/**
 A connection's whole life: the handler fed one inbound event after another
 until it asks to stop (after a transcript) or fails (a stop with no audio),
 and what the client sees and the recogniser is asked along the way.
 */
module Session {
  import opened Events
  import opened Handler

  /** How handling of a connection ended: still reading events, ended by the
      handler after a transcript, or aborted by the handler's error. */
  datatype Status = Listening | Finished | Failed(error: HandlerError)

  /** The outcome of handling a stream of events: the final state, all replies
      and recogniser calls in order, and how many events were consumed. */
  datatype Session = Session(handler: Handler, replies: seq<Reply>, calls: seq<Request>, consumed: nat, status: Status)

  /** No event of the stream is a stop. */
  predicate NoStop(events: seq<Event>)
  {
    forall i :: 0 <= i < |events| ==> !events[i].AudioStop?
  }

  /** The payloads of the stream's audio chunks, concatenated in arrival order. */
  function ChunkAudio(events: seq<Event>): seq<byte>
  {
    if |events| == 0 then []
    else (if events[0].AudioChunk? then events[0].audio else []) + ChunkAudio(events[1..])
  }

  /** The format of the stream's first audio chunk, if there is one. */
  function FirstChunkFormat(events: seq<Event>): Option<Format>
  {
    if |events| == 0 then None
    else if events[0].AudioChunk? then Some(events[0].format)
    else FirstChunkFormat(events[1..])
  }

  /** The number of Describe events in the stream. */
  function DescribeCount(events: seq<Event>): nat
  {
    if |events| == 0 then 0
    else (if events[0].Describe? then 1 else 0) + DescribeCount(events[1..])
  }

  /** `n` copies of the info reply. */
  function InfoReplies(n: nat, info: Info): seq<Reply>
  {
    seq(n, _ => InfoReply(info))
  }

  /** The buffer that results from `b` after a stream with no stop: unchanged
      if the stream has no chunk; otherwise open, with the format it already
      had or else the first chunk's, and every chunk's bytes appended in order. */
  function Buffered(b: Buffer, events: seq<Event>): Buffer
  {
    match FirstChunkFormat(events)
    case None => b
    case Some(first) =>
      Recording(if b.Recording? then b.format else first, Contents(b) + ChunkAudio(events))
  }

  /** Handles `events` in order, starting from `h`, the way the connection's
      read loop drives the handler: it stops after the first event whose
      handling returns false and at the first failure. */
  function Run(h: Handler, events: seq<Event>, recognize: Request -> string): (s: Session)
    ensures s.consumed <= |events|
    decreases |events|
  {
    if |events| == 0 then
      Session(h, [], [], 0, Listening)
    else
      match HandleEvent(h, events[0], recognize)
      case Err(error) =>
        Session(h, [], [], 1, Failed(error))
      case Ok(step) =>
        if !step.keepGoing then
          Session(step.handler, step.replies, step.calls, 1, Finished)
        else
          var rest := Run(step.handler, events[1..], recognize);
          Session(rest.handler, step.replies + rest.replies, step.calls + rest.calls, 1 + rest.consumed, rest.status)
  }

  /** Handling ends early exactly when a stop arrives, and right after the
      first one: a session still listening has read every event, and one that
      ended has read up to and including the first stop and no further. */
  lemma {:induction false} RunEndsAtFirstStop(h: Handler, events: seq<Event>, recognize: Request -> string)
    ensures var s := Run(h, events, recognize);
            && (s.status.Listening? <==> NoStop(events))
            && (s.status.Listening? ==> s.consumed == |events|)
            && (!s.status.Listening? ==>
                  && 0 < s.consumed
                  && events[s.consumed - 1].AudioStop?
                  && NoStop(events[..s.consumed - 1]))
    decreases |events|
  {
    if |events| > 0 {
      var r := HandleEvent(h, events[0], recognize);
      if r.Ok? && r.value.keepGoing {
        var tail := events[1..];
        RunEndsAtFirstStop(r.value.handler, tail, recognize);
        var rest := Run(r.value.handler, tail, recognize);
        assert NoStop(events) <==> NoStop(tail) by {
          assert forall i :: 0 < i < |events| ==> events[i] == tail[i - 1];
        }
        if !rest.status.Listening? {
          assert events[..rest.consumed] == [events[0]] + tail[..rest.consumed - 1];
        }
      }
    }
  }

  /** The info event cached at construction is never replaced, and every info
      reply of a session is that event. */
  lemma {:induction false} RunKeepsInfo(h: Handler, events: seq<Event>, recognize: Request -> string)
    ensures var s := Run(h, events, recognize);
            && s.handler.infoEvent == h.infoEvent
            && forall i :: 0 <= i < |s.replies| && s.replies[i].InfoReply? ==> s.replies[i].info == h.infoEvent
    decreases |events|
  {
    if |events| > 0 {
      var r := HandleEvent(h, events[0], recognize);
      if r.Ok? && r.value.keepGoing {
        RunKeepsInfo(r.value.handler, events[1..], recognize);
      }
    }
  }

  /** A session asks the recogniser once if it ended with a transcript and
      never otherwise; it then writes exactly one transcript, as its last
      reply, carrying the result of that one call. */
  lemma {:induction false} RunOneTranscript(h: Handler, events: seq<Event>, recognize: Request -> string)
    ensures var s := Run(h, events, recognize);
            && |s.calls| == (if s.status.Finished? then 1 else 0)
            && (s.status.Finished? ==> 0 < |s.replies| && s.replies[|s.replies| - 1].Transcript?)
            && forall i :: 0 <= i < |s.replies| && s.replies[i].Transcript? ==>
                 && i == |s.replies| - 1
                 && s.status.Finished?
                 && s.replies[i].text == recognize(s.calls[0])
    decreases |events|
  {
    if |events| > 0 {
      var r := HandleEvent(h, events[0], recognize);
      if r.Ok? && r.value.keepGoing {
        RunOneTranscript(r.value.handler, events[1..], recognize);
      }
    }
  }

  /** A stream without chunks carries no audio. */
  lemma {:induction false} NoChunkNoAudio(events: seq<Event>)
    requires FirstChunkFormat(events).None?
    ensures ChunkAudio(events) == []
    decreases |events|
  {
    if |events| > 0 {
      NoChunkNoAudio(events[1..]);
    }
  }

  /** How one event that is not a stop moves the buffer a stop-free stream
      leads to: a chunk opens (or keeps) the buffer and appends its bytes,
      anything else leaves the buffer alone. */
  lemma BufferedCons(b: Buffer, events: seq<Event>)
    requires 0 < |events|
    ensures var e := events[0];
            (Buffered(b, events)
               == if e.AudioChunk?
                  then Buffered(Recording(if b.Recording? then b.format else e.format, Contents(b) + e.audio), events[1..])
                  else Buffered(b, events[1..]))
  {
    var e := events[0];
    var rest := events[1..];
    if e.AudioChunk? {
      var format := if b.Recording? then b.format else e.format;
      if FirstChunkFormat(rest).None? {
        NoChunkNoAudio(rest);
        assert Contents(b) + e.audio + ChunkAudio(rest) == Contents(b) + e.audio;
      }
      assert Contents(b) + e.audio + ChunkAudio(rest) == Contents(b) + (e.audio + ChunkAudio(rest));
    } else {
      assert ChunkAudio(events) == [] + ChunkAudio(rest) == ChunkAudio(rest);
    }
  }

  /** Until a stop arrives the handler writes nothing but info replies, calls
      no recogniser and keeps reading; its buffer is opened by the first chunk
      with that chunk's format and holds every chunk's bytes in arrival order. */
  lemma {:induction false} Accumulate(h: Handler, events: seq<Event>, recognize: Request -> string)
    requires NoStop(events)
    ensures Run(h, events, recognize)
         == Session(h.(wav := Buffered(h.wav, events)), InfoReplies(DescribeCount(events), h.infoEvent), [], |events|, Listening)
    decreases |events|
  {
    if |events| == 0 {
      assert InfoReplies(0, h.infoEvent) == [];
    } else {
      var e := events[0];
      var rest := events[1..];
      assert !e.AudioStop?;
      assert NoStop(rest) by {
        assert forall i :: 0 <= i < |rest| ==> rest[i] == events[i + 1];
      }
      var step := HandleEvent(h, e, recognize).value;
      var tail := Run(step.handler, rest, recognize);
      assert Run(h, events, recognize)
          == Session(tail.handler, step.replies + tail.replies, step.calls + tail.calls, 1 + tail.consumed, tail.status);
      Accumulate(step.handler, rest, recognize);
      BufferedCons(h.wav, events);
      var n := DescribeCount(rest);
      if e.Describe? {
        assert InfoReplies(1 + n, h.infoEvent) == [InfoReply(h.infoEvent)] + InfoReplies(n, h.infoEvent);
      }
    }
  }

  /** The session a continuing step and the rest of the stream make together. */
  function Continue(step: Step, rest: Session): Session
  {
    Session(rest.handler, step.replies + rest.replies, step.calls + rest.calls, 1 + rest.consumed, rest.status)
  }

  /** An event that lets handling go on is followed by handling the rest of
      the stream from the state it leaves. */
  lemma RunCons(h: Handler, events: seq<Event>, recognize: Request -> string)
    requires 0 < |events|
    requires !events[0].AudioStop?
    ensures HandleEvent(h, events[0], recognize).Ok?
    ensures var step := HandleEvent(h, events[0], recognize).value;
            Run(h, events, recognize) == Continue(step, Run(step.handler, events[1..], recognize))
  {
  }

  /** The session that a stop-free prefix followed by a stop leaves, starting
      from `h`: the prefix's info replies, then either the transcript of the
      buffered recording (with the recogniser called once on it) or, with
      nothing buffered, the failure. */
  function UtteranceSession(h: Handler, pre: seq<Event>, recognize: Request -> string): Session
  {
    var b := Buffered(h.wav, pre);
    var infos := InfoReplies(DescribeCount(pre), h.infoEvent);
    if b.Recording? then
      var request := Request(b.format, b.audio);
      Session(h.(wav := NoBuffer), infos + [Transcript(recognize(request))], [request], |pre| + 1, Finished)
    else
      Session(h, infos, [], |pre| + 1, Failed(StopWithoutAudio))
  }

  /** How the first event of a stop-free prefix contributes to the utterance
      it belongs to: its own step, then the utterance of the rest from the
      state that step leaves. */
  lemma UtteranceSessionCons(h: Handler, pre: seq<Event>, recognize: Request -> string)
    requires 0 < |pre| && !pre[0].AudioStop?
    ensures HandleEvent(h, pre[0], recognize).Ok?
    ensures var step := HandleEvent(h, pre[0], recognize).value;
            UtteranceSession(h, pre, recognize) == Continue(step, UtteranceSession(step.handler, pre[1..], recognize))
  {
    var e := pre[0];
    var rest := pre[1..];
    var step := HandleEvent(h, e, recognize).value;
    BufferedCons(h.wav, pre);
    assert Buffered(h.wav, pre) == Buffered(step.handler.wav, rest);
    var n := DescribeCount(rest);
    var infos := InfoReplies(n, h.infoEvent);
    if e.Describe? {
      assert InfoReplies(1 + n, h.infoEvent) == step.replies + infos;
      if Buffered(h.wav, pre).Recording? {
        var t := UtteranceSession(step.handler, rest, recognize).replies[n];
        assert step.replies + (infos + [t]) == step.replies + infos + [t];
      }
    } else {
      assert step.replies == [];
    }
  }

  /** One utterance: whatever precedes the first stop only buffers audio and
      answers Describe; the stop then either hands the buffered recording to
      the recogniser once and ends with its transcript, or, with nothing
      buffered, fails. Events after the stop are never read. */
  lemma {:induction false} Utterance(h: Handler, pre: seq<Event>, post: seq<Event>, recognize: Request -> string)
    requires NoStop(pre)
    ensures Run(h, pre + [AudioStop] + post, recognize) == UtteranceSession(h, pre, recognize)
    decreases |pre|
  {
    var whole := pre + [AudioStop] + post;
    if |pre| == 0 {
      assert whole[0] == AudioStop;
      assert InfoReplies(0, h.infoEvent) == [];
    } else {
      var rest := pre[1..];
      assert !pre[0].AudioStop?;
      assert NoStop(rest) by {
        assert forall i :: 0 <= i < |rest| ==> rest[i] == pre[i + 1];
      }
      assert whole[0] == pre[0];
      assert whole[1..] == rest + [AudioStop] + post;
      var step := HandleEvent(h, pre[0], recognize).value;
      RunCons(h, whole, recognize);
      Utterance(step.handler, rest, post, recognize);
      UtteranceSessionCons(h, pre, recognize);
    }
  }

  /** From a freshly constructed handler: the recogniser receives exactly the
      first chunk's format and every chunk's bytes in arrival order, and the
      client gets one info reply per Describe followed by exactly one
      transcript; a stop before any chunk fails without calling the recogniser. */
  lemma FreshUtterance(info: Info, pre: seq<Event>, post: seq<Event>, recognize: Request -> string)
    requires NoStop(pre)
    ensures var s := Run(New(info), pre + [AudioStop] + post, recognize);
            var infos := InfoReplies(DescribeCount(pre), info);
            && (FirstChunkFormat(pre).Some? ==>
                  var request := Request(FirstChunkFormat(pre).value, ChunkAudio(pre));
                  s == Session(New(info), infos + [Transcript(recognize(request))], [request], |pre| + 1, Finished))
            && (FirstChunkFormat(pre).None? ==>
                  s == Session(New(info), infos, [], |pre| + 1, Failed(StopWithoutAudio)))
  {
    Utterance(New(info), pre, post, recognize);
    assert Contents(NoBuffer) + ChunkAudio(pre) == ChunkAudio(pre);
  }

  /** One audio chunk event per payload, all in format `f`. */
  function Chunks(f: Format, payloads: seq<seq<byte>>): seq<Event>
  {
    seq(|payloads|, i requires 0 <= i < |payloads| => AudioChunk(f, payloads[i]))
  }

  /** The payloads concatenated in order. */
  function Flatten(payloads: seq<seq<byte>>): seq<byte>
  {
    if |payloads| == 0 then [] else payloads[0] + Flatten(payloads[1..])
  }

  /** A run of chunk events carries exactly its payloads, in order, and the
      format of its first chunk. */
  lemma {:induction false} ChunksCarryPayloads(f: Format, payloads: seq<seq<byte>>)
    ensures NoStop(Chunks(f, payloads))
    ensures ChunkAudio(Chunks(f, payloads)) == Flatten(payloads)
    ensures FirstChunkFormat(Chunks(f, payloads)) == (if |payloads| == 0 then None else Some(f))
    ensures DescribeCount(Chunks(f, payloads)) == 0
    decreases |payloads|
  {
    if |payloads| > 0 {
      ChunksCarryPayloads(f, payloads[1..]);
      assert Chunks(f, payloads)[1..] == Chunks(f, payloads[1..]);
    }
  }

  /** The events the integration test's client sends before its stop:
      Describe, Transcribe naming a model, AudioStart, then the chunks. */
  function TestPrefix(f: Format, name: string, payloads: seq<seq<byte>>): seq<Event>
  {
    [Describe, Transcribe(Some(name), None), AudioStart(f)] + Chunks(f, payloads)
  }

  /** What the integration test's prefix carries: one Describe, no stop, and
      exactly the chunks' format and payloads. */
  lemma TestPrefixContents(f: Format, name: string, payloads: seq<seq<byte>>)
    requires 0 < |payloads|
    ensures var pre := TestPrefix(f, name, payloads);
            && NoStop(pre)
            && DescribeCount(pre) == 1
            && FirstChunkFormat(pre) == Some(f)
            && ChunkAudio(pre) == Flatten(payloads)
  {
    var chunks := Chunks(f, payloads);
    var pre := TestPrefix(f, name, payloads);
    ChunksCarryPayloads(f, payloads);
    var p1 := pre[1..];
    var p2 := p1[1..];
    assert pre[0] == Describe && p1[0] == Transcribe(Some(name), None) && p2[0] == AudioStart(f);
    assert p2[1..] == chunks;
    assert NoStop(pre) by {
      assert forall i :: 3 <= i < |pre| ==> pre[i] == chunks[i - 3];
    }
    assert DescribeCount(p2) == 0 && FirstChunkFormat(p2) == Some(f) && ChunkAudio(p2) == Flatten(payloads);
    assert DescribeCount(p1) == 0 && FirstChunkFormat(p1) == Some(f) && ChunkAudio(p1) == Flatten(payloads);
  }

  /** The client exchange of the integration test: Describe, Transcribe naming
      a model, AudioStart, the recording's chunks, AudioStop. The client gets
      the info event and then one transcript of exactly the streamed audio, in
      the chunks' format; the Transcribe and AudioStart events play no part. */
  lemma TestExchange(info: Info, f: Format, name: string, payloads: seq<seq<byte>>, events: seq<Event>, recognize: Request -> string)
    requires 0 < |payloads| && |events| == |payloads| + 4
    requires events[0] == Describe && events[1] == Transcribe(Some(name), None) && events[2] == AudioStart(f)
    requires forall i :: 0 <= i < |payloads| ==> events[i + 3] == AudioChunk(f, payloads[i])
    requires events[|events| - 1] == AudioStop
    ensures var s := Run(New(info), events, recognize);
            && s.status == Finished
            && s.calls == [Request(f, Flatten(payloads))]
            && s.replies == [InfoReply(info), Transcript(recognize(Request(f, Flatten(payloads))))]
  {
    var pre := TestPrefix(f, name, payloads);
    assert events == pre + [AudioStop] by {
      assert forall i :: 3 <= i < |pre| ==> pre[i] == Chunks(f, payloads)[i - 3];
    }
    TestPrefixContents(f, name, payloads);
    SingleDescribeUtterance(info, pre, f, Flatten(payloads), recognize);
  }

  /** An utterance from a new handler whose prefix holds one Describe and at
      least one chunk: the info reply, then the one transcript. */
  lemma SingleDescribeUtterance(info: Info, pre: seq<Event>, f: Format, audio: seq<byte>, recognize: Request -> string)
    requires NoStop(pre) && DescribeCount(pre) == 1
    requires FirstChunkFormat(pre) == Some(f) && ChunkAudio(pre) == audio
    ensures var s := Run(New(info), pre + [AudioStop], recognize);
            && s.status == Finished
            && s.calls == [Request(f, audio)]
            && s.replies == [InfoReply(info), Transcript(recognize(Request(f, audio)))]
  {
    FreshUtterance(info, pre, [], recognize);
    assert pre + [AudioStop] + [] == pre + [AudioStop];
    assert InfoReplies(1, info) == [InfoReply(info)];
  }
}
