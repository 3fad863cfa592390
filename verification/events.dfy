/**
 The messages a speech-to-text session exchanges with its client: the inbound
 Wyoming events the handler dispatches on, the replies it writes back, and the
 finalised recording it hands to the recogniser.
 */
module Events {

  /** One octet of raw PCM audio. */
  newtype byte = x: int | 0 <= x < 256

  /** The audio format carried by every audio chunk: samples per second,
      bytes per sample and number of interleaved channels. */
  datatype Format = Format(rate: int, width: int, channels: int)

  datatype Option<T> = None | Some(value: T)

  /** The service descriptor, already turned into an event once at handler
      construction. Its content is built by the process bootstrap and is
      opaque to the handler. */
  datatype Info = Info(payload: string)

  /** Inbound events. `Other` stands for every event type the handler does not
      dispatch on (its type tag is kept only for the record). */
  datatype Event =
    | AudioStart(startFormat: Format)
    | AudioChunk(format: Format, audio: seq<byte>)
    | AudioStop
    | Transcribe(name: Option<string>, language: Option<string>)
    | Describe
    | Other(eventType: string)

  /** Outbound events written back to the client. */
  datatype Reply = InfoReply(info: Info) | Transcript(text: string)

  /** A finalised recording: the format fixed when the buffer was opened and
      every frame byte written to it, as the recogniser reads it back. */
  datatype Request = Request(format: Format, audio: seq<byte>)
}
