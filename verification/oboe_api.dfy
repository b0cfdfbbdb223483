/**
 The vocabulary this bridge shares with the Oboe audio library. The library
 itself (stream builders, device negotiation, the real-time thread) is not
 modelled: every answer it gives enters the model as a parameter of these
 types.
 */
module OboeApi {

  /** The outcome of `openStream`, `requestStart` or `requestStop`. Only the
      distinction between OK and any error matters to the code; the error
      code is carried along but never inspected. */
  datatype Result = Ok | Error(code: int)

  /** What a data callback tells the stream to do after this buffer. */
  datatype DataCallbackResult = Continue | Stop

  /** A request the bridge makes to the library, recorded in the order made,
      so that short-circuiting ("start is never attempted after a failed
      open") can be stated about the trace. */
  datatype Request = OpenStream | RequestStart | RequestStop

  /** A value that may be absent, such as a function pointer not yet set. */
  datatype Option<T> = None | Some(value: T)
}
