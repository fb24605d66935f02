/** Result types shared by the model: an optional value, a computation that may throw
    an `Error` with a message, and the value every document extractor returns. */
module Results {

  datatype Option<+T> = None | Some(value: T)

  /** `Ok(v)` on success; `Fail(message)` where the source throws `new Error(message)`. */
  datatype Outcome<+T> = Ok(value: T) | Fail(message: string)

  /** `{ text, imageCount, imageDescriptions }`, the result of every extractor. */
  datatype ExtractionResult = ExtractionResult(text: string, imageCount: nat, imageDescriptions: seq<string>)

  /** The result a document without content or images gives. */
  const EmptyResult := ExtractionResult("", 0, [])
}
