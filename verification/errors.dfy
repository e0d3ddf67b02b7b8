/** The library's error taxonomy and the failure-compatible wrappers that
    carry it. Each exception the Python code raises (its own error classes as
    well as the built-in ones that escape the core) becomes one variant. */
module Errors {
  import Url

  datatype Option<+T> = None | Some(value: T)

  datatype Error =
      /** `UnsupportedURLSchemeError(scheme)` */
    | UnsupportedURLScheme(scheme: string)
      /** `UnsupportedURLNetlocError(netloc)` */
    | UnsupportedURLNetloc(netloc: string)
      /** `NoVideoIDFoundError(url)`: a `/watch` URL without a `v` value */
    | NoVideoIDFound(url: Url.UrlParts)
      /** `VideoIDError(video_id)`: the candidate is not 11 characters long */
    | VideoIDError(videoId: string)
      /** `InitialPlayerResponseNotFoundError`: the page lacks the marker */
    | InitialPlayerResponseNotFound
      /** the decoder's error when the extracted payload is not valid JSON */
    | MalformedPlayerResponse
      /** `AttributeError`, `TypeError` or the validator's error when the
          decoded response does not have the shape the code navigates */
    | UnexpectedResponseShape
      /** `CaptionsNotFoundError` */
    | CaptionsNotFound
      /** `KeyError('start')` on a caption element without `start` */
    | MissingStart
      /** `ValueError` from `float()` on the given attribute text */
    | InvalidFloat(text: string)
      /** the XML parser's error on an unparseable caption document */
    | MalformedTranscript
      /** `httpx.HTTPError`: a request that failed after its retries or came
          back with an error status */
    | HttpError(requestUrl: string)

  datatype Result<+T> = Ok(value: T) | Err(error: Error) {

    predicate IsFailure() {
      Err?
    }

    function PropagateFailure<U>(): Result<U>
      requires Err?
    {
      Err(error)
    }

    function Extract(): T
      requires Ok?
    {
      value
    }
  }
}
