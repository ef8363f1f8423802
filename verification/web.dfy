/** The program's view of the outside world. Network access, HTML parsing and
    JSON decoding are parameters: an `Env` supplies each as a total function,
    so every operation of the model is a pure function of its `Env`. */
module Web {
  import opened Wrappers
  import opened Html
  import opened Payloads

  /** An HTTP response: its status code and its (opaque) body. */
  datatype Response = Response(status: int, body: string)

  datatype Error =
    | NetworkError          // the request itself failed (http.Get returned an error)
    | StatusError(code: int) // a status other than 200
    | ParseError            // the body could not be read as an HTML document
    | DecodeError           // the body, or an attribute, is not the expected JSON

  datatype Env = Env(
    web: string -> Option<Response>,              // None: the request failed
    parseHtml: string -> Option<Document>,
    decodeEpisode: string -> Option<EpisodeConfig>,
    decodeValidation: string -> Option<ValidationReply>,
    decodePresentation: string -> Option<Presentation>
  )

  /** The JSON decoders of Go's encoding/json reject empty input ("unexpected
      end of JSON input", or end of file for a stream decoder). */
  predicate RejectsEmpty(env: Env) {
    && env.decodeEpisode("") == None
    && env.decodeValidation("") == None
    && env.decodePresentation("") == None
  }

  /** One GET of `url` followed by the status check every fetcher performs:
      the body is handed on only for status 200. */
  function Get(env: Env, url: string): (r: Result<string, Error>)
    ensures r.Success? <==> env.web(url).Some? && env.web(url).value.status == 200
    ensures r.Success? ==> r.value == env.web(url).value.body
    ensures env.web(url).None? ==> r == Failure(NetworkError)
    ensures env.web(url).Some? && env.web(url).value.status != 200 ==>
              r == Failure(StatusError(env.web(url).value.status))
  {
    match env.web(url)
    case None => Failure(NetworkError)
    case Some(res) =>
      if res.status != 200 then Failure(StatusError(res.status))
      else Success(res.body)
  }
}
