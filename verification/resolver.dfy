/** Media URL resolution (`rccMediaURL`): ask the validation endpoint for the
    stream URL of a media identifier and return the reply's `url` field. */
module Resolver {
  import opened Wrappers
  import opened Payloads
  import opened Web

  /** The validation endpoint with its fixed device profile (broadband
      connection, JSON output, multibitrate, iPad device, "medianet"
      application code); the media identifier is appended last. */
  const ValidationPrefix :=
    "https://api.radio-canada.ca/validationMedia/v1/Validation.html" +
    "?connectionType=broadband&output=json&multibitrate=true&deviceType=ipad" +
    "&appCode=medianet&idMedia="

  /** The validation query for `id`. The identifier is inserted verbatim,
      without URL escaping. */
  function ValidationURL(id: string): (url: string)
    ensures |url| == |ValidationPrefix| + |id|
    ensures url[..|ValidationPrefix|] == ValidationPrefix
    ensures url[|ValidationPrefix|..] == id
  {
    ValidationPrefix + id
  }

  /** The media identifier a validation query asks about, if `url` is one. */
  function MediaIdOf(url: string): (id: Option<string>)
    ensures id.Some? <==> |ValidationPrefix| <= |url| && url[..|ValidationPrefix|] == ValidationPrefix
    ensures id.Some? ==> |id.value| == |url| - |ValidationPrefix|
  {
    if |ValidationPrefix| <= |url| && url[..|ValidationPrefix|] == ValidationPrefix
    then Some(url[|ValidationPrefix|..])
    else None
  }

  /** The identifier can be read back from its query... */
  lemma MediaIdRoundTrip(id: string)
    ensures MediaIdOf(ValidationURL(id)) == Some(id)
  {
  }

  /** ...and every validation query is the query of the identifier read back
      from it, so the query depends on the identifier alone. */
  lemma ValidationURLOfMediaId(url: string, id: string)
    requires MediaIdOf(url) == Some(id)
    ensures ValidationURL(id) == url
  {
    assert url == url[..|ValidationPrefix|] + url[|ValidationPrefix|..];
  }

  /** Distinct identifiers give distinct queries. */
  lemma ValidationURLInjective(a: string, b: string)
    requires ValidationURL(a) == ValidationURL(b)
    ensures a == b
  {
    MediaIdRoundTrip(a);
    MediaIdRoundTrip(b);
  }

  /** `rccMediaURL`: fetch the validation query, check the status, decode the
      reply and return its `url`. The reply's error code is not consulted. */
  function RccMediaURL(env: Env, id: string): (r: Result<string, Error>)
    ensures env.web(ValidationURL(id)).None? ==> r == Failure(NetworkError)
    ensures env.web(ValidationURL(id)).Some? && env.web(ValidationURL(id)).value.status != 200 ==>
              r == Failure(StatusError(env.web(ValidationURL(id)).value.status))
    ensures env.web(ValidationURL(id)).Some? && env.web(ValidationURL(id)).value.status == 200 ==>
              var reply := env.decodeValidation(env.web(ValidationURL(id)).value.body);
              && (reply.None? ==> r == Failure(DecodeError))
              && (reply.Some? ==> r == Success(reply.value.url))
  {
    var body :- Get(env, ValidationURL(id));
    match env.decodeValidation(body)
    case None => Failure(DecodeError)
    case Some(reply) => Success(reply.url)
  }

  /** A status other than 200 is an error carrying that status, and the body
      is never decoded: any decoder gives the same answer. */
  lemma RccStatusError(env: Env, other: Env, id: string, res: Response)
    requires env.web(ValidationURL(id)) == Some(res) && res.status != 200
    ensures RccMediaURL(env, id) == Failure(StatusError(res.status))
    ensures RccMediaURL(other.(web := env.web), id) == RccMediaURL(env, id)
  {
  }

  /** A failed request is a network error. */
  lemma RccNetworkError(env: Env, id: string)
    requires env.web(ValidationURL(id)).None?
    ensures RccMediaURL(env, id) == Failure(NetworkError)
  {
  }

  /** A 200 reply that does not decode is a decode error; so is an empty body. */
  lemma RccDecodeError(env: Env, id: string, res: Response)
    requires env.web(ValidationURL(id)) == Some(res) && res.status == 200
    requires env.decodeValidation(res.body).None? || (res.body == "" && RejectsEmpty(env))
    ensures RccMediaURL(env, id) == Failure(DecodeError)
  {
  }

  /** A 200 reply that decodes yields its `url` field unchanged, whatever the
      reply's error code, even an empty `url`. */
  lemma RccReturnsDecodedURL(env: Env, id: string, res: Response, reply: ValidationReply)
    requires env.web(ValidationURL(id)) == Some(res) && res.status == 200
    requires env.decodeValidation(res.body) == Some(reply)
    ensures RccMediaURL(env, id) == Success(reply.url)
  {
  }

  /** Every decoded reply with its error code replaced by `code`. */
  function WithErrorCode(decode: string -> Option<ValidationReply>, code: int): (d: string -> Option<ValidationReply>)
    ensures forall s :: decode(s).None? ==> d(s).None?
    ensures forall s :: decode(s).Some? ==> d(s) == Some(decode(s).value.(errorCode := code))
  {
    s => match decode(s)
         case None => None
         case Some(reply) => Some(reply.(errorCode := code))
  }

  /** The error code has no influence on the result: rewriting it in every
      reply changes nothing. */
  lemma ErrorCodeNotConsulted(env: Env, id: string, code: int)
    ensures RccMediaURL(env.(decodeValidation := WithErrorCode(env.decodeValidation, code)), id)
            == RccMediaURL(env, id)
  {
    var body := Get(env, ValidationURL(id));
    if body.Success? {
      var d := WithErrorCode(env.decodeValidation, code);
      assert d(body.value).None? <==> env.decodeValidation(body.value).None?;
    }
  }
}
