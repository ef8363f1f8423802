/** Embedded metadata extraction (`downloadRCCShowURL`): fetch an episode
    page, read the `data-console-info` attribute of its first
    `.audio-video-console` element, decode it as JSON and resolve the
    `idMedia` it names. */
module Metadata {
  import opened Wrappers
  import opened Html
  import opened Payloads
  import opened Web
  import Resolver

  const AudioVideoConsole := "audio-video-console"
  const ConsoleInfoAttr := "data-console-info"

  /** The configuration text of the page: the attribute of the first console
      element, "" when there is no such element or it lacks the attribute. */
  function ConsoleInfo(doc: Document): (val: string)
    ensures (forall i | 0 <= i < |doc| :: AudioVideoConsole !in doc[i].classes) ==> val == ""
    ensures forall i | FirstWith(doc, AudioVideoConsole, i) :: val == Attr(doc[i], ConsoleInfoAttr)
  {
    var sel := Find(doc, AudioVideoConsole);
    if |sel| == 0 then "" else Attr(sel[0], ConsoleInfoAttr)
  }

  /** Console elements after the first are ignored: content appended after a
      console element never changes the configuration text. */
  lemma OnlyFirstConsoleConsulted(a: Document, b: Document)
    requires exists i :: 0 <= i < |a| && AudioVideoConsole in a[i].classes
    ensures ConsoleInfo(a + b) == ConsoleInfo(a)
  {
    FindConcat(a, b, AudioVideoConsole);
  }

  /** `downloadRCCShowURL`: fetch and check the episode page, parse it, decode
      its configuration text and resolve the media identifier found there. */
  function DownloadShow(env: Env, u: string): (r: Result<string, Error>)
    ensures env.web(u).None? ==> r == Failure(NetworkError)
    ensures env.web(u).Some? && env.web(u).value.status != 200 ==>
              r == Failure(StatusError(env.web(u).value.status))
    ensures env.web(u).Some? && env.web(u).value.status == 200 ==>
              var page := env.parseHtml(env.web(u).value.body);
              && (page.None? ==> r == Failure(ParseError))
              && (page.Some? && env.decodeEpisode(ConsoleInfo(page.value)).None? ==>
                    r == Failure(DecodeError))
              && (page.Some? && env.decodeEpisode(ConsoleInfo(page.value)).Some? ==>
                    r == Resolver.RccMediaURL(env, env.decodeEpisode(ConsoleInfo(page.value)).value.idMedia))
  {
    var body :- Get(env, u);
    match env.parseHtml(body)
    case None => Failure(ParseError)
    case Some(doc) =>
      match env.decodeEpisode(ConsoleInfo(doc))
      case None => Failure(DecodeError)
      case Some(config) => Resolver.RccMediaURL(env, config.idMedia)
  }

  /** A status other than 200 is an error carrying that status; nothing is
      parsed, decoded or resolved, so parsers and decoders do not matter. */
  lemma DownloadShowStatusError(env: Env, other: Env, u: string, res: Response)
    requires env.web(u) == Some(res) && res.status != 200
    ensures DownloadShow(env, u) == Failure(StatusError(res.status))
    ensures DownloadShow(other.(web := env.web), u) == DownloadShow(env, u)
  {
  }

  /** When the first console element is missing or has no configuration
      text, decoding "" fails: the result is a decode error, and the
      validation endpoint is never asked (any network that answers the
      episode page the same way gives the same result). */
  lemma MissingConsoleIsDecodeError(env: Env, u: string, doc: Document,
                                    web': string -> Option<Response>)
    requires RejectsEmpty(env)
    requires env.web(u).Some? && env.web(u).value.status == 200
    requires env.parseHtml(env.web(u).value.body) == Some(doc)
    requires forall i | FirstWith(doc, AudioVideoConsole, i) :: Attr(doc[i], ConsoleInfoAttr) == ""
    requires web'(u) == env.web(u)
    ensures DownloadShow(env, u) == Failure(DecodeError)
    ensures DownloadShow(env.(web := web'), u) == Failure(DecodeError)
  {
    FirstConsoleExists(doc);
  }

  /** Either no element is a console element, or one of them is the first. */
  lemma FirstConsoleExists(doc: Document)
    ensures (forall i | 0 <= i < |doc| :: AudioVideoConsole !in doc[i].classes)
            || exists i :: FirstWith(doc, AudioVideoConsole, i)
  {
    if |doc| > 0 {
      FirstConsoleExists(doc[1..]);
      if AudioVideoConsole !in doc[0].classes {
        if exists i :: FirstWith(doc[1..], AudioVideoConsole, i) {
          var i :| FirstWith(doc[1..], AudioVideoConsole, i);
          assert FirstWith(doc, AudioVideoConsole, i + 1);
        }
      } else {
        assert FirstWith(doc, AudioVideoConsole, 0);
      }
    }
  }

  /** Once the configuration decodes, the result is exactly the resolution
      of its `idMedia`, empty or not: the identifier is not checked. */
  lemma DecodedIdIsResolved(env: Env, u: string, doc: Document, config: EpisodeConfig)
    requires env.web(u).Some? && env.web(u).value.status == 200
    requires env.parseHtml(env.web(u).value.body) == Some(doc)
    requires env.decodeEpisode(ConsoleInfo(doc)) == Some(config)
    ensures DownloadShow(env, u) == Resolver.RccMediaURL(env, config.idMedia)
  {
  }
}
