# cbc: episode discovery and stream resolution, modelled in Dafny

The program takes the URL of a show page on ici.radio-canada.ca and works in stages:

- It lists the show's episode pages: the non-empty `href` of each `.medianet-content` element, in document order.
- It reads the player configuration embedded in the first `.audio-video-console` element of an episode page, in the `data-console-info` attribute, as JSON.
- It asks the Radio-Canada validation endpoint for the stream URL of the configuration's `idMedia`.
- It hands at most one download job, for the first episode, to the m3u8 download engine.

A second, unused path (`toutTv`) fetches a tou.tv presentation. It walks the items of the first lineup named `"single"` and prints each one's id, which is its `Key` without the first six characters.

All of this logic lives in `main.go`. The model makes every stage a pure function of an environment `Web.Env` that supplies:

- `web`: one GET of a URL, giving a response (status code and body), or `None` when the request itself fails. This stands for `http.Get` and `query`.
- `parseHtml`: goquery's document parser. A document is the sequence of its elements in document order, each with its classes and attributes. A class selector is a filter over that sequence (`Html.Find`).
- `decodeEpisode`, `decodeValidation`, `decodePresentation`: the `encoding/json` decoders. They are uninterpreted partial functions that return `Option` records holding only the fields the program reads. Where a property needs the library fact that decoding empty input fails, `Web.RejectsEmpty` states it as a hypothesis.

Errors are a `Result`. The causes are `NetworkError`, `StatusError(code)`, `ParseError` and `DecodeError`.

Modules:

- `Wrappers`: Option and Result.
- `Html`: documents, `Attr` and `Find`.
- `Payloads`: the JSON records.
- `Web`: responses, errors, the environment, and the GET plus status check shared by all fetchers.
- `Episodes`: `listRCCEpisodesFromURL`.
- `Resolver`: `rccMediaURL`.
- `Metadata`: `downloadRCCShowURL`.
- `Orchestrator`: the loop in `main`.
- `Presentation`: `toutTv` and `presQuery`.

Go strings are byte sequences. In the model each `char` stands for one byte, and every literal in the source is ASCII.

## Behaviour worth noting

- Only the first discovered episode is processed: the loop in `main` breaks after its first iteration, under the comment `// TODO: set filename and not break` (main.go:59).
- A failed resolution is only logged, and the job is still queued with the empty URL the failed call returned. See Findings.
- The validation reply's `errorCode` is never read. Any reply that decodes yields its `url`, even an empty one (main.go:105-110).
- A missing console element, or a missing `data-console-info` attribute, is not reported as such. The attribute reads as `""`, and decoding `""` fails (main.go:84-90).
- An empty `idMedia` is not rejected. It is sent to the validation endpoint as is (main.go:92).
- An iPhone `User-Agent` header is set only by `query`, on the tou.tv path (main.go:181). The validation request uses plain `http.Get` (main.go:97). Headers are not modelled.

## Model

| member | source | states |
|---|---|---|
| Html.Attr | main.go:134 | an attribute reads as its value, or as "" when the element lacks it (the "present" flag is discarded) |
| Html.Find | main.go:132 | selecting a class keeps exactly the elements carrying it; the selection is empty iff no element carries the class, and its head is the first element that does |
| Html.FindConcat | main.go:132 | selection follows document order: selecting from a concatenation concatenates the selections |
| Web.Get | main.go:114-121 | the GET and status check shared by all four fetchers: a failed request is a network error, a status other than 200 a status error carrying the code, and only a 200 response hands its body on |
| Episodes.Hrefs | main.go:134-137 | every kept link is non-empty, and every element with a non-empty `href` contributes its value |
| Episodes.ExtractLinks | main.go:129-139 | every link is the non-empty `href` of a marker element of the page, and every marker element's non-empty `href` is a link; order and count are carried by ExtractLinksEnumerates, EnumerationIsExtractLinks and LinkCount |
| Episodes.ExtractLinksEnumerates | main.go:129-139 | discovery returns the `href` values of the marker elements with a non-empty `href`, one per such element, in increasing document position |
| Episodes.EnumerationIsExtractLinks | main.go:129-139 | conversely, any list given by an in-order enumeration of those positions is the discovery result, so the characterisation is exact |
| Episodes.LinkCount | main.go:129-139 | the number of links equals the number of marker elements with a non-empty `href` |
| Episodes.NoMarkersNoLinks | main.go:129-139 | a page without marker elements yields the empty list |
| Episodes.ExtractLinksConcat | main.go:132-138 | links of earlier content precede links of later content |
| Episodes.CollectHrefs | main.go:132-138 | the element-by-element append loop over a selection computes exactly its non-empty `href` values, in order |
| Episodes.CollectLinks | main.go:129-139 | selecting the markers and running that loop computes the discovery result, with one link per marker element having a non-empty `href` |
| Episodes.ListEpisodes | main.go:113-140 | a failed request is a network error, a status other than 200 a status error carrying it, an unparsable 200 body a parse error, and a parsed page gives its links; the independence from the parser is ListEpisodesStatusError |
| Episodes.ListEpisodesStatusError | main.go:113-121 | a status other than 200 gives a status error and no links, whatever the parser would do, so nothing is parsed |
| Episodes.ListEpisodesSuccess | main.go:123-139 | on status 200 and a parsed page the result is the page's links, and an empty list (not an error) when there are no markers |
| Metadata.ConsoleInfo | main.go:84-85 | the configuration text is the attribute of the first console element, or "" when there is no console element or the attribute is missing |
| Metadata.OnlyFirstConsoleConsulted | main.go:84 | content after a console element, including further console elements, never changes the configuration text |
| Metadata.DownloadShow | main.go:67-93 | a failed request is a network error, a status other than 200 a status error, an unparsable page a parse error, an undecodable configuration text a decode error; otherwise the result is the resolution of the decoded `idMedia`; the missing-console case is MissingConsoleIsDecodeError |
| Metadata.DownloadShowStatusError | main.go:71-78 | a status other than 200 on the episode page is a status error, independent of every parser and decoder |
| Metadata.MissingConsoleIsDecodeError | main.go:84-92 | with the console element or its attribute missing, decoding "" fails, the result is a decode error, and the validation endpoint is never asked |
| Metadata.DecodedIdIsResolved | main.go:87-92 | once the configuration decodes, the result is the resolution of its `idMedia`, with no check that it is non-empty |
| Resolver.ValidationURL | main.go:96 | the query is the fixed endpoint and profile prefix followed by the identifier, unescaped, as a suffix |
| Resolver.MediaIdRoundTrip | main.go:96 | the identifier can be read back from its query |
| Resolver.ValidationURLOfMediaId | main.go:96 | a validation query is the query of the identifier read back from it, so it depends on the identifier alone |
| Resolver.ValidationURLInjective | main.go:96 | distinct identifiers give distinct queries |
| Resolver.RccMediaURL | main.go:95-111 | a failed request is a network error, a status other than 200 a status error, an undecodable 200 reply a decode error, and a decoded reply gives its `url` unchanged; the independence from the error code is ErrorCodeNotConsulted |
| Resolver.RccNetworkError | main.go:97-100 | a failed request is a network error |
| Resolver.RccStatusError | main.go:97-104 | a status other than 200 is a status error, and the reply is never decoded |
| Resolver.RccDecodeError | main.go:105-109 | a 200 reply that does not decode, or has an empty body, is a decode error |
| Resolver.RccReturnsDecodedURL | main.go:105-110 | a 200 reply that decodes yields its `url` field unchanged, even when it is empty |
| Resolver.ErrorCodeNotConsulted | main.go:105-110 | rewriting the error code of every decoded reply never changes the result |
| Orchestrator.EpisodeJob | main.go:52-57 | the job is a list download of exactly the given URL into ".", named "test", with the converter enabled |
| Orchestrator.RunShow | main.go:34-61 | a discovery failure is fatal; otherwise at most one job is queued, none for an empty listing, and only for the first URL: a list download into "." named "test" with the converter enabled, carrying the resolved URL or "" |
| Orchestrator.FailedResolutionStillQueued | main.go:47-58 | when resolving the first episode fails, a job with the empty URL is queued anyway |
| Orchestrator.FirstEpisodeStreamQueued | main.go:47-58 | when every stage succeeds, the one queued job carries the validation reply's `url` |
| Orchestrator.RunShowResolvedOnly | main.go:47-58 | corrected loop: every queued job carries a URL the resolver produced, and nothing is queued when resolution fails |
| Orchestrator.ResolvedOnlyAgreesOnSuccess | main.go:47-58 | the corrected run differs from the run as written exactly when the first episode fails to resolve |
| Presentation.PresQuery | main.go:187-189 | the presentation request is the fixed prefix, the show key verbatim, then the fixed query suffix |
| Presentation.ShowKeyRoundTrip | main.go:187-189 | the show key can be read back from its request |
| Presentation.PresQueryOfShowKey | main.go:187-189 | a presentation request is the request of the key read back from it |
| Presentation.FirstNamed | main.go:159-171 | the lineup chosen is the first one named "single", and none is chosen exactly when no lineup has that name |
| Presentation.WalkItems | main.go:161-169 | each listed item keeps its position, title and template, and its id is the key without its first six characters; the walk panics exactly when some key is shorter than six, stopping at the first such item |
| Presentation.TouTv | main.go:142-174 | a failed request is a network error and a status other than 200 a status error; a result means the presentation decoded, and it is the walk of the first "single" lineup, or nothing printed when there is none |
| Presentation.OnlyFirstSingleWalked | main.go:159-171 | only the items of the first "single" lineup are walked |
| Presentation.TouTvStatusError | main.go:143-154 | a status other than 200 ends the run before anything is decoded |
| Presentation.TouTvWithoutSingle | main.go:155-172 | an undecodable presentation is fatal, and one without a "single" lineup prints nothing |

## Findings

| source | as written | input that shows it | evidently intended | confidence | as-written member | corrected member |
|---|---|---|---|---|---|---|
| main.go:47-58 | when `downloadRCCShowURL` fails, the error is only logged, and a job is still sent to the download engine with URL "" | a show page listing one episode whose page answers 404 | an episode whose resolution failed is not handed to the engine; the correction covers failed resolutions only, and a reply that decodes with an empty `url` still yields a job with URL "" | medium, not executed | Orchestrator.FailedResolutionStillQueued | Orchestrator.RunShowResolvedOnly |

## Left out

- Network I/O (`http.Get`, `http.NewRequest`, request headers, closing bodies): replaced by the `web` parameter of the environment.
- HTML parsing and CSS selector matching (goquery): replaced by `parseHtml` and a class filter over a flat element sequence. Nesting and selectors other than a single class are not modelled.
- JSON decoding internals (`encoding/json`): decoders are uninterpreted parameters. Record fields the program never reads are not modelled, including the float64 lengths.
- The m3u8 download engine (`LaunchWorkers`, `DlChan`, `m3u8.Debug`), the wait group, the one-minute sleep and closing the channel: concurrency and an external component. Submission is modelled as the returned sequence of queued jobs.
- Logging, printing, `os.Exit`, `log.Fatal`, the `Debug` flag and the command-line argument check: side effects. A fatal stop is modelled as a `Fatal` run or a `Failure` result.
- `query`'s `log.Fatal` when a request cannot be built: request construction is part of the `web` parameter.
- Lines printed by `toutTv` before a panic: the model records the rows up to the item whose key is too short, and a `panicked` flag.
- The empty `if ep.Template == "media"` branch in `toutTv`: it does nothing.
